/**
 What a Secure verdict settles. A positive one comes with an anchored record for the question; a
 negative one is a denial of the last response's own question, which the code does not compare
 with the question that was asked.
 */
module Answers {
  import opened Collections
  import opened Names
  import opened Records
  import opened CanonicalOrder
  import opened Verifier
  import opened ReorderBuffer
  import opened Authenticator
  import opened ChainOfTrust
  import opened Downgrade
  import opened DenialExactness
  import DenialSoundness
  import Nsec
  import Nsec3

  /** The zone has no data for the question: no such owner, or none with the type or a CNAME. */
  ghost predicate NoDataByNsec(z: Nsec.NsecZone, q: Question) {
    !z.IsOwner(q.name) ||
    exists i :: 0 <= i < |z.owners| == |z.types| && OctetOrder(z.owners[i], q.name) == 0
      && q.qtype !in z.types[i] && TYPE_CNAME !in z.types[i]
  }

  ghost predicate NoDataByNsec3(z: Nsec3.Nsec3Zone, q: Question) {
    var n := Canonical(q.name);
    n in z.names ==> n in z.types && q.qtype !in z.types[n] && TYPE_CNAME !in z.types[n]
  }

  /** Over genuine records a response that ends in a denial has none for its own question. */
  lemma DenialIsRight(cfg: Config, r: ChainResult, z: Nsec.NsecZone, z3: Nsec3.Nsec3Zone)
    requires DeniedQuestion(cfg, r) && Genuine(cfg, r, z, z3) && z.Faithful() && FaithfulName(r.msg.question.name)
    ensures r.doe == NsecNoData || r.doe == NsecNxDomain ==> NoDataByNsec(z, r.msg.question)
    ensures r.doe == Nsec3NoData || r.doe == Nsec3NxDomain ==> NoDataByNsec3(z3, r.msg.question)
  {
    var o, zone, nsec, nsec3, q := cfg.oracle, r.zone.name, NsecsFrom(r.authority), Nsec3sFrom(r.authority), r.msg.question;
    CanonicalIdempotent(z.apex);
    CanonicalIdempotent(z3.apex);
    if r.doe == NsecNoData {
      DenialSoundness.NsecNoDataIsSound(z, o, zone, nsec, nsec3, q);
      var i :| 0 <= i < |z.owners| && NamesEqual(z.owners[i], q.name) && q.qtype !in z.types[i] && TYPE_CNAME !in z.types[i];
      EqualNamesOnTheWire(z.owners[i], q.name);
      OctetOrderIsTotalPreorder(z.owners[i], q.name, q.name);
    } else if r.doe == NsecNxDomain {
      DenialSoundness.NsecNxDomainIsSound(z, o, zone, nsec, nsec3, q);
    } else if r.doe == Nsec3NoData {
      DenialSoundness.Nsec3NoDataIsSound(z3, o, zone, nsec, nsec3, q);
    } else if r.doe == Nsec3NxDomain {
      DenialSoundness.Nsec3NxDomainIsSound(z3, o, zone, nsec, nsec3, q);
    }
  }

  /** A Secure denial of the question that was asked is right, over genuine records. */
  lemma SecureDenialIsRight(cfg: Config, q: Question, results: seq<ChainResult>, z: Nsec.NsecZone, z3: Nsec3.Nsec3Zone)
    requires EndsInDenial(cfg, results) && results[|results| - 1].msg.question == q
    requires Genuine(cfg, results[|results| - 1], z, z3) && z.Faithful() && FaithfulName(q.name)
    ensures NoDataByNsec(z, q) || NoDataByNsec3(z3, q)
  {
    DenialIsRight(cfg, results[|results| - 1], z, z3);
  }

  /**
   The accepted records prove that there is nothing for a question, whichever was asked, if and only
   if they cover its name or list it without the type (for NSEC3: cover a name on the way to it, or
   match it without the type).
   */
  lemma DenialProvesQuestionIff(cfg: Config, q: Question, results: seq<ChainResult>, z: Nsec.NsecZone, z3: Nsec3.Nsec3Zone)
    requires EndsInDenial(cfg, results) && Genuine(cfg, results[|results| - 1], z, z3) && z.Faithful()
    requires FaithfulName(q.name) && IsProperSubDomain(results[|results| - 1].zone.name, q.name)
    ensures var r := results[|results| - 1];
      && (Denied(z.apex, NsecsFrom(r.authority), q.name, q.qtype) <==> NsecDenies(r.zone.name, NsecsFrom(r.authority), q.name, q.qtype))
      && (Denied3(z3.apex, z3.hash, Nsec3sFrom(r.authority), Canonical(q.name), q.qtype) <==>
          Nsec3Denies(z3.apex, z3.hash, Nsec3sFrom(r.authority), Canonical(q.name), q.qtype))
  {
    var r := results[|results| - 1];
    CanonicalIdempotent(z.apex);
    CanonicalIdempotent(z3.apex);
    CanonicalIdempotent(q.name);
    BelowApex(z, q.name);
    NsecDeniesIff(z, r.zone.name, NsecsFrom(r.authority), q.name, q.qtype);
    Nsec3DeniesIff(z3, Nsec3sFrom(r.authority), Canonical(q.name), q.qtype);
  }

  /** But the verdict is Secure for whatever question was asked. */
  lemma DenialSettlesAnyQuestion(r: ChainResult, q: Question)
    requires r.state == Secure && r.doe in {NsecNoData, Nsec3NoData, NsecNxDomain, Nsec3NxDomain}
    ensures Verdict(q, [r]).auth == Secure
  {
    assert FirstNotSecure([r]) == 1 && FirstBogus([r]) == 1;
  }
}
