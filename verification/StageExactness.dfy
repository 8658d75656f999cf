/**
 Which responses the staged verification accepts, from the records alone and in both directions.

 A response is Secure exactly when its signatures pass and it is a positive answer whose wildcard
 expansion, if any, is proved; or a referral with DS records or a proof that there are none; or a
 denial of its question.
 */
module StageExactness {
  import opened Collections
  import opened Names
  import opened Records
  import opened Signatures
  import opened Verifier
  import Nsec
  import Nsec3

  // ---------------------------------------------------------------- the signature stages

  /** The signatures of a section: made by these keys, counted, and exactly one per RRSIG. */
  ghost predicate Checked(cfg: Config, zone: Name, rrs: seq<RR>, keys: seq<RR>, section: Section, sigs: seq<Signature>) {
    sigs == SignaturesFor(cfg.oracle, cfg.now, zone, rrs, keys) && CountError(rrs, sigs, section).None?
  }

  function ZoneKeys(zone: Zone): seq<RR> {
    if zone.dnskeys.Keys? then DnskeysOf(zone.dnskeys.records) else []
  }

  /** Some DS record designates a key that the zone offers. */
  ghost predicate HasDesignatedKey(cfg: Config, zone: Zone, ds: seq<RR>) {
    exists d, k :: d in ds && k in ZoneKeys(zone) && Designates(cfg.oracle, d, k)
  }

  /** The result of a response after both signature stages. */
  function Passed(cfg: Config, zone: Zone, msg: Msg, ds: seq<RR>): ChainResult
    requires zone.dnskeys.Keys?
  {
    var keys := ZoneKeys(zone);
    var ksks := KeySigningKeys(cfg.oracle, ds, keys);
    Blank(zone, msg).(keys := SignaturesFor(cfg.oracle, cfg.now, zone.name, zone.dnskeys.records, ksks),
                      answer := SignaturesFor(cfg.oracle, cfg.now, zone.name, msg.answer, keys),
                      authority := SignaturesFor(cfg.oracle, cfg.now, zone.name, msg.ns, keys))
  }

  /** A designated key, and accepted signatures over the keys and over both sections. */
  ghost predicate SignaturesPass(cfg: Config, zone: Zone, msg: Msg, ds: seq<RR>) {
    && zone.dnskeys.Keys? && HasDesignatedKey(cfg, zone, ds)
    && var r := Passed(cfg, zone, msg, ds);
    && CountError(zone.dnskeys.records, r.keys, AnswerSection).None? && Accepted(cfg.requireAll, r.keys)
    && CountError(msg.answer, r.answer, AnswerSection).None? && CountError(msg.ns, r.authority, AuthoritySection).None?
    && Accepted(cfg.requireAll, r.answer + r.authority)
  }

  lemma {:induction false} DesignatedIff(o: Oracle, ds: seq<RR>, keys: seq<RR>)
    ensures KeySigningKeys(o, ds, keys) != [] <==> exists d, k :: d in ds && k in keys && Designates(o, d, k)
  {
    var r := KeySigningKeys(o, ds, keys);
    if r != [] {
      assert r[0] in r;
    }
  }

  lemma PassedIsWellFormed(cfg: Config, zone: Zone, msg: Msg, ds: seq<RR>)
    requires zone.dnskeys.Keys?
    ensures forall s :: s in Passed(cfg, zone, msg, ds).answer ==> WellFormed(s)
  {
    var answer, rrsigs := Passed(cfg, zone, msg, ds).answer, RrsigsOf(msg.answer);
    forall s | s in answer
      ensures WellFormed(s)
    {
      var i :| 0 <= i < |answer| && answer[i] == s;
      assert rrsigs[i] in rrsigs;
    }
  }

  /** What becomes of a response before it is classified. */
  lemma SignatureStages(cfg: Config, zone: Zone, msg: Msg, ds: seq<RR>)
    ensures var st := VerifyStage(cfg, zone, msg, ds);
      && (st.status == Insecure <==> ds == [] || (zone.dnskeys.Keys? && !HasDesignatedKey(cfg, zone, ds)))
      && (st.status == Secure ==> SignaturesPass(cfg, zone, msg, ds))
    ensures SignaturesPass(cfg, zone, msg, ds) ==>
      var r := Passed(cfg, zone, msg, ds);
      (forall s :: s in r.answer ==> WellFormed(s)) && VerifyStage(cfg, zone, msg, ds) == ClassifyStage(cfg, r)
  {
    if zone.dnskeys.Keys? {
      DesignatedIff(cfg.oracle, ds, ZoneKeys(zone));
      PassedIsWellFormed(cfg, zone, msg, ds);
      ClassifiedStatus(cfg, Passed(cfg, zone, msg, ds));
      var s1 := DnskeyStage(cfg, Blank(zone, msg), zone.dnskeys.records, ds);
      if s1.status == Unknown {
        assert s1.r == Blank(zone, msg).(keys := Passed(cfg, zone, msg, ds).keys);
        assert RrsetStage(cfg, s1.r, ZoneKeys(zone)).status == Unknown ==>
          RrsetStage(cfg, s1.r, ZoneKeys(zone)).r == Passed(cfg, zone, msg, ds);
      }
    }
  }

  lemma ClassifiedStatus(cfg: Config, r: ChainResult)
    requires forall s :: s in r.answer ==> WellFormed(s)
    ensures ClassifyStage(cfg, r).status in {Secure, Bogus}
  {
  }

  // ---------------------------------------------------------------- positive responses

  /** Which of the two proofs shows that the wildcard was rightly expanded. */
  ghost predicate ExpansionProved(cfg: Config, r: ChainResult, rrsig: RR, doe: Doe) {
    && rrsig.data.SigData?
    && match doe
       case Nsec3Wildcard =>
         Nsec3.ExpandedWildcardProof(cfg.oracle, Nsec3sFrom(r.authority), rrsig.owner, rrsig.data.labels)
       case NsecWildcard =>
         && Nsec.ExpandedWildcardProof(r.zone.name, NsecsFrom(r.authority), r.msg.question.name)
         && (Nsec3sFrom(r.authority) != [] ==> rrsig.data.labels > 0)
         && !Nsec3.ExpandedWildcardProof(cfg.oracle, Nsec3sFrom(r.authority), rrsig.owner, rrsig.data.labels)
       case _ => false
  }

  /** The only RRSIG record of the answer that expands a wildcard is the one at `i`. */
  ghost predicate OnlyExpansion(cfg: Config, r: ChainResult, i: nat) {
    var rrsigs := RrsigsOf(r.msg.answer);
    i < |rrsigs| && forall j :: 0 <= j < |rrsigs| ==> (Expands(r.zone.name, cfg.now, rrsigs[j]) <==> j == i)
  }

  ghost predicate NoExpansion(cfg: Config, r: ChainResult) {
    forall rrsig :: rrsig in RrsigsOf(r.msg.answer) ==> !Expands(r.zone.name, cfg.now, rrsig)
  }

  lemma MarkedIff(cfg: Config, zone: Zone, msg: Msg, ds: seq<RR>, i: nat)
    requires zone.dnskeys.Keys? && i < |RrsigsOf(msg.answer)|
    ensures var s, rrsig := Passed(cfg, zone, msg, ds).answer[i], RrsigsOf(msg.answer)[i];
      && (IsWildcard(s) <==> Expands(zone.name, cfg.now, rrsig))
      && rrsig.data.SigData? && s.rrsig == rrsig && s.name == rrsig.owner
  {
    var rrsig := RrsigsOf(msg.answer)[i];
    assert rrsig in RrsigsOf(msg.answer);
    CanonicalIdempotent(zone.name);
    WildcardIff(cfg.oracle, cfg.now, Canonical(zone.name), msg.answer, ZoneKeys(zone), rrsig);
  }

  lemma PositiveWithout(cfg: Config, r: ChainResult)
    requires (forall s :: s in r.answer ==> WellFormed(s)) && forall s :: s in r.answer ==> !IsWildcard(s)
    ensures PositiveStage(cfg, r).status == Secure && PositiveStage(cfg, r).r.doe == r.doe
  {
    FilterNone(r.answer, IsWildcard);
  }

  lemma PositiveWithOne(cfg: Config, r: ChainResult, s: Signature)
    requires r.doe == NotFound && forall x :: x in r.answer ==> WellFormed(x)
    requires Filter(r.answer, IsWildcard) == [s] && s.name == s.rrsig.owner && WellFormed(s)
    ensures var st := PositiveStage(cfg, r);
      && (st.status == Secure <==> ExpansionProved(cfg, r, s.rrsig, NsecWildcard) || ExpansionProved(cfg, r, s.rrsig, Nsec3Wildcard))
      && (st.status == Secure ==> ExpansionProved(cfg, r, s.rrsig, st.r.doe))
  {
  }

  lemma PositiveWithSeveral(cfg: Config, r: ChainResult, i: nat, j: nat)
    requires forall s :: s in r.answer ==> WellFormed(s)
    requires i < j < |r.answer| && IsWildcard(r.answer[i]) && IsWildcard(r.answer[j])
    ensures PositiveStage(cfg, r).status == Bogus
  {
    FilterSeveral(r.answer, i, j, IsWildcard);
  }

  /** A wildcard in the answer is the only one, and its expansion is proved; without one there is no denial. */
  ghost predicate ExpansionsAreProved(cfg: Config, r: ChainResult) {
    var rrsigs := RrsigsOf(r.msg.answer);
    && (NoExpansion(cfg, r) ==> r.doe == NotFound)
    && forall i :: 0 <= i < |rrsigs| && Expands(r.zone.name, cfg.now, rrsigs[i]) ==>
         OnlyExpansion(cfg, r, i) && ExpansionProved(cfg, r, rrsigs[i], r.doe)
  }

  /** The expansion in the answer, if there is one, is the only one and is proved. */
  ghost predicate ExpansionsCheck(cfg: Config, r: ChainResult) {
    NoExpansion(cfg, r) || exists i: nat, doe :: OnlyExpansion(cfg, r, i) && ExpansionProved(cfg, r, RrsigsOf(r.msg.answer)[i], doe)
  }

  /** The signatures' marks are those of the RRSIG records they were made from. */
  ghost predicate Marked(cfg: Config, r: ChainResult) {
    var rrsigs := RrsigsOf(r.msg.answer);
    && |r.answer| == |rrsigs|
    && forall i :: 0 <= i < |rrsigs| ==>
         && (IsWildcard(r.answer[i]) <==> Expands(r.zone.name, cfg.now, rrsigs[i]))
         && r.answer[i].rrsig == rrsigs[i] && r.answer[i].name == rrsigs[i].owner
  }

  lemma PassedIsMarked(cfg: Config, zone: Zone, msg: Msg, ds: seq<RR>)
    requires zone.dnskeys.Keys?
    ensures Marked(cfg, Passed(cfg, zone, msg, ds))
  {
    forall i | 0 <= i < |RrsigsOf(msg.answer)|
      ensures var s, rrsig := Passed(cfg, zone, msg, ds).answer[i], RrsigsOf(msg.answer)[i];
        && (IsWildcard(s) <==> Expands(zone.name, cfg.now, rrsig))
        && s.rrsig == rrsig && s.name == rrsig.owner
    {
      MarkedIff(cfg, zone, msg, ds, i);
    }
  }

  lemma ExpandedOnce(cfg: Config, r: ChainResult, i: nat)
    requires Marked(cfg, r) && r.doe == NotFound && forall s :: s in r.answer ==> WellFormed(s)
    requires OnlyExpansion(cfg, r, i)
    ensures PositiveStage(cfg, r).status == Secure <==> exists doe :: ExpansionProved(cfg, r, RrsigsOf(r.msg.answer)[i], doe)
    ensures PositiveStage(cfg, r).status == Secure ==> ExpansionProved(cfg, r, RrsigsOf(r.msg.answer)[i], PositiveStage(cfg, r).r.doe)
  {
    FilterOnlyOne(r.answer, i, IsWildcard);
    assert r.answer[i] in r.answer;
    PositiveWithOne(cfg, r, r.answer[i]);
  }

  lemma ExpandedTwice(cfg: Config, r: ChainResult, i: nat, j: nat)
    requires Marked(cfg, r) && forall s :: s in r.answer ==> WellFormed(s)
    requires i < j < |RrsigsOf(r.msg.answer)| && Expands(r.zone.name, cfg.now, RrsigsOf(r.msg.answer)[i])
    requires Expands(r.zone.name, cfg.now, RrsigsOf(r.msg.answer)[j])
    ensures PositiveStage(cfg, r).status == Bogus && !ExpansionsCheck(cfg, r)
  {
    PositiveWithSeveral(cfg, r, i, j);
    assert RrsigsOf(r.msg.answer)[i] in RrsigsOf(r.msg.answer);
  }

  lemma NeverExpanded(cfg: Config, r: ChainResult)
    requires Marked(cfg, r) && forall s :: s in r.answer ==> WellFormed(s)
    requires NoExpansion(cfg, r)
    ensures PositiveStage(cfg, r).status == Secure && PositiveStage(cfg, r).r.doe == r.doe
  {
    forall s | s in r.answer
      ensures !IsWildcard(s)
    {
      var i :| 0 <= i < |r.answer| && r.answer[i] == s;
      assert RrsigsOf(r.msg.answer)[i] in RrsigsOf(r.msg.answer);
    }
    PositiveWithout(cfg, r);
  }

  /** No RRSIG record expands a wildcard, or only one, or there are two. */
  lemma CountExpansions(cfg: Config, r: ChainResult) returns (i: nat, j: nat)
    ensures var rrsigs := RrsigsOf(r.msg.answer);
      || NoExpansion(cfg, r) || OnlyExpansion(cfg, r, i)
      || (i < j < |rrsigs| && Expands(r.zone.name, cfg.now, rrsigs[i]) && Expands(r.zone.name, cfg.now, rrsigs[j]))
  {
    var rrsigs := RrsigsOf(r.msg.answer);
    i, j := 0, 0;
    if !NoExpansion(cfg, r) {
      var rrsig :| rrsig in rrsigs && Expands(r.zone.name, cfg.now, rrsig);
      i :| 0 <= i < |rrsigs| && rrsigs[i] == rrsig;
      if !OnlyExpansion(cfg, r, i) {
        j :| 0 <= j < |rrsigs| && j != i && Expands(r.zone.name, cfg.now, rrsigs[j]);
        i, j := if i < j then i else j, if i < j then j else i;
      }
    }
  }

  lemma PositiveByRecords(cfg: Config, r: ChainResult)
    requires Marked(cfg, r) && r.doe == NotFound && forall s :: s in r.answer ==> WellFormed(s)
    ensures PositiveStage(cfg, r).status == Secure <==> ExpansionsCheck(cfg, r)
    ensures PositiveStage(cfg, r).status == Secure ==> ExpansionsAreProved(cfg, PositiveStage(cfg, r).r)
  {
    var t := PositiveStage(cfg, r).r;
    assert t.zone == r.zone && t.msg == r.msg && t.authority == r.authority;
    SameFieldsProve(cfg, r.(doe := t.doe), t);
    var i, j := CountExpansions(cfg, r);
    if NoExpansion(cfg, r) {
      NeverExpanded(cfg, r);
    } else if OnlyExpansion(cfg, r, i) {
      ExpandedOnce(cfg, r, i);
      OnlyOnce(cfg, r, i, PositiveStage(cfg, r).r.doe);
    } else {
      ExpandedTwice(cfg, r, i, j);
    }
  }

  lemma OnlyOnce(cfg: Config, r: ChainResult, i: nat, doe: Doe)
    requires OnlyExpansion(cfg, r, i)
    ensures ExpansionsCheck(cfg, r) <==> exists d :: ExpansionProved(cfg, r, RrsigsOf(r.msg.answer)[i], d)
    ensures ExpansionProved(cfg, r, RrsigsOf(r.msg.answer)[i], doe) ==> ExpansionsAreProved(cfg, r.(doe := doe))
  {
    var rrsigs, t := RrsigsOf(r.msg.answer), r.(doe := doe);
    assert rrsigs[i] in rrsigs && Expands(r.zone.name, cfg.now, rrsigs[i]);
    ProofOfFields(cfg, r, t, rrsigs[i]);
    assert OnlyExpansion(cfg, t, i);
  }

  lemma SameFieldsProve(cfg: Config, r: ChainResult, t: ChainResult)
    requires t.zone == r.zone && t.msg == r.msg && t.authority == r.authority && t.doe == r.doe
    ensures ExpansionsAreProved(cfg, r) ==> ExpansionsAreProved(cfg, t)
  {
    if ExpansionsAreProved(cfg, r) {
      forall i | 0 <= i < |RrsigsOf(r.msg.answer)| && Expands(r.zone.name, cfg.now, RrsigsOf(r.msg.answer)[i])
        ensures OnlyExpansion(cfg, t, i) && ExpansionProved(cfg, t, RrsigsOf(r.msg.answer)[i], t.doe)
      {
        ProofOfFields(cfg, r, t, RrsigsOf(r.msg.answer)[i]);
        assert OnlyExpansion(cfg, r, i);
      }
    }
  }

  lemma ProofOfFields(cfg: Config, r: ChainResult, t: ChainResult, rrsig: RR)
    requires t.zone == r.zone && t.msg == r.msg && t.authority == r.authority
    ensures forall doe :: ExpansionProved(cfg, r, rrsig, doe) <==> ExpansionProved(cfg, t, rrsig, doe)
  {
  }

  /**
   A positive answer is Secure if and only if its signatures pass and none of its RRSIG records
   expands a wildcard, or exactly one does and the expansion is proved; the denial state names the
   proof. The records decide, not the marks on the signatures.
   */
  lemma PositiveSecureIff(cfg: Config, zone: Zone, msg: Msg, ds: seq<RR>)
    requires msg.answer != [] && !TypeExists(msg.ns, TYPE_SOA)
    ensures var st := VerifyStage(cfg, zone, msg, ds);
      && (st.status == Secure <==>
          && SignaturesPass(cfg, zone, msg, ds)
          && ExpansionsCheck(cfg, Passed(cfg, zone, msg, ds)))
      && (st.status == Secure ==> ExpansionsAreProved(cfg, st.r) && HoldsDS(st.r, msg.answer))
  {
    SignatureStages(cfg, zone, msg, ds);
    if SignaturesPass(cfg, zone, msg, ds) {
      var r := Passed(cfg, zone, msg, ds);
      GatheredIff(cfg, zone.name, msg.answer, ZoneKeys(zone), TYPE_DS);
      PositiveDS(cfg, r);
      PassedIsMarked(cfg, zone, msg, ds);
      PositiveByRecords(cfg, r);
      assert ClassifyStage(cfg, r) == PositiveStage(cfg, r);
    }
  }


  // ---------------------------------------------------------------- DS records

  /** The record is in the section, and an RRSIG record there covers its RRset. */
  ghost predicate SignedIn(rrs: seq<RR>, rr: RR) {
    rr in rrs && exists rrsig :: rrsig in RrsigsOf(rrs) && rrsig.data.typeCovered == rr.Rrtype() && rrsig.owner == rr.owner
  }

  ghost predicate SignedDS(rrs: seq<RR>, d: RR) {
    d.data.DSData? && SignedIn(rrs, d)
  }

  /** The result's DS records are the signed ones of the section. */
  ghost predicate HoldsDS(r: ChainResult, rrs: seq<RR>) {
    forall d :: d in r.dsRecords <==> SignedDS(rrs, d)
  }

  lemma PositiveDS(cfg: Config, r: ChainResult)
    requires forall s :: s in r.answer ==> WellFormed(s)
    ensures PositiveStage(cfg, r).r.dsRecords == DsOf(Gather(r.answer, TYPE_DS))
  {
  }

  /** The RRset of the signature at `i` is the one its RRSIG record names. */
  lemma CoveredSet(cfg: Config, zone: Name, rrs: seq<RR>, keys: seq<RR>, i: nat)
    requires i < |RrsigsOf(rrs)|
    ensures var s, rrsig := SignaturesFor(cfg.oracle, cfg.now, zone, rrs, keys)[i], RrsigsOf(rrs)[i];
      && rrsig.data.SigData? && s.rtype == rrsig.data.typeCovered
      && (forall x :: x in s.rrset <==> x in rrs && x.owner == rrsig.owner && x.Rrtype() == s.rtype)
  {
    assert RrsigsOf(rrs)[i] in RrsigsOf(rrs);
    WildcardIff(cfg.oracle, cfg.now, Canonical(zone), rrs, keys, RrsigsOf(rrs)[i]);
  }

  lemma GatheredIsSigned(cfg: Config, zone: Name, rrs: seq<RR>, keys: seq<RR>, t: TypeCode, rr: RR)
    requires rr in Gather(SignaturesFor(cfg.oracle, cfg.now, zone, rrs, keys), t)
    ensures rr.Rrtype() == t && SignedIn(rrs, rr)
  {
    var sigs := SignaturesFor(cfg.oracle, cfg.now, zone, rrs, keys);
    var s :| s in sigs && s.rtype == t && rr in s.rrset;
    var i :| 0 <= i < |sigs| && sigs[i] == s;
    CoveredSet(cfg, zone, rrs, keys, i);
    assert RrsigsOf(rrs)[i] in RrsigsOf(rrs);
  }

  lemma SignedIsGathered(cfg: Config, zone: Name, rrs: seq<RR>, keys: seq<RR>, rr: RR)
    requires SignedIn(rrs, rr)
    ensures rr in Gather(SignaturesFor(cfg.oracle, cfg.now, zone, rrs, keys), rr.Rrtype())
  {
    var sigs, rrsigs := SignaturesFor(cfg.oracle, cfg.now, zone, rrs, keys), RrsigsOf(rrs);
    var rrsig :| rrsig in rrsigs && rrsig.data.typeCovered == rr.Rrtype() && rrsig.owner == rr.owner;
    var i :| 0 <= i < |rrsigs| && rrsigs[i] == rrsig;
    CoveredSet(cfg, zone, rrs, keys, i);
    assert sigs[i] in sigs;
  }

  lemma GatheredIff(cfg: Config, zone: Name, rrs: seq<RR>, keys: seq<RR>, t: TypeCode)
    ensures forall rr :: rr in Gather(SignaturesFor(cfg.oracle, cfg.now, zone, rrs, keys), t) <==> rr.Rrtype() == t && SignedIn(rrs, rr)
  {
    var sigs := SignaturesFor(cfg.oracle, cfg.now, zone, rrs, keys);
    forall rr
      ensures rr in Gather(sigs, t) <==> rr.Rrtype() == t && SignedIn(rrs, rr)
    {
      if rr in Gather(sigs, t) {
        GatheredIsSigned(cfg, zone, rrs, keys, t, rr);
      }
      if rr.Rrtype() == t && SignedIn(rrs, rr) {
        SignedIsGathered(cfg, zone, rrs, keys, rr);
      }
    }
  }

  /**
   The records a denial rests on are the signed NSEC records of the authority section, and the signed
   NSEC3 records there with the one known hash algorithm and no unknown flag (section 8.1 of RFC 5155).
   */
  lemma DenialRecordsIff(cfg: Config, zone: Zone, msg: Msg, ds: seq<RR>, rr: RR)
    requires zone.dnskeys.Keys?
    ensures var r := Passed(cfg, zone, msg, ds);
      && (rr in NsecsFrom(r.authority) <==> rr.data.NsecData? && SignedIn(msg.ns, rr))
      && (rr in Nsec3sFrom(r.authority) <==>
          rr.data.Nsec3Data? && rr.data.hashAlgorithm == 1 && (rr.data.flags == 0 || rr.data.flags == 1) && SignedIn(msg.ns, rr))
  {
    var sigs := Passed(cfg, zone, msg, ds).authority;
    GatheredIff(cfg, zone.name, msg.ns, ZoneKeys(zone), TYPE_NSEC);
    GatheredIff(cfg, zone.name, msg.ns, ZoneKeys(zone), TYPE_NSEC3);
    DenialAmong(sigs, rr);
  }

  lemma DenialAmong(sigs: seq<Signature>, rr: RR)
    ensures rr in NsecsFrom(sigs) <==> rr.data.NsecData? && rr in Gather(sigs, TYPE_NSEC)
    ensures rr in Nsec3sFrom(sigs) <==>
      rr.data.Nsec3Data? && rr.data.hashAlgorithm == 1 && (rr.data.flags == 0 || rr.data.flags == 1) && rr in Gather(sigs, TYPE_NSEC3)
  {
  }

  // ---------------------------------------------------------------- referrals

  /** All NS records of the section have one owner. */
  ghost predicate OneDelegation(ns: seq<RR>) {
    forall a, b :: a in ns && b in ns && a.Rrtype() == TYPE_NS && b.Rrtype() == TYPE_NS ==> a.owner == b.owner
  }

  lemma OneDelegationIff(ns: seq<RR>)
    ensures SameOwner(OfType(ns, TYPE_NS)) <==> OneDelegation(ns)
  {
    var found := OfType(ns, TYPE_NS);
    assert forall i :: 0 <= i < |found| ==> found[i] in found;
  }

  /** What the denial records of a referral prove about its delegation. */
  function ReferralDoe(cfg: Config, r: ChainResult): Doe
    requires TypeExists(r.msg.ns, TYPE_NS)
  {
    DelegationDoe(cfg.oracle, r.zone.name, NsecsFrom(r.authority), Nsec3sFrom(r.authority), DelegationName(r.msg.ns))
  }

  /**
   A referral is Secure if and only if its signatures pass and it has signed DS records, or its NS
   records have one owner and the absence of DS records there is proved.
   */
  lemma DelegatingSecureIff(cfg: Config, zone: Zone, msg: Msg, ds: seq<RR>)
    requires msg.answer == [] && TypeExists(msg.ns, TYPE_NS) && !TypeExists(msg.ns, TYPE_SOA)
    ensures var st := VerifyStage(cfg, zone, msg, ds);
      && (st.status == Secure <==>
          && SignaturesPass(cfg, zone, msg, ds)
          && ((exists d :: SignedDS(msg.ns, d)) || (OneDelegation(msg.ns) && ReferralDoe(cfg, Passed(cfg, zone, msg, ds)) != NotFound)))
      && (st.status == Secure ==>
          && HoldsDS(st.r, msg.ns) && st.r.dsRecords == DsOf(Gather(Passed(cfg, zone, msg, ds).authority, TYPE_DS))
          && st.r.doe == if exists d :: SignedDS(msg.ns, d) then NotFound else ReferralDoe(cfg, Passed(cfg, zone, msg, ds)))
  {
    SignatureStages(cfg, zone, msg, ds);
    if SignaturesPass(cfg, zone, msg, ds) {
      var r := Passed(cfg, zone, msg, ds);
      GatheredIff(cfg, zone.name, msg.ns, ZoneKeys(zone), TYPE_DS);
      DelegatingByRecords(cfg, r);
      assert ClassifyStage(cfg, r) == DelegatingStage(cfg, r);
    }
  }

  lemma DelegatingByRecords(cfg: Config, r: ChainResult)
    requires TypeExists(r.msg.ns, TYPE_NS) && r.doe == NotFound
    requires forall d :: d in DsOf(Gather(r.authority, TYPE_DS)) <==> SignedDS(r.msg.ns, d)
    ensures var st, some := DelegatingStage(cfg, r), exists d :: SignedDS(r.msg.ns, d);
      && (st.status == Secure <==> some || (OneDelegation(r.msg.ns) && ReferralDoe(cfg, r) != NotFound))
      && (st.status == Secure ==>
          && HoldsDS(st.r, r.msg.ns) && st.r.dsRecords == DsOf(Gather(r.authority, TYPE_DS))
          && st.r.doe == if some then NotFound else ReferralDoe(cfg, r))
  {
    OneDelegationIff(r.msg.ns);
    var found := DsOf(Gather(r.authority, TYPE_DS));
    if found != [] {
      assert found[0] in found;
    }
  }

  // ---------------------------------------------------------------- negative and other responses

  /** What the denial records of a response prove about its question. */
  function QuestionDoe(cfg: Config, r: ChainResult): Doe {
    NegativeDoe(cfg.oracle, r.zone.name, NsecsFrom(r.authority), Nsec3sFrom(r.authority), r.msg.question)
  }

  /** A response with an SOA record is Secure if and only if its signatures pass and its question is denied. */
  lemma NegativeSecureIff(cfg: Config, zone: Zone, msg: Msg, ds: seq<RR>)
    requires TypeExists(msg.ns, TYPE_SOA)
    ensures var st := VerifyStage(cfg, zone, msg, ds);
      && (st.status == Secure <==> SignaturesPass(cfg, zone, msg, ds) && QuestionDoe(cfg, Passed(cfg, zone, msg, ds)) != NotFound)
      && (st.status == Secure ==> st.r.dsRecords == [] && st.r.doe == QuestionDoe(cfg, Passed(cfg, zone, msg, ds)))
  {
    SignatureStages(cfg, zone, msg, ds);
  }

  /** A response without records that could answer, refer or deny is never Secure. */
  lemma EmptyIsNotSecure(cfg: Config, zone: Zone, msg: Msg, ds: seq<RR>)
    requires msg.answer == [] && !TypeExists(msg.ns, TYPE_NS) && !TypeExists(msg.ns, TYPE_SOA)
    ensures VerifyStage(cfg, zone, msg, ds).status != Secure
  {
    SignatureStages(cfg, zone, msg, ds);
  }

  // ---------------------------------------------------------------- the error that is reported

  /** What a response is refused for before it is classified. */
  lemma SignatureErrors(cfg: Config, zone: Zone, msg: Msg, ds: seq<RR>)
    requires !SignaturesPass(cfg, zone, msg, ds)
    ensures VerifyStage(cfg, zone, msg, ds).err ==
      if ds == [] then None
      else if zone.dnskeys.KeysUnavailable? then Some(ErrKeysUnavailable)
      else if !HasDesignatedKey(cfg, zone, ds) then Some(ErrKeysNotFound)
      else Some(ErrBogusResultFound)
  {
    if zone.dnskeys.Keys? {
      DesignatedIff(cfg.oracle, ds, ZoneKeys(zone));
    }
  }

  /** What a response whose signatures pass is refused for. */
  lemma ClassifiedErrors(cfg: Config, r: ChainResult)
    requires forall s :: s in r.answer ==> WellFormed(s)
    ensures var st, soa := ClassifyStage(cfg, r), TypeExists(r.msg.ns, TYPE_SOA);
      if st.status == Secure then st.err == None
      else if soa then st.err == Some(ErrBogusDoeRecordsNotFound)
      else if r.msg.answer != [] then st.err in {Some(ErrPanic), Some(ErrMultipleWildcardSignatures), Some(ErrBogusWildcardDoeNotFound)}
      else st.err == Some(if !TypeExists(r.msg.ns, TYPE_NS) then ErrFailsafeResponse
                          else if OneDelegation(r.msg.ns) then ErrBogusDoeRecordsNotFound else ErrNSRecordsHaveMismatchingOwners)
  {
    OneDelegationIff(r.msg.ns);
  }

  /** A wildcard answer is refused for a second expansion, or for a missing proof. */
  lemma ExpansionErrors(cfg: Config, r: ChainResult, i: nat, j: nat)
    requires Marked(cfg, r) && r.doe == NotFound && forall s :: s in r.answer ==> WellFormed(s)
    requires i < |RrsigsOf(r.msg.answer)| && Expands(r.zone.name, cfg.now, RrsigsOf(r.msg.answer)[i])
    requires PositiveStage(cfg, r).err != Some(ErrPanic)
    ensures i < j < |RrsigsOf(r.msg.answer)| && Expands(r.zone.name, cfg.now, RrsigsOf(r.msg.answer)[j]) ==>
      PositiveStage(cfg, r).err == Some(ErrMultipleWildcardSignatures)
    ensures OnlyExpansion(cfg, r, i) && PositiveStage(cfg, r).status != Secure ==> PositiveStage(cfg, r).err == Some(ErrBogusWildcardDoeNotFound)
  {
    if i < j < |RrsigsOf(r.msg.answer)| && Expands(r.zone.name, cfg.now, RrsigsOf(r.msg.answer)[j]) {
      FilterSeveral(r.answer, i, j, IsWildcard);
    }
    if OnlyExpansion(cfg, r, i) {
      FilterOnlyOne(r.answer, i, IsWildcard);
    }
  }
}
