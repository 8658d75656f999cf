/**
 What the denial at the break of a chain says about the zone below the break.

 Over genuine records the denial is right about the name it was made for. The code accepts it for
 whatever zone comes next, unless it was made for a question; the lemmas say exactly when the
 records it accepted do prove that the next zone has no DS records, and give a run in which they
 do not.
 */
module Downgrade {
  import opened Collections
  import opened Names
  import opened Records
  import opened CanonicalOrder
  import opened Signatures
  import opened Verifier
  import opened ReorderBuffer
  import opened Authenticator
  import opened ChainOfTrust
  import opened DenialExactness
  import DenialSoundness
  import Nsec
  import Nsec3

  // ---------------------------------------------------------------- the name that was denied

  /** What a denial was made for: the delegation of a referral, or else the question. */
  function DeniedName(r: ChainResult): Name {
    if !TypeExists(r.msg.ns, TYPE_SOA) && TypeExists(r.msg.ns, TYPE_NS) then DelegationName(r.msg.ns) else r.msg.question.name
  }

  predicate ByNsec(r: ChainResult) {
    r.doe == NsecMissingDS || r.doe == NsecNoData
  }

  /** The zone's denial records are its own. */
  ghost predicate Genuine(cfg: Config, r: ChainResult, z: Nsec.NsecZone, z3: Nsec3.Nsec3Zone) {
    && z.Genuine() && ContainsAll(z, NsecsFrom(r.authority)) && r.zone.name == Canonical(z.apex)
    && z3.Genuine() && z3.Supplies(cfg.oracle, Nsec3sFrom(r.authority)) && r.zone.name == Canonical(z3.apex)
  }

  /** The zone has no DS records at the name; an NSEC3 chain lists every name that has. */
  ghost predicate DSAbsent(r: ChainResult, z: Nsec.NsecZone, z3: Nsec3.Nsec3Zone, n: Name) {
    if ByNsec(r) then Lacks(z, n, TYPE_DS) else Lacks3(z3, Canonical(n), TYPE_DS)
  }

  // ---------------------------------------------------------------- right about that name

  lemma ListedLacksDS(z: Nsec.NsecZone, i: nat, n: Name)
    requires z.Genuine() && i < |z.owners| && NamesEqual(z.owners[i], n) && TYPE_DS !in z.types[i]
    ensures Lacks(z, n, TYPE_DS)
  {
    EqualNamesOnTheWire(z.owners[i], n);
    OctetOrderIsTotalPreorder(z.owners[i], n, n);
    OwnerLacks(z, i, n, TYPE_DS);
  }

  lemma DelegationDenialIsRight(cfg: Config, r: ChainResult, z: Nsec.NsecZone, z3: Nsec3.Nsec3Zone)
    requires DeniedDelegation(cfg, r) && r.doe != NotFound && Genuine(cfg, r, z, z3)
    ensures DSAbsent(r, z, z3, DeniedName(r))
  {
    var n := DeniedName(r);
    DenialSoundness.MissingDSIsSound(z, z3, cfg.oracle, r.zone.name, NsecsFrom(r.authority), Nsec3sFrom(r.authority), n);
    if r.doe == NsecMissingDS {
      var i :| 0 <= i < |z.owners| && NamesEqual(z.owners[i], n) && TYPE_DS !in z.types[i] && TYPE_NS in z.types[i];
      ListedLacksDS(z, i, n);
    } else if r.doe == Nsec3OptOut {
      CanonicalIdempotent(z3.apex);
      Nsec3.EncloserIsTrueClosest(z3, cfg.oracle, r.zone.name, Nsec3sFrom(r.authority), n);
      assert Canonical(n)[..|n|] == Canonical(n);
    }
  }

  lemma QuestionDenialIsRight(cfg: Config, r: ChainResult, z: Nsec.NsecZone, z3: Nsec3.Nsec3Zone)
    requires DeniedQuestion(cfg, r) && Genuine(cfg, r, z, z3)
    requires r.doe == Nsec3OptOut || ((r.doe == NsecNoData || r.doe == Nsec3NoData) && r.msg.question.qtype == TYPE_DS)
    ensures DSAbsent(r, z, z3, DeniedName(r))
  {
    var n, types := r.msg.question.name, [TYPE_CNAME, TYPE_DS];
    assert TYPE_DS in types;
    if r.doe == NsecNoData {
      Nsec.NoDataIsSound(z, NsecsFrom(r.authority), n, types);
      var i :| 0 <= i < |z.owners| && NamesEqual(z.owners[i], n) && forall t :: t in types ==> t !in z.types[i];
      ListedLacksDS(z, i, n);
    } else if r.doe == Nsec3NoData {
      Nsec3.NoDataIsSound(z3, cfg.oracle, Nsec3sFrom(r.authority), n, types);
    } else {
      CanonicalIdempotent(z3.apex);
      Nsec3.EncloserIsTrueClosest(z3, cfg.oracle, r.zone.name, Nsec3sFrom(r.authority), n);
      assert Canonical(n)[..|n|] == Canonical(n);
    }
  }

  /** At every break, over genuine records, the name that was denied has no DS records. */
  lemma BreakDeniesDS(cfg: Config, results: seq<ChainResult>, i: nat, z: Nsec.NsecZone, z3: Nsec3.Nsec3Zone)
    requires BreaksAt(cfg, results, i) && Genuine(cfg, results[i - 1], z, z3)
    ensures DSAbsent(results[i - 1], z, z3, DeniedName(results[i - 1]))
  {
    if DeniedDelegation(cfg, results[i - 1]) {
      DelegationDenialIsRight(cfg, results[i - 1], z, z3);
    } else {
      QuestionDenialIsRight(cfg, results[i - 1], z, z3);
    }
  }

  lemma AbsentForEqualNames(r: ChainResult, z: Nsec.NsecZone, z3: Nsec3.Nsec3Zone, a: Name, b: Name)
    requires DSAbsent(r, z, z3, a) && NamesEqual(a, b)
    ensures DSAbsent(r, z, z3, b)
  {
    if ByNsec(r) {
      EqualNamesOnTheWire(a, b);
    }
  }

  /**
   A break whose denial was made for the next zone is justified: that zone has no DS records. A
   no-data denial is always made for the next zone.
   */
  lemma BreakIsJustified(cfg: Config, results: seq<ChainResult>, i: nat, z: Nsec.NsecZone, z3: Nsec3.Nsec3Zone)
    requires BreaksAt(cfg, results, i) && Genuine(cfg, results[i - 1], z, z3)
    ensures var r, next := results[i - 1], results[i].zone.name;
      && (r.doe == NsecNoData || r.doe == Nsec3NoData ==> NamesEqual(DeniedName(r), next))
      && (NamesEqual(DeniedName(r), next) ==> DSAbsent(r, z, z3, next))
  {
    var r, next := results[i - 1], results[i].zone.name;
    BreakDeniesDS(cfg, results, i, z, z3);
    if NamesEqual(DeniedName(r), next) {
      AbsentForEqualNames(r, z, z3, DeniedName(r), next);
    }
  }

  // ---------------------------------------------------------------- when the next zone is proved unsigned

  /**
   The records accepted at a break prove that the next zone has no DS records if and only if they
   cover its name or list it without DS (for NSEC3: cover a name on the way to it, or match it
   without DS). The code checks this for `DeniedName`, which may be another name.
   */
  lemma BreakProvesNextZoneIff(cfg: Config, results: seq<ChainResult>, i: nat, z: Nsec.NsecZone, z3: Nsec3.Nsec3Zone)
    requires BreaksAt(cfg, results, i) && Genuine(cfg, results[i - 1], z, z3) && z.Faithful() && FaithfulName(results[i].zone.name)
    requires IsProperSubDomain(results[i - 1].zone.name, results[i].zone.name)
    ensures var r, next := results[i - 1], results[i].zone.name;
      && (Denied(z.apex, NsecsFrom(r.authority), next, TYPE_DS) <==> NsecDenies(r.zone.name, NsecsFrom(r.authority), next, TYPE_DS))
      && (Denied3(z3.apex, z3.hash, Nsec3sFrom(r.authority), Canonical(next), TYPE_DS) <==> Nsec3Denies(z3.apex, z3.hash, Nsec3sFrom(r.authority), Canonical(next), TYPE_DS))
  {
    var r, next := results[i - 1], results[i].zone.name;
    CanonicalIdempotent(z.apex);
    CanonicalIdempotent(z3.apex);
    CanonicalIdempotent(next);
    BelowApex(z, next);
    NsecDeniesIff(z, r.zone.name, NsecsFrom(r.authority), next, TYPE_DS);
    Nsec3DeniesIff(z3, Nsec3sFrom(r.authority), Canonical(next), TYPE_DS);
  }

  /**
   A referral with a single NSEC record proves that an existing next zone has no DS records if and
   only if the next zone is the delegation the referral is for.
   */
  lemma ReferralProvesNextZoneIff(cfg: Config, r: ChainResult, rec: RR, z: Nsec.NsecZone, next: Name)
    requires DeniedDelegation(cfg, r) && r.doe == NsecMissingDS && NsecsFrom(r.authority) == [rec]
    requires z.Readable() && ContainsAll(z, [rec]) && r.zone.name == Canonical(z.apex) && FaithfulName(next)
    requires z.IsOwner(next) && IsProperSubDomain(r.zone.name, next)
    ensures Denied(z.apex, [rec], next, TYPE_DS) <==> OctetOrder(DelegationName(r.msg.ns), next) == 0
  {
    RecordProvesOwnerIff(z, rec, DelegationName(r.msg.ns), next);
  }

  /** A record without DS proves an existing name unsigned if and only if it is that name's. */
  lemma RecordProvesOwnerIff(z: Nsec.NsecZone, rec: RR, n: Name, next: Name)
    requires Nsec.AllNsec([rec]) && NsecShowsNoDS([rec], n)
    requires z.Readable() && ContainsAll(z, [rec]) && FaithfulName(next)
    requires z.IsOwner(next) && IsProperSubDomain(Canonical(z.apex), next)
    ensures Denied(z.apex, [rec], next, TYPE_DS) <==> OctetOrder(n, next) == 0
  {
    BelowApex(z, next);
    NsecDeniesIff(z, Canonical(z.apex), [rec], next, TYPE_DS);
    SingleRecordLists(rec, n);
    SingleNotCovering(z, rec, next);
    CanonicalIdempotent(rec.owner);
    EqualNamesOnTheWire(rec.owner, n);
    assert rec in [rec];
  }

  lemma SingleNotCovering(z: Nsec.NsecZone, rec: RR, n: Name)
    requires Nsec.AllNsec([rec]) && z.Readable() && ContainsAll(z, [rec]) && FaithfulName(n) && z.IsOwner(n)
    ensures !Nsec.Covered(Canonical(z.apex), [rec], n)
  {
    assert rec in [rec];
    OwnerIsNotCovered(z, rec, n);
  }

  lemma BelowApex(z: Nsec.NsecZone, n: Name)
    requires z.Readable() && FaithfulName(n) && IsProperSubDomain(Canonical(z.apex), n)
    ensures OctetOrder(z.apex, n) < 0
  {
    CanonicalIdempotent(z.apex);
    ApexIsFaithful(z);
    AncestorSortsFirst(z.apex, n);
    CanonicalCmpIsOctetOrder(z.apex, n);
  }

  lemma SingleRecordLists(rec: RR, n: Name)
    requires Nsec.AllNsec([rec]) && NsecShowsNoDS([rec], n)
    ensures rec.data.NsecData? && n == Canonical(rec.owner) && TYPE_DS !in rec.data.nsecTypes
  {
    assert rec in [rec] && TYPE_DS in ABSENT_AT_DELEGATION;
  }

  // ---------------------------------------------------------------- the verdict does not ask for whom

  /**
   After a referral whose delegation was shown to have no DS records, any zone further down makes
   the verdict Insecure, whether or not it is the delegation; after a denial of a question for DS
   records, the zone it was asked for does.
   */
  lemma AnyZoneBelowIsInsecure(cfg: Config, q: Question, anchors: seq<RR>, results: seq<ChainResult>, input: Input)
    requires results != [] && forall j :: 0 <= j < |results| ==> results[j].state == Secure
    requires results[|results| - 1].dsRecords == []
    requires var last := results[|results| - 1];
      || last.doe in {NsecMissingDS, Nsec3MissingDS, Nsec3OptOut}
      || (last.doe in {NsecNoData, Nsec3NoData} && last.msg.question.qtype == TYPE_DS && NamesEqual(last.msg.question.name, input.zone.name))
    requires IsProperSubDomain(results[|results| - 1].zone.name, input.zone.name)
    ensures var p := Process(RealContext(cfg, q, anchors), results, input);
      p.Done? && Verdict(q, results + [p.r]).auth == Insecure
  {
    var p := Process(RealContext(cfg, q, anchors), results, input);
    var all := results + [p.r];
    assert p.r.state == Insecure;
    assert FirstNotSecure(all) == |results| by {
      assert all[|results|].state != Secure;
    }
    assert FirstBogus(all) == |all| by {
      assert forall j :: 0 <= j < |all| ==> all[j].state != Bogus;
    }
  }

  // ---------------------------------------------------------------- a run that shows it

  const A: Name := [[97]]
  const B: Name := [[98]]

  /** Every key, digest and signature is in order. */
  function AllInOrder(): Oracle {
    Oracle(_ => 0, (_, _) => true,
           (sig: RR, key: RR, rrset: seq<RR>) => rrset != [] && (sig.data.SigData? ==> sig.data.typeCovered != TYPE_RRSIG),
           (_, _) => false, (_, _) => false)
  }

  function Strict(): Config {
    Config(true, 50, AllInOrder())
  }

  function SignatureBy(zone: Name, owner: Name, t: TypeCode): RR {
    RR(owner, 60, SigData(t, 8, |owner|, 60, 100, 0, 0, zone, []))
  }

  function SignatureOver(owner: Name, t: TypeCode): RR {
    SignatureBy(ROOT, owner, t)
  }

  function KeyOf(zone: Name): RR {
    RR(zone, 60, KeyData(8, []))
  }

  const KEY: RR := KeyOf(ROOT)
  const ANCHOR: RR := RR(ROOT, 60, DSData(0, 8, 2, []))
  const DENIAL: RR := RR(A, 60, NsecData(B, [TYPE_NS]))
  const REFERRAL: RR := RR(A, 60, NsData(A))

  /** The root zone: "a." is delegated without DS records, "b." with. */
  function RootChain(): Nsec.NsecZone {
    Nsec.NsecZone(ROOT, [ROOT, A, B], [[TYPE_SOA], [TYPE_NS], [TYPE_NS, TYPE_DS]])
  }

  /** Asked about "b.", the root sends its signed referral to "a.". */
  function RootResponse(): Input {
    Input(Zone(ROOT, Keys([KEY, SignatureOver(ROOT, TYPE_DNSKEY)])),
          Msg(Question(B, TYPE_A), [], [REFERRAL, DENIAL, SignatureOver(A, TYPE_NSEC)]))
  }

  /** An unsigned response in the name of "b.". */
  function UnsignedResponse(): Input {
    Input(Zone(B, KeysUnavailable), Msg(Question(B, TYPE_A), [RR(B, 60, OtherData(TYPE_A, []))], []))
  }

  lemma InOrderSignature(zone: Name, owner: Name, t: TypeCode, rrs: seq<RR>, rr: RR)
    requires rr in rrs && rr.owner == owner && rr.Rrtype() == t && t != TYPE_RRSIG
    ensures SignatureFor(AllInOrder(), 50, zone, rrs, [KeyOf(zone)], SignatureBy(zone, owner, t)).verified
  {
    var s := SignatureBy(zone, owner, t);
    assert PreCheck(zone, s, 50).None?;
    SingleKey(AllInOrder(), 50, zone, rrs, KeyOf(zone), s);
    assert rr in OfNameAndType(rrs, owner, t);
  }

  lemma OneRrsig(zone: Name, front: seq<RR>, s: RR, keys: seq<RR>)
    requires (forall x :: x in front ==> !x.data.SigData?) && s.data.SigData?
    ensures RrsigsOf(front + [s]) == [s]
    ensures SignaturesFor(AllInOrder(), 50, zone, front + [s], keys) == [SignatureFor(AllInOrder(), 50, Canonical(zone), front + [s], keys, s)]
  {
    FilterSplits(front, [s], (x: RR) => x.data.SigData?);
    assert RrsigsOf(front + [s]) == [s];
  }

  lemma OneCombination(rrs: seq<RR>, sig: Signature, section: Section, rr: RR)
    requires rr in rrs && Counted(rr, [sig], section) && sig.name == rr.owner && sig.rtype == rr.Rrtype()
    requires forall x :: x in rrs && Counted(x, [sig], section) ==> x.owner == rr.owner && x.Rrtype() == rr.Rrtype()
    ensures CountError(rrs, [sig], section).None?
  {
    assert RecordCombinations(rrs, [sig], section) == {(rr.owner, rr.Rrtype())};
    assert SignatureCombinations([sig]) == {(rr.owner, rr.Rrtype())} by {
      assert sig in [sig];
    }
  }

  const ROOT_KEYS: seq<RR> := [KEY] + [SignatureOver(ROOT, TYPE_DNSKEY)]
  const ROOT_NS: seq<RR> := [REFERRAL, DENIAL] + [SignatureOver(A, TYPE_NSEC)]

  function KeySignature(): Signature {
    SignatureFor(AllInOrder(), 50, ROOT, ROOT_KEYS, [KEY], SignatureOver(ROOT, TYPE_DNSKEY))
  }

  function DenialSignature(): Signature {
    SignatureFor(AllInOrder(), 50, ROOT, ROOT_NS, [KEY], SignatureOver(A, TYPE_NSEC))
  }

  lemma RootKey()
    ensures DnskeysOf(ROOT_KEYS) == [KEY] && KeySigningKeys(AllInOrder(), [ANCHOR], [KEY]) == [KEY]
  {
    var p := (x: RR) => x.data.KeyData?;
    FilterConcat([KEY], [SignatureOver(ROOT, TYPE_DNSKEY)], p);
    FilterAll([KEY], p);
    FilterNone([SignatureOver(ROOT, TYPE_DNSKEY)], p);
    assert [KEY] + [] == [KEY];
    assert Designates(AllInOrder(), ANCHOR, KEY);
    assert [ANCHOR][..0] == [] && FirstDesignated(AllInOrder(), ANCHOR, [KEY]) == 0;
  }

  lemma RootKeysPass()
    ensures SignaturesFor(AllInOrder(), 50, ROOT, ROOT_KEYS, [KEY]) == [KeySignature()] && Accepted(true, [KeySignature()])
    ensures CountError(ROOT_KEYS, [KeySignature()], AnswerSection).None?
  {
    OneRrsig(ROOT, [KEY], SignatureOver(ROOT, TYPE_DNSKEY), [KEY]);
    assert KEY in ROOT_KEYS;
    InOrderSignature(ROOT, ROOT, TYPE_DNSKEY, ROOT_KEYS, KEY);
    OneCombination(ROOT_KEYS, KeySignature(), AnswerSection, KEY);
  }

  lemma RootSectionsPass()
    ensures SignaturesFor(AllInOrder(), 50, ROOT, ROOT_NS, [KEY]) == [DenialSignature()] && Accepted(true, [DenialSignature()])
    ensures CountError(ROOT_NS, [DenialSignature()], AuthoritySection).None?
  {
    var sig := DenialSignature();
    OneRrsig(ROOT, [REFERRAL, DENIAL], SignatureOver(A, TYPE_NSEC), [KEY]);
    assert DENIAL in ROOT_NS;
    InOrderSignature(ROOT, A, TYPE_NSEC, ROOT_NS, DENIAL);
    assert !TypeSigned([sig], TYPE_NS);
    forall x | x in ROOT_NS && Counted(x, [sig], AuthoritySection)
      ensures x.owner == A && x.Rrtype() == TYPE_NSEC
    {
      assert x == REFERRAL || x == DENIAL || x == SignatureOver(A, TYPE_NSEC);
    }
    OneCombination(ROOT_NS, sig, AuthoritySection, DENIAL);
  }

  lemma NothingToSign()
    ensures SignaturesFor(AllInOrder(), 50, ROOT, [], [KEY]) == [] && CountError([], [], AnswerSection).None?
  {
    assert RecordCombinations([], [], AnswerSection) == {} && SignatureCombinations([]) == {};
  }

  lemma OnlyDenial()
    ensures var nsec := NsecsFrom([DenialSignature()]); DENIAL in nsec && forall r :: r in nsec ==> r == DENIAL
  {
    var sig := DenialSignature();
    DenialSet();
    assert sig.rrset == OfNameAndType(ROOT_NS, A, TYPE_NSEC) && sig in [sig];
    assert DENIAL in Gather([sig], TYPE_NSEC);
  }

  lemma DenialSet()
    ensures var rrset := OfNameAndType(ROOT_NS, A, TYPE_NSEC); DENIAL in rrset && forall r :: r in rrset ==> r == DENIAL
  {
    assert DENIAL in ROOT_NS;
    forall r | r in OfNameAndType(ROOT_NS, A, TYPE_NSEC)
      ensures r == DENIAL
    {
      assert r in ROOT_NS;
      assert r == REFERRAL || r == DENIAL || r == SignatureOver(A, TYPE_NSEC);
    }
  }

  lemma DenialShowsNoDS(nsec: seq<RR>)
    requires DENIAL in nsec && forall r :: r in nsec ==> r == DENIAL
    ensures Nsec.AllNsec(nsec) && NsecShowsNoDS(nsec, A)
  {
    SimpleKey(A);
    assert TYPE_NS in PRESENT_AT_DELEGATION && TYPE_NS in DENIAL.data.nsecTypes;
    assert forall t :: t in ABSENT_AT_DELEGATION ==> t != TYPE_NS;
  }

  lemma RootNsRecords()
    ensures OfType(ROOT_NS, TYPE_NS) == [REFERRAL]
  {
    var p, rest := (x: RR) => x.Rrtype() == TYPE_NS, [DENIAL, SignatureOver(A, TYPE_NSEC)];
    assert ROOT_NS == [REFERRAL] + rest;
    FilterConcat([REFERRAL], rest, p);
    FilterAll([REFERRAL], p);
    FilterNone(rest, p);
    assert [REFERRAL] + [] == [REFERRAL];
  }

  lemma RootReferral()
    ensures TypeExists(ROOT_NS, TYPE_NS) && !TypeExists(ROOT_NS, TYPE_SOA) && OfType(ROOT_NS, TYPE_NS) == [REFERRAL]
    ensures DsOf(Gather([DenialSignature()], TYPE_DS)) == []
  {
    RootNsRecords();
    assert ROOT_NS[0].Rrtype() == TYPE_NS;
    assert [DenialSignature()][1..] == [];
  }

  /** The result of the root's response after both signature stages. */
  function RootChecked(): ChainResult {
    ChainResult(RootResponse().zone, RootResponse().msg, [KeySignature()], [], [DenialSignature()], [], NotFound, Unknown, None)
  }

  lemma RootKeyStage(r: ChainResult)
    requires r.zone.name == ROOT
    ensures DnskeyStage(Strict(), r, ROOT_KEYS, [ANCHOR]) == Stage(Unknown, r.(keys := [KeySignature()]), None)
  {
    RootKey();
    RootKeysPass();
  }

  lemma RootSectionStage(r: ChainResult)
    requires r.zone.name == ROOT && r.msg.answer == [] && r.msg.ns == ROOT_NS
    ensures RrsetStage(Strict(), r, [KEY]) == Stage(Unknown, r.(answer := [], authority := [DenialSignature()]), None)
  {
    RootSectionsPass();
    NothingToSign();
    assert [] + [DenialSignature()] == [DenialSignature()];
  }

  lemma RootSignatureStages()
    ensures var r := Blank(RootResponse().zone, RootResponse().msg);
      var s1 := DnskeyStage(Strict(), r, ROOT_KEYS, [ANCHOR]);
      s1 == Stage(Unknown, r.(keys := [KeySignature()]), None) && RrsetStage(Strict(), s1.r, [KEY]) == Stage(Unknown, RootChecked(), None)
  {
    var r := Blank(RootResponse().zone, RootResponse().msg);
    RootKeyStage(r);
    assert RootResponse().msg.ns == ROOT_NS;
    RootSectionStage(r.(keys := [KeySignature()]));
  }

  lemma DenyingReferral(cfg: Config, r: ChainResult, n: Name)
    requires TypeExists(r.msg.ns, TYPE_NS) && DsOf(Gather(r.authority, TYPE_DS)) == [] == r.dsRecords
    requires SameOwner(OfType(r.msg.ns, TYPE_NS)) && DelegationName(r.msg.ns) == n
    requires NsecsFrom(r.authority) != [] && NsecShowsNoDS(NsecsFrom(r.authority), n)
    ensures DelegatingStage(cfg, r) == Stage(Secure, r.(doe := NsecMissingDS), None)
  {
  }

  lemma RootDelegation()
    ensures TypeExists(ROOT_NS, TYPE_NS) && DelegationName(ROOT_NS) == A && SameOwner(OfType(ROOT_NS, TYPE_NS))
  {
    RootReferral();
  }

  lemma RootDenial()
    ensures NsecsFrom([DenialSignature()]) != [] && NsecShowsNoDS(NsecsFrom([DenialSignature()]), A)
  {
    OnlyDenial();
    DenialShowsNoDS(NsecsFrom([DenialSignature()]));
  }

  lemma RootDelegatingStage()
    ensures TypeExists(RootChecked().msg.ns, TYPE_NS)
    ensures DelegatingStage(Strict(), RootChecked()) == Stage(Secure, RootChecked().(doe := NsecMissingDS), None)
  {
    var r := RootChecked();
    assert r.msg.ns == ROOT_NS && r.authority == [DenialSignature()] && r.dsRecords == [];
    RootReferral();
    RootDelegation();
    RootDenial();
    DenyingReferral(Strict(), r, A);
  }

  /** The root's response is Secure, with the DS records of "a." denied. */
  lemma RootIsSecure()
    ensures VerifyStage(Strict(), RootResponse().zone, RootResponse().msg, [ANCHOR]) == Stage(Secure, RootChecked().(doe := NsecMissingDS), None)
  {
    assert RootResponse().zone.dnskeys.records == ROOT_KEYS && RootResponse().msg.ns == ROOT_NS;
    RootKey();
    RootSignatureStages();
    RootReferral();
    RootDelegatingStage();
  }

  lemma RootChainIsGenuine()
    ensures RootChain().Genuine() && ContainsAll(RootChain(), [DENIAL])
  {
    SimpleKey(ROOT);
    SimpleKey(A);
    SimpleKey(B);
    SimpleAncestor(ROOT, A);
    SimpleAncestor(ROOT, B);
    SimpleCompare(A, B, 0);
    ThreeOwners(ROOT, A, B, [TYPE_SOA], [TYPE_NS], [TYPE_NS, TYPE_DS]);
    DenialIsRecord();
  }

  lemma DenialIsRecord()
    ensures RootChain().RecordAt(1, DENIAL)
  {
  }

  /** An owner with the type does not lack it. */
  lemma OwnerHasType(z: Nsec.NsecZone, i: nat, t: TypeCode)
    requires i < |z.owners| == |z.types| && t in z.types[i]
    ensures !Lacks(z, z.owners[i], t)
  {
    OctetOrderIsTotalPreorder(z.owners[i], z.owners[i], z.owners[i]);
  }

  lemma ResponsesAreOrdered(ctx: Context)
    requires ctx.question.name == B
    ensures OnePerZone(ctx, [RootResponse(), UnsignedResponse()]) && RootToLeaf([RootResponse(), UnsignedResponse()])
  {
  }

  lemma SiblingVerdict()
    ensures ChainVerdict(RealContext(Strict(), Question(B, TYPE_A), [ANCHOR]), [RootResponse(), UnsignedResponse()]).auth == Insecure
  {
    var q := Question(B, TYPE_A);
    var ctx, r := RealContext(Strict(), q, [ANCHOR]), RootResult();
    RootStep();
    AnyZoneBelowIsInsecure(Strict(), q, [ANCHOR], [r], UnsignedResponse());
    TwoSteps(ctx, RootResponse(), UnsignedResponse(), r, Process(ctx, [r], UnsignedResponse()).r);
  }

  /**
   The root has DS records for "b.", and its only denial record is for "a.". Still a referral to
   "a." in answer to a question about "b." makes an unsigned response for "b." Insecure.
   */
  lemma SiblingReferralDowngrades()
    ensures var ctx := RealContext(Strict(), Question(B, TYPE_A), [ANCHOR]);
      && OnePerZone(ctx, [RootResponse(), UnsignedResponse()]) && RootToLeaf([RootResponse(), UnsignedResponse()])
      && ChainVerdict(ctx, [RootResponse(), UnsignedResponse()]).auth == Insecure
    ensures RootChain().Genuine() && ContainsAll(RootChain(), [DENIAL]) && !Lacks(RootChain(), B, TYPE_DS)
  {
    RootChainIsGenuine();
    OwnerHasType(RootChain(), 2, TYPE_DS);
    ResponsesAreOrdered(RealContext(Strict(), Question(B, TYPE_A), [ANCHOR]));
    SiblingVerdict();
  }

  function RootResult(): ChainResult {
    RootChecked().(doe := NsecMissingDS, state := Secure)
  }

  lemma RootStep()
    ensures Process(RealContext(Strict(), Question(B, TYPE_A), [ANCHOR]), [], RootResponse()) == Done(RootResult())
  {
    RootIsSecure();
    RootSigner(RealContext(Strict(), Question(B, TYPE_A), [ANCHOR]));
  }

  lemma RootSigner(ctx: Context)
    ensures SignerError(ctx, [ANCHOR], RootResponse().msg).None?
  {
    var msg := RootResponse().msg;
    assert msg.answer + msg.ns == ROOT_NS;
    FilterSplits([REFERRAL, DENIAL], [SignatureOver(A, TYPE_NSEC)], (x: RR) => x.data.SigData?);
    assert RrsigsOf(ROOT_NS) == [SignatureOver(A, TYPE_NSEC)];
  }

  lemma TwoSteps(ctx: Context, a: Input, b: Input, r: ChainResult, p: ChainResult)
    requires Process(ctx, [], a) == Done(r) && Process(ctx, [r], b) == Done(p)
    ensures ChainVerdict(ctx, [a, b]) == Verdict(ctx.question, [r] + [p])
  {
    ChainSnoc(ctx, [a, b], 0);
    ChainSnoc(ctx, [a, b], 1);
    assert [a, b][..0] == [] && [a, b][..2] == [a, b];
    var none: seq<ChainResult> := [];
    assert none + [r] == [r];
  }
}
