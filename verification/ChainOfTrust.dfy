/**
 What the validator's verdicts mean, for the authenticator run with the real verifier.

 `SecureMeansAnchored`: under the strict signature policy a Secure verdict means that every
 record of the answer hangs on a chain of signatures, keys and DS records that ends at a root
 trust anchor. `NoSilentDowngrade`: an Insecure verdict is always accounted for.
 */
module ChainOfTrust {
  import opened Collections
  import opened Names
  import opened Records
  import opened Signatures
  import opened Verifier
  import opened StageExactness
  import opened ReorderBuffer
  import opened Authenticator

  function RealVerify(cfg: Config): (Zone, Msg, seq<RR>) -> Verified {
    (zone: Zone, msg: Msg, ds: seq<RR>) =>
      var st := VerifyStage(cfg, zone, msg, ds);
      Verified(st.status, Some(st.r), st.err)
  }

  function RealContext(cfg: Config, q: Question, anchors: seq<RR>): Context {
    Context(q, anchors, RealVerify(cfg))
  }

  // ---------------------------------------------------------------- what a stage leaves behind

  /** Everything a Secure result vouches for, relative to the parent's DS records. */
  ghost predicate SecureLink(cfg: Config, ds: seq<RR>, r: ChainResult) {
    && ds != [] && r.zone.dnskeys.Keys?
    && var krs := r.zone.dnskeys.records;
    && Checked(cfg, r.zone.name, krs, KeySigningKeys(cfg.oracle, ds, DnskeysOf(krs)), AnswerSection, r.keys)
    && Accepted(cfg.requireAll, r.keys)
    && Checked(cfg, r.zone.name, r.msg.answer, DnskeysOf(krs), AnswerSection, r.answer)
    && Checked(cfg, r.zone.name, r.msg.ns, DnskeysOf(krs), AuthoritySection, r.authority)
    && Accepted(cfg.requireAll, r.answer + r.authority)
    && forall d :: d in r.dsRecords ==> d in Gather(r.answer, TYPE_DS) || d in Gather(r.authority, TYPE_DS)
  }

  /** A referral without DS records, and what its denial records prove about the delegation. */
  ghost predicate DeniedDelegation(cfg: Config, r: ChainResult) {
    && !TypeExists(r.msg.ns, TYPE_SOA) && TypeExists(r.msg.ns, TYPE_NS) && r.dsRecords == []
    && r.doe == DelegationDoe(cfg.oracle, r.zone.name, NsecsFrom(r.authority), Nsec3sFrom(r.authority), DelegationName(r.msg.ns))
  }

  /** A negative response, and what its denial records prove about the question. */
  ghost predicate DeniedQuestion(cfg: Config, r: ChainResult) {
    && TypeExists(r.msg.ns, TYPE_SOA) && r.dsRecords == []
    && r.doe == NegativeDoe(cfg.oracle, r.zone.name, NsecsFrom(r.authority), Nsec3sFrom(r.authority), r.msg.question)
  }

  /** The question denied is one for DS records. */
  ghost predicate DeniedDSQuestion(cfg: Config, r: ChainResult) {
    DeniedQuestion(cfg, r) && r.msg.question.qtype == TYPE_DS
  }

  /** A wildcard answer, and what the denial records prove about its expansion. */
  ghost predicate ExpandedAnswer(cfg: Config, r: ChainResult) {
    exists s :: s in r.answer && s.wildcard && r.doe == WildcardDoe(cfg, r, s)
  }

  /** Where the denial state of a result comes from. */
  ghost predicate Provenance(cfg: Config, r: ChainResult) {
    r.doe == NotFound || DeniedDelegation(cfg, r) || DeniedQuestion(cfg, r) || ExpandedAnswer(cfg, r)
  }

  /** A positive answer: a wildcard in it is the only one, and proved to be rightly expanded. */
  ghost predicate WildcardsProved(cfg: Config, r: ChainResult) {
    r.msg.answer != [] && !TypeExists(r.msg.ns, TYPE_SOA) ==> ExpansionsAreProved(cfg, r)
  }

  /** A later stage only adds DS records, taken from signed RRsets, and a denial state. */
  ghost predicate OnlyAdds(r: ChainResult, t: ChainResult) {
    && t == r.(dsRecords := t.dsRecords, doe := t.doe)
    && forall d :: d in t.dsRecords ==> d in Gather(r.answer, TYPE_DS) || d in Gather(r.authority, TYPE_DS)
  }

  lemma DelegatingAdds(cfg: Config, r: ChainResult)
    requires TypeExists(r.msg.ns, TYPE_NS)
    ensures OnlyAdds(r, DelegatingStage(cfg, r).r) && DelegatingStage(cfg, r).status in {Secure, Bogus}
  {
  }

  lemma PositiveAdds(cfg: Config, r: ChainResult)
    requires forall s :: s in r.answer ==> WellFormed(s)
    ensures OnlyAdds(r, PositiveStage(cfg, r).r) && PositiveStage(cfg, r).status in {Secure, Bogus}
  {
  }

  lemma NegativeAdds(cfg: Config, r: ChainResult)
    requires r.dsRecords == []
    ensures OnlyAdds(r, NegativeStage(cfg, r).r) && NegativeStage(cfg, r).status in {Secure, Bogus}
  {
  }

  lemma ClassifyAdds(cfg: Config, r: ChainResult)
    requires r.dsRecords == [] && forall s :: s in r.answer ==> WellFormed(s)
    ensures OnlyAdds(r, ClassifyStage(cfg, r).r) && ClassifyStage(cfg, r).status in {Secure, Bogus}
  {
    NegativeAdds(cfg, r);
    PositiveAdds(cfg, r);
    if TypeExists(r.msg.ns, TYPE_NS) {
      DelegatingAdds(cfg, r);
    }
  }

  lemma PositiveProvenance(cfg: Config, r: ChainResult)
    requires r.doe == NotFound && forall s :: s in r.answer ==> WellFormed(s)
    requires PositiveStage(cfg, r).status == Secure
    ensures Provenance(cfg, PositiveStage(cfg, r).r)
  {
    var wild, t := Filter(r.answer, IsWildcard), PositiveStage(cfg, r).r;
    if wild != [] {
      assert wild[0] in wild;
      assert WildcardDoe(cfg, t, wild[0]) == WildcardDoe(cfg, r, wild[0]);
      assert ExpandedAnswer(cfg, t);
    }
  }

  lemma ClassifyProvenance(cfg: Config, r: ChainResult)
    requires r.dsRecords == [] && r.doe == NotFound && forall s :: s in r.answer ==> WellFormed(s)
    requires ClassifyStage(cfg, r).status == Secure
    ensures Provenance(cfg, ClassifyStage(cfg, r).r)
  {
    var soa := TypeExists(r.msg.ns, TYPE_SOA);
    if !soa && r.msg.answer != [] {
      PositiveProvenance(cfg, r);
    } else if soa {
      assert DeniedQuestion(cfg, ClassifyStage(cfg, r).r);
    } else {
      var t := DelegatingStage(cfg, r).r;
      assert t.doe == NotFound || DeniedDelegation(cfg, t);
    }
  }

  /** The zone offers no key that the DS records designate. */
  ghost predicate NoDesignatedKey(cfg: Config, ds: seq<RR>, zone: Zone) {
    zone.dnskeys.Keys? && KeySigningKeys(cfg.oracle, ds, DnskeysOf(zone.dnskeys.records)) == []
  }

  /** What holds of every verification outcome. */
  ghost predicate Outcome(cfg: Config, zone: Zone, msg: Msg, ds: seq<RR>, st: Stage) {
    && st.r.zone == zone && st.r.msg == msg && st.status != Unknown
    && (st.status == Secure ==> SecureLink(cfg, ds, st.r) && Provenance(cfg, st.r) && WildcardsProved(cfg, st.r))
    && (st.status == Insecure ==> st.r.dsRecords == [] && (ds == [] || NoDesignatedKey(cfg, ds, zone)))
    && (ds == [] ==> st.status == Insecure)
  }

  /** The two signature stages passed, then the message was classified. */
  lemma ClassifiedOutcome(cfg: Config, zone: Zone, msg: Msg, ds: seq<RR>)
    requires ds != [] && zone.dnskeys.Keys?
    requires DnskeyStage(cfg, Blank(zone, msg), zone.dnskeys.records, ds).status == Unknown
    requires var s1 := DnskeyStage(cfg, Blank(zone, msg), zone.dnskeys.records, ds);
      RrsetStage(cfg, s1.r, DnskeysOf(zone.dnskeys.records)).status == Unknown
    ensures Outcome(cfg, zone, msg, ds, VerifyStage(cfg, zone, msg, ds))
  {
    var s1 := DnskeyStage(cfg, Blank(zone, msg), zone.dnskeys.records, ds);
    var keys := DnskeysOf(zone.dnskeys.records);
    var s2 := RrsetStage(cfg, s1.r, keys);
    SignaturesAreWellFormed(cfg, s1.r, keys);
    ClassifyAdds(cfg, s2.r);
    assert VerifyStage(cfg, zone, msg, ds) == ClassifyStage(cfg, s2.r);
    if ClassifyStage(cfg, s2.r).status == Secure {
      ClassifyProvenance(cfg, s2.r);
      if msg.answer != [] && !TypeExists(msg.ns, TYPE_SOA) {
        PositiveSecureIff(cfg, zone, msg, ds);
      }
    }
  }

  lemma {:induction false} NoKeyIsDesignated(o: Oracle, ds: seq<RR>)
    ensures KeySigningKeys(o, ds, []) == []
  {
    if ds != [] {
      NoKeyIsDesignated(o, ds[..|ds| - 1]);
    }
  }

  lemma StageOutcome(cfg: Config, zone: Zone, msg: Msg, ds: seq<RR>)
    ensures Outcome(cfg, zone, msg, ds, VerifyStage(cfg, zone, msg, ds))
  {
    if ds != [] && zone.dnskeys.Keys? {
      NoKeyIsDesignated(cfg.oracle, ds);
      var s1 := DnskeyStage(cfg, Blank(zone, msg), zone.dnskeys.records, ds);
      if s1.status == Unknown && RrsetStage(cfg, s1.r, DnskeysOf(zone.dnskeys.records)).status == Unknown {
        ClassifiedOutcome(cfg, zone, msg, ds);
      }
    }
  }

  // ---------------------------------------------------------------- links and chains

  /** What holds of every processed result, relative to the DS records above it. */
  ghost predicate Link(cfg: Config, ds: seq<RR>, r: ChainResult) {
    && r.state != Unknown
    && (r.state == Secure ==> SecureLink(cfg, ds, r) && Provenance(cfg, r) && WildcardsProved(cfg, r))
    && (r.state == Secure && cfg.requireAll ==> NamesEqual(ds[0].owner, r.zone.name))
    && (r.state == Insecure ==> r.dsRecords == [] && (ds == [] || NoDesignatedKey(cfg, ds, r.zone)))
    && (ds == [] ==> r.state == Insecure)
  }

  function DSAbove(anchors: seq<RR>, results: seq<ChainResult>, i: nat): seq<RR>
    requires i <= |results|
  {
    if i == 0 then anchors else results[i - 1].dsRecords
  }

  /** A relation holds between each result and the DS records above it. */
  ghost predicate AllLinked(link: (seq<RR>, ChainResult) -> bool, anchors: seq<RR>, results: seq<ChainResult>) {
    forall i: nat {:trigger DSAbove(anchors, results, i)} ::
      i < |results| ==> link(DSAbove(anchors, results, i), results[i])
  }

  ghost function LinkOf(cfg: Config): (seq<RR>, ChainResult) -> bool {
    (ds: seq<RR>, r: ChainResult) => Link(cfg, ds, r)
  }

  ghost predicate Linked(cfg: Config, anchors: seq<RR>, results: seq<ChainResult>) {
    AllLinked(LinkOf(cfg), anchors, results)
  }

  lemma LinkAt(cfg: Config, anchors: seq<RR>, results: seq<ChainResult>, i: nat)
    requires Linked(cfg, anchors, results) && i < |results|
    ensures Link(cfg, DSAbove(anchors, results, i), results[i])
  {
    assert LinkOf(cfg)(DSAbove(anchors, results, i), results[i]);
  }

  /** A Secure result has a denial state of known origin. */
  lemma ProvenanceAt(cfg: Config, anchors: seq<RR>, results: seq<ChainResult>, i: nat)
    requires Linked(cfg, anchors, results) && i < |results| && results[i].state == Secure
    ensures Provenance(cfg, results[i])
  {
    LinkAt(cfg, anchors, results, i);
  }

  lemma VerifiedSigns(cfg: Config, zone: Name, rrs: seq<RR>, keys: seq<RR>, s: Signature)
    requires s in SignaturesFor(cfg.oracle, cfg.now, zone, rrs, keys) && s.verified
    ensures s.key.Some? && s.key.value in keys && Signs(cfg, zone, s.key.value, s)
  {
    var sigs := SignaturesFor(cfg.oracle, cfg.now, zone, rrs, keys);
    var i :| 0 <= i < |sigs| && sigs[i] == s;
    assert RrsigsOf(rrs)[i] in RrsigsOf(rrs);
    VerifiedIff(cfg.oracle, cfg.now, Canonical(zone), rrs, keys, RrsigsOf(rrs)[i]);
    WildcardIff(cfg.oracle, cfg.now, Canonical(zone), rrs, keys, RrsigsOf(rrs)[i]);
    CanonicalIdempotent(zone);
  }

  lemma FirstSignerIsZone(cfg: Config, ds: seq<RR>, r: ChainResult)
    requires cfg.requireAll && SecureLink(cfg, ds, r)
    ensures var rrsigs := RrsigsOf(r.msg.answer + r.msg.ns);
      rrsigs != [] && rrsigs[0].data.SigData? && NamesEqual(rrsigs[0].data.signer, r.zone.name)
  {
    var keys := DnskeysOf(r.zone.dnskeys.records);
    FilterConcat(r.msg.answer, r.msg.ns, (x: RR) => x.data.SigData?);
    var rrsigs := RrsigsOf(r.msg.answer + r.msg.ns);
    assert rrsigs == RrsigsOf(r.msg.answer) + RrsigsOf(r.msg.ns);
    var s := (r.answer + r.authority)[0];
    assert s in r.answer + r.authority;
    if r.answer != [] {
      VerifiedSigns(cfg, r.zone.name, r.msg.answer, keys, s);
    } else {
      VerifiedSigns(cfg, r.zone.name, r.msg.ns, keys, s);
    }
    assert rrsigs[0] in rrsigs;
  }

  lemma OutcomeLinks(cfg: Config, zone: Zone, msg: Msg, ds: seq<RR>, st: Stage, r: ChainResult)
    requires Outcome(cfg, zone, msg, ds, st) && r == st.r.(state := st.status, err := r.err)
    requires st.status == Secure && cfg.requireAll ==> ds != [] && NamesEqual(ds[0].owner, zone.name)
    ensures Link(cfg, ds, r)
  {
    if st.status == Secure {
      ProvenanceOfFields(cfg, st.r, r);
      SameFieldsProve(cfg, st.r, r);
    }
  }

  lemma ProcessLinks(cfg: Config, q: Question, anchors: seq<RR>, results: seq<ChainResult>, input: Input)
    requires Process(RealContext(cfg, q, anchors), results, input).Done?
    ensures Link(cfg, DSAbove(anchors, results, |results|), Process(RealContext(cfg, q, anchors), results, input).r)
  {
    var ctx := RealContext(cfg, q, anchors);
    var ds := LastDS(ctx, results);
    StageOutcome(cfg, input.zone, input.msg, ds);
    var st := VerifyStage(cfg, input.zone, input.msg, ds);
    if st.status == Secure && cfg.requireAll {
      FirstSignerIsZone(cfg, ds, st.r);
    }
    OutcomeLinks(cfg, input.zone, input.msg, ds, st, Process(ctx, results, input).r);
  }

  lemma ProvenanceOfFields(cfg: Config, r: ChainResult, t: ChainResult)
    requires Provenance(cfg, r) && t == r.(state := t.state, err := t.err)
    ensures Provenance(cfg, t)
  {
    if ExpandedAnswer(cfg, r) {
      var s :| s in r.answer && s.wildcard && r.doe == WildcardDoe(cfg, r, s);
      assert WildcardDoe(cfg, t, s) == WildcardDoe(cfg, r, s);
    }
  }

  lemma LinkedOneMore(link: (seq<RR>, ChainResult) -> bool, anchors: seq<RR>, results: seq<ChainResult>, r: ChainResult)
    requires AllLinked(link, anchors, results) && link(DSAbove(anchors, results, |results|), r)
    ensures AllLinked(link, anchors, results + [r])
  {
    forall i: nat | i <= |results|
      ensures link(DSAbove(anchors, results + [r], i), (results + [r])[i])
    {
      assert DSAbove(anchors, results + [r], i) == DSAbove(anchors, results, i);
    }
  }

  /** Processing any list of inputs with the real verifier yields a linked chain. */
  lemma ChainIsLinked(cfg: Config, q: Question, anchors: seq<RR>, inputs: seq<Input>)
    ensures Linked(cfg, anchors, Chain(RulesOf(RealContext(cfg, q, anchors)), inputs, []).0)
  {
    var rules := RulesOf(RealContext(cfg, q, anchors));
    var inv := (rs: seq<ChainResult>) => Linked(cfg, anchors, rs);
    forall rs, x | inv(rs) && rules.step(rs, x).Done?
      ensures inv(rs + [rules.step(rs, x).r])
    {
      ProcessLinks(cfg, q, anchors, rs, x);
      LinkedOneMore(LinkOf(cfg), anchors, rs, rules.step(rs, x).r);
    }
    ChainInvariant(rules, inputs, [], inv);
  }

  // ---------------------------------------------------------------- anchored records

  /** A signature of this zone by this key, now valid, as section 5.3.1 of RFC 4035 has it. */
  ghost predicate Signs(cfg: Config, zone: Name, key: RR, s: Signature) {
    && s.rrsig.data.SigData? && NamesEqual(zone, s.rrsig.data.signer) && NamesEqual(key.owner, s.rrsig.data.signer)
    && s.rrsig.data.inception <= cfg.now <= s.rrsig.data.expiration && s.rrsig.data.labels <= |s.rrsig.owner|
    && key.data.KeyData? && key.data.keyAlgorithm == s.rrsig.data.algorithm
    && cfg.oracle.tagOf(key) == s.rrsig.data.keyTag && cfg.oracle.verifies(s.rrsig, key, s.rrset)
    && forall x :: x in s.rrset ==> x.owner == s.rrsig.owner && x.Rrtype() == s.rrsig.data.typeCovered
  }

  /** One link of evidence: a signature, its key, the key's own signature, that key, and a DS record. */
  datatype Evidence = Evidence(sig: Signature, key: RR, keySig: Signature, keySigningKey: RR, ds: RR)

  ghost predicate Supports(cfg: Config, r: ChainResult, e: Evidence, rr: RR) {
    && e.sig in r.answer + r.authority && rr in e.sig.rrset && Signs(cfg, r.zone.name, e.key, e.sig)
    && e.keySig in r.keys && e.key in e.keySig.rrset && Signs(cfg, r.zone.name, e.keySigningKey, e.keySig)
    && e.ds.data.DSData? && e.keySigningKey.data.KeyData? && e.ds.data.dsAlgorithm == e.keySigningKey.data.keyAlgorithm
    && e.ds.data.dsKeyTag == cfg.oracle.tagOf(e.keySigningKey) && cfg.oracle.dsMatches(e.ds, e.keySigningKey)
  }

  /**
   A path of evidence for a record of result `i`, one element per result from the root down: each
   supports the DS record the next one rests on, the last supports the record itself, and the
   first rests on a trust anchor.
   */
  ghost predicate Path(cfg: Config, anchors: seq<RR>, results: seq<ChainResult>, i: nat, rr: RR, es: seq<Evidence>) {
    && i < |results| && |es| == i + 1 && es[0].ds in anchors
    && forall j: nat {:trigger Supported(es, j, rr)} :: j <= i ==> Supports(cfg, results[j], es[j], Supported(es, j, rr))
  }

  /** What element `j` of a path supports. */
  function Supported(es: seq<Evidence>, j: nat, rr: RR): RR {
    if j + 1 < |es| then es[j + 1].ds else rr
  }

  ghost predicate Anchored(cfg: Config, anchors: seq<RR>, results: seq<ChainResult>, i: nat, rr: RR) {
    exists es :: Path(cfg, anchors, results, i, rr, es)
  }

  lemma ExtendPath(cfg: Config, anchors: seq<RR>, results: seq<ChainResult>, i: nat, es: seq<Evidence>, e: Evidence, rr: RR)
    requires i + 1 < |results| && Path(cfg, anchors, results, i, e.ds, es) && Supports(cfg, results[i + 1], e, rr)
    ensures Path(cfg, anchors, results, i + 1, rr, es + [e])
  {
    var fs := es + [e];
    forall j: nat | j <= i + 1
      ensures Supports(cfg, results[j], fs[j], Supported(fs, j, rr))
    {
      assert j <= i ==> Supported(fs, j, rr) == Supported(es, j, e.ds);
    }
  }

  /** In a Secure result under the strict policy, a signed record has its evidence. */
  lemma LinkHasEvidence(cfg: Config, ds: seq<RR>, r: ChainResult, s: Signature, rr: RR) returns (e: Evidence)
    requires GoodOracle(cfg.oracle) && cfg.requireAll && SecureLink(cfg, ds, r)
    requires s in r.answer + r.authority && rr in s.rrset
    ensures Supports(cfg, r, e, rr) && e.ds in ds
  {
    var krs := r.zone.dnskeys.records;
    var keys := DnskeysOf(krs);
    var ksks := KeySigningKeys(cfg.oracle, ds, keys);
    if s in r.answer {
      VerifiedSigns(cfg, r.zone.name, r.msg.answer, keys, s);
    } else {
      VerifiedSigns(cfg, r.zone.name, r.msg.ns, keys, s);
    }
    var ks := CoverageByCounting(cfg.oracle, cfg.now, r.zone.name, krs, ksks, AnswerSection, true, s.key.value);
    VerifiedSigns(cfg, r.zone.name, krs, ksks, ks);
    var d :| d in ds && Designates(cfg.oracle, d, ks.key.value);
    e := Evidence(s, s.key.value, ks, ks.key.value, d);
  }

  /** DS records come from signed RRsets. */
  lemma DSIsSigned(cfg: Config, ds: seq<RR>, r: ChainResult, d: RR) returns (s: Signature)
    requires SecureLink(cfg, ds, r) && d in r.dsRecords
    ensures s in r.answer + r.authority && d in s.rrset
  {
    s :| (s in r.answer || s in r.authority) && d in s.rrset;
  }

  /** Some signature of the result covers the record. */
  ghost predicate Covers(r: ChainResult, rr: RR) {
    exists s :: s in r.answer + r.authority && rr in s.rrset
  }

  /** Whatever the result covers, its own DS records included, has evidence resting on `ds`. */
  ghost predicate Evident(cfg: Config, ds: seq<RR>, r: ChainResult) {
    && (forall rr {:trigger Covers(r, rr)} :: Covers(r, rr) ==> exists e :: Supports(cfg, r, e, rr) && e.ds in ds)
    && (forall d :: d in r.dsRecords ==> Covers(r, d))
  }

  lemma SecureLinkIsEvident(cfg: Config, ds: seq<RR>, r: ChainResult)
    requires GoodOracle(cfg.oracle) && cfg.requireAll && SecureLink(cfg, ds, r)
    ensures Evident(cfg, ds, r)
  {
    forall rr | Covers(r, rr)
      ensures exists e :: Supports(cfg, r, e, rr) && e.ds in ds
    {
      var s :| s in r.answer + r.authority && rr in s.rrset;
      var e := LinkHasEvidence(cfg, ds, r, s, rr);
    }
    forall d | d in r.dsRecords
      ensures Covers(r, d)
    {
      var s := DSIsSigned(cfg, ds, r, d);
    }
  }

  /** Everything result `i` covers is anchored. */
  ghost predicate AnchoredAt(cfg: Config, anchors: seq<RR>, results: seq<ChainResult>, i: nat) {
    i < |results| && forall rr {:trigger Covers(results[i], rr)} :: Covers(results[i], rr) ==> Anchored(cfg, anchors, results, i, rr)
  }

  lemma AnchorFirst(cfg: Config, anchors: seq<RR>, results: seq<ChainResult>)
    requires results != [] && Evident(cfg, anchors, results[0])
    ensures AnchoredAt(cfg, anchors, results, 0)
  {
    forall rr | Covers(results[0], rr)
      ensures Anchored(cfg, anchors, results, 0, rr)
    {
      var e :| Supports(cfg, results[0], e, rr) && e.ds in anchors;
      assert Path(cfg, anchors, results, 0, rr, [e]);
    }
  }

  lemma AnchorNext(cfg: Config, anchors: seq<RR>, results: seq<ChainResult>, i: nat)
    requires i + 1 < |results| && AnchoredAt(cfg, anchors, results, i)
    requires forall d :: d in results[i].dsRecords ==> Covers(results[i], d)
    requires Evident(cfg, results[i].dsRecords, results[i + 1])
    ensures AnchoredAt(cfg, anchors, results, i + 1)
  {
    var r := results[i + 1];
    forall rr | Covers(r, rr)
      ensures Anchored(cfg, anchors, results, i + 1, rr)
    {
      var e :| Supports(cfg, r, e, rr) && e.ds in results[i].dsRecords;
      assert Covers(results[i], e.ds);
      var es :| Path(cfg, anchors, results, i, e.ds, es);
      ExtendPath(cfg, anchors, results, i, es, e, rr);
    }
  }

  lemma {:induction false} EvidentIsAnchored(cfg: Config, anchors: seq<RR>, results: seq<ChainResult>, i: nat)
    requires forall k: nat {:trigger DSAbove(anchors, results, k)} ::
      k < |results| ==> Evident(cfg, DSAbove(anchors, results, k), results[k])
    requires i < |results|
    ensures AnchoredAt(cfg, anchors, results, i)
  {
    assert Evident(cfg, DSAbove(anchors, results, 0), results[0]);
    AnchorFirst(cfg, anchors, results);
    for k := 0 to i
      invariant AnchoredAt(cfg, anchors, results, k)
    {
      assert Evident(cfg, DSAbove(anchors, results, k), results[k]);
      assert Evident(cfg, DSAbove(anchors, results, k + 1), results[k + 1]);
      AnchorNext(cfg, anchors, results, k);
    }
  }

  // ---------------------------------------------------------------- what has to be signed is

  /** Equal counts and a record to be signed leave no section without signatures. */
  lemma CountedNeedsSignatures(rrs: seq<RR>, sigs: seq<Signature>, section: Section, rr: RR)
    requires CountError(rrs, sigs, section).None? && rr in rrs && Counted(rr, sigs, section)
    ensures sigs != []
  {
    assert (rr.owner, rr.Rrtype()) in RecordCombinations(rrs, sigs, section);
  }

  lemma SectionIsSigned(cfg: Config, zone: Name, rrs: seq<RR>, keys: seq<RR>, section: Section, sigs: seq<Signature>, rr: RR)
    returns (s: Signature)
    requires GoodOracle(cfg.oracle) && Checked(cfg, zone, rrs, keys, section, sigs)
    requires (forall x :: x in sigs ==> x.verified) && rr in rrs && Counted(rr, sigs, section)
    ensures s in sigs && rr in s.rrset
  {
    CountedNeedsSignatures(rrs, sigs, section, rr);
    s := CoverageByCounting(cfg.oracle, cfg.now, zone, rrs, keys, section, true, rr);
  }

  /** A record of the message that has to be signed. */
  ghost predicate MustBeSigned(r: ChainResult, rr: RR) {
    || (rr in r.msg.answer && Counted(rr, r.answer, AnswerSection))
    || (rr in r.msg.ns && Counted(rr, r.authority, AuthoritySection))
  }

  lemma RequiredIsSigned(cfg: Config, ds: seq<RR>, r: ChainResult, rr: RR) returns (s: Signature)
    requires GoodOracle(cfg.oracle) && cfg.requireAll && SecureLink(cfg, ds, r) && MustBeSigned(r, rr)
    ensures s in r.answer + r.authority && rr in s.rrset
  {
    var keys := DnskeysOf(r.zone.dnskeys.records);
    assert forall y :: y in r.answer || y in r.authority ==> y in r.answer + r.authority;
    if rr in r.msg.answer && Counted(rr, r.answer, AnswerSection) {
      s := SectionIsSigned(cfg, r.zone.name, r.msg.answer, keys, AnswerSection, r.answer, rr);
    } else {
      s := SectionIsSigned(cfg, r.zone.name, r.msg.ns, keys, AuthoritySection, r.authority, rr);
    }
  }

  // ---------------------------------------------------------------- the theorems

  /** All records that have to be signed, in all messages of the chain, are anchored. */
  ghost predicate AllAnchored(cfg: Config, anchors: seq<RR>, results: seq<ChainResult>) {
    forall i: nat, rr :: i < |results| && MustBeSigned(results[i], rr) ==> Anchored(cfg, anchors, results, i, rr)
  }

  /**
   Under the strict policy, over the RRSIG records: one with fewer labels than its owner is the only
   such one in a positive answer, and the denial state is that of a proof of its expansion.
   */
  ghost predicate ExpandedRightly(cfg: Config, r: ChainResult) {
    var rrsigs := RrsigsOf(r.msg.answer);
    r.msg.answer != [] && !TypeExists(r.msg.ns, TYPE_SOA) ==>
      forall i :: 0 <= i < |rrsigs| && SpareLabels(rrsigs[i]) ==>
        && (forall j :: 0 <= j < |rrsigs| && j != i ==> !SpareLabels(rrsigs[j]))
        && r.doe in {NsecWildcard, Nsec3Wildcard} && ExpansionProved(cfg, r, rrsigs[i], r.doe)
  }

  /** A verified RRSIG record expands a wildcard exactly when it has labels to spare. */
  lemma VerifiedExpandsIff(cfg: Config, ds: seq<RR>, r: ChainResult, i: nat)
    requires SecureLink(cfg, ds, r) && i < |r.answer| && r.answer[i].verified
    ensures i < |RrsigsOf(r.msg.answer)|
    ensures var rrsig := RrsigsOf(r.msg.answer)[i]; Expands(r.zone.name, cfg.now, rrsig) <==> SpareLabels(rrsig)
  {
    var rrsigs, keys := RrsigsOf(r.msg.answer), DnskeysOf(r.zone.dnskeys.records);
    assert rrsigs[i] in rrsigs;
    VerifiedIff(cfg.oracle, cfg.now, Canonical(r.zone.name), r.msg.answer, keys, rrsigs[i]);
    CanonicalIdempotent(r.zone.name);
  }

  lemma SpareIsExpanded(cfg: Config, r: ChainResult)
    requires WildcardsProved(cfg, r)
    requires forall i :: 0 <= i < |RrsigsOf(r.msg.answer)| ==>
      (Expands(r.zone.name, cfg.now, RrsigsOf(r.msg.answer)[i]) <==> SpareLabels(RrsigsOf(r.msg.answer)[i]))
    ensures ExpandedRightly(cfg, r)
  {
    var rrsigs := RrsigsOf(r.msg.answer);
    if r.msg.answer != [] && !TypeExists(r.msg.ns, TYPE_SOA) {
      forall i | 0 <= i < |rrsigs| && SpareLabels(rrsigs[i])
        ensures forall j :: 0 <= j < |rrsigs| && j != i ==> !SpareLabels(rrsigs[j])
        ensures r.doe in {NsecWildcard, Nsec3Wildcard} && ExpansionProved(cfg, r, rrsigs[i], r.doe)
      {
        assert Expands(r.zone.name, cfg.now, rrsigs[i]) && OnlyExpansion(cfg, r, i);
      }
    }
  }

  lemma StrictlyExpanded(cfg: Config, ds: seq<RR>, r: ChainResult)
    requires cfg.requireAll && SecureLink(cfg, ds, r) && WildcardsProved(cfg, r)
    ensures ExpandedRightly(cfg, r)
  {
    forall i | 0 <= i < |RrsigsOf(r.msg.answer)|
      ensures Expands(r.zone.name, cfg.now, RrsigsOf(r.msg.answer)[i]) <==> SpareLabels(RrsigsOf(r.msg.answer)[i])
    {
      AnswerIsVerified(cfg, ds, r, i);
      VerifiedExpandsIff(cfg, ds, r, i);
    }
    SpareIsExpanded(cfg, r);
  }

  lemma AnswerIsVerified(cfg: Config, ds: seq<RR>, r: ChainResult, i: nat)
    requires cfg.requireAll && SecureLink(cfg, ds, r) && i < |RrsigsOf(r.msg.answer)|
    ensures i < |r.answer| && r.answer[i].verified
  {
    assert r.answer[i] in r.answer + r.authority;
  }

  lemma SecureChainExpandsRightly(cfg: Config, anchors: seq<RR>, results: seq<ChainResult>)
    requires cfg.requireAll && Linked(cfg, anchors, results)
    requires forall i :: 0 <= i < |results| ==> results[i].state == Secure
    ensures forall i :: 0 <= i < |results| ==> ExpandedRightly(cfg, results[i])
  {
    forall i | 0 <= i < |results|
      ensures ExpandedRightly(cfg, results[i])
    {
      LinkAt(cfg, anchors, results, i);
      StrictlyExpanded(cfg, DSAbove(anchors, results, i), results[i]);
    }
  }

  lemma SecureChainIsAnchored(cfg: Config, anchors: seq<RR>, results: seq<ChainResult>)
    requires GoodOracle(cfg.oracle) && cfg.requireAll && Linked(cfg, anchors, results)
    requires forall i :: 0 <= i < |results| ==> results[i].state == Secure
    ensures AllAnchored(cfg, anchors, results)
  {
    forall k: nat {:trigger DSAbove(anchors, results, k)} | k < |results|
      ensures Evident(cfg, DSAbove(anchors, results, k), results[k])
    {
      LinkAt(cfg, anchors, results, k);
      SecureLinkIsEvident(cfg, DSAbove(anchors, results, k), results[k]);
    }
    forall i: nat, rr | i < |results| && MustBeSigned(results[i], rr)
      ensures Anchored(cfg, anchors, results, i, rr)
    {
      LinkAt(cfg, anchors, results, i);
      var s := RequiredIsSigned(cfg, DSAbove(anchors, results, i), results[i], rr);
      assert Covers(results[i], rr);
      EvidentIsAnchored(cfg, anchors, results, i);
    }
  }

  /**
   Trust path. If the verdict on a chain is Secure under the strict policy, the first zone is
   the root, every result is Secure, each zone is the one named by the first DS record of the
   link above it, and every record that has to be signed, in every message of the chain, is
   anchored at a root trust anchor. A wildcard in an answer was proved to be rightly expanded. The
   question is answered by an anchored record, or the last response is a verified denial of its own
   question.
   */
  lemma SecureMeansAnchored(cfg: Config, q: Question, anchors: seq<RR>, inputs: seq<Input>)
    requires GoodOracle(cfg.oracle) && cfg.requireAll
    requires anchors != [] && NamesEqual(anchors[0].owner, ROOT)
    requires ChainVerdict(RealContext(cfg, q, anchors), inputs).auth == Secure
    ensures var results := Chain(RulesOf(RealContext(cfg, q, anchors)), inputs, []).0;
      && NamesZones(anchors, results) && NamesEqual(results[0].zone.name, ROOT)
      && (forall i :: 0 <= i < |results| ==> results[i].state == Secure && ExpandedRightly(cfg, results[i]))
      && AllAnchored(cfg, anchors, results)
      && (AnswersQuestion(cfg, q, anchors, results) || EndsInDenial(cfg, results))
  {
    var results := Chain(RulesOf(RealContext(cfg, q, anchors)), inputs, []).0;
    ChainIsLinked(cfg, q, anchors, inputs);
    SecureVerdictIff(q, results);
    SecureChainNamesZones(cfg, anchors, results);
    SecureChainIsAnchored(cfg, anchors, results);
    SecureChainExpandsRightly(cfg, anchors, results);
    SecureSettlesQuestion(cfg, q, anchors, results);
    FirstZoneIsRoot(anchors, results);
  }

  /** Each zone is the one named by the first DS record of the link above it. */
  ghost predicate NamesZones(anchors: seq<RR>, results: seq<ChainResult>) {
    results != [] && forall i :: 0 <= i < |results| ==>
      DSAbove(anchors, results, i) != [] && NamesEqual(DSAbove(anchors, results, i)[0].owner, results[i].zone.name)
  }

  lemma SecureChainNamesZones(cfg: Config, anchors: seq<RR>, results: seq<ChainResult>)
    requires cfg.requireAll && Linked(cfg, anchors, results) && results != []
    requires forall i :: 0 <= i < |results| ==> results[i].state == Secure
    ensures NamesZones(anchors, results)
  {
    forall i | 0 <= i < |results|
      ensures DSAbove(anchors, results, i) != [] && NamesEqual(DSAbove(anchors, results, i)[0].owner, results[i].zone.name)
    {
      LinkAt(cfg, anchors, results, i);
    }
  }

  lemma FirstZoneIsRoot(anchors: seq<RR>, results: seq<ChainResult>)
    requires NamesZones(anchors, results) && anchors != [] && NamesEqual(anchors[0].owner, ROOT)
    ensures NamesEqual(results[0].zone.name, ROOT)
  {
    assert DSAbove(anchors, results, 0) == anchors;
  }

  lemma NextIsInsecure(cfg: Config, anchors: seq<RR>, results: seq<ChainResult>, j: nat)
    requires Linked(cfg, anchors, results) && j + 1 < |results| && results[j].state == Insecure
    ensures results[j + 1].state == Insecure
  {
    LinkAt(cfg, anchors, results, j);
    LinkAt(cfg, anchors, results, j + 1);
  }

  /** Once a result is Insecure, all later ones are. */
  lemma InsecureStays(cfg: Config, anchors: seq<RR>, results: seq<ChainResult>, i: nat, j: nat)
    requires Linked(cfg, anchors, results) && i <= j < |results| && results[i].state == Insecure
    ensures results[j].state == Insecure
  {
    for k := i to j
      invariant results[k].state == Insecure
    {
      NextIsInsecure(cfg, anchors, results, k);
    }
  }

  /**
   The chain breaks at `i`: Secure before, Insecure from there on. The result before the break
   has no DS records and carries a denial, of a delegation or of a question for DS records.
   */
  ghost predicate BreaksAt(cfg: Config, results: seq<ChainResult>, i: nat) {
    && 0 < i < |results|
    && (forall j :: 0 <= j < i ==> results[j].state == Secure)
    && (forall j :: i <= j < |results| ==> results[j].state == Insecure)
    && ProvesInsecure(results[i - 1], results[i])
    && results[i - 1].dsRecords == []
    && (DeniedDelegation(cfg, results[i - 1]) || DeniedDSQuestion(cfg, results[i - 1]))
  }

  /** The first zone offers no key that matches a trust anchor, and nothing after it is verified. */
  ghost predicate NeverAnchored(cfg: Config, anchors: seq<RR>, results: seq<ChainResult>) {
    && results != [] && (anchors == [] || NoDesignatedKey(cfg, anchors, results[0].zone))
    && forall j :: 0 <= j < |results| ==> results[j].state == Insecure
  }

  /** All results are Secure and the last denial is an NSEC3 opt-out, of a delegation or of a question for DS records. */
  ghost predicate EndsInOptOut(cfg: Config, results: seq<ChainResult>) {
    && results != [] && results[|results| - 1].doe == Nsec3OptOut
    && (DeniedDelegation(cfg, results[|results| - 1]) || DeniedDSQuestion(cfg, results[|results| - 1]))
    && forall j :: 0 <= j < |results| ==> results[j].state == Secure
  }

  lemma DenialLeavesNoDS(cfg: Config, previous: ChainResult, current: ChainResult)
    requires Provenance(cfg, previous) && ProvesInsecure(previous, current)
    ensures previous.dsRecords == [] && (DeniedDelegation(cfg, previous) || DeniedDSQuestion(cfg, previous))
  {
  }

  lemma OptOutIsForDS(cfg: Config, r: ChainResult)
    requires Provenance(cfg, r) && r.doe == Nsec3OptOut
    ensures DeniedDelegation(cfg, r) || DeniedDSQuestion(cfg, r)
  {
  }

  /** The three causes of an Insecure verdict. */
  ghost predicate IsDowngraded(cfg: Config, anchors: seq<RR>, results: seq<ChainResult>) {
    NeverAnchored(cfg, anchors, results) || (exists i :: BreaksAt(cfg, results, i)) || EndsInOptOut(cfg, results)
  }

  /**
   No silent downgrade. The verdict is Insecure if and only if the chain was processed and the
   first zone offers no key that matches a trust anchor, or the last Secure result before the
   break has no DS records and a verified denial, or the last result of a Secure chain is an NSEC3
   opt-out of a delegation or of a question for DS records, never of another question. What the denial at a break says about the next zone is the subject of `Downgrade`.
   */
  lemma NoSilentDowngrade(cfg: Config, q: Question, anchors: seq<RR>, inputs: seq<Input>)
    ensures var (results, e) := Chain(RulesOf(RealContext(cfg, q, anchors)), inputs, []);
      ChainVerdict(RealContext(cfg, q, anchors), inputs).auth == Insecure <==> e.None? && IsDowngraded(cfg, anchors, results)
  {
    var results := Chain(RulesOf(RealContext(cfg, q, anchors)), inputs, []).0;
    ChainIsLinked(cfg, q, anchors, inputs);
    InsecureVerdictIff(cfg, q, anchors, results);
  }

  lemma InsecureVerdictIff(cfg: Config, q: Question, anchors: seq<RR>, results: seq<ChainResult>)
    requires Linked(cfg, anchors, results)
    ensures Verdict(q, results).auth == Insecure <==> IsDowngraded(cfg, anchors, results)
  {
    if Verdict(q, results).auth == Insecure {
      InsecureVerdictCauses(cfg, q, anchors, results);
    }
    if IsDowngraded(cfg, anchors, results) {
      DowngradedIsInsecure(cfg, q, anchors, results);
    }
  }

  lemma InsecureVerdictCauses(cfg: Config, q: Question, anchors: seq<RR>, results: seq<ChainResult>)
    requires Linked(cfg, anchors, results) && Verdict(q, results).auth == Insecure
    ensures IsDowngraded(cfg, anchors, results)
  {
    var i := FirstNotSecure(results);
    if i < |results| {
      LinkAt(cfg, anchors, results, i);
      forall j | i <= j < |results|
        ensures results[j].state == Insecure
      {
        InsecureStays(cfg, anchors, results, i, j);
      }
      if i > 0 {
        ProvenanceAt(cfg, anchors, results, i - 1);
        DenialLeavesNoDS(cfg, results[i - 1], results[i]);
        assert BreaksAt(cfg, results, i);
      } else {
        assert NeverAnchored(cfg, anchors, results);
      }
    } else {
      var last := |results| - 1;
      assert results[last].doe == Nsec3OptOut;
      ProvenanceAt(cfg, anchors, results, last);
      OptOutIsForDS(cfg, results[last]);
      assert EndsInOptOut(cfg, results);
    }
  }

  lemma BreakIsInsecure(q: Question, results: seq<ChainResult>, i: nat)
    requires 0 < i < |results| && (forall j :: 0 <= j < i ==> results[j].state == Secure)
    requires (forall j :: i <= j < |results| ==> results[j].state == Insecure) && ProvesInsecure(results[i - 1], results[i])
    ensures Verdict(q, results).auth == Insecure
  {
    OtherVerdicts(q, results, i);
  }

  lemma UnverifiedIsInsecure(q: Question, results: seq<ChainResult>)
    requires results != [] && forall j :: 0 <= j < |results| ==> results[j].state == Insecure
    ensures Verdict(q, results).auth == Insecure
  {
    OtherVerdicts(q, results, 0);
  }

  lemma DowngradedIsInsecure(cfg: Config, q: Question, anchors: seq<RR>, results: seq<ChainResult>)
    requires IsDowngraded(cfg, anchors, results)
    ensures Verdict(q, results).auth == Insecure
  {
    if NeverAnchored(cfg, anchors, results) {
      UnverifiedIsInsecure(q, results);
    } else if EndsInOptOut(cfg, results) {
      AllSecureVerdict(q, results);
    } else {
      var i :| BreaksAt(cfg, results, i);
      BreakIsInsecure(q, results, i);
    }
  }

  /** A first response without signatures, of a zone without a key for the anchors, is Insecure. */
  lemma UnanchoredZoneIsInsecure(cfg: Config, q: Question, anchors: seq<RR>, input: Input)
    requires anchors != [] && NoDesignatedKey(cfg, anchors, input.zone) && RrsigsOf(input.msg.answer + input.msg.ns) == []
    ensures ChainVerdict(RealContext(cfg, q, anchors), [input]).auth == Insecure
  {
    var ctx := RealContext(cfg, q, anchors);
    assert VerifyStage(cfg, input.zone, input.msg, anchors).status == Insecure;
    var p := Process(ctx, [], input);
    assert p.Done? && p.r.state == Insecure;
    ChainSnoc(ctx, [input], 0);
    assert [input][..0] == [] && [input][..1] == [input];
    var none: seq<ChainResult> := [];
    assert none + [p.r] == [p.r];
    assert FirstBogus([p.r]) == 1 && FirstNotSecure([p.r]) == 0;
  }

  /**
   Keys cannot be stripped below the first zone: where the link above has DS records, a result
   other than Secure makes the verdict Bogus.
   */
  lemma StrippedKeysAreBogus(cfg: Config, q: Question, anchors: seq<RR>, results: seq<ChainResult>, i: nat)
    requires Linked(cfg, anchors, results) && 0 < i < |results| && results[i].state != Secure
    requires forall j :: 0 <= j < i ==> results[j].state == Secure
    requires results[i - 1].dsRecords != []
    ensures Verdict(q, results).auth == Bogus
  {
    ProvenanceAt(cfg, anchors, results, i - 1);
    DSLeavesNoDenial(cfg, results[i - 1], results[i]);
    UnprovenBreakIsBogus(q, results, i);
  }

  lemma DSLeavesNoDenial(cfg: Config, previous: ChainResult, current: ChainResult)
    requires Provenance(cfg, previous) && previous.dsRecords != []
    ensures !ProvesInsecure(previous, current)
  {
    if ProvesInsecure(previous, current) {
      DenialLeavesNoDS(cfg, previous, current);
    }
  }

  lemma UnprovenBreakIsBogus(q: Question, results: seq<ChainResult>, i: nat)
    requires 0 < i < |results| && results[i].state != Secure && !ProvesInsecure(results[i - 1], results[i])
    requires forall j :: 0 <= j < i ==> results[j].state == Secure
    ensures Verdict(q, results).auth == Bogus
  {
    assert FirstNotSecure(results) == i;
  }

  // ---------------------------------------------------------------- what a Secure verdict says about the question

  /** The last answer holds an anchored record of the question's name, of its type or a CNAME. */
  ghost predicate AnswersQuestion(cfg: Config, q: Question, anchors: seq<RR>, results: seq<ChainResult>) {
    results != [] && exists rr ::
      && rr in results[|results| - 1].msg.answer && rr.owner == q.name && (rr.Rrtype() == q.qtype || rr.Rrtype() == TYPE_CNAME)
      && (rr.Rrtype() != TYPE_RRSIG ==> Anchored(cfg, anchors, results, |results| - 1, rr))
  }

  /** The last response is a verified denial of its own question. */
  ghost predicate EndsInDenial(cfg: Config, results: seq<ChainResult>) {
    && results != [] && DeniedQuestion(cfg, results[|results| - 1])
    && results[|results| - 1].doe in {NsecNoData, Nsec3NoData, NsecNxDomain, Nsec3NxDomain}
  }

  lemma NegativeStateIsDenial(cfg: Config, r: ChainResult)
    requires Provenance(cfg, r) && r.doe in {NsecNoData, Nsec3NoData, NsecNxDomain, Nsec3NxDomain}
    ensures DeniedQuestion(cfg, r)
  {
  }

  lemma PositiveIsAnswered(cfg: Config, q: Question, anchors: seq<RR>, results: seq<ChainResult>, rr: RR)
    requires results != [] && AllAnchored(cfg, anchors, results)
    requires rr in results[|results| - 1].msg.answer && rr.owner == q.name && rr.Rrtype() in {q.qtype, TYPE_CNAME}
    ensures AnswersQuestion(cfg, q, anchors, results)
  {
    var last := results[|results| - 1];
    if rr.Rrtype() != TYPE_RRSIG {
      assert MustBeSigned(last, rr);
    }
  }

  /** A Secure verdict means that the question is answered by an anchored record, or that the last response denies its own. */
  lemma SecureSettlesQuestion(cfg: Config, q: Question, anchors: seq<RR>, results: seq<ChainResult>)
    requires Linked(cfg, anchors, results) && AllAnchored(cfg, anchors, results) && Verdict(q, results).auth == Secure
    ensures AnswersQuestion(cfg, q, anchors, results) || EndsInDenial(cfg, results)
  {
    SecureVerdictIff(q, results);
    var last := results[|results| - 1];
    ProvenanceAt(cfg, anchors, results, |results| - 1);
    if last.doe in {NsecNoData, Nsec3NoData, NsecNxDomain, Nsec3NxDomain} {
      NegativeStateIsDenial(cfg, last);
    } else {
      var rr :| rr in last.msg.answer && rr.owner == q.name && rr.Rrtype() in {q.qtype, TYPE_CNAME};
      PositiveIsAnswered(cfg, q, anchors, results, rr);
    }
  }
}
