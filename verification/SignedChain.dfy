/**
 The converse of the trust path: a properly signed chain that answers its question is Secure.
 */
module SignedChain {
  import opened Collections
  import opened Names
  import opened Records
  import opened Signatures
  import opened Verifier
  import opened StageExactness
  import opened ReorderBuffer
  import opened Authenticator
  import opened ChainOfTrust
  import opened Downgrade

  // ---------------------------------------------------------------- every chain

  /** The DS records that a response hands down. */
  function DSBelow(cfg: Config, input: Input): seq<RR> {
    DsOf(Gather(SignaturesFor(cfg.oracle, cfg.now, input.zone.name, input.msg.ns, ZoneKeys(input.zone)), TYPE_DS))
  }

  /** The response's signatures pass under these DS records, and the first is by the zone they are for. */
  ghost predicate SignedUnder(cfg: Config, ds: seq<RR>, input: Input) {
    && SignaturesPass(cfg, input.zone, input.msg, ds)
    && var rrsigs := RrsigsOf(input.msg.answer + input.msg.ns);
    && rrsigs != [] && ds != [] && rrsigs[0].data.SigData? && NamesEqual(ds[0].owner, rrsigs[0].data.signer)
  }

  ghost predicate IsSignedReferral(msg: Msg) {
    msg.answer == [] && TypeExists(msg.ns, TYPE_NS) && !TypeExists(msg.ns, TYPE_SOA) && exists d :: SignedDS(msg.ns, d)
  }

  /** A record for the question, or an alias at its name; a wildcard in the answer is the only one and proved. */
  ghost predicate IsSignedAnswer(cfg: Config, q: Question, ds: seq<RR>, input: Input) {
    && !TypeExists(input.msg.ns, TYPE_SOA) && input.zone.dnskeys.Keys?
    && (exists rr :: rr in input.msg.answer && rr.owner == q.name && rr.Rrtype() in {q.qtype, TYPE_CNAME})
    && ExpansionsCheck(cfg, Passed(cfg, input.zone, input.msg, ds))
  }

  /** A denial of the response's own question that is not an opt-out. */
  ghost predicate IsSignedDenial(cfg: Config, ds: seq<RR>, input: Input) {
    && TypeExists(input.msg.ns, TYPE_SOA) && input.zone.dnskeys.Keys?
    && QuestionDoe(cfg, Passed(cfg, input.zone, input.msg, ds)) in {NsecNoData, Nsec3NoData, NsecNxDomain, Nsec3NxDomain}
  }

  /** The two conditions as relations between DS records and a response. */
  ghost function Referral(cfg: Config): (seq<RR>, Input) -> bool {
    (ds: seq<RR>, x: Input) => SignedUnder(cfg, ds, x) && IsSignedReferral(x.msg)
  }

  ghost function Final(cfg: Config, q: Question): (seq<RR>, Input) -> bool {
    (ds: seq<RR>, x: Input) => SignedUnder(cfg, ds, x) && (IsSignedAnswer(cfg, q, ds, x) || IsSignedDenial(cfg, ds, x))
  }

  ghost function HandsDown(cfg: Config): Input -> seq<RR> {
    (x: Input) => DSBelow(cfg, x)
  }

  /** Nested zones, each signed under the DS records the one above hands down, the last with the answer. */
  ghost predicate WellSigned(cfg: Config, q: Question, anchors: seq<RR>, inputs: seq<Input>) {
    Related(anchors, HandsDown(cfg), Referral(cfg), Final(cfg, q), inputs)
  }

  /** Nested zones, all but the last related in the first way to what is handed down to them, the last in the second. */
  ghost predicate Related(anchors: seq<RR>, handed: Input -> seq<RR>, referral: (seq<RR>, Input) -> bool, final: (seq<RR>, Input) -> bool, inputs: seq<Input>) {
    && inputs != []
    && (forall k :: 0 < k < |inputs| ==> IsProperSubDomain(inputs[k - 1].zone.name, inputs[k].zone.name))
    && (forall k :: 0 <= k < |inputs| - 1 ==> referral(if k == 0 then anchors else handed(inputs[k - 1]), inputs[k]))
    && var last := |inputs| - 1;
    && final(if last == 0 then anchors else handed(inputs[last - 1]), inputs[last])
  }

  // ---------------------------------------------------------------- one step

  /** A response signed under the DS records of the last result is handed to the verifier. */
  lemma SignedIsProcessed(cfg: Config, q: Question, anchors: seq<RR>, results: seq<ChainResult>, input: Input, ds: seq<RR>, st: Stage)
    requires ds == LastDS(RealContext(cfg, q, anchors), results) && ZoneError(results, input.zone).None?
    requires var rrsigs := RrsigsOf(input.msg.answer + input.msg.ns);
      rrsigs != [] && ds != [] && rrsigs[0].data.SigData? && NamesEqual(ds[0].owner, rrsigs[0].data.signer)
    requires st == VerifyStage(cfg, input.zone, input.msg, ds) && st.status == Secure
    ensures var p := Process(RealContext(cfg, q, anchors), results, input); p.Done? && p.r == st.r.(state := Secure, err := p.r.err)
  {
    assert SignerError(RealContext(cfg, q, anchors), ds, input.msg).None?;
  }

  lemma ReferralIsSecure(cfg: Config, ds: seq<RR>, input: Input)
    requires Referral(cfg)(ds, input)
    ensures var st := VerifyStage(cfg, input.zone, input.msg, ds);
      st.status == Secure && st.r.zone == input.zone && st.r.msg == input.msg && st.r.dsRecords == DSBelow(cfg, input)
  {
    DelegatingSecureIff(cfg, input.zone, input.msg, ds);
    StageOutcome(cfg, input.zone, input.msg, ds);
  }

  /** The last response leads to a Secure result that settles the question. */
  lemma FinalIsSecure(cfg: Config, q: Question, ds: seq<RR>, input: Input)
    requires Final(cfg, q)(ds, input)
    ensures var st := VerifyStage(cfg, input.zone, input.msg, ds); st.status == Secure && Settles(q, st.r)
  {
    StageOutcome(cfg, input.zone, input.msg, ds);
    if IsSignedDenial(cfg, ds, input) {
      NegativeSecureIff(cfg, input.zone, input.msg, ds);
    } else {
      PositiveSecureIff(cfg, input.zone, input.msg, ds);
      AcceptedDoe(cfg, VerifyStage(cfg, input.zone, input.msg, ds).r);
    }
  }

  lemma AcceptedDoe(cfg: Config, r: ChainResult)
    requires ExpansionsAreProved(cfg, r)
    ensures r.doe in {NotFound, NsecWildcard, Nsec3Wildcard}
  {
    if !NoExpansion(cfg, r) {
      var rrsigs := RrsigsOf(r.msg.answer);
      var rrsig :| rrsig in rrsigs && Expands(r.zone.name, cfg.now, rrsig);
      var i :| 0 <= i < |rrsigs| && rrsigs[i] == rrsig;
      assert ExpansionProved(cfg, r, rrsigs[i], r.doe);
    }
  }

  lemma ReferralStep(cfg: Config, q: Question, anchors: seq<RR>, results: seq<ChainResult>, input: Input)
    requires ZoneError(results, input.zone).None? && Referral(cfg)(LastDS(RealContext(cfg, q, anchors), results), input)
    ensures var p := RulesOf(RealContext(cfg, q, anchors)).step(results, input);
      p.Done? && p.r.state == Secure && p.r.zone == input.zone && p.r.dsRecords == DSBelow(cfg, input)
  {
    var ds := LastDS(RealContext(cfg, q, anchors), results);
    ReferralIsSecure(cfg, ds, input);
    SignedIsProcessed(cfg, q, anchors, results, input, ds, VerifyStage(cfg, input.zone, input.msg, ds));
  }

  lemma FinalStep(cfg: Config, q: Question, anchors: seq<RR>, results: seq<ChainResult>, input: Input)
    requires ZoneError(results, input.zone).None? && Final(cfg, q)(LastDS(RealContext(cfg, q, anchors), results), input)
    ensures var p := RulesOf(RealContext(cfg, q, anchors)).step(results, input); p.Done? && p.r.state == Secure && Settles(q, p.r)
  {
    var ds := LastDS(RealContext(cfg, q, anchors), results);
    FinalIsSecure(cfg, q, ds, input);
    SignedIsProcessed(cfg, q, anchors, results, input, ds, VerifyStage(cfg, input.zone, input.msg, ds));
  }

  // ---------------------------------------------------------------- the whole chain

  /** What is known of the results of the first `k` responses. */
  ghost predicate SecureSoFar(q: Question, handed: Input -> seq<RR>, inputs: seq<Input>, k: nat, results: seq<ChainResult>) {
    && k <= |inputs| && |results| == k && AllSecure(results)
    && (0 < k < |inputs| ==> results[k - 1].zone == inputs[k - 1].zone && results[k - 1].dsRecords == handed(inputs[k - 1]))
    && (0 < k == |inputs| ==> Settles(q, results[k - 1]))
  }

  /** Every response so related to the DS records of the last result is processed, and Secure. */
  ghost predicate Accepts(ctx: Context, handed: Input -> seq<RR>, referral: (seq<RR>, Input) -> bool, final: (seq<RR>, Input) -> bool) {
    forall rs: seq<ChainResult>, x: Input {:trigger RulesOf(ctx).step(rs, x)} :: ZoneError(rs, x.zone).None? ==>
      var p, ds := RulesOf(ctx).step(rs, x), LastDS(ctx, rs);
      && (referral(ds, x) ==> p.Done? && p.r.state == Secure && p.r.zone == x.zone && p.r.dsRecords == handed(x))
      && (final(ds, x) ==> p.Done? && p.r.state == Secure && Settles(ctx.question, p.r))
  }

  lemma SecureSoFarStep(ctx: Context, handed: Input -> seq<RR>, referral: (seq<RR>, Input) -> bool, final: (seq<RR>, Input) -> bool,
                        inputs: seq<Input>, k: nat, results: seq<ChainResult>)
    requires Related(ctx.anchors, handed, referral, final, inputs) && Accepts(ctx, handed, referral, final)
    requires k < |inputs| && SecureSoFar(ctx.question, handed, inputs, k, results)
    ensures var p := RulesOf(ctx).step(results, inputs[k]);
      p.Done? && SecureSoFar(ctx.question, handed, inputs, k + 1, results + [p.r])
  {
    assert LastDS(ctx, results) == if k == 0 then ctx.anchors else handed(inputs[k - 1]);
    assert ZoneError(results, inputs[k].zone).None?;
    var p := RulesOf(ctx).step(results, inputs[k]);
    assert p.Done? && p.r.state == Secure;
  }

  lemma RelatedChainIsSecure(ctx: Context, handed: Input -> seq<RR>, referral: (seq<RR>, Input) -> bool, final: (seq<RR>, Input) -> bool,
                             inputs: seq<Input>)
    requires Related(ctx.anchors, handed, referral, final, inputs) && Accepts(ctx, handed, referral, final)
    ensures ChainVerdict(ctx, inputs).auth == Secure
  {
    var rules := RulesOf(ctx);
    var good := (k: nat, rs: seq<ChainResult>) => SecureSoFar(ctx.question, handed, inputs, k, rs);
    forall k: nat, rs | 0 <= k < |inputs| && good(k, rs)
      ensures rules.step(rs, inputs[k]).Done? && good(k + 1, rs + [rules.step(rs, inputs[k]).r])
    {
      SecureSoFarStep(ctx, handed, referral, final, inputs, k, rs);
    }
    ChainProgress(rules, inputs, 0, [], good);
    assert inputs[0..] == inputs;
    SecureVerdictIff(ctx.question, Chain(rules, inputs, []).0);
  }

  /**
   Completeness of the validator. If every response is signed under the DS records the one above
   hands down, all but the last are referrals with DS records, and the last answers the question
   (directly or with an alias, a wildcard being proved) or denies its own, the verdict is Secure.
   */
  lemma WellSignedChainIsSecure(cfg: Config, q: Question, anchors: seq<RR>, inputs: seq<Input>)
    requires WellSigned(cfg, q, anchors, inputs)
    ensures ChainVerdict(RealContext(cfg, q, anchors), inputs).auth == Secure
  {
    WellSignedIsAccepted(cfg, q, anchors);
    RelatedChainIsSecure(RealContext(cfg, q, anchors), HandsDown(cfg), Referral(cfg), Final(cfg, q), inputs);
  }

  lemma WellSignedIsAccepted(cfg: Config, q: Question, anchors: seq<RR>)
    ensures Accepts(RealContext(cfg, q, anchors), HandsDown(cfg), Referral(cfg), Final(cfg, q))
  {
    var ctx := RealContext(cfg, q, anchors);
    forall rs: seq<ChainResult>, x: Input | ZoneError(rs, x.zone).None?
      ensures var p, ds := RulesOf(ctx).step(rs, x), LastDS(ctx, rs);
        && (Referral(cfg)(ds, x) ==> p.Done? && p.r.state == Secure && p.r.zone == x.zone && p.r.dsRecords == HandsDown(cfg)(x))
        && (Final(cfg, q)(ds, x) ==> p.Done? && p.r.state == Secure && Settles(q, p.r))
    {
      if Referral(cfg)(LastDS(ctx, rs), x) {
        ReferralStep(cfg, q, anchors, rs, x);
      }
      if Final(cfg, q)(LastDS(ctx, rs), x) {
        FinalStep(cfg, q, anchors, rs, x);
      }
    }
  }

  // ---------------------------------------------------------------- such a chain

  function DSRecord(zone: Name): RR {
    RR(zone, 60, DSData(0, 8, 2, []))
  }

  /** A zone with one key, which signs itself. */
  function SelfSigned(zone: Name): Zone {
    Zone(zone, Keys([KeyOf(zone)] + [SignatureBy(zone, zone, TYPE_DNSKEY)]))
  }

  function MadeFor(zone: Name, front: seq<RR>, owner: Name, t: TypeCode): Signature {
    SignatureFor(AllInOrder(), 50, zone, front + [SignatureBy(zone, owner, t)], [KeyOf(zone)], SignatureBy(zone, owner, t))
  }

  /** A section with one signed RRset and, perhaps, an unsigned delegation in front. */
  lemma SectionPasses(zone: Name, front: seq<RR>, owner: Name, t: TypeCode, rr: RR, section: Section)
    requires Canonical(zone) == zone && t != TYPE_RRSIG && t != TYPE_NS && rr in front && rr.owner == owner && rr.Rrtype() == t
    requires forall x :: x in front ==> !x.data.SigData?
    requires forall x :: x in front ==> (x.owner == owner && x.Rrtype() == t) || (section == AuthoritySection && x.Rrtype() == TYPE_NS)
    ensures var sig := MadeFor(zone, front, owner, t);
      && SignaturesFor(AllInOrder(), 50, zone, front + [SignatureBy(zone, owner, t)], [KeyOf(zone)]) == [sig]
      && CountError(front + [SignatureBy(zone, owner, t)], [sig], section).None?
      && sig.verified && forall all :: Accepted(all, [sig])
    ensures RrsigsOf(front + [SignatureBy(zone, owner, t)]) == [SignatureBy(zone, owner, t)]
  {
    var rrsig := SignatureBy(zone, owner, t);
    var rrs, sig := front + [rrsig], MadeFor(zone, front, owner, t);
    assert rr in rrs;
    OneRrsig(zone, front, rrsig, [KeyOf(zone)]);
    InOrderSignature(zone, owner, t, rrs, rr);
    assert !TypeSigned([sig], TYPE_NS);
    OneCombination(rrs, sig, section, rr);
    assert TypeVerified([sig], [sig][0].rtype);
  }

  lemma NoRecordsPass(zone: Name, section: Section)
    ensures SignaturesFor(AllInOrder(), 50, zone, [], [KeyOf(zone)]) == [] && CountError([], [], section).None?
  {
    assert RecordCombinations([], [], section) == {} && SignatureCombinations([]) == {};
  }

  lemma KeyIsDesignated(zone: Name)
    ensures ZoneKeys(SelfSigned(zone)) == [KeyOf(zone)] && KeySigningKeys(AllInOrder(), [DSRecord(zone)], [KeyOf(zone)]) == [KeyOf(zone)]
    ensures forall all :: HasDesignatedKey(Config(all, 50, AllInOrder()), SelfSigned(zone), [DSRecord(zone)])
  {
    FilterOnlyOne([KeyOf(zone)] + [SignatureBy(zone, zone, TYPE_DNSKEY)], 0, (x: RR) => x.data.KeyData?);
    assert Designates(AllInOrder(), DSRecord(zone), KeyOf(zone));
    assert [DSRecord(zone)][..0] == [] && FirstDesignated(AllInOrder(), DSRecord(zone), [KeyOf(zone)]) == 0;
    assert DSRecord(zone) in [DSRecord(zone)] && KeyOf(zone) in [KeyOf(zone)];
  }

  /** A message of such a zone passes when the signatures over its two sections do. */
  lemma MessagePasses(requireAll: bool, zone: Name, msg: Msg)
    requires Canonical(zone) == zone
    requires var answer, authority := SignaturesFor(AllInOrder(), 50, zone, msg.answer, [KeyOf(zone)]), SignaturesFor(AllInOrder(), 50, zone, msg.ns, [KeyOf(zone)]);
      && CountError(msg.answer, answer, AnswerSection).None? && CountError(msg.ns, authority, AuthoritySection).None?
      && Accepted(requireAll, answer + authority)
    ensures SignaturesPass(Config(requireAll, 50, AllInOrder()), SelfSigned(zone), msg, [DSRecord(zone)])
  {
    KeyIsDesignated(zone);
    SectionPasses(zone, [KeyOf(zone)], zone, TYPE_DNSKEY, KeyOf(zone), AnswerSection);
  }

  /** The root's referral to a child, with the child's DS record. */
  function Referring(child: Name): Input {
    Input(SelfSigned(ROOT), Msg(Question(child, TYPE_A), [], [RR(child, 60, NsData(child)), DSRecord(child)] + [SignatureBy(ROOT, child, TYPE_DS)]))
  }

  /** The child's answer: its name is an alias. */
  function Aliasing(child: Name, target: Name): Input {
    Input(SelfSigned(child), Msg(Question(child, TYPE_A), [RR(child, 60, CnameData(target))] + [SignatureBy(child, child, TYPE_CNAME)], []))
  }

  /** A message whose authority section holds the one signed RRset. */
  lemma AuthorityPasses(zone: Name, msg: Msg, front: seq<RR>, owner: Name, t: TypeCode, rr: RR)
    requires Canonical(zone) == zone && t != TYPE_RRSIG && t != TYPE_NS && rr in front && rr.owner == owner && rr.Rrtype() == t
    requires (forall x :: x in front ==> !x.data.SigData?) && forall x :: x in front ==> (x.owner == owner && x.Rrtype() == t) || x.Rrtype() == TYPE_NS
    requires msg.answer == [] && msg.ns == front + [SignatureBy(zone, owner, t)]
    ensures SignedUnder(Strict(), [DSRecord(zone)], Input(SelfSigned(zone), msg))
  {
    var sig := MadeFor(zone, front, owner, t);
    SectionPasses(zone, front, owner, t, rr, AuthoritySection);
    NoRecordsPass(zone, AnswerSection);
    assert [] + [sig] == [sig] && msg.answer + msg.ns == msg.ns;
    MessagePasses(true, zone, msg);
  }

  /** A message whose answer section does. */
  lemma AnswerPasses(zone: Name, msg: Msg, front: seq<RR>, owner: Name, t: TypeCode, rr: RR)
    requires Canonical(zone) == zone && t != TYPE_RRSIG && t != TYPE_NS && rr in front && rr.owner == owner && rr.Rrtype() == t
    requires (forall x :: x in front ==> !x.data.SigData?) && forall x :: x in front ==> x.owner == owner && x.Rrtype() == t
    requires msg.answer == front + [SignatureBy(zone, owner, t)] && msg.ns == []
    ensures SignedUnder(Strict(), [DSRecord(zone)], Input(SelfSigned(zone), msg)) && RrsigsOf(msg.answer) == [SignatureBy(zone, owner, t)]
  {
    var sig := MadeFor(zone, front, owner, t);
    SectionPasses(zone, front, owner, t, rr, AnswerSection);
    NoRecordsPass(zone, AuthoritySection);
    assert [sig] + [] == [sig] && msg.answer + msg.ns == msg.answer;
    MessagePasses(true, zone, msg);
  }

  lemma OnlySecond(a: RR, b: RR, c: RR, t: TypeCode)
    requires b.Rrtype() == t && a.Rrtype() != t && c.Rrtype() != t
    ensures OfNameAndType([a, b] + [c], b.owner, t) == [b]
  {
    FilterOnlyOne([a, b] + [c], 1, (x: RR) => x.Rrtype() == t && x.owner == b.owner);
  }

  lemma ReferringSignature(child: Name)
    ensures var front := [RR(child, 60, NsData(child)), DSRecord(child)];
      var sig := MadeFor(ROOT, front, child, TYPE_DS);
      && SignaturesFor(AllInOrder(), 50, ROOT, front + [SignatureBy(ROOT, child, TYPE_DS)], [KeyOf(ROOT)]) == [sig]
      && sig.rtype == TYPE_DS && sig.rrset == [DSRecord(child)]
  {
    var front := [RR(child, 60, NsData(child)), DSRecord(child)];
    assert front[1] in front;
    SectionPasses(ROOT, front, child, TYPE_DS, DSRecord(child), AuthoritySection);
    OnlySecond(front[0], front[1], SignatureBy(ROOT, child, TYPE_DS), TYPE_DS);
  }

  lemma ReferringHandsDown(child: Name)
    ensures DSBelow(Strict(), Referring(child)) == [DSRecord(child)]
  {
    var front := [RR(child, 60, NsData(child)), DSRecord(child)];
    ReferringSignature(child);
    KeyIsDesignated(ROOT);
    HandedDown(child, MadeFor(ROOT, front, child, TYPE_DS));
  }

  lemma ReferringIsReferral(child: Name)
    ensures IsSignedReferral(Referring(child).msg)
  {
    var rrsig, ns := SignatureBy(ROOT, child, TYPE_DS), Referring(child).msg.ns;
    assert ns[0].Rrtype() == TYPE_NS && ns[1] == DSRecord(child) && ns[2] == rrsig;
    assert rrsig in RrsigsOf(ns) && SignedDS(ns, DSRecord(child));
  }

  lemma ReferringIsSigned(child: Name)
    ensures Referral(Strict())([DSRecord(ROOT)], Referring(child))
  {
    var front := [RR(child, 60, NsData(child)), DSRecord(child)];
    assert front[1] in front;
    AuthorityPasses(ROOT, Referring(child).msg, front, child, TYPE_DS, DSRecord(child));
    ReferringIsReferral(child);
  }

  lemma HandedDown(child: Name, sig: Signature)
    requires sig.rtype == TYPE_DS && sig.rrset == [DSRecord(child)]
    ensures DsOf(Gather([sig], TYPE_DS)) == [DSRecord(child)]
  {
    assert [sig][1..] == [] && [DSRecord(child)] + [] == [DSRecord(child)];
    FilterAll([DSRecord(child)], (x: RR) => x.data.DSData?);
  }

  lemma UnexpandedAnswer(cfg: Config, q: Question, ds: seq<RR>, input: Input, rr: RR)
    requires !TypeExists(input.msg.ns, TYPE_SOA) && input.zone.dnskeys.Keys?
    requires rr in input.msg.answer && rr.owner == q.name && rr.Rrtype() in {q.qtype, TYPE_CNAME}
    requires forall rrsig :: rrsig in RrsigsOf(input.msg.answer) ==> !SpareLabels(rrsig)
    ensures IsSignedAnswer(cfg, q, ds, input)
  {
    assert NoExpansion(cfg, Passed(cfg, input.zone, input.msg, ds));
  }

  lemma AliasingIsFinal(child: Name, target: Name, ds: seq<RR>)
    requires Canonical(child) == child && ds == [DSRecord(child)]
    ensures Final(Strict(), Question(child, TYPE_A))(ds, Aliasing(child, target))
  {
    var alias, input := RR(child, 60, CnameData(target)), Aliasing(child, target);
    assert alias in [alias] && input.msg.answer[0] == alias;
    AnswerPasses(child, input.msg, [alias], child, TYPE_CNAME, alias);
    UnexpandedAnswer(Strict(), Question(child, TYPE_A), ds, input, alias);
  }

  lemma FirstResult(q: Question, anchors: seq<RR>, child: Name) returns (r: ChainResult)
    requires anchors == [DSRecord(ROOT)]
    ensures Process(RealContext(Strict(), q, anchors), [], Referring(child)) == Done(r)
    ensures r.state == Secure && r.zone.name == ROOT && r.dsRecords == [DSRecord(child)]
  {
    ReferringIsSigned(child);
    ReferringHandsDown(child);
    ReferralStep(Strict(), q, anchors, [], Referring(child));
    r := Process(RealContext(Strict(), q, anchors), [], Referring(child)).r;
  }

  lemma SecondResult(anchors: seq<RR>, child: Name, target: Name, r: ChainResult) returns (p: ChainResult)
    requires child != ROOT && Canonical(child) == child && r.zone.name == ROOT && r.dsRecords == [DSRecord(child)]
    ensures Process(RealContext(Strict(), Question(child, TYPE_A), anchors), [r], Aliasing(child, target)) == Done(p)
    ensures p.state == Secure && Settles(Question(child, TYPE_A), p)
  {
    AliasingIsFinal(child, target, r.dsRecords);
    FinalStep(Strict(), Question(child, TYPE_A), anchors, [r], Aliasing(child, target));
    p := Process(RealContext(Strict(), Question(child, TYPE_A), anchors), [r], Aliasing(child, target)).r;
  }

  lemma SecurePair(q: Question, r: ChainResult, p: ChainResult)
    requires r.state == Secure && p.state == Secure && Settles(q, p)
    ensures Verdict(q, [r] + [p]).auth == Secure
  {
    SecureVerdictIff(q, [r] + [p]);
  }

  /**
   A run from signed input to a Secure verdict, under the strict policy and for every child of the
   root: its signed alias, below the root's signed referral.
   */
  lemma SignedAliasIsSecure(child: Name, target: Name)
    requires child != ROOT && Canonical(child) == child
    ensures ChainVerdict(RealContext(Strict(), Question(child, TYPE_A), [DSRecord(ROOT)]), [Referring(child), Aliasing(child, target)]).auth == Secure
  {
    var q, anchors := Question(child, TYPE_A), [DSRecord(ROOT)];
    var r := FirstResult(q, anchors, child);
    var p := SecondResult(anchors, child, target, r);
    TwoSteps(RealContext(Strict(), q, anchors), Referring(child), Aliasing(child, target), r, p);
    SecurePair(q, r, p);
  }

  // ---------------------------------------------------------------- a wildcard that is overlooked

  /** An RRSIG record with labels to spare, expired before the clock's fifty seconds. */
  function StaleExpansion(owner: Name, t: TypeCode): RR {
    RR(owner, 60, SigData(t, 8, 0, 60, 40, 0, 0, ROOT, []))
  }

  /** Two aliases: one properly signed, the other with an expired signature that has labels to spare. */
  function TwoAliases(): Msg {
    Msg(Question(A, TYPE_A), [RR(A, 60, CnameData(B)), RR(B, 60, CnameData(A))] + [SignatureBy(ROOT, A, TYPE_CNAME), StaleExpansion(B, TYPE_CNAME)], [])
  }

  lemma TwoRrsigs(front: seq<RR>, s: RR, t: RR, keys: seq<RR>)
    requires (forall x :: x in front ==> !x.data.SigData?) && s.data.SigData? && t.data.SigData?
    ensures var rrs := front + [s, t];
      && RrsigsOf(rrs) == [s, t]
      && SignaturesFor(AllInOrder(), 50, ROOT, rrs, keys) ==
           [SignatureFor(AllInOrder(), 50, ROOT, rrs, keys, s), SignatureFor(AllInOrder(), 50, ROOT, rrs, keys, t)]
  {
    FilterSplits(front, [s, t], (x: RR) => x.data.SigData?);
    assert RrsigsOf(front + [s, t]) == [s, t];
  }

  lemma TwoCombinations(rrs: seq<RR>, s: Signature, t: Signature, a: RR, b: RR)
    requires a in rrs && b in rrs && a.Rrtype() == b.Rrtype() == s.rtype == t.rtype != TYPE_RRSIG && s.name == a.owner && t.name == b.owner
    requires forall x :: x in rrs && x.Rrtype() != TYPE_RRSIG ==> x == a || x == b
    ensures CountError(rrs, [s, t], AnswerSection).None?
  {
    assert RecordCombinations(rrs, [s, t], AnswerSection) == {(a.owner, a.Rrtype()), (b.owner, b.Rrtype())};
    assert SignatureCombinations([s, t]) == {(a.owner, a.Rrtype()), (b.owner, b.Rrtype())} by {
      assert s in [s, t] && t in [s, t];
    }
  }

  lemma OneOfTwoIsEnough(s: Signature, t: Signature)
    requires s.verified && s.rtype == t.rtype
    ensures Accepted(false, [s, t])
  {
    assert [s, t][0].verified && TypeVerified([s, t], s.rtype);
  }

  lemma TwoAliasesSigned(rrs: seq<RR>, good: RR, stale: RR)
    requires good == SignatureBy(ROOT, A, TYPE_CNAME) && stale == StaleExpansion(B, TYPE_CNAME)
    requires rrs == [RR(A, 60, CnameData(B)), RR(B, 60, CnameData(A))] + [good, stale]
    ensures var sigs := SignaturesFor(AllInOrder(), 50, ROOT, rrs, [KeyOf(ROOT)]);
      RrsigsOf(rrs) == [good, stale] && CountError(rrs, sigs, AnswerSection).None? && Accepted(false, sigs)
  {
    var front, keys := [RR(A, 60, CnameData(B)), RR(B, 60, CnameData(A))], [KeyOf(ROOT)];
    var s, t := SignatureFor(AllInOrder(), 50, ROOT, rrs, keys, good), SignatureFor(AllInOrder(), 50, ROOT, rrs, keys, stale);
    assert rrs[0] in rrs && rrs[1] in rrs;
    TwoRrsigs(front, good, stale, keys);
    InOrderSignature(ROOT, A, TYPE_CNAME, rrs, rrs[0]);
    TwoCombinations(rrs, s, t, rrs[0], rrs[1]);
    OneOfTwoIsEnough(s, t);
  }

  lemma TwoAliasesPass()
    ensures SignaturesPass(Config(false, 50, AllInOrder()), SelfSigned(ROOT), TwoAliases(), [DSRecord(ROOT)])
    ensures RrsigsOf(TwoAliases().answer) == [SignatureBy(ROOT, A, TYPE_CNAME), StaleExpansion(B, TYPE_CNAME)]
  {
    var msg := TwoAliases();
    TwoAliasesSigned(msg.answer, SignatureBy(ROOT, A, TYPE_CNAME), StaleExpansion(B, TYPE_CNAME));
    NoRecordsPass(ROOT, AuthoritySection);
    var sigs := SignaturesFor(AllInOrder(), 50, ROOT, msg.answer, [KeyOf(ROOT)]);
    assert sigs + [] == sigs;
    MessagePasses(false, ROOT, msg);
  }

  /**
   Under the default policy a signature that is out of date is not counted as a wildcard: an answer
   can be Secure with labels to spare in an RRSIG record and nothing denied. `PositiveSecureIff` has
   the exact condition, and under the strict policy `ExpandedRightly` rules this out.
   */
  lemma StaleExpansionIsOverlooked() returns (cfg: Config, zone: Zone, msg: Msg)
    ensures var st := VerifyStage(cfg, zone, msg, [DSRecord(ROOT)]); st.status == Secure && st.r.doe == NotFound
    ensures msg.ns == [] && exists rrsig :: rrsig in RrsigsOf(msg.answer) && SpareLabels(rrsig)
  {
    cfg, zone, msg := Config(false, 50, AllInOrder()), SelfSigned(ROOT), TwoAliases();
    TwoAliasesPass();
    assert StaleExpansion(B, TYPE_CNAME) in RrsigsOf(msg.answer);
    NothingExpandedIsSecure(cfg, zone, msg, [DSRecord(ROOT)]);
  }

  /** An answer whose signatures pass and expand no wildcard is Secure. */
  lemma NothingExpandedIsSecure(cfg: Config, zone: Zone, msg: Msg, ds: seq<RR>)
    requires SignaturesPass(cfg, zone, msg, ds) && msg.answer != [] && !TypeExists(msg.ns, TYPE_SOA)
    requires forall rrsig :: rrsig in RrsigsOf(msg.answer) ==> !Expands(zone.name, cfg.now, rrsig)
    ensures var st := VerifyStage(cfg, zone, msg, ds); st.status == Secure && st.r.doe == NotFound
  {
    assert NoExpansion(cfg, Passed(cfg, zone, msg, ds));
    PositiveSecureIff(cfg, zone, msg, ds);
    StageOutcome(cfg, zone, msg, ds);
  }
}
