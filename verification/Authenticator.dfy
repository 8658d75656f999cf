/**
 The chain-of-trust authenticator (dnssec/authenticator.go, dnssec/result.go).

 Responses of different zones arrive in any order. They wait in a buffer indexed by label count
 and are processed from the root to the leaf; `Result` then judges the whole chain.
 `ArrivalOrderDoesNotMatter` says that the outcome is that of processing them in order.
 */
module Authenticator {
  import opened Collections
  import opened Names
  import opened Records
  import opened Verifier
  import opened ReorderBuffer

  datatype Input = Input(zone: Zone, msg: Msg)

  /** What the verification function returns; the result may be missing. */
  datatype Verified = Verified(state: AuthResult, r: Option<ChainResult>, err: Option<Error>)

  /** The question, the root trust anchors, and the (replaceable) verification function. */
  datatype Context = Context(question: Question, anchors: seq<RR>, verify: (Zone, Msg, seq<RR>) -> Verified)

  datatype Triple = Triple(auth: AuthResult, doe: Doe, err: Option<Error>)

  // ---------------------------------------------------------------- one chain step

  function LastDS(ctx: Context, results: seq<ChainResult>): seq<RR> {
    if results == [] then ctx.anchors else results[|results| - 1].dsRecords
  }

  /** The zone must lie strictly below the zone of the previous result. */
  function ZoneError(results: seq<ChainResult>, zone: Zone): Option<Error> {
    if results == [] then None
    else if !IsSubDomain(results[|results| - 1].zone.name, zone.name) then Some(ErrNotSubdomain)
    else if NamesEqual(results[|results| - 1].zone.name, zone.name) then Some(ErrSameName)
    else None
  }

  /** The first signature must be by the zone the last DS records are for. */
  function SignerError(ctx: Context, ds: seq<RR>, msg: Msg): Option<Error> {
    var rrsigs := RrsigsOf(msg.answer + msg.ns);
    if rrsigs == [] || ds == [] then None
    else
      assert rrsigs[0] in rrsigs;
      var signer := Canonical(rrsigs[0].data.signer);
      if Canonical(ds[0].owner) == signer then None
      else if !IsSubDomain(signer, ctx.question.name) then Some(ErrNotSubdomain)
      else Some(ErrMissingDS(signer))
  }

  function Process(ctx: Context, results: seq<ChainResult>, input: Input): Step<ChainResult> {
    var ds := LastDS(ctx, results);
    if ZoneError(results, input.zone).Some? then Rejected(ZoneError(results, input.zone).value)
    else if SignerError(ctx, ds, input.msg).Some? then Rejected(SignerError(ctx, ds, input.msg).value)
    else
      var v := ctx.verify(input.zone, input.msg, ds);
      if v.r.None? then Rejected(ErrUnknown)
      else
        var r := if v.err.Some? then v.r.value.(err := v.err) else v.r.value;
        Done(r.(state := if v.state == Unknown then Bogus else v.state))
  }

  /**
   A response is rejected exactly when its zone is not strictly below the last one, or its first
   signature is by another zone than the one the DS records are for; the error says which. Whatever
   else is verified with those DS records, and an undecided result counts as Bogus.
   */
  lemma ProcessExactly(ctx: Context, results: seq<ChainResult>, input: Input)
    ensures var p, ds, rrsigs := Process(ctx, results, input), LastDS(ctx, results), RrsigsOf(input.msg.answer + input.msg.ns);
      if results != [] && !IsSubDomain(results[|results| - 1].zone.name, input.zone.name) then p == Rejected(ErrNotSubdomain)
      else if results != [] && NamesEqual(results[|results| - 1].zone.name, input.zone.name) then p == Rejected(ErrSameName)
      else if rrsigs != [] && ds != [] && rrsigs[0].data.SigData? && !NamesEqual(ds[0].owner, rrsigs[0].data.signer) then
        p == Rejected(if IsSubDomain(rrsigs[0].data.signer, ctx.question.name) then ErrMissingDS(Canonical(rrsigs[0].data.signer)) else ErrNotSubdomain)
      else
        var v := ctx.verify(input.zone, input.msg, ds);
        if v.r.None? then p == Rejected(ErrUnknown)
        else p == Done(v.r.value.(state := if v.state == Unknown then Bogus else v.state, err := if v.err.Some? then v.err else v.r.value.err))
  {
    var rrsigs := RrsigsOf(input.msg.answer + input.msg.ns);
    if rrsigs != [] {
      assert rrsigs[0] in rrsigs;
      CanonicalIdempotent(rrsigs[0].data.signer);
    }
  }

  // ---------------------------------------------------------------- the verdict

  function FirstBogus(results: seq<ChainResult>): (i: nat)
    ensures i <= |results|
    ensures forall j :: 0 <= j < i ==> results[j].state != Bogus
    ensures i < |results| ==> results[i].state == Bogus
  {
    if results == [] || results[0].state == Bogus then 0 else 1 + FirstBogus(results[1..])
  }

  function FirstNotSecure(results: seq<ChainResult>): (i: nat)
    ensures i <= |results|
    ensures forall j :: 0 <= j < i ==> results[j].state == Secure
    ensures i < |results| ==> results[i].state != Secure
  {
    if results == [] || results[0].state != Secure then 0 else 1 + FirstNotSecure(results[1..])
  }

  /**
   The denial that lets a chain become Insecure. Only a denial of a question is compared with the
   next zone; the delegation that was denied is not.
   */
  predicate ProvesInsecure(previous: ChainResult, current: ChainResult) {
    match previous.doe
    case Nsec3OptOut | NsecMissingDS | Nsec3MissingDS => true
    case NsecNoData | Nsec3NoData =>
      previous.msg.question.qtype == TYPE_DS && NamesEqual(previous.msg.question.name, current.zone.name)
    case _ => false
  }

  /** The answer holds a record of exactly the question's name, of its type or a CNAME. */
  predicate Answers(q: Question, answer: seq<RR>) {
    OfNameAndType(answer, q.name, q.qtype) != [] || OfNameAndType(answer, q.name, TYPE_CNAME) != []
  }

  /** The judgement on a chain whose results are all Secure, by its last result. */
  function LastVerdict(q: Question, last: ChainResult): AuthResult {
    match last.doe
    case Nsec3OptOut => Insecure
    case NsecNxDomain | Nsec3NxDomain | NsecNoData | Nsec3NoData => Secure
    case NsecMissingDS | Nsec3MissingDS => Bogus
    case NotFound | NsecWildcard | Nsec3Wildcard =>
      if !TypeExists(last.msg.ns, TYPE_SOA) && Answers(q, last.msg.answer) then Secure else Bogus
  }

  function Verdict(q: Question, results: seq<ChainResult>): Triple {
    var b, i := FirstBogus(results), FirstNotSecure(results);
    if results == [] then Triple(Unknown, NotFound, Some(ErrNoResults))
    else if b < |results| then Triple(Bogus, NotFound, results[b].err)
    else if i == 0 then Triple(results[0].state, results[0].doe, results[0].err)
    else if i < |results| then
      Triple(if ProvesInsecure(results[i - 1], results[i]) then Insecure else Bogus, results[i - 1].doe, results[i].err)
    else
      var last := results[|results| - 1];
      Triple(LastVerdict(q, last), last.doe, last.err)
  }

  method Judge(q: Question, results: seq<ChainResult>) returns (t: Triple)
    ensures t == Verdict(q, results)
  {
    if |results| == 0 {
      return Triple(Unknown, NotFound, Some(ErrNoResults));
    }
    for i := 0 to |results|
      invariant forall j :: 0 <= j < i ==> results[j].state != Bogus
    {
      if results[i].state == Bogus {
        assert FirstBogus(results) == i;
        return Triple(Bogus, NotFound, results[i].err);
      }
    }
    for i := 0 to |results|
      invariant forall j :: 0 <= j < i ==> results[j].state == Secure
    {
      var current := results[i];
      if current.state == Secure {
        continue;
      }
      assert FirstNotSecure(results) == i;
      if i == 0 {
        return Triple(current.state, current.doe, current.err);
      }
      var previous := results[i - 1];
      match previous.doe {
        case Nsec3OptOut | NsecMissingDS | Nsec3MissingDS =>
          return Triple(Insecure, previous.doe, current.err);
        case NsecNoData | Nsec3NoData =>
          if previous.msg.question.qtype == TYPE_DS
             && Canonical(previous.msg.question.name) == Canonical(current.zone.name) {
            return Triple(Insecure, previous.doe, current.err);
          }
        case _ =>
      }
      return Triple(Bogus, previous.doe, current.err);
    }
    // The source asks once more whether the last result is other than Secure; it never is.
    var last := results[|results| - 1];
    assert last.state == Secure;
    match last.doe {
      case Nsec3OptOut => return Triple(Insecure, last.doe, last.err);
      case NsecNxDomain | Nsec3NxDomain | NsecNoData | Nsec3NoData => return Triple(Secure, last.doe, last.err);
      case NsecMissingDS | Nsec3MissingDS => return Triple(Bogus, last.doe, last.err);
      case NotFound | NsecWildcard | Nsec3Wildcard =>
    }
    if TypeExists(last.msg.ns, TYPE_SOA) {
      return Triple(Bogus, last.doe, last.err);
    }
    if |OfNameAndType(last.msg.answer, q.name, q.qtype)| > 0 {
      return Triple(Secure, last.doe, last.err);
    }
    if |OfNameAndType(last.msg.answer, q.name, TYPE_CNAME)| > 0 {
      return Triple(Secure, last.doe, last.err);
    }
    return Triple(Bogus, last.doe, last.err);
  }

  // ---------------------------------------------------------------- what the verdict depends on

  ghost predicate AllSecure(results: seq<ChainResult>) {
    forall i :: 0 <= i < |results| ==> results[i].state == Secure
  }

  /** The last response proves that there is nothing, or has a record for the question and no SOA record. */
  ghost predicate Settles(q: Question, last: ChainResult) {
    || last.doe in {NsecNxDomain, Nsec3NxDomain, NsecNoData, Nsec3NoData}
    || (&& last.doe in {NotFound, NsecWildcard, Nsec3Wildcard}
        && (forall rr :: rr in last.msg.ns ==> rr.Rrtype() != TYPE_SOA)
        && exists rr :: rr in last.msg.answer && rr.owner == q.name && rr.Rrtype() in {q.qtype, TYPE_CNAME})
  }

  lemma SettlesIff(q: Question, last: ChainResult)
    ensures Settles(q, last) <==> LastVerdict(q, last) == Secure
  {
    var own, alias := OfNameAndType(last.msg.answer, q.name, q.qtype), OfNameAndType(last.msg.answer, q.name, TYPE_CNAME);
    assert own != [] ==> own[0] in own;
    assert alias != [] ==> alias[0] in alias;
  }

  lemma AllSecureVerdict(q: Question, results: seq<ChainResult>)
    requires results != [] && AllSecure(results)
    ensures var last := results[|results| - 1]; Verdict(q, results) == Triple(LastVerdict(q, last), last.doe, last.err)
  {
    assert FirstBogus(results) == |results| == FirstNotSecure(results);
  }

  /**
   The verdict is Secure if and only if every result is and the last one settles the question: a
   record of its name and type, or an alias at its name, is as good as a denial.
   */
  lemma SecureVerdictIff(q: Question, results: seq<ChainResult>)
    ensures Verdict(q, results).auth == Secure <==> results != [] && AllSecure(results) && Settles(q, results[|results| - 1])
    ensures Verdict(q, results).auth == Secure ==>
      Verdict(q, results).doe == results[|results| - 1].doe && Verdict(q, results).err == results[|results| - 1].err
  {
    if results != [] {
      SettlesIff(q, results[|results| - 1]);
      if AllSecure(results) {
        AllSecureVerdict(q, results);
      } else {
        assert FirstNotSecure(results) < |results|;
      }
    }
  }

  /** A Bogus result decides, wherever it is; the first one's error is reported. */
  lemma BogusDecides(q: Question, results: seq<ChainResult>, i: nat)
    requires i < |results| && results[i].state == Bogus && forall j :: 0 <= j < i ==> results[j].state != Bogus
    ensures Verdict(q, results) == Triple(Bogus, NotFound, results[i].err)
  {
    assert FirstBogus(results) == i;
  }

  /** What is reported when the verdict is not Secure: the first Bogus result's error, or the denial above the first that is not. */
  lemma OtherVerdicts(q: Question, results: seq<ChainResult>, i: nat)
    requires i < |results| && results[i].state != Secure && forall j :: 0 <= j < i ==> results[j].state == Secure
    ensures results[i].state == Bogus ==> Verdict(q, results) == Triple(Bogus, NotFound, results[i].err)
    ensures (forall j :: 0 <= j < |results| ==> results[j].state != Bogus) ==>
      Verdict(q, results) ==
        if i == 0 then Triple(results[0].state, results[0].doe, results[0].err)
        else Triple(if ProvesInsecure(results[i - 1], results[i]) then Insecure else Bogus, results[i - 1].doe, results[i].err)
  {
    assert FirstNotSecure(results) == i;
    if results[i].state == Bogus {
      assert FirstBogus(results) == i;
    }
  }

  // ---------------------------------------------------------------- the authenticator

  /** Zone and question of a response must be ancestors of the target name. */
  function Refuse(ctx: Context, input: Input): Option<Error> {
    if !IsSubDomain(input.zone.name, ctx.question.name) then Some(ErrNotSubdomain)
    else if !IsSubDomain(input.msg.question.name, ctx.question.name) then Some(ErrNotSubdomain)
    else None
  }

  /** A response is admitted exactly when its zone and its question are on the way to the target name. */
  lemma RefuseIff(ctx: Context, input: Input)
    ensures Refuse(ctx, input).None? <==> IsSubDomain(input.zone.name, ctx.question.name) && IsSubDomain(input.msg.question.name, ctx.question.name)
    ensures Refuse(ctx, input).Some? ==> Refuse(ctx, input).value == ErrNotSubdomain
  {
  }

  /** Responses are ordered by the label count of their zone. */
  function RulesOf(ctx: Context): (rules: Rules<Input, ChainResult>)
    ensures rules.Valid()
  {
    Rules(|ctx.question.name| + 1, (x: Input) => Refuse(ctx, x), (x: Input) => |x.zone.name|,
          (results: seq<ChainResult>, x: Input) => Process(ctx, results, x))
  }

  type AuthState = State<Input, ChainResult>

  function Finish(ctx: Context, s: AuthState): Triple
    requires InBounds(RulesOf(ctx), s)
  {
    var (d, e) := Drain(RulesOf(ctx), s);
    if e.Some? then Triple(Unknown, NotFound, e) else Verdict(ctx.question, d.results)
  }

  class Authenticator {
    const ctx: Context
    const inputBuffer: array<Option<Input>>
    var inputBufferIdx: nat
    var results: seq<ChainResult>

    constructor (ctx: Context)
      ensures this.ctx == ctx && fresh(inputBuffer)
      ensures Valid() && View() == Init(RulesOf(ctx))
    {
      this.ctx := ctx;
      inputBuffer := new Option<Input>[|ctx.question.name| + 1](_ => None);
      inputBufferIdx := 0;
      results := [];
    }

    ghost predicate Valid()
      reads this, inputBuffer
    {
      InBounds(RulesOf(ctx), View())
    }

    ghost function View(): AuthState
      reads this, inputBuffer
    {
      State(inputBuffer[..], inputBufferIdx, results)
    }

    method AddResponse(zone: Zone, msg: Msg) returns (err: Option<Error>)
      requires Valid()
      modifies this, inputBuffer
      ensures Valid() && (View(), err) == Add(RulesOf(ctx), old(View()), Input(zone, msg))
    {
      if !IsSubDomain(zone.name, ctx.question.name) {
        return Some(ErrNotSubdomain);
      }
      if !IsSubDomain(msg.question.name, ctx.question.name) {
        return Some(ErrNotSubdomain);
      }
      var position := |zone.name|;
      if inputBuffer[position].Some? {
        return Some(ErrDuplicateInputForZone);
      }
      inputBuffer[position] := Some(Input(zone, msg));
      assert inputBuffer[..] == old(inputBuffer[..])[position := Some(Input(zone, msg))];
      err := ProcessAvailable();
    }

    /** The loop of `AddResponse`. */
    method ProcessAvailable() returns (err: Option<Error>)
      requires Valid()
      modifies this
      ensures Valid() && (View(), err) == Advance(RulesOf(ctx), old(View()))
    {
      var rules := RulesOf(ctx);
      ghost var placed := View();
      while inputBufferIdx < inputBuffer.Length
        invariant Valid() && inputBuffer[..] == placed.buffer
        invariant Advance(rules, placed) == Advance(rules, View())
        decreases inputBuffer.Length - inputBufferIdx
      {
        ghost var before := View();
        assert before.buffer[before.idx] == inputBuffer[inputBufferIdx];
        if inputBuffer[inputBufferIdx].None? {
          break;
        }
        match rules.step(results, inputBuffer[inputBufferIdx].value) {
          case Rejected(e) => return Some(e);
          case Done(r) => results := results + [r];
        }
        inputBufferIdx := inputBufferIdx + 1;
      }
      return None;
    }

    method Result() returns (t: Triple)
      requires Valid()
      modifies this
      ensures Valid() && View() == Drain(RulesOf(ctx), old(View())).0 && t == Finish(ctx, old(View()))
    {
      var err := ProcessRest();
      if err.Some? {
        return Triple(Unknown, NotFound, err);
      }
      t := Judge(ctx.question, results);
    }

    /** The loop of `Result`. */
    method ProcessRest() returns (err: Option<Error>)
      requires Valid()
      modifies this
      ensures Valid() && (View(), err) == Drain(RulesOf(ctx), old(View()))
    {
      var rules := RulesOf(ctx);
      ghost var start := View();
      while inputBufferIdx < inputBuffer.Length
        invariant Valid() && inputBuffer[..] == start.buffer
        invariant Drain(rules, start) == Drain(rules, View())
        decreases inputBuffer.Length - inputBufferIdx
      {
        ghost var before := View();
        assert before.buffer[before.idx] == inputBuffer[inputBufferIdx];
        if inputBuffer[inputBufferIdx].None? {
          inputBufferIdx := inputBufferIdx + 1;
          assert View() == before.(idx := before.idx + 1);
          continue;
        }
        match rules.step(results, inputBuffer[inputBufferIdx].value) {
          case Rejected(e) => return Some(e);
          case Done(r) => results := results + [r];
        }
        inputBufferIdx := inputBufferIdx + 1;
      }
      return None;
    }
  }

  // ---------------------------------------------------------------- any arrival order

  /** One response per zone, every zone and every response's own question above the target name. */
  ghost predicate OnePerZone(ctx: Context, inputs: seq<Input>) {
    && (forall i :: 0 <= i < |inputs| ==>
          IsSubDomain(inputs[i].zone.name, ctx.question.name)
          && IsSubDomain(inputs[i].msg.question.name, ctx.question.name))
    && (forall i, j :: 0 <= i < j < |inputs| ==> !NamesEqual(inputs[i].zone.name, inputs[j].zone.name))
  }

  ghost predicate RootToLeaf(inputs: seq<Input>) {
    forall i, j :: 0 <= i < j < |inputs| ==> |inputs[i].zone.name| < |inputs[j].zone.name|
  }

  /** The reference: process the inputs strictly in the order given, then judge. */
  function ChainVerdict(ctx: Context, inputs: seq<Input>): Triple {
    var (results, e) := Chain(RulesOf(ctx), inputs, []);
    if e.Some? then Triple(Unknown, NotFound, e) else Verdict(ctx.question, results)
  }

  /** Without results, and for a chain that fails, nothing is known. */
  lemma NothingIsKnown(ctx: Context, inputs: seq<Input>)
    ensures inputs == [] ==> ChainVerdict(ctx, inputs) == Triple(Unknown, NotFound, Some(ErrNoResults))
    ensures var e := Chain(RulesOf(ctx), inputs, []).1; e.Some? ==> ChainVerdict(ctx, inputs) == Triple(Unknown, NotFound, e)
  {
  }

  lemma OnePerZoneIsAdmissible(ctx: Context, inputs: seq<Input>)
    requires OnePerZone(ctx, inputs)
    ensures Admissible(RulesOf(ctx), inputs)
  {
    var rules := RulesOf(ctx);
    forall i, j | 0 <= i < j < |inputs|
      ensures rules.depth(inputs[i]) != rules.depth(inputs[j])
    {
      AncestorsNest(inputs[i].zone.name, inputs[j].zone.name, ctx.question.name);
    }
  }

  /**
   For every arrival order of one response per zone, the results list, the error state and the
   verdict are those of processing the same inputs strictly from the root to the leaf. Every
   error an arrival returned is the error the whole chain ends with.
   */
  lemma ArrivalOrderDoesNotMatter(ctx: Context, arrivals: seq<Input>, sorted: seq<Input>)
    requires OnePerZone(ctx, arrivals) && RootToLeaf(sorted) && multiset(arrivals) == multiset(sorted)
    ensures var (s, errs) := AddAll(RulesOf(ctx), arrivals);
      && (Drain(RulesOf(ctx), s).0.results, Drain(RulesOf(ctx), s).1) == Chain(RulesOf(ctx), sorted, [])
      && Finish(ctx, s) == ChainVerdict(ctx, sorted)
      && forall e :: e in errs ==> Chain(RulesOf(ctx), sorted, []).1 == Some(e)
  {
    OnePerZoneIsAdmissible(ctx, arrivals);
    Confluence(RulesOf(ctx), arrivals, sorted);
  }

  /** The verification function reports the zone it was given. */
  ghost predicate KeepsZone(ctx: Context) {
    forall z, m, ds :: ctx.verify(z, m, ds).r.Some? ==> ctx.verify(z, m, ds).r.value.zone == z
  }

  /** The chain of the first `k + 1` inputs is one step after that of the first `k`. */
  lemma ChainSnoc(ctx: Context, inputs: seq<Input>, k: nat)
    requires k < |inputs|
    ensures var (rs, e) := Chain(RulesOf(ctx), inputs[..k], []);
      Chain(RulesOf(ctx), inputs[..k + 1], []) ==
        if e.Some? then (rs, e)
        else match Process(ctx, rs, inputs[k])
             case Rejected(f) => (rs, Some(f))
             case Done(r) => (rs + [r], None)
  {
    assert inputs[..k + 1] == inputs[..k] + [inputs[k]];
    ChainConcat(RulesOf(ctx), inputs[..k], [inputs[k]], []);
    assert [inputs[k]][1..] == [];
  }

  lemma ConsecutiveZonesNest(ctx: Context, sorted: seq<Input>, k: nat)
    requires OnePerZone(ctx, sorted) && RootToLeaf(sorted) && 0 < k < |sorted|
    ensures IsProperSubDomain(sorted[k - 1].zone.name, sorted[k].zone.name)
  {
    AncestorsNest(sorted[k - 1].zone.name, sorted[k].zone.name, ctx.question.name);
  }

  /** In a root-to-leaf chain below one question, consecutive zones nest: the zone checks never fire. */
  lemma ZoneChecksNeverFire(ctx: Context, sorted: seq<Input>, k: nat)
    requires KeepsZone(ctx) && OnePerZone(ctx, sorted) && RootToLeaf(sorted) && k < |sorted|
    requires Chain(RulesOf(ctx), sorted[..k], []).1.None?
    ensures var rs := Chain(RulesOf(ctx), sorted[..k], []).0;
      && ZoneError(rs, sorted[k].zone).None?
      && (k > 0 ==> rs != [] && rs[|rs| - 1].zone == sorted[k - 1].zone)
  {
    if k > 0 {
      ChainSnoc(ctx, sorted, k - 1);
      ConsecutiveZonesNest(ctx, sorted, k);
    }
  }
}
