/**
 The authenticator as a whole: from any interleaving of its goroutines to what its verdict means.
 */
module EndToEnd {
  import opened Collections
  import opened Names
  import opened Records
  import opened Verifier
  import opened ReorderBuffer
  import opened Authenticator
  import opened ChainOfTrust
  import opened AuthQueue

  /** How many inputs of a sorted list belong before `x`. */
  function Place(sorted: seq<Input>, x: Input): (k: nat)
    ensures k <= |sorted|
    ensures forall j :: 0 <= j < k ==> |sorted[j].zone.name| < |x.zone.name|
    ensures k < |sorted| ==> |sorted[k].zone.name| >= |x.zone.name|
  {
    if sorted == [] || |sorted[0].zone.name| >= |x.zone.name| then 0 else 1 + Place(sorted[1..], x)
  }

  function Inserted(sorted: seq<Input>, x: Input): seq<Input> {
    var k := Place(sorted, x);
    sorted[..k] + [x] + sorted[k..]
  }

  lemma InsertByDepth(sorted: seq<Input>, x: Input)
    requires RootToLeaf(sorted)
    requires forall i :: 0 <= i < |sorted| ==> |sorted[i].zone.name| != |x.zone.name|
    ensures RootToLeaf(Inserted(sorted, x))
  {
    var k, r := Place(sorted, x), Inserted(sorted, x);
    forall i, j | 0 <= i < j < |r|
      ensures |r[i].zone.name| < |r[j].zone.name|
    {
      assert r[i] == (if i < k then sorted[i] else if i == k then x else sorted[i - 1]);
      assert r[j] == (if j < k then sorted[j] else if j == k then x else sorted[j - 1]);
      assert k < |sorted| ==> |x.zone.name| < |sorted[k].zone.name|;
    }
  }

  lemma InsertedHolds(sorted: seq<Input>, x: Input)
    ensures multiset(Inserted(sorted, x)) == multiset(sorted) + multiset{x}
  {
    var k := Place(sorted, x);
    assert sorted == sorted[..k] + sorted[k..];
  }

  /** No two zones have the same number of labels. */
  ghost predicate DistinctDepths(inputs: seq<Input>) {
    forall i, j :: 0 <= i < j < |inputs| ==> |inputs[i].zone.name| != |inputs[j].zone.name|
  }

  lemma DepthsDiffer(inputs: seq<Input>, sorted: seq<Input>, i: nat)
    requires DistinctDepths(inputs) && inputs != [] && i < |sorted|
    requires multiset(sorted) == multiset(inputs[..|inputs| - 1])
    ensures |sorted[i].zone.name| != |inputs[|inputs| - 1].zone.name|
  {
    var front := inputs[..|inputs| - 1];
    assert sorted[i] in multiset(sorted) && sorted[i] in front;
    var j :| 0 <= j < |front| && front[j] == sorted[i];
  }

  /** Such responses can be put in root-to-leaf order. */
  lemma {:induction false} SortByDepth(inputs: seq<Input>) returns (sorted: seq<Input>)
    requires DistinctDepths(inputs)
    ensures RootToLeaf(sorted) && multiset(sorted) == multiset(inputs)
  {
    sorted := [];
    if inputs != [] {
      var front, last := inputs[..|inputs| - 1], inputs[|inputs| - 1];
      var some := SortByDepth(front);
      forall i | 0 <= i < |some|
        ensures |some[i].zone.name| != |last.zone.name|
      {
        DepthsDiffer(inputs, some, i);
      }
      InsertByDepth(some, last);
      InsertedHolds(some, last);
      sorted := Inserted(some, last);
      assert inputs == front + [last];
    }
  }

  lemma AdmittedDepths(ctx: Context, handled: seq<Input>)
    ensures DistinctDepths(Admitted(RulesOf(ctx), handled))
  {
    AdmittedDecide(RulesOf(ctx), handled);
    var inside := Admitted(RulesOf(ctx), handled);
    assert forall i, j :: 0 <= i < j < |inside| ==> RulesOf(ctx).depth(inside[i]) != RulesOf(ctx).depth(inside[j]);
  }

  /**
   With the strict policy, whatever the interleaving and whatever was delivered: if the verdict is
   Secure, the responses that were admitted, in root-to-leaf order, form a chain that starts at
   the root, every result of which is Secure, and in which every record that has to be signed rests
   on a trust anchor through verified signatures; every wildcard was rightly expanded; and the question is answered by such a record,
   or the last response is a verified denial of its own.
   */
  lemma SecureRunIsAnchored(cfg: Config, q: Question, anchors: seq<RR>, run: seq<Action>, s: QueueState) returns (sorted: seq<Input>)
    requires GoodOracle(cfg.oracle) && cfg.requireAll
    requires anchors != [] && NamesEqual(anchors[0].owner, ROOT)
    requires Run(run, s) && s.caller.Closed?
    requires ResolverVerdict(RealContext(cfg, q, anchors), s.handled).auth == Secure
    ensures s.handled == s.sent
    ensures RootToLeaf(sorted) && multiset(sorted) == multiset(Admitted(RulesOf(RealContext(cfg, q, anchors)), s.sent))
    ensures var results := Chain(RulesOf(RealContext(cfg, q, anchors)), sorted, []).0;
      && results != [] && NamesEqual(results[0].zone.name, ROOT)
      && (forall i :: 0 <= i < |results| ==> results[i].state == Secure && ExpandedRightly(cfg, results[i]))
      && AllAnchored(cfg, anchors, results)
      && (AnswersQuestion(cfg, q, anchors, results) || EndsInDenial(cfg, results))
  {
    var ctx := RealContext(cfg, q, anchors);
    QueueIsSafe(run, s);
    AdmittedDepths(ctx, s.handled);
    sorted := SortByDepth(Admitted(RulesOf(ctx), s.handled));
    VerdictOnAnything(ctx, s.handled, sorted);
    SecureMeansAnchored(cfg, q, anchors, sorted);
  }
}
