/**
 The reorder buffer of the authenticator (dnssec/authenticator.go, dnssec/result.go), for any
 kind of input and any deterministic processing step.

 An input goes to the slot given by its depth. After every arrival the buffer is processed from
 slot zero up to the first gap or error; an input that could not be processed stays where it is
 and is tried again. At the end everything left is processed, gaps being skipped.
 */
module ReorderBuffer {
  import opened Collections
  import opened Records

  datatype Step<+R> = Done(r: R) | Rejected(e: Error)

  /** Buffer size, admission check, slot of an input, and the processing of one input. */
  datatype Rules<!I(!new), !R(!new)> = Rules(
    size: nat, refuse: I -> Option<Error>, depth: I -> nat, step: (seq<R>, I) -> Step<R>) {

    ghost predicate Valid() {
      forall x :: refuse(x).None? ==> depth(x) < size
    }
  }

  datatype State<+I, +R> = State(buffer: seq<Option<I>>, idx: nat, results: seq<R>)

  function Init<I(!new), R(!new)>(rules: Rules<I, R>): State<I, R> {
    State(seq(rules.size, _ => None), 0, [])
  }

  predicate InBounds<I(!new), R(!new)>(rules: Rules<I, R>, s: State<I, R>) {
    |s.buffer| == rules.size && s.idx <= |s.buffer|
  }

  /** Process buffered inputs in order up to the first gap or error. */
  function Advance<I(!new), R(!new)>(rules: Rules<I, R>, s: State<I, R>): (r: (State<I, R>, Option<Error>))
    requires InBounds(rules, s)
    ensures InBounds(rules, r.0) && r.0.buffer == s.buffer && s.idx <= r.0.idx
    decreases |s.buffer| - s.idx
  {
    if s.idx == |s.buffer| || s.buffer[s.idx].None? then (s, None)
    else
      match rules.step(s.results, s.buffer[s.idx].value)
      case Rejected(e) => (s, Some(e))
      case Done(r) => Advance(rules, State(s.buffer, s.idx + 1, s.results + [r]))
  }

  /** Process everything that is left, skipping gaps. */
  function Drain<I(!new), R(!new)>(rules: Rules<I, R>, s: State<I, R>): (r: (State<I, R>, Option<Error>))
    requires InBounds(rules, s)
    ensures InBounds(rules, r.0) && r.0.buffer == s.buffer
    decreases |s.buffer| - s.idx
  {
    if s.idx == |s.buffer| then (s, None)
    else if s.buffer[s.idx].None? then Drain(rules, s.(idx := s.idx + 1))
    else
      match rules.step(s.results, s.buffer[s.idx].value)
      case Rejected(e) => (s, Some(e))
      case Done(r) => Drain(rules, State(s.buffer, s.idx + 1, s.results + [r]))
  }

  /** Why an input is refused on arrival, if it is. */
  function AdmissionError<I(!new), R(!new)>(rules: Rules<I, R>, s: State<I, R>, x: I): Option<Error>
    requires rules.Valid() && InBounds(rules, s)
  {
    if rules.refuse(x).Some? then rules.refuse(x)
    else if s.buffer[rules.depth(x)].Some? then Some(ErrDuplicateInputForZone)
    else None
  }

  function Add<I(!new), R(!new)>(rules: Rules<I, R>, s: State<I, R>, x: I): (r: (State<I, R>, Option<Error>))
    requires rules.Valid() && InBounds(rules, s)
    ensures InBounds(rules, r.0)
  {
    var e := AdmissionError(rules, s, x);
    if e.Some? then (s, e) else Advance(rules, s.(buffer := s.buffer[rules.depth(x) := Some(x)]))
  }

  /** The state after these arrivals, and the errors they returned. */
  function AddAll<I(!new), R(!new)>(rules: Rules<I, R>, arrivals: seq<I>): (r: (State<I, R>, seq<Error>))
    requires rules.Valid()
    ensures InBounds(rules, r.0)
  {
    if arrivals == [] then (Init(rules), [])
    else
      var (s, errs) := AddAll(rules, arrivals[..|arrivals| - 1]);
      var (t, e) := Add(rules, s, arrivals[|arrivals| - 1]);
      (t, if e.Some? then errs + [e.value] else errs)
  }

  // ---------------------------------------------------------------- the reference: in order, no buffer

  /** Process a list of inputs strictly in the order given, stopping at the first error. */
  function Chain<I(!new), R(!new)>(rules: Rules<I, R>, inputs: seq<I>, results: seq<R>): (seq<R>, Option<Error>) {
    if inputs == [] then (results, None)
    else
      match rules.step(results, inputs[0])
      case Rejected(e) => (results, Some(e))
      case Done(r) => Chain(rules, inputs[1..], results + [r])
  }

  lemma {:induction false} ChainConcat<I(!new), R(!new)>(rules: Rules<I, R>, a: seq<I>, b: seq<I>, results: seq<R>)
    ensures var (mid, e) := Chain(rules, a, results);
      Chain(rules, a + b, results) == if e.Some? then (mid, e) else Chain(rules, b, mid)
  {
    if a == [] {
      assert a + b == b;
    } else {
      assert (a + b)[1..] == a[1..] + b;
      match rules.step(results, a[0])
      case Rejected(_) =>
      case Done(r) => ChainConcat(rules, a[1..], b, results + [r]);
    }
  }

  /** What every step keeps, every chain keeps. */
  lemma {:induction false} ChainInvariant<I(!new), R(!new)>(rules: Rules<I, R>, inputs: seq<I>, results: seq<R>, inv: seq<R> -> bool)
    requires inv(results)
    requires forall rs, x :: inv(rs) && rules.step(rs, x).Done? ==> inv(rs + [rules.step(rs, x).r])
    ensures inv(Chain(rules, inputs, results).0)
  {
    if inputs != [] && rules.step(results, inputs[0]).Done? {
      ChainInvariant(rules, inputs[1..], results + [rules.step(results, inputs[0]).r], inv);
    }
  }

  /** If from each good state the next input is processed and leads to a good state, the whole list is. */
  lemma {:induction false} ChainProgress<I(!new), R(!new)>(rules: Rules<I, R>, inputs: seq<I>, k: nat, results: seq<R>, good: (nat, seq<R>) -> bool)
    requires k <= |inputs| && good(k, results)
    requires forall i: nat, rs :: k <= i < |inputs| && good(i, rs) ==>
      rules.step(rs, inputs[i]).Done? && good(i + 1, rs + [rules.step(rs, inputs[i]).r])
    ensures var (rs, e) := Chain(rules, inputs[k..], results); e.None? && good(|inputs|, rs)
    decreases |inputs| - k
  {
    if k < |inputs| {
      var r := rules.step(results, inputs[k]).r;
      assert inputs[k..][1..] == inputs[k + 1..];
      ChainProgress(rules, inputs, k + 1, results + [r], good);
    }
  }

  /** The buffered inputs by increasing slot. */
  function Present<I>(buffer: seq<Option<I>>): seq<I> {
    if buffer == [] then []
    else
      var last := buffer[|buffer| - 1];
      Present(buffer[..|buffer| - 1]) + (if last.Some? then [last.value] else [])
  }

  lemma {:induction false} PresentConcat<I>(a: seq<Option<I>>, b: seq<Option<I>>)
    ensures Present(a + b) == Present(a) + Present(b)
  {
    if b == [] {
      assert a + b == a;
    } else {
      PresentConcat(a, b[..|b| - 1]);
      assert (a + b)[..|a + b| - 1] == a + b[..|b| - 1];
    }
  }

  // ---------------------------------------------------------------- what every arrival keeps

  /** Everything before the index is filled and has been processed, in order, without error. */
  ghost predicate Inv<I(!new), R(!new)>(rules: Rules<I, R>, s: State<I, R>) {
    && InBounds(rules, s)
    && Chain(rules, Present(s.buffer[..s.idx]), []) == (s.results, None)
    && (forall p :: 0 <= p < s.idx ==> s.buffer[p].Some?)
  }

  /** The input at the index is there and cannot be processed. */
  ghost predicate Stuck<I(!new), R(!new)>(rules: Rules<I, R>, s: State<I, R>, e: Error) {
    s.idx < |s.buffer| && s.buffer[s.idx].Some? && rules.step(s.results, s.buffer[s.idx].value) == Rejected(e)
  }

  lemma {:induction false} StepKeepsInv<I(!new), R(!new)>(rules: Rules<I, R>, s: State<I, R>)
    requires Inv(rules, s) && s.idx < |s.buffer| && s.buffer[s.idx].Some?
    requires rules.step(s.results, s.buffer[s.idx].value).Done?
    ensures Inv(rules, State(s.buffer, s.idx + 1, s.results + [rules.step(s.results, s.buffer[s.idx].value).r]))
  {
    var x := s.buffer[s.idx].value;
    assert s.buffer[..s.idx + 1][..s.idx] == s.buffer[..s.idx];
    ChainConcat(rules, Present(s.buffer[..s.idx]), [x], []);
    assert [x][1..] == [];
  }

  lemma {:induction false} AdvanceKeepsInv<I(!new), R(!new)>(rules: Rules<I, R>, s: State<I, R>)
    requires Inv(rules, s)
    ensures var (t, e) := Advance(rules, s); Inv(rules, t) && (e.Some? ==> Stuck(rules, t, e.value))
    decreases |s.buffer| - s.idx
  {
    if s.idx < |s.buffer| && s.buffer[s.idx].Some? {
      match rules.step(s.results, s.buffer[s.idx].value)
      case Rejected(_) =>
      case Done(r) =>
        StepKeepsInv(rules, s);
        AdvanceKeepsInv(rules, State(s.buffer, s.idx + 1, s.results + [r]));
    }
  }

  /** An admitted input is kept, an input that is stuck stays stuck. */
  lemma {:induction false} AddKeepsInv<I(!new), R(!new)>(rules: Rules<I, R>, s: State<I, R>, x: I)
    requires rules.Valid() && Inv(rules, s) && AdmissionError(rules, s, x).None?
    ensures var (t, e) := Add(rules, s, x);
      && Inv(rules, t) && t.buffer == s.buffer[rules.depth(x) := Some(x)]
      && (e.Some? ==> Stuck(rules, t, e.value))
      && (forall f :: Stuck(rules, s, f) ==> Stuck(rules, t, f))
  {
    var placed := s.(buffer := s.buffer[rules.depth(x) := Some(x)]);
    assert placed.buffer[..s.idx] == s.buffer[..s.idx];
    AdvanceKeepsInv(rules, placed);
  }

  /** Draining computes the rest of the chain. */
  lemma {:induction false} DrainIsChain<I(!new), R(!new)>(rules: Rules<I, R>, s: State<I, R>)
    requires InBounds(rules, s)
    ensures var (d, e) := Drain(rules, s); (d.results, e) == Chain(rules, Present(s.buffer[s.idx..]), s.results)
    decreases |s.buffer| - s.idx
  {
    if s.idx < |s.buffer| {
      var rest := s.buffer[s.idx..];
      assert rest == [s.buffer[s.idx]] + s.buffer[s.idx + 1..];
      PresentConcat([s.buffer[s.idx]], s.buffer[s.idx + 1..]);
      if s.buffer[s.idx].None? {
        DrainIsChain(rules, s.(idx := s.idx + 1));
        assert Present(rest) == Present(s.buffer[s.idx + 1..]);
      } else {
        var x := s.buffer[s.idx].value;
        assert Present(rest) == [x] + Present(s.buffer[s.idx + 1..]);
        match rules.step(s.results, x)
        case Rejected(_) =>
        case Done(r) => DrainIsChain(rules, State(s.buffer, s.idx + 1, s.results + [r]));
      }
    }
  }

  lemma {:induction false} DrainIsWholeChain<I(!new), R(!new)>(rules: Rules<I, R>, s: State<I, R>)
    requires Inv(rules, s)
    ensures var (d, e) := Drain(rules, s); (d.results, e) == Chain(rules, Present(s.buffer), [])
    ensures forall f :: Stuck(rules, s, f) ==> Drain(rules, s).1 == Some(f)
  {
    DrainIsChain(rules, s);
    assert s.buffer == s.buffer[..s.idx] + s.buffer[s.idx..];
    PresentConcat(s.buffer[..s.idx], s.buffer[s.idx..]);
    ChainConcat(rules, Present(s.buffer[..s.idx]), Present(s.buffer[s.idx..]), []);
  }

  // ---------------------------------------------------------------- any arrival order

  /** All inputs pass the admission check, and no two share a slot. */
  ghost predicate Admissible<I(!new), R(!new)>(rules: Rules<I, R>, inputs: seq<I>) {
    && (forall i :: 0 <= i < |inputs| ==> rules.refuse(inputs[i]).None?)
    && (forall i, j :: 0 <= i < j < |inputs| ==> rules.depth(inputs[i]) != rules.depth(inputs[j]))
  }

  ghost predicate Sorted<I(!new), R(!new)>(rules: Rules<I, R>, inputs: seq<I>) {
    forall i, j :: 0 <= i < j < |inputs| ==> rules.depth(inputs[i]) < rules.depth(inputs[j])
  }

  /** The buffer holds exactly these inputs, each in its slot. */
  ghost predicate Holds<I(!new), R(!new)>(rules: Rules<I, R>, buffer: seq<Option<I>>, inputs: seq<I>) {
    && (forall x :: x in inputs ==> rules.depth(x) < |buffer| && buffer[rules.depth(x)] == Some(x))
    && (forall p :: 0 <= p < |buffer| && buffer[p].Some? ==>
          buffer[p].value in inputs && rules.depth(buffer[p].value) == p)
  }

  lemma HoldsOneMore<I(!new), R(!new)>(rules: Rules<I, R>, buffer: seq<Option<I>>, inputs: seq<I>, x: I)
    requires Holds(rules, buffer, inputs) && rules.depth(x) < |buffer| && buffer[rules.depth(x)].None?
    ensures Holds(rules, buffer[rules.depth(x) := Some(x)], inputs + [x])
  {
    assert (inputs + [x])[|inputs|] == x;
  }

  lemma SlotIsFree<I(!new), R(!new)>(rules: Rules<I, R>, buffer: seq<Option<I>>, inputs: seq<I>, m: nat)
    requires Admissible(rules, inputs) && m < |inputs| && Holds(rules, buffer, inputs[..m])
    requires rules.depth(inputs[m]) < |buffer|
    ensures buffer[rules.depth(inputs[m])].None?
  {
    assert forall i :: 0 <= i < m ==> rules.depth(inputs[..m][i]) != rules.depth(inputs[m]);
  }

  lemma HoldsPermuted<I(!new), R(!new)>(rules: Rules<I, R>, buffer: seq<Option<I>>, a: seq<I>, b: seq<I>)
    requires Holds(rules, buffer, a) && multiset(a) == multiset(b)
    ensures Holds(rules, buffer, b)
  {
    forall x
      ensures x in a <==> x in b
    {
      assert x in a <==> x in multiset(a);
      assert x in b <==> x in multiset(b);
    }
  }

  lemma {:induction false} ArrivalsFillBuffer<I(!new), R(!new)>(rules: Rules<I, R>, arrivals: seq<I>)
    requires rules.Valid() && Admissible(rules, arrivals)
    ensures var (s, errs) := AddAll(rules, arrivals);
      Inv(rules, s) && Holds(rules, s.buffer, arrivals) && forall e :: e in errs ==> Stuck(rules, s, e)
  {
    if arrivals != [] {
      var front, x := arrivals[..|arrivals| - 1], arrivals[|arrivals| - 1];
      ArrivalsFillBuffer(rules, front);
      var (s, errs) := AddAll(rules, front);
      assert arrivals == front + [x];
      SlotIsFree(rules, s.buffer, arrivals, |arrivals| - 1);
      AddKeepsInv(rules, s, x);
      HoldsOneMore(rules, s.buffer, front, x);
    }
  }

  /** The first `k` slots hold the first `j` inputs of the sorted list, those of depth below `k`. */
  lemma {:induction false} PresentIsSorted<I(!new), R(!new)>(rules: Rules<I, R>, buffer: seq<Option<I>>, sorted: seq<I>, k: nat, j: nat)
    requires Holds(rules, buffer, sorted) && Sorted(rules, sorted) && k <= |buffer| && j <= |sorted|
    requires forall i :: 0 <= i < |sorted| ==> (i < j <==> rules.depth(sorted[i]) < k)
    ensures Present(buffer[..k]) == sorted[..j]
  {
    if k > 0 {
      assert buffer[..k][..k - 1] == buffer[..k - 1];
      if buffer[k - 1].Some? {
        var i :| 0 <= i < |sorted| && sorted[i] == buffer[k - 1].value;
        PresentIsSorted(rules, buffer, sorted, k - 1, i);
        assert sorted[..i + 1] == sorted[..i] + [sorted[i]];
        assert i + 1 < |sorted| ==> rules.depth(sorted[i + 1]) >= k;
      } else {
        forall i | 0 <= i < |sorted|
          ensures rules.depth(sorted[i]) != k - 1
        {
          assert sorted[i] in sorted;
        }
        PresentIsSorted(rules, buffer, sorted, k - 1, j);
      }
    }
  }

  /**
   Confluence. For every arrival order the results and the error state are those of processing
   the same inputs strictly by depth, and every error an arrival returned is the error the
   whole chain ends with.
   */
  lemma {:induction false} Confluence<I(!new), R(!new)>(rules: Rules<I, R>, arrivals: seq<I>, sorted: seq<I>)
    requires rules.Valid() && Admissible(rules, arrivals) && Sorted(rules, sorted)
    requires multiset(arrivals) == multiset(sorted)
    ensures var (s, errs) := AddAll(rules, arrivals);
      && (Drain(rules, s).0.results, Drain(rules, s).1) == Chain(rules, sorted, [])
      && forall e :: e in errs ==> Chain(rules, sorted, []).1 == Some(e)
  {
    var (s, errs) := AddAll(rules, arrivals);
    ArrivalsFillBuffer(rules, arrivals);
    HoldsPermuted(rules, s.buffer, arrivals, sorted);
    assert forall i :: 0 <= i < |sorted| ==> sorted[i] in sorted;
    PresentIsSorted(rules, s.buffer, sorted, |s.buffer|, |sorted|);
    assert s.buffer[..|s.buffer|] == s.buffer && sorted[..|sorted|] == sorted;
    DrainIsWholeChain(rules, s);
  }

  lemma AddAllSnoc<I(!new), R(!new)>(rules: Rules<I, R>, front: seq<I>, x: I)
    requires rules.Valid()
    ensures var (s, errs) := AddAll(rules, front);
      var (t, e) := Add(rules, s, x);
      AddAll(rules, front + [x]) == (t, if e.Some? then errs + [e.value] else errs)
  {
    assert (front + [x])[..|front|] == front;
  }

  /** An input below the first slot that arrives again is refused each time and changes nothing. */
  lemma RepeatsAreRefused<I(!new), R(!new)>(rules: Rules<I, R>, x: I)
    requires rules.Valid() && rules.refuse(x).None? && rules.depth(x) > 0
    ensures var s := AddAll(rules, [x]).0;
      && AddAll(rules, [x, x]) == (s, [ErrDuplicateInputForZone])
      && AddAll(rules, [x, x, x]) == (s, [ErrDuplicateInputForZone, ErrDuplicateInputForZone])
  {
    var none: seq<I> := [];
    AddAllSnoc(rules, none, x);
    AddAllSnoc(rules, [x], x);
    AddAllSnoc(rules, [x, x], x);
    assert none + [x] == [x] && [x] + [x] == [x, x] && [x, x] + [x] == [x, x, x];
    var placed := Init(rules).(buffer := Init(rules).buffer[rules.depth(x) := Some(x)]);
    assert placed.buffer[0].None? && Add(rules, Init(rules), x) == (placed, None);
    assert Add(rules, placed, x) == (placed, Some(ErrDuplicateInputForZone));
    var dup := [ErrDuplicateInputForZone];
    assert AddAll(rules, none) == (Init(rules), []);
    assert AddAll(rules, none + [x]) == (placed, []);
    assert AddAll(rules, [x]).1 + dup == dup && dup + dup == [dup[0], dup[0]];
    assert AddAll(rules, [x, x]) == (placed, dup);
  }

  // ---------------------------------------------------------------- arrivals that are refused

  /** The input passes the admission check and its slot is not taken by one of these. */
  ghost predicate Admits<I(!new), R(!new)>(rules: Rules<I, R>, taken: seq<I>, x: I) {
    rules.refuse(x).None? && forall i :: 0 <= i < |taken| ==> rules.depth(taken[i]) != rules.depth(x)
  }

  /** The arrivals that are let in: those that pass the check and find their slot free. */
  ghost function Admitted<I(!new), R(!new)>(rules: Rules<I, R>, arrivals: seq<I>): (r: seq<I>)
    ensures |r| <= |arrivals|
  {
    if arrivals == [] then []
    else
      var before := Admitted(rules, arrivals[..|arrivals| - 1]);
      var x := arrivals[|arrivals| - 1];
      if Admits(rules, before, x) then before + [x] else before
  }

  lemma AdmitsIffNoError<I(!new), R(!new)>(rules: Rules<I, R>, s: State<I, R>, taken: seq<I>, x: I)
    requires rules.Valid() && InBounds(rules, s) && Holds(rules, s.buffer, taken)
    ensures AdmissionError(rules, s, x).None? <==> Admits(rules, taken, x)
  {
    if rules.refuse(x).None? {
      assert forall i :: 0 <= i < |taken| ==> taken[i] in taken;
    }
  }

  /** Refused arrivals leave no trace but their errors; every other error is one the chain is stuck with. */
  lemma {:induction false} AdmittedDecide<I(!new), R(!new)>(rules: Rules<I, R>, arrivals: seq<I>)
    requires rules.Valid()
    ensures var (s, errs) := AddAll(rules, arrivals);
      var inside := Admitted(rules, arrivals);
      && Inv(rules, s) && Admissible(rules, inside) && Holds(rules, s.buffer, inside)
      && |errs| >= |arrivals| - |inside|
      && (|errs| > |arrivals| - |inside| ==> exists f :: Stuck(rules, s, f))
  {
    if arrivals != [] {
      var front, x := arrivals[..|arrivals| - 1], arrivals[|arrivals| - 1];
      AdmittedDecide(rules, front);
      var (s, errs) := AddAll(rules, front);
      var before := Admitted(rules, front);
      AdmitsIffNoError(rules, s, before, x);
      if Admits(rules, before, x) {
        AddKeepsInv(rules, s, x);
        HoldsOneMore(rules, s.buffer, before, x);
      }
    }
  }

  /**
   What any arrivals whatever lead to: the results and the error of processing the admitted ones
   strictly by depth, and unless that chain ends in an error, one error for each arrival refused.
   */
  lemma ArrivalsInGeneral<I(!new), R(!new)>(rules: Rules<I, R>, arrivals: seq<I>, sorted: seq<I>)
    requires rules.Valid() && Sorted(rules, sorted) && multiset(Admitted(rules, arrivals)) == multiset(sorted)
    ensures var (s, errs) := AddAll(rules, arrivals);
      && (Drain(rules, s).0.results, Drain(rules, s).1) == Chain(rules, sorted, [])
      && (Chain(rules, sorted, []).1.None? ==> |errs| == |arrivals| - |Admitted(rules, arrivals)|)
  {
    var (s, errs) := AddAll(rules, arrivals);
    var inside := Admitted(rules, arrivals);
    AdmittedDecide(rules, arrivals);
    HoldsPermuted(rules, s.buffer, inside, sorted);
    assert forall i :: 0 <= i < |sorted| ==> sorted[i] in sorted;
    PresentIsSorted(rules, s.buffer, sorted, |s.buffer|, |sorted|);
    assert s.buffer[..|s.buffer|] == s.buffer && sorted[..|sorted|] == sorted;
    DrainIsWholeChain(rules, s);
  }
}
