/**
 All walks of one query side by side (resolver_exchange.go, cname.go, zone_factory.go).

 Each walk is a running call with the number of labels its cursor may still visit. Calls take
 steps in any order: a loop iteration first adds one to the shared 32-bit counter, and only an
 iteration within the limit may move on and start further calls. Where the program makes a call
 wait for its children, or starts them one by one, it allows fewer orders than are covered here.
 */
module QueryBudget {

  const WORD := 0x1_0000_0000

  type Word = x: nat | x < WORD

  /** The configured limit, and how many calls one iteration may start: aliases to follow, or hosts to look up. */
  datatype Limits = Limits(maxQueries: Word, fanOut: nat) {
    /** The counter cannot wrap around. */
    predicate Fits() {
      maxQueries + 1 + fanOut * maxQueries < WORD
    }
  }

  /**
   `begun` counts iterations, `passed` those within the limit, `calls` the calls started and
   `returned` those that ended of their own accord.
   */
  datatype State = State(counter: nat, begun: nat, passed: nat, calls: nat, returned: nat, running: seq<nat>)

  datatype Action =
    | Iterate(call: nat, left: nat, started: seq<nat>)
    | Return(call: nat)

  function Initial(labels: nat): State {
    State(0, 0, 0, 1, 0, [labels])
  }

  function Without(s: seq<nat>, i: nat): seq<nat>
    requires i < |s|
  {
    s[..i] + s[i + 1..]
  }

  /** An iteration needs a label to visit, moves the cursor on, and starts a bounded number of calls. */
  predicate Enabled(l: Limits, s: State, a: Action) {
    match a
    case Return(call) => call < |s.running|
    case Iterate(call, left, started) => call < |s.running| && left < s.running[call] && |started| <= l.fanOut
  }

  function Next(l: Limits, s: State, a: Action): State
    requires Enabled(l, s, a)
  {
    match a
    case Return(call) => s.(returned := s.returned + 1, running := Without(s.running, call))
    case Iterate(call, left, started) =>
      var c := (s.counter + 1) % WORD;
      if c > l.maxQueries then s.(counter := c, begun := s.begun + 1, running := Without(s.running, call))
      else State(c, s.begun + 1, s.passed + 1, s.calls + |started|, s.returned, s.running[call := left] + started)
  }

  ghost predicate Executable(l: Limits, s: State, run: seq<Action>)
    decreases |run|
  {
    run == [] || (Enabled(l, s, run[0]) && Executable(l, Next(l, s, run[0]), run[1..]))
  }

  ghost function Exec(l: Limits, s: State, run: seq<Action>): State
    requires Executable(l, s, run)
    decreases |run|
  {
    if run == [] then s else Exec(l, Next(l, s, run[0]), run[1..])
  }

  /** Every call over the limit ends the call that made it, and only passed iterations start calls. */
  ghost predicate Inv(l: Limits, s: State) {
    && s.counter == s.begun
    && s.passed == (if s.begun <= l.maxQueries then s.begun else l.maxQueries)
    && s.begun - s.passed + s.returned + |s.running| == s.calls <= 1 + l.fanOut * s.passed
  }

  lemma Monotone(a: nat, b: nat, f: nat)
    requires a <= b
    ensures f * a <= f * b && f * (a + 1) == f * a + f
  {
  }

  lemma CounterHasRoom(l: Limits, s: State)
    requires l.Fits() && Inv(l, s) && s.running != []
    ensures s.begun + 1 < WORD
  {
    Monotone(s.passed, l.maxQueries, l.fanOut);
  }

  lemma NextKeepsInv(l: Limits, s: State, a: Action)
    requires l.Fits() && Inv(l, s) && Enabled(l, s, a)
    ensures Inv(l, Next(l, s, a))
  {
    if a.Iterate? {
      CounterHasRoom(l, s);
      var c := (s.counter + 1) % WORD;
      assert c == s.begun + 1;
      Monotone(s.passed, s.passed + 1, l.fanOut);
    }
  }

  lemma {:induction false} RunKeepsInv(l: Limits, s: State, run: seq<Action>)
    requires l.Fits() && Inv(l, s) && Executable(l, s, run)
    ensures var t := Exec(l, s, run);
      Inv(l, t) && |run| == (t.begun - s.begun) + (t.returned - s.returned)
    decreases |run|
  {
    if run != [] {
      NextKeepsInv(l, s, run[0]);
      RunKeepsInv(l, Next(l, s, run[0]), run[1..]);
    }
  }

  /**
   However the calls of one query interleave, at most `maxQueries` iterations get past the check,
   the counter never wraps, and the query is over after a number of steps fixed in advance.
   */
  lemma QueriesAreBounded(l: Limits, labels: nat, run: seq<Action>)
    requires l.Fits() && Executable(l, Initial(labels), run)
    ensures var t := Exec(l, Initial(labels), run);
      && t.passed <= l.maxQueries && t.counter == t.begun
      && t.calls <= 1 + l.fanOut * l.maxQueries
      && |run| <= l.maxQueries + 1 + l.fanOut * l.maxQueries
  {
    RunKeepsInv(l, Initial(labels), run);
    Monotone(Exec(l, Initial(labels), run).passed, l.maxQueries, l.fanOut);
  }

  /** The `n`-th state of an unending history takes the `n`-th action to the next. */
  predicate Follows(l: Limits, state: nat -> State, action: nat -> Action, n: nat) {
    Enabled(l, state(n), action(n)) && Next(l, state(n), action(n)) == state(n + 1)
  }

  /** So no query goes on for ever. */
  lemma NoEndlessRun(l: Limits, labels: nat, state: nat -> State, action: nat -> Action)
    requires l.Fits() && state(0) == Initial(labels)
    ensures exists n: nat :: !Follows(l, state, action, n)
  {
    if forall n: nat :: Follows(l, state, action, n) {
      var run := Unroll(l, 0, state, action, l.maxQueries + 2 + l.fanOut * l.maxQueries);
      QueriesAreBounded(l, labels, run);
    }
  }

  lemma {:induction false} Unroll(l: Limits, from: nat, state: nat -> State, action: nat -> Action, k: nat) returns (run: seq<Action>)
    requires forall n: nat :: Follows(l, state, action, n)
    ensures |run| == k && Executable(l, state(from), run)
    decreases k
  {
    run := [];
    if k > 0 {
      assert Follows(l, state, action, from);
      var rest := Unroll(l, from + 1, state, action, k - 1);
      run := [action(from)] + rest;
      assert run[1..] == rest;
    }
  }

  // ---------------------------------------------------------------- limits that let the counter wrap

  ghost predicate Reaches(l: Limits, labels: nat, t: State) {
    exists run :: Executable(l, Initial(labels), run) && Exec(l, Initial(labels), run) == t
  }

  lemma {:induction false} ExecSnoc(l: Limits, s: State, run: seq<Action>, a: Action)
    requires Executable(l, s, run) && Enabled(l, Exec(l, s, run), a)
    ensures Executable(l, s, run + [a]) && Exec(l, s, run + [a]) == Next(l, Exec(l, s, run), a)
    decreases |run|
  {
    if run == [] {
      assert run + [a] == [a] && [a][1..] == [];
    } else {
      ExecSnoc(l, Next(l, s, run[0]), run[1..], a);
      assert (run + [a])[1..] == run[1..] + [a];
    }
  }

  lemma ReachesNext(l: Limits, labels: nat, t: State, a: Action)
    requires Reaches(l, labels, t) && Enabled(l, t, a)
    ensures Reaches(l, labels, Next(l, t, a))
  {
    var run :| Executable(l, Initial(labels), run) && Exec(l, Initial(labels), run) == t;
    ExecSnoc(l, Initial(labels), run, a);
  }

  predicate AllMayMove(running: seq<nat>) {
    forall i :: 0 <= i < |running| ==> running[i] > 0
  }

  /** The first call uses up the whole budget, each iteration starting as many calls as it may. */
  lemma {:induction false} SpendBudget(l: Limits, m: nat) returns (t: State)
    requires m <= l.maxQueries
    ensures Reaches(l, l.maxQueries + 1, t) && t.counter == t.passed == m
    ensures |t.running| == 1 + l.fanOut * m && AllMayMove(t.running) && t.running[0] == l.maxQueries + 1 - m
  {
    if m == 0 {
      t := Initial(l.maxQueries + 1);
      var none: seq<Action> := [];
      assert Executable(l, t, none) && Exec(l, t, none) == t;
    } else {
      var s := SpendBudget(l, m - 1);
      var a := Iterate(0, s.running[0] - 1, seq(l.fanOut, _ => 1));
      ReachesNext(l, l.maxQueries + 1, s, a);
      t := Next(l, s, a);
      Monotone(m - 1, m, l.fanOut);
    }
  }

  /** Further iterations are refused, one call at a time, and still counted. */
  lemma {:induction false} CountRefusals(l: Limits, labels: nat, s: State, k: nat) returns (t: State)
    requires Reaches(l, labels, s) && AllMayMove(s.running) && k < |s.running|
    requires l.maxQueries <= s.counter && s.counter + k < WORD
    ensures Reaches(l, labels, t) && t.counter == s.counter + k && t.passed == s.passed
    ensures t.running != [] && AllMayMove(t.running)
    decreases k
  {
    if k == 0 {
      t := s;
    } else {
      var a := Iterate(0, 0, []);
      ReachesNext(l, labels, s, a);
      var u := Next(l, s, a);
      assert u.running == s.running[1..];
      t := CountRefusals(l, labels, u, k - 1);
    }
  }

  lemma WrapStep(l: Limits, t: State)
    requires t.counter == WORD - 1 && t.running != [] && AllMayMove(t.running)
    ensures var a := Iterate(0, 0, []); Enabled(l, t, a) && Next(l, t, a).passed == t.passed + 1
  {
    assert (t.counter + 1) % WORD == 0;
  }

  lemma RefusalsSuffice(l: Limits)
    requires !l.Fits()
    ensures WORD - 1 - l.maxQueries < 1 + l.fanOut * l.maxQueries
  {
  }

  /** Past that, the counter starts again from zero and lets one more iteration through. */
  lemma CounterWraps(l: Limits) returns (labels: nat, run: seq<Action>)
    requires !l.Fits()
    ensures Executable(l, Initial(labels), run) && Exec(l, Initial(labels), run).passed > l.maxQueries
  {
    labels := l.maxQueries + 1;
    var s := SpendBudget(l, l.maxQueries);
    RefusalsSuffice(l);
    var t := CountRefusals(l, labels, s, WORD - 1 - l.maxQueries);
    WrapStep(l, t);
    ReachesNext(l, labels, t, Iterate(0, 0, []));
    var u := Next(l, t, Iterate(0, 0, []));
    run :| Executable(l, Initial(labels), run) && Exec(l, Initial(labels), run) == u;
  }

  ghost predicate BudgetHolds(l: Limits) {
    forall labels: nat, run: seq<Action> {:trigger Executable(l, Initial(labels), run)} ::
      Executable(l, Initial(labels), run) ==> Exec(l, Initial(labels), run).passed <= l.maxQueries
  }

  /** The budget is kept in every interleaving if and only if the limits do not let the counter wrap. */
  lemma BudgetHoldsIff(l: Limits)
    ensures BudgetHolds(l) <==> l.Fits()
  {
    if l.Fits() {
      forall labels: nat, run: seq<Action> {:trigger Executable(l, Initial(labels), run)} | Executable(l, Initial(labels), run)
        ensures Exec(l, Initial(labels), run).passed <= l.maxQueries
      {
        QueriesAreBounded(l, labels, run);
      }
    } else {
      var labels, run := CounterWraps(l);
    }
  }
}
