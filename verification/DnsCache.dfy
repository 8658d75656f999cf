/**
 The message cache (server.go): thirty-two shards chosen by a hash of the text key.

 A run is the sequence of operations executed so far, each with the clock reading it made. What
 a shard holds is a function of the run, and the theorems relate the answers of the cache to the
 run alone.
 */
module DnsCache {
  import opened Collections
  import opened CacheKeys
  import opened LruShard
  import opened Records

  const SHARDS: nat := 32
  const NANOSECONDS := 1_000_000_000

  /** The configured size, and the hash that spreads keys over the shards. */
  datatype Config = Config(maxSize: nat, hash: string -> nat) {
    function Share(): nat {
      maxSize / SHARDS
    }

    function Home(key: string): (i: nat)
      ensures i < SHARDS
    {
      hash(key) % SHARDS
    }
  }

  datatype Op =
    | Set(q: Query, msg: Message, now: int)
    | SetNegative(q: Query, rcode: int, now: int)
    | Get(q: Query, id: nat, now: int)
    | CleanExpired(now: int)
    | Clear

  // ---------------------------------------------------------------- lifetime of an entry

  function RecordsOf(msg: Message): seq<RR> {
    msg.answer + msg.ns + msg.extra
  }

  function ClampTtl(ttl: Seconds): Seconds {
    var nonZero := if ttl == 0 then 300 else ttl;
    var capped := Min(nonZero, 86400);
    if capped < 60 then 60 else capped
  }

  function EntryTtl(msg: Message): Seconds {
    ClampTtl(MinTtl(3600, RecordsOf(msg)))
  }

  ghost predicate Carries(msg: Message, rr: RR) {
    rr in msg.answer || rr in msg.ns || rr in msg.extra
  }

  /** The lowest TTL in the message. */
  ghost predicate Lowest(msg: Message, m: int) {
    (exists rr :: Carries(msg, rr) && rr.ttl == m) && forall rr :: Carries(msg, rr) ==> m <= rr.ttl
  }

  /**
   How many seconds a message is kept: as long as its shortest-lived record, but at least a minute
   and at most an hour; five minutes if a record may not be kept at all.
   */
  ghost predicate IsLifetime(msg: Message, life: int) {
    && ((forall rr :: Carries(msg, rr) ==> rr.ttl >= 3600) ==> life == 3600)
    && (forall m {:trigger Lowest(msg, m)} :: Lowest(msg, m) && 60 <= m < 3600 ==> life == m)
    && (forall m {:trigger Lowest(msg, m)} :: Lowest(msg, m) && 1 <= m < 60 ==> life == 60)
    && (Lowest(msg, 0) ==> life == 300)
  }

  /** Every message has exactly one lifetime, and it is the one computed. */
  lemma LifetimeIff(msg: Message, life: int)
    ensures IsLifetime(msg, life) <==> life == EntryTtl(msg)
  {
    var rs := RecordsOf(msg);
    assert forall rr :: Carries(msg, rr) <==> rr in rs;
    var m := MinTtl(3600, rs);
    if m < 3600 {
      var rr :| rr in rs && rr.ttl == m;
      assert Carries(msg, rr) && Lowest(msg, m);
    }
  }

  /**
   An entry lives between a minute and an hour (the cap of a day never takes effect), and it
   outlives none of its records exactly when none of them has less than a minute left.
   */
  lemma EntryTtlBounds(msg: Message, life: int)
    requires IsLifetime(msg, life)
    ensures 60 <= life <= 3600
    ensures (forall rr :: Carries(msg, rr) ==> life <= rr.ttl) <==> (forall rr :: Carries(msg, rr) ==> rr.ttl >= 60)
  {
    var rs := RecordsOf(msg);
    LifetimeIff(msg, life);
    assert forall rr :: Carries(msg, rr) <==> rr in rs;
    var m := MinTtl(3600, rs);
    if m < 60 {
      var rr :| rr in rs && m == rr.ttl;
      assert Carries(msg, rr) && life > rr.ttl;
    } else {
      assert life == m;
    }
  }

  lemma {:induction false} MinTtlConcat(start: Seconds, a: seq<RR>, b: seq<RR>)
    ensures MinTtl(start, a + b) == MinTtl(MinTtl(start, a), b)
  {
    if b == [] {
      assert a + b == a;
    } else {
      assert (a + b)[..|a + b| - 1] == a + b[..|b| - 1];
      MinTtlConcat(start, a, b[..|b| - 1]);
    }
  }

  method ComputeTtl(msg: Message) returns (ttl: Seconds)
    ensures ttl == EntryTtl(msg) && IsLifetime(msg, ttl)
  {
    LifetimeIff(msg, EntryTtl(msg));
    ttl := LowestTtl(3600, msg.answer);
    ttl := LowestTtl(ttl, msg.ns);
    ttl := LowestTtl(ttl, msg.extra);
    MinTtlConcat(3600, msg.answer, msg.ns);
    MinTtlConcat(3600, msg.answer + msg.ns, msg.extra);
    if ttl == 0 {
      ttl := 300;
    }
    ttl := Min(ttl, 86400);
    if ttl < 60 {
      ttl := 60;
    }
  }

  // ---------------------------------------------------------------- one operation

  function PositiveEntry(q: Query, msg: Message, now: int): Entry {
    Entry(msg, now + EntryTtl(msg) * NANOSECONDS, Key(q), false)
  }

  function NegativeEntry(q: Query, rcode: int, now: int): Entry {
    Entry(Message(0, true, rcode, [q], [], [], []), now + 300 * NANOSECONDS, NegativeKey(q), true)
  }

  function StoredEntry(op: Op): Option<Entry> {
    match op
    case Set(q, msg, now) => Some(PositiveEntry(q, msg, now))
    case SetNegative(q, rcode, now) => Some(NegativeEntry(q, rcode, now))
    case _ => None
  }

  /** What shard `i` becomes. */
  function Step(cfg: Config, i: nat, s: Shard, op: Op): Shard
    requires cfg.Share() > 0
  {
    match op
    case Set(q, msg, now) =>
      if cfg.Home(Key(q)) == i then Store(s, cfg.Share(), PositiveEntry(q, msg, now)) else s
    case SetNegative(q, rcode, now) =>
      if cfg.Home(NegativeKey(q)) == i then Store(s, cfg.Share(), NegativeEntry(q, rcode, now)) else s
    case Get(q, _, now) => if cfg.Home(Key(q)) == i then LookUp(s, Key(q), now).0 else s
    case CleanExpired(now) => Clean(s, now)
    case Clear => EMPTY
  }

  /** Coherent, within its share, and holding only keys that hash to it. */
  ghost predicate ShardOk(cfg: Config, i: nat, s: Shard) {
    Coherent(s) && |s.items.Keys| <= cfg.Share() && forall k :: k in s.items ==> cfg.Home(k) == i
  }

  lemma StepKeeps(cfg: Config, i: nat, s: Shard, op: Op)
    requires cfg.Share() > 0 && ShardOk(cfg, i, s)
    ensures ShardOk(cfg, i, Step(cfg, i, s, op))
    ensures var t := Step(cfg, i, s, op); var e := StoredEntry(op);
      && (op.Clear? ==> t.items == map[])
      && (forall k :: k in t.items && !(e.Some? && e.value.key == k) ==> k in s.items && t.items[k] == s.items[k])
      && (e.Some? && cfg.Home(e.value.key) == i ==> e.value.key in t.items && t.items[e.value.key] == e.value)
  {
    match op
    case Set(q, msg, now) => StoreKeeps(s, cfg.Share(), PositiveEntry(q, msg, now));
    case SetNegative(q, rcode, now) => StoreKeeps(s, cfg.Share(), NegativeEntry(q, rcode, now));
    case Get(q, _, now) => LookUpKeeps(s, Key(q), now);
    case CleanExpired(now) => CleanIsCoherent(s, now);
    case Clear =>
  }

  // ---------------------------------------------------------------- whole runs

  /** What shard `i` holds after a run. */
  ghost function Replay(cfg: Config, ops: seq<Op>, i: nat): Shard
    requires cfg.Share() > 0
  {
    if ops == [] then EMPTY else Step(cfg, i, Replay(cfg, ops[..|ops| - 1], i), ops[|ops| - 1])
  }

  /** In every reachable state a shard is coherent, within its share, and holds only its own keys. */
  lemma {:induction false} ReachableShardOk(cfg: Config, ops: seq<Op>, i: nat)
    requires cfg.Share() > 0
    ensures ShardOk(cfg, i, Replay(cfg, ops, i))
  {
    if ops != [] {
      ReachableShardOk(cfg, ops[..|ops| - 1], i);
      StepKeeps(cfg, i, Replay(cfg, ops[..|ops| - 1], i), ops[|ops| - 1]);
    }
  }

  lemma ReplaySnoc(cfg: Config, ops: seq<Op>, op: Op, i: nat)
    requires cfg.Share() > 0
    ensures Replay(cfg, ops + [op], i) == Step(cfg, i, Replay(cfg, ops, i), op)
  {
    assert (ops + [op])[..|ops + [op]| - 1] == ops;
  }

  /** The entry last stored under a key, unless everything was cleared since. */
  ghost function Latest(ops: seq<Op>, key: string): Option<Entry> {
    if ops == [] then None
    else
      var op := ops[|ops| - 1];
      var e := StoredEntry(op);
      if op.Clear? then None
      else if e.Some? && e.value.key == key then e
      else Latest(ops[..|ops| - 1], key)
  }

  /** The last `set` for exactly this question, unless everything was cleared since. */
  ghost function LatestSet(ops: seq<Op>, q: Query): (r: Option<Op>)
    ensures r.Some? ==> r.value.Set? && r.value.q == q && r.value in ops
  {
    if ops == [] then None
    else
      var op := ops[|ops| - 1];
      if op.Clear? then None
      else if op.Set? && op.q == q then Some(op)
      else LatestSet(ops[..|ops| - 1], q)
  }

  lemma {:induction false} LatestOfQuestion(ops: seq<Op>, q: Query)
    ensures var s := LatestSet(ops, q);
      Latest(ops, Key(q)) == if s.Some? then Some(PositiveEntry(q, s.value.msg, s.value.now)) else None
  {
    if ops != [] {
      var op := ops[|ops| - 1];
      LatestOfQuestion(ops[..|ops| - 1], q);
      if op.Set? && Key(op.q) == Key(q) {
        KeyIsInjective(op.q, q);
      } else if op.SetNegative? {
        KeysNeverCollide(q, op.q);
      }
    }
  }

  lemma {:induction false} StoredIsLatest(cfg: Config, ops: seq<Op>, i: nat, key: string)
    requires cfg.Share() > 0 && key in Replay(cfg, ops, i).items
    ensures Latest(ops, key) == Some(Replay(cfg, ops, i).items[key])
  {
    if ops != [] {
      var front, op := ops[..|ops| - 1], ops[|ops| - 1];
      ReachableShardOk(cfg, front, i);
      StepKeeps(cfg, i, Replay(cfg, front, i), op);
      if key in Replay(cfg, front, i).items {
        StoredIsLatest(cfg, front, i, key);
      }
    }
  }

  /** What a look-up answers at the end of a run. */
  ghost function Answer(cfg: Config, ops: seq<Op>, q: Query, id: nat, now: int): Option<Message>
    requires cfg.Share() > 0
  {
    match LookUp(Replay(cfg, ops, cfg.Home(Key(q))), Key(q), now).1
    case Some(entry) => Some(entry.msg.(id := id))
    case None => None
  }

  /**
   A hit is the message of the latest `set` for exactly this question, with only the identifier
   changed, strictly before the lifetime of that message has passed. Negative entries never answer.
   */
  lemma HitIsLatestSet(cfg: Config, ops: seq<Op>, q: Query, id: nat, now: int) returns (life: nat)
    requires cfg.Share() > 0 && Answer(cfg, ops, q, id, now).Some?
    ensures var s := LatestSet(ops, q);
      && s.Some?
      && Answer(cfg, ops, q, id, now).value == s.value.msg.(id := id)
      && IsLifetime(s.value.msg, life) && now < s.value.now + life * 1_000_000_000
  {
    var i := cfg.Home(Key(q));
    ReachableShardOk(cfg, ops, i);
    LookUpKeeps(Replay(cfg, ops, i), Key(q), now);
    StoredIsLatest(cfg, ops, i, Key(q));
    LatestOfQuestion(ops, q);
    life := EntryTtl(LatestSet(ops, q).value.msg);
    LifetimeIff(LatestSet(ops, q).value.msg, life);
  }

  /** A negative answer is kept under its own key for five minutes; a positive one under its own until its lifetime has passed. */
  lemma EntryIsFiled(cfg: Config, ops: seq<Op>, q: Query, msg: Message, rcode: int, now: int, life: int)
    requires cfg.Share() > 0 && IsLifetime(msg, life)
    ensures var s := Replay(cfg, ops + [Op.SetNegative(q, rcode, now)], cfg.hash(NegativeKey(q)) % 32);
      && NegativeKey(q) in s.items
      && var e := s.items[NegativeKey(q)];
      && e.expires == now + 300_000_000_000 && e.msg.rcode == rcode && e.msg.answer == e.msg.ns == e.msg.extra == []
    ensures var s := Replay(cfg, ops + [Op.Set(q, msg, now)], cfg.hash(Key(q)) % 32);
      Key(q) in s.items && s.items[Key(q)].expires == now + life * 1_000_000_000 && s.items[Key(q)].msg == msg
  {
    var i, j := cfg.Home(NegativeKey(q)), cfg.Home(Key(q));
    LifetimeIff(msg, life);
    ReachableShardOk(cfg, ops, i);
    ReachableShardOk(cfg, ops, j);
    ReplaySnoc(cfg, ops, Op.SetNegative(q, rcode, now), i);
    ReplaySnoc(cfg, ops, Op.Set(q, msg, now), j);
    StepKeeps(cfg, i, Replay(cfg, ops, i), Op.SetNegative(q, rcode, now));
    StepKeeps(cfg, j, Replay(cfg, ops, j), Op.Set(q, msg, now));
  }

  /** Cleaning drops exactly the entries whose expiry lies in the past. */
  lemma CleanedExactly(cfg: Config, ops: seq<Op>, i: nat, now: int, key: string)
    requires cfg.Share() > 0
    ensures var s, t := Replay(cfg, ops, i), Replay(cfg, ops + [Op.CleanExpired(now)], i);
      && (key in t.items <==> key in s.items && !(s.items[key].expires < now))
      && (key in t.items ==> t.items[key] == s.items[key])
  {
    ReplaySnoc(cfg, ops, Op.CleanExpired(now), i);
  }

  ghost predicate HoldsLive(s: Shard, key: string, now: int) {
    key in s.items && now < s.items[key].expires
  }

  lemma HitIffHomeHoldsLive(cfg: Config, ops: seq<Op>, q: Query, id: nat, now: int)
    requires cfg.Share() > 0
    ensures Answer(cfg, ops, q, id, now).Some? <==> HoldsLive(Replay(cfg, ops, cfg.Home(Key(q))), Key(q), now)
  {
    ReachableShardOk(cfg, ops, cfg.Home(Key(q)));
    LookUpKeeps(Replay(cfg, ops, cfg.Home(Key(q))), Key(q), now);
  }

  lemma OnlyHomeHolds(cfg: Config, ops: seq<Op>, key: string, i: nat)
    requires cfg.Share() > 0 && key in Replay(cfg, ops, i).items
    ensures i == cfg.Home(key)
  {
    ReachableShardOk(cfg, ops, i);
  }

  /** A look-up misses exactly when no shard holds a live entry for the question. */
  lemma MissMeansNoLiveEntry(cfg: Config, ops: seq<Op>, q: Query, id: nat, now: int)
    requires cfg.Share() > 0
    ensures Answer(cfg, ops, q, id, now).None? <==> forall i :: 0 <= i < SHARDS ==> !HoldsLive(Replay(cfg, ops, i), Key(q), now)
  {
    HitIffHomeHoldsLive(cfg, ops, q, id, now);
    forall i | 0 <= i < SHARDS && HoldsLive(Replay(cfg, ops, i), Key(q), now)
      ensures i == cfg.Home(Key(q))
    {
      OnlyHomeHolds(cfg, ops, Key(q), i);
    }
  }

  // ---------------------------------------------------------------- least recently used

  /** The key an operation sets or hits. */
  ghost function UsedKey(cfg: Config, ops: seq<Op>, op: Op): Option<string>
    requires cfg.Share() > 0
  {
    match op
    case Set(q, _, _) => Some(Key(q))
    case SetNegative(q, _, _) => Some(NegativeKey(q))
    case Get(q, id, now) => if Answer(cfg, ops, q, id, now).Some? then Some(Key(q)) else None
    case _ => None
  }

  /** When in the run a key was last set or hit; zero for never. */
  ghost function LastUse(cfg: Config, ops: seq<Op>, key: string): (n: nat)
    requires cfg.Share() > 0
    ensures n <= |ops|
  {
    if ops == [] then 0
    else
      var front := ops[..|ops| - 1];
      if UsedKey(cfg, front, ops[|ops| - 1]) == Some(key) then |ops| else LastUse(cfg, front, key)
  }

  ghost function UsedLater(cfg: Config, ops: seq<Op>): (Element, Element) -> bool
    requires cfg.Share() > 0
  {
    (a: Element, b: Element) => LastUse(cfg, ops, a.entry.key) > LastUse(cfg, ops, b.entry.key)
  }

  /** An operation puts the key it uses in front and keeps the order of the rest. */
  lemma StepOrder(cfg: Config, front: seq<Op>, i: nat, op: Op, rel: (Element, Element) -> bool)
    requires cfg.Share() > 0 && Pairwise(Replay(cfg, front, i).lru, rel)
    ensures var t := Step(cfg, i, Replay(cfg, front, i), op);
      var u := UsedKey(cfg, front, op);
      if u.Some? && cfg.Home(u.value) == i
      then t.lru != [] && t.lru[0].entry.key == u.value && Pairwise(t.lru[1..], rel)
      else Pairwise(t.lru, rel)
  {
    ReachableShardOk(cfg, front, i);
    var s := Replay(cfg, front, i);
    match op
    case Set(q, msg, now) => StoreOrder(s, cfg.Share(), PositiveEntry(q, msg, now), rel);
    case SetNegative(q, rcode, now) => StoreOrder(s, cfg.Share(), NegativeEntry(q, rcode, now), rel);
    case Get(q, _, now) => LookUpOrder(s, Key(q), now, rel);
    case CleanExpired(now) => FilterPairwise(s.lru, (e: Element) => Alive(e, now), rel);
    case Clear =>
  }

  /** After every run each shard's list is ordered by last use, most recent first. */
  lemma {:induction false} ListIsOrderedByUse(cfg: Config, ops: seq<Op>, i: nat)
    requires cfg.Share() > 0
    ensures Pairwise(Replay(cfg, ops, i).lru, UsedLater(cfg, ops))
  {
    if ops != [] {
      var front, op := ops[..|ops| - 1], ops[|ops| - 1];
      ListIsOrderedByUse(cfg, front, i);
      StepOrder(cfg, front, i, op, UsedLater(cfg, front));
      var t, u := Replay(cfg, ops, i), UsedKey(cfg, front, op);
      ReachableShardOk(cfg, ops, i);
      var moved := u.Some? && cfg.Home(u.value) == i;
      forall j, k | 0 <= j < k < |t.lru|
        ensures UsedLater(cfg, ops)(t.lru[j], t.lru[k])
      {
        assert Indexed(t, t.lru[j]) && Indexed(t, t.lru[k]);
        KeysDiffer(t, j, k);
        if moved {
          assert t.lru[k] == t.lru[1..][k - 1];
          if j > 0 {
            KeysDiffer(t, 0, j);
            KeysDiffer(t, 0, k);
            assert t.lru[j] == t.lru[1..][j - 1];
            assert UsedLater(cfg, front)(t.lru[1..][j - 1], t.lru[1..][k - 1]);
          }
        } else {
          assert UsedLater(cfg, front)(t.lru[j], t.lru[k]);
        }
      }
    }
  }

  /** Whatever is evicted to make room was last set or hit before everything that stays. */
  lemma VictimIsLeastRecentlyUsed(cfg: Config, ops: seq<Op>, i: nat, victim: string, kept: string)
    requires cfg.Share() > 0
    requires victim in Replay(cfg, ops, i).items && kept in EnsureCapacity(Replay(cfg, ops, i), cfg.Share()).items
    requires victim !in EnsureCapacity(Replay(cfg, ops, i), cfg.Share()).items
    ensures LastUse(cfg, ops, victim) < LastUse(cfg, ops, kept)
  {
    var s := Replay(cfg, ops, i);
    ReachableShardOk(cfg, ops, i);
    var t := EnsureCapacity(s, cfg.Share());
    EnsureCapacityKeeps(s, cfg.Share());
    ListIsOrderedByUse(cfg, ops, i);
    var v := StoredIsListed(s, victim);
    var k := StoredIsListed(t, kept);
    assert v >= |t.lru| by {
      assert forall j :: 0 <= j < |t.lru| ==> Indexed(t, t.lru[j]) && t.lru[j] == s.lru[j];
    }
    assert UsedLater(cfg, ops)(s.lru[k], s.lru[v]);
  }

  // ---------------------------------------------------------------- the cache as a timed map

  /** Clock readings never go back and never pass `now`. */
  ghost predicate ClockRuns(ops: seq<Op>, now: int) {
    ops == [] ||
    (var op := ops[|ops| - 1];
     if op.Clear? then ClockRuns(ops[..|ops| - 1], now)
     else op.now <= now && ClockRuns(ops[..|ops| - 1], op.now))
  }

  /** The keys of shard `i` that were set or hit after the first `t` operations. */
  ghost function UsedSince(cfg: Config, ops: seq<Op>, i: nat, t: nat): set<string>
    requires cfg.Share() > 0
  {
    if |ops| <= t then {}
    else
      var front := ops[..|ops| - 1];
      var u := UsedKey(cfg, front, ops[|ops| - 1]);
      UsedSince(cfg, front, i, t) + if u.Some? && cfg.Home(u.value) == i then {u.value} else {}
  }

  lemma {:induction false} LaterUseIsSince(cfg: Config, ops: seq<Op>, i: nat, t: nat, key: string)
    requires cfg.Share() > 0 && cfg.Home(key) == i && LastUse(cfg, ops, key) > t
    ensures key in UsedSince(cfg, ops, i, t)
  {
    var front := ops[..|ops| - 1];
    if UsedKey(cfg, front, ops[|ops| - 1]) != Some(key) {
      LaterUseIsSince(cfg, front, i, t, key);
    }
  }

  /** The other keys of its shard that were used since a key was last set or hit. */
  ghost function OthersSince(cfg: Config, ops: seq<Op>, key: string): set<string>
    requires cfg.Share() > 0
  {
    UsedSince(cfg, ops, cfg.Home(key), LastUse(cfg, ops, key)) - {key}
  }

  /** A key falls victim to capacity only when one less than a full share of other keys was used since. */
  lemma VictimWasOvertaken(cfg: Config, ops: seq<Op>, key: string)
    requires cfg.Share() > 0
    requires var s := Replay(cfg, ops, cfg.Home(key)); key in s.items && key !in EnsureCapacity(s, cfg.Share()).items
    ensures |OthersSince(cfg, ops, key)| >= cfg.Share() - 1
  {
    var i := cfg.Home(key);
    var s := Replay(cfg, ops, i);
    var t := EnsureCapacity(s, cfg.Share());
    ReachableShardOk(cfg, ops, i);
    EnsureCapacityKeeps(s, cfg.Share());
    forall k | k in t.items.Keys
      ensures k in OthersSince(cfg, ops, key)
    {
      VictimIsLeastRecentlyUsed(cfg, ops, i, key, k);
      LaterUseIsSince(cfg, ops, i, LastUse(cfg, ops, key), k);
    }
    SubsetCardinality(t.items.Keys, OthersSince(cfg, ops, key));
  }

  /** Storing another entry keeps whatever capacity does not evict. */
  lemma StoreKeepsOthers(s: Shard, max: nat, entry: Entry, key: string)
    requires Coherent(s) && max > 0 && key in EnsureCapacity(s, max).items
    ensures key in Store(s, max, entry).items
  {
    EnsureCapacityKeeps(s, max);
    var t := EnsureCapacity(s, max);
    if entry.key in t.lruMap {
      DropListed(t, entry.key);
    }
  }

  /** An unexpired entry survives every operation but `Clear` and a store that needs its room. */
  lemma LiveEntrySurvives(cfg: Config, i: nat, s: Shard, op: Op, key: string)
    requires cfg.Share() > 0 && ShardOk(cfg, i, s) && key in s.items && !op.Clear?
    requires if StoredEntry(op).Some? then key in EnsureCapacity(s, cfg.Share()).items else op.now < s.items[key].expires
    ensures key in Step(cfg, i, s, op).items
  {
    match op
    case Set(q, msg, now) => StoreKeepsOthers(s, cfg.Share(), PositiveEntry(q, msg, now), key);
    case SetNegative(q, rcode, now) => StoreKeepsOthers(s, cfg.Share(), NegativeEntry(q, rcode, now), key);
    case Get(q, _, now) =>
      LookUpKeeps(s, Key(q), now);
      OwnKey(s, Key(q));
    case CleanExpired(now) =>
  }

  /** While an operation does not use the key, the others only grow. */
  lemma OthersGrow(cfg: Config, ops: seq<Op>, key: string)
    requires cfg.Share() > 0 && ops != []
    requires UsedKey(cfg, ops[..|ops| - 1], ops[|ops| - 1]) != Some(key)
    ensures |OthersSince(cfg, ops[..|ops| - 1], key)| <= |OthersSince(cfg, ops, key)|
  {
    SubsetCardinality(OthersSince(cfg, ops[..|ops| - 1], key), OthersSince(cfg, ops, key));
  }

  lemma HitIsStored(cfg: Config, front: seq<Op>, op: Op, key: string)
    requires cfg.Share() > 0 && UsedKey(cfg, front, op) == Some(key)
    ensures key in Step(cfg, cfg.Home(key), Replay(cfg, front, cfg.Home(key)), op).items
  {
    var i := cfg.Home(key);
    var s := Replay(cfg, front, i);
    ReachableShardOk(cfg, front, i);
    StepKeeps(cfg, i, s, op);
    if op.Get? {
      LookUpKeeps(s, key, op.now);
    }
  }

  /** What is set, not expired and not overtaken by a share of other keys is still stored. */
  lemma {:induction false} LiveIsStored(cfg: Config, ops: seq<Op>, key: string, now: int)
    requires cfg.Share() > 0 && ClockRuns(ops, now) && |OthersSince(cfg, ops, key)| < cfg.Share() - 1
    requires Latest(ops, key).Some? && now < Latest(ops, key).value.expires
    ensures key in Replay(cfg, ops, cfg.Home(key)).items
  {
    var front, op, i := ops[..|ops| - 1], ops[|ops| - 1], cfg.Home(key);
    if UsedKey(cfg, front, op) == Some(key) {
      HitIsStored(cfg, front, op, key);
    } else {
      OthersGrow(cfg, ops, key);
      LiveIsStored(cfg, front, key, op.now);
      StoredIsLatest(cfg, front, i, key);
      ReachableShardOk(cfg, front, i);
      if key !in EnsureCapacity(Replay(cfg, front, i), cfg.Share()).items {
        VictimWasOvertaken(cfg, front, key);
      }
      LiveEntrySurvives(cfg, i, Replay(cfg, front, i), op, key);
    }
  }

  /**
   For a question whose entry was not overtaken by a share of other keys the cache is the simple
   timed map: it answers exactly with the latest `set` until the lifetime of that message, which its
   records determine, has passed.
   */
  lemma CacheIsTimedMap(cfg: Config, ops: seq<Op>, q: Query, id: nat, now: int, life: int)
    requires cfg.maxSize >= 32 && ClockRuns(ops, now)
    requires LatestSet(ops, q).Some? ==> |OthersSince(cfg, ops, Key(q))| < cfg.maxSize / 32 - 1 && IsLifetime(LatestSet(ops, q).value.msg, life)
    ensures var s := LatestSet(ops, q);
      Answer(cfg, ops, q, id, now) ==
      if s.Some? && now < s.value.now + life * 1_000_000_000 then Some(s.value.msg.(id := id)) else None
  {
    if LatestSet(ops, q).Some? {
      LifetimeIff(LatestSet(ops, q).value.msg, life);
    }
    var i := cfg.Home(Key(q));
    ReachableShardOk(cfg, ops, i);
    LookUpKeeps(Replay(cfg, ops, i), Key(q), now);
    LatestOfQuestion(ops, q);
    var s := LatestSet(ops, q);
    if s.Some? && now < s.value.now + life * NANOSECONDS {
      LiveIsStored(cfg, ops, Key(q), now);
    }
    if Key(q) in Replay(cfg, ops, i).items {
      StoredIsLatest(cfg, ops, i, Key(q));
    }
  }

  // ---------------------------------------------------------------- size

  ghost function SizeOf(cfg: Config, ops: seq<Op>, n: nat): nat
    requires cfg.Share() > 0
  {
    if n == 0 then 0 else SizeOf(cfg, ops, n - 1) + |Replay(cfg, ops, n - 1).items.Keys|
  }

  lemma {:induction false} SizeUpTo(cfg: Config, ops: seq<Op>, n: nat)
    requires cfg.Share() > 0
    ensures SizeOf(cfg, ops, n) <= n * cfg.Share()
  {
    if n > 0 {
      SizeUpTo(cfg, ops, n - 1);
      ReachableShardOk(cfg, ops, n - 1);
      assert n * cfg.Share() == (n - 1) * cfg.Share() + cfg.Share();
    }
  }

  /** The cache never holds more than its configured size. */
  lemma SizeIsBounded(cfg: Config, ops: seq<Op>)
    requires cfg.Share() > 0
    ensures SizeOf(cfg, ops, SHARDS) <= cfg.maxSize
  {
    SizeUpTo(cfg, ops, SHARDS);
  }

  // ---------------------------------------------------------------- listing the cached questions

  /** Every key in the cache is the key of a question. */
  ghost predicate KeyOfQuestion(key: string) {
    exists q: Query :: key == Key(q) || key == NegativeKey(q)
  }

  lemma {:induction false} StoredKeysAreQuestions(cfg: Config, ops: seq<Op>, i: nat, key: string)
    requires cfg.Share() > 0 && key in Replay(cfg, ops, i).items
    ensures KeyOfQuestion(key)
  {
    if ops != [] {
      var front, op := ops[..|ops| - 1], ops[|ops| - 1];
      ReachableShardOk(cfg, front, i);
      StepKeeps(cfg, i, Replay(cfg, front, i), op);
      if key in Replay(cfg, front, i).items {
        StoredKeysAreQuestions(cfg, front, i, key);
      }
    }
  }

  /** A key parses to a question exactly when it is that question's positive key and its name has no dash. */
  lemma ParsesTo(key: string, q: Query)
    requires KeyOfQuestion(key)
    ensures ParseKey(key) == Some(q) <==> key == Key(q) && NoDash(q.name)
  {
    var p: Query :| key == Key(p) || key == NegativeKey(p);
    ParseRoundTrip(p);
    ParseRoundTrip(q);
    if key == NegativeKey(p) {
      KeysNeverCollide(q, p);
    }
  }

  ghost predicate Listed(s: Shard, q: Query, now: int) {
    NoDash(q.name) && HoldsLive(s, Key(q), now)
  }

  /** Visits the keys in an arbitrary order. */
  method ShardDomains(items: map<string, Entry>, now: int) returns (domains: seq<Query>)
    requires forall k :: k in items ==> KeyOfQuestion(k)
    ensures forall q :: q in domains <==> NoDash(q.name) && Key(q) in items && now < items[Key(q)].expires
  {
    domains := [];
    var pending := items.Keys;
    while pending != {}
      invariant pending <= items.Keys
      invariant forall q :: q in domains <==>
        NoDash(q.name) && Key(q) in items && Key(q) !in pending && now < items[Key(q)].expires
      decreases pending
    {
      var key :| key in pending;
      pending := pending - {key};
      ghost var before := domains;
      if now < items[key].expires {
        var parsed := ParseKey(key);
        if parsed.Some? {
          domains := domains + [parsed.value];
        }
      }
      forall q: Query
        ensures q in domains <==> q in before || (now < items[key].expires && key == Key(q) && NoDash(q.name))
      {
        ParsesTo(key, q);
      }
    }
  }

  // ---------------------------------------------------------------- the mutable cache

  class DNSCache {
    const shards: seq<CacheShard>
    const cfg: Config
    ghost var ops: seq<Op>

    /** The shards hold what the run so far amounts to. */
    ghost predicate Valid()
      reads this, shards
    {
      && cfg.Share() > 0 && |shards| == SHARDS
      && (forall i, j :: 0 <= i < j < SHARDS ==> shards[i] != shards[j])
      && forall i :: 0 <= i < SHARDS ==> shards[i].View() == Replay(cfg, ops, i)
    }

    /** A cache of fewer than thirty-two entries can be made as well, but nothing can be stored in it. */
    constructor (cfg: Config)
      ensures this.cfg == cfg && ops == [] && fresh(shards) && |shards| == SHARDS
      ensures forall i :: 0 <= i < SHARDS ==> shards[i].View() == EMPTY
      ensures cfg.Share() > 0 ==> Valid()
    {
      var made: seq<CacheShard> := [];
      for i := 0 to SHARDS
        invariant |made| == i && fresh(made)
        invariant forall j, k :: 0 <= j < k < i ==> made[j] != made[k]
        invariant forall j :: 0 <= j < i ==> made[j].View() == EMPTY
      {
        var shard := new CacheShard();
        made := made + [shard];
      }
      shards, this.cfg, ops := made, cfg, [];
    }

    method StoreAt(key: string, entry: Entry, ghost op: Op)
      requires Valid() && StoredEntry(op) == Some(entry) && entry.key == key
      modifies this, shards
      ensures Valid() && ops == old(ops) + [op]
    {
      var home := cfg.Home(key);
      ReachableShardOk(cfg, ops, home);
      shards[home].StoreEntry(cfg.Share(), entry);
      ops := ops + [op];
      forall i | 0 <= i < SHARDS
        ensures shards[i].View() == Replay(cfg, ops, i)
      {
        ReplaySnoc(cfg, old(ops), op, i);
      }
    }

    method Set(q: Query, msg: Message, now: int)
      requires Valid()
      modifies this, shards
      ensures Valid() && ops == old(ops) + [Op.Set(q, msg, now)]
    {
      var ttl := ComputeTtl(msg);
      StoreAt(Key(q), Entry(msg, now + ttl * NANOSECONDS, Key(q), false), Op.Set(q, msg, now));
    }

    method SetNegative(q: Query, rcode: int, now: int)
      requires Valid()
      modifies this, shards
      ensures Valid() && ops == old(ops) + [Op.SetNegative(q, rcode, now)]
    {
      StoreAt(NegativeKey(q), NegativeEntry(q, rcode, now), Op.SetNegative(q, rcode, now));
    }

    /** Answers with the latest `set` for the question or not at all. */
    method Get(q: Query, requestID: nat, now: int) returns (answer: Option<Message>)
      requires Valid()
      modifies this, shards
      ensures Valid() && ops == old(ops) + [Op.Get(q, requestID, now)]
      ensures answer == Answer(cfg, old(ops), q, requestID, now)
    {
      var home := cfg.Home(Key(q));
      ReachableShardOk(cfg, ops, home);
      var found := shards[home].Find(Key(q), now);
      answer := if found.Some? then Some(found.value.msg.(id := requestID)) else None;
      ops := ops + [Op.Get(q, requestID, now)];
      forall i | 0 <= i < SHARDS
        ensures shards[i].View() == Replay(cfg, ops, i)
      {
        ReplaySnoc(cfg, old(ops), Op.Get(q, requestID, now), i);
      }
    }

    method CleanExpired(now: int)
      requires Valid()
      modifies this, shards
      ensures Valid() && ops == old(ops) + [Op.CleanExpired(now)]
    {
      for i := 0 to SHARDS
        invariant ops == old(ops)
        invariant forall j :: 0 <= j < i ==> shards[j].View() == Clean(old(shards[j].View()), now)
        invariant forall j :: i <= j < SHARDS ==> shards[j].View() == old(shards[j].View())
      {
        assert Coherent(shards[i].View()) by {
          ReachableShardOk(cfg, ops, i);
        }
        shards[i].CleanExpired(now);
      }
      ops := ops + [Op.CleanExpired(now)];
      forall i | 0 <= i < SHARDS
        ensures shards[i].View() == Replay(cfg, ops, i)
      {
        ReplaySnoc(cfg, old(ops), Op.CleanExpired(now), i);
      }
    }

    method Clear()
      requires Valid()
      modifies this, shards
      ensures Valid() && ops == old(ops) + [Op.Clear]
    {
      for i := 0 to SHARDS
        invariant ops == old(ops)
        invariant forall j :: 0 <= j < i ==> shards[j].View() == EMPTY
      {
        shards[i].Reset();
      }
      ops := ops + [Op.Clear];
      forall i | 0 <= i < SHARDS
        ensures shards[i].View() == Replay(cfg, ops, i)
      {
        ReplaySnoc(cfg, old(ops), Op.Clear, i);
      }
    }

    method Size() returns (total: nat)
      requires Valid()
      ensures total == SizeOf(cfg, ops, SHARDS) <= cfg.maxSize
    {
      total := 0;
      for i := 0 to SHARDS
        invariant total == SizeOf(cfg, ops, i)
      {
        total := total + |shards[i].items.Keys|;
      }
      SizeIsBounded(cfg, ops);
    }

    /** Exactly the questions without a dash that a look-up would answer now. */
    method GetAllDomains(now: int) returns (domains: seq<Query>)
      requires Valid()
      ensures forall q :: q in domains <==> NoDash(q.name) && Answer(cfg, ops, q, 0, now).Some?
    {
      domains := [];
      for i := 0 to SHARDS
        invariant forall q :: q in domains <==> exists j :: 0 <= j < i && Listed(shards[j].View(), q, now)
      {
        forall k | k in shards[i].items
          ensures KeyOfQuestion(k)
        {
          StoredKeysAreQuestions(cfg, ops, i, k);
        }
        var found := ShardDomains(shards[i].items, now);
        domains := domains + found;
        assert forall q :: q in found <==> Listed(shards[i].View(), q, now);
      }
      forall q: Query
        ensures q in domains <==> NoDash(q.name) && Answer(cfg, ops, q, 0, now).Some?
      {
        AnsweredIffListed(q, now);
      }
    }

    lemma AnsweredIffListed(q: Query, now: int)
      requires Valid()
      ensures NoDash(q.name) && Answer(cfg, ops, q, 0, now).Some? <==>
        exists j :: 0 <= j < SHARDS && Listed(shards[j].View(), q, now)
    {
      var home := cfg.Home(Key(q));
      HitIffHomeHoldsLive(cfg, ops, q, 0, now);
      assert Listed(shards[home].View(), q, now) <==> NoDash(q.name) && Answer(cfg, ops, q, 0, now).Some?;
      if j :| 0 <= j < SHARDS && Listed(shards[j].View(), q, now) {
        OnlyHomeHolds(cfg, ops, Key(q), j);
      }
    }
  }
}
