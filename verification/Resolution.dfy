/**
 The resolution walk (resolver_exchange.go, zone_factory.go, cname.go): from the deepest known
 zone down the labels of the question, following delegations, resolving name server addresses and
 aliases by nested walks that share one query counter.

 What comes from outside is a function of the number of readings made so far, so every behaviour
 of the network is covered. Nested walks, which the program may run side by side, run one after
 another here.
 */
module Resolution {
  import opened Collections
  import opened Names
  import opened Records
  import opened Domain
  import opened ZoneStore
  import Pool
  import Verifier

  datatype Packet = Packet(rcode: int, authoritative: bool, authentic: bool, answer: seq<RR>, ns: seq<RR>, extra: seq<RR>)

  datatype Reply = Failed | NoMessage | Answered(msg: Packet)

  /** What the authenticator returned, if the question asked for it; enforced unless checking is disabled. */
  datatype Judgement = Judgement(auth: AuthResult, failed: bool, enforced: bool)

  /** What a walk learns from outside, by number of the reading. */
  datatype Net = Net(
    reply: (nat, KnownZone, Question) -> Reply,
    hasSoa: (nat, KnownZone, Name) -> bool,
    cached: (nat, Question) -> Option<Packet>,
    verdict: nat -> Option<Judgement>,
    now: nat -> int,
    expired: KnownZone -> bool)

  datatype Settings = Settings(maxQueries: nat, desiredServers: nat, lazyEnrichment: bool, ipv6: bool, maxTtl: Seconds,
                               suppressBogus: bool)

  datatype Failure =
    | QueryFailed | EmptyResponse | MaxQueriesReached | UnableToResolve | NextNameserversNotFound
    | FailedCreatingZone | FailedEnrichingPool | CnameFailed | BadRcode | ValidationFailed

  /** `Panic` stands for the program's own panic on an impossible child zone. */
  datatype Outcome = Resolved(auth: AuthResult, msg: Packet) | Error(failure: Failure) | Panic

  // ---------------------------------------------------------------- the deepest owner in a reply

  function RecordsIn(msg: Packet): seq<RR> {
    msg.ns + msg.answer
  }

  predicate Below(zone: Name, rr: RR) {
    IsSubDomain(zone, rr.owner)
  }

  /** The record at `i` is under the zone, and all such records before it have shallower owners. */
  predicate DeepestSoFar(zone: Name, records: seq<RR>, i: nat) {
    && i < |records| && Below(zone, records[i])
    && forall j :: 0 <= j < i && Below(zone, records[j]) ==> |records[j].owner| < |records[i].owner|
  }

  /** The first of the deepest owners under the zone; the root when there is none below it. */
  function DeepestOwner(zone: Name, records: seq<RR>): (r: Name)
    ensures r == ROOT || (exists i: nat :: DeepestSoFar(zone, records, i) && records[i].owner == r)
    ensures forall i :: 0 <= i < |records| && Below(zone, records[i]) ==> |records[i].owner| <= |r|
  {
    if records == [] then ROOT
    else
      var n := |records| - 1;
      var best := DeepestOwner(zone, records[..n]);
      assert forall i: nat :: i < n && DeepestSoFar(zone, records[..n], i) ==> DeepestSoFar(zone, records, i);
      if Below(zone, records[n]) && |records[n].owner| > |best| then
        assert DeepestSoFar(zone, records, n);
        records[n].owner
      else best
  }

  method FindDeepestOwner(zone: Name, records: seq<RR>) returns (owner: Name)
    ensures owner == DeepestOwner(zone, records)
  {
    owner := ROOT;
    for i := 0 to |records|
      invariant owner == DeepestOwner(zone, records[..i])
    {
      assert records[..i + 1][..i] == records[..i];
      var option := records[i].owner;
      if owner != option && IsSubDomain(zone, option) && |option| > |owner| {
        owner := option;
      }
    }
    assert records[..|records|] == records;
  }

  // ---------------------------------------------------------------- zones missing in between

  /** Each missing name that has a SOA becomes a zone below the last one; `None` is the panic. */
  function FollowGap(z: KnownZone, gap: seq<Name>, found: seq<bool>): Option<KnownZone>
    requires |found| == |gap|
  {
    if gap == [] then Some(z)
    else
      var n := |gap| - 1;
      var above := FollowGap(z, gap[..n], found[..n]);
      if above.Some? && found[n] then Clone(above.value, gap[n], above.value.name) else above
  }

  /** The names on the way down from the cursor to the parent of `target`. */
  ghost predicate IsGap(name: Name, at: nat, gap: seq<Name>) {
    at + |gap| <= |name| && forall j :: 0 <= j < |gap| ==> gap[j] == name[..at + j]
  }

  lemma ProperAncestor(zone: Name, name: Name, k: nat)
    requires k <= |name| && IsSubDomain(zone, name)
    ensures IsProperSubDomain(zone, name[..k]) <==> |zone| < k
  {
    AncestorIsSubDomain(name, k);
    AncestorsNest(zone, name[..k], name);
  }

  /** Below a zone strictly above the cursor the panic cannot happen, whatever has a SOA. */
  lemma {:induction false} NoPanicBelow(z: KnownZone, name: Name, at: nat, gap: seq<Name>, found: seq<bool>)
    requires |found| == |gap| && IsGap(name, at, gap) && IsSubDomain(z.name, name) && |z.name| < at
    ensures FollowGap(z, gap, found).Some?
    ensures var w := FollowGap(z, gap, found).value; IsSubDomain(w.name, name) && |w.name| < at + |gap|
  {
    if gap != [] {
      var n := |gap| - 1;
      NoPanicBelow(z, name, at, gap[..n], found[..n]);
      var w := FollowGap(z, gap[..n], found[..n]).value;
      ProperAncestor(w.name, name, at + n);
      AncestorIsSubDomain(name, at + n);
      CanonicalIdempotent(gap[n]);
    }
  }

  lemma {:induction false} FollowGapDescends(z: KnownZone, gap: seq<Name>, found: seq<bool>)
    requires |found| == |gap|
    ensures FollowGap(z, gap, found).Some? ==> IsSubDomain(z.name, FollowGap(z, gap, found).value.name)
  {
    if gap != [] {
      var n := |gap| - 1;
      FollowGapDescends(z, gap[..n], found[..n]);
      CanonicalIdempotent(gap[n]);
    }
  }

  lemma FollowGapStep(z: KnownZone, gap: seq<Name>, found: seq<bool>, i: nat, soa: bool)
    requires |found| == i < |gap| && FollowGap(z, gap[..i], found).Some?
    ensures var zone := FollowGap(z, gap[..i], found).value;
      FollowGap(z, gap[..i + 1], found + [soa]) == if soa then Clone(zone, gap[i], zone.name) else Some(zone)
  {
    assert gap[..i + 1][..i] == gap[..i] && (found + [soa])[..i] == found;
  }

  lemma {:induction false} BrokenBelow(z: KnownZone, gap: seq<Name>, found: seq<bool>, i: nat, k: nat)
    requires |found| == |gap| && i <= k <= |gap| && FollowGap(z, gap[..i], found[..i]).None?
    ensures FollowGap(z, gap[..k], found[..k]).None?
  {
    if i < k {
      BrokenBelow(z, gap, found, i, k - 1);
      assert gap[..k][..k - 1] == gap[..k - 1] && found[..k][..k - 1] == found[..k - 1];
    }
  }

  lemma GapStaysBroken(z: KnownZone, gap: seq<Name>, found: seq<bool>, i: nat) returns (all: seq<bool>)
    requires |found| == i <= |gap| && FollowGap(z, gap[..i], found).None?
    ensures |all| == |gap| && FollowGap(z, gap, all).None? && found <= all
    ensures forall k :: i <= k <= |gap| ==> FollowGap(z, gap[..k], all[..k]).None?
  {
    all := found + seq(|gap| - i, _ => false);
    assert all[..i] == found;
    forall k | i <= k <= |gap|
      ensures FollowGap(z, gap[..k], all[..k]).None?
    {
      BrokenBelow(z, gap, all, i, k);
    }
    assert gap[..|gap|] == gap && all[..|all|] == all;
  }

  lemma {:induction false} FirstSoaPanics(z: KnownZone, gap: seq<Name>, found: seq<bool>)
    requires |found| == |gap| > 0 && found[0] && !IsProperSubDomain(z.name, gap[0])
    ensures FollowGap(z, gap, found).None?
  {
    var n := |gap| - 1;
    if n > 0 {
      FirstSoaPanics(z, gap[..n], found[..n]);
    }
  }

  /**
   Filling a gap from an ancestor of the question is safe against every SOA answer if and only if
   the gap is empty or the zone lies strictly above the cursor.
   */
  lemma GapIsSafeIff(z: KnownZone, name: Name, at: nat, gap: seq<Name>)
    requires IsGap(name, at, gap) && IsSubDomain(z.name, name)
    ensures (forall found: seq<bool> :: |found| == |gap| ==> FollowGap(z, gap, found).Some?) <==> gap == [] || |z.name| < at
  {
    if gap != [] && |z.name| >= at {
      var found := seq(|gap|, _ => true);
      ProperAncestor(z.name, name, at);
      FirstSoaPanics(z, gap, found);
    } else {
      forall found: seq<bool> | |found| == |gap|
        ensures FollowGap(z, gap, found).Some?
      {
        if gap != [] {
          NoPanicBelow(z, name, at, gap, found);
        }
      }
    }
  }

  // ---------------------------------------------------------------- following aliases

  function Combine(a: AuthResult, b: AuthResult): AuthResult {
    if a == Bogus || b == Bogus then Bogus
    else if a == Unknown || b == Unknown then Unknown
    else if a == Insecure || b == Insecure then Insecure
    else if a == Secure && b == Secure then Secure
    else Bogus
  }

  function Merge(r: Outcome, t: Outcome): Outcome
    requires r.Resolved? && t.Resolved?
  {
    Resolved(Combine(r.auth, t.auth),
             Packet(if r.msg.rcode >= t.msg.rcode then r.msg.rcode else t.msg.rcode,
                    r.msg.authoritative && t.msg.authoritative, r.msg.authentic,
                    r.msg.answer + t.msg.answer, r.msg.ns + t.msg.ns, r.msg.extra + t.msg.extra))
  }

  ghost predicate AllResolved(ts: seq<Outcome>) {
    forall i :: 0 <= i < |ts| ==> ts[i].Resolved?
  }

  ghost function MergeAll(r: Outcome, ts: seq<Outcome>): (m: Outcome)
    requires r.Resolved? && AllResolved(ts)
    ensures m.Resolved?
  {
    if ts == [] then r else Merge(MergeAll(r, ts[..|ts| - 1]), ts[|ts| - 1])
  }

  /** Some verdict among the answer and the followed targets. */
  ghost predicate SomeAuth(r: Outcome, ts: seq<Outcome>, a: AuthResult)
    requires r.Resolved? && AllResolved(ts)
  {
    r.auth == a || exists i :: 0 <= i < |ts| && ts[i].auth == a
  }

  lemma SomeAuthSnoc(r: Outcome, ts: seq<Outcome>, a: AuthResult)
    requires r.Resolved? && AllResolved(ts) && ts != []
    ensures SomeAuth(r, ts, a) <==> SomeAuth(r, ts[..|ts| - 1], a) || ts[|ts| - 1].auth == a
  {
    var front := ts[..|ts| - 1];
    if i :| 0 <= i < |ts| && ts[i].auth == a {
      assert i < |front| ==> front[i] == ts[i];
    }
  }

  /** The verdict of a followed alias is the worst among the answer and its targets. */
  lemma {:induction false} WorstVerdictWins(r: Outcome, ts: seq<Outcome>)
    requires r.Resolved? && AllResolved(ts)
    ensures MergeAll(r, ts).auth ==
      if SomeAuth(r, ts, Bogus) then Bogus
      else if SomeAuth(r, ts, Unknown) then Unknown
      else if SomeAuth(r, ts, Insecure) then Insecure
      else Secure
  {
    if ts != [] {
      WorstVerdictWins(r, ts[..|ts| - 1]);
      SomeAuthSnoc(r, ts, Bogus);
      SomeAuthSnoc(r, ts, Unknown);
      SomeAuthSnoc(r, ts, Insecure);
    }
  }

  lemma {:induction false} RcodeIsHighest(r: Outcome, ts: seq<Outcome>)
    requires r.Resolved? && AllResolved(ts)
    ensures var m := MergeAll(r, ts).msg;
      && m.rcode >= r.msg.rcode && (forall i :: 0 <= i < |ts| ==> m.rcode >= ts[i].msg.rcode)
      && (m.rcode == r.msg.rcode || exists i :: 0 <= i < |ts| && m.rcode == ts[i].msg.rcode)
      && (m.authoritative <==> r.msg.authoritative && forall i :: 0 <= i < |ts| ==> ts[i].msg.authoritative)
  {
    if ts != [] {
      var front, last := ts[..|ts| - 1], ts[|ts| - 1];
      RcodeIsHighest(r, front);
      var m, was := MergeAll(r, ts).msg, MergeAll(r, front).msg;
      forall i | 0 <= i < |ts|
        ensures m.rcode >= ts[i].msg.rcode && (m.authoritative ==> ts[i].msg.authoritative)
      {
        assert ts[i] == if i < |front| then front[i] else last;
      }
      assert forall i :: 0 <= i < |front| ==> front[i] == ts[i];
      if m.rcode == was.rcode && was.rcode != r.msg.rcode {
        var i :| 0 <= i < |front| && was.rcode == front[i].msg.rcode;
        assert ts[i] == front[i];
      }
    }
  }

  /** Some response among the answer and the followed targets has the record in this section. */
  ghost predicate SomeRecord(r: Outcome, ts: seq<Outcome>, section: Packet -> seq<RR>, rr: RR)
    requires r.Resolved? && AllResolved(ts)
  {
    rr in section(r.msg) || exists i :: 0 <= i < |ts| && rr in section(ts[i].msg)
  }

  /** Section by section, exactly the records of the answer and of all followed targets are merged. */
  lemma {:induction false} RecordsAreMerged(r: Outcome, ts: seq<Outcome>, rr: RR)
    requires r.Resolved? && AllResolved(ts)
    ensures var m := MergeAll(r, ts).msg;
      && (rr in m.answer <==> SomeRecord(r, ts, (p: Packet) => p.answer, rr))
      && (rr in m.ns <==> SomeRecord(r, ts, (p: Packet) => p.ns, rr))
      && (rr in m.extra <==> SomeRecord(r, ts, (p: Packet) => p.extra, rr))
      && r.msg.answer <= m.answer && r.msg.ns <= m.ns && r.msg.extra <= m.extra && m.authentic == r.msg.authentic
  {
    if ts != [] {
      RecordsAreMerged(r, ts[..|ts| - 1], rr);
      SomeRecordSnoc(r, ts, (p: Packet) => p.answer, rr);
      SomeRecordSnoc(r, ts, (p: Packet) => p.ns, rr);
      SomeRecordSnoc(r, ts, (p: Packet) => p.extra, rr);
    }
  }

  lemma SomeRecordSnoc(r: Outcome, ts: seq<Outcome>, section: Packet -> seq<RR>, rr: RR)
    requires r.Resolved? && AllResolved(ts) && ts != []
    ensures SomeRecord(r, ts, section, rr) <==> SomeRecord(r, ts[..|ts| - 1], section, rr) || rr in section(ts[|ts| - 1].msg)
  {
    var front := ts[..|ts| - 1];
    if i :| 0 <= i < |ts| && rr in section(ts[i].msg) {
      assert i < |front| ==> front[i] == ts[i];
    }
    if i :| 0 <= i < |front| && rr in section(front[i].msg) {
      assert front[i] == ts[i];
    }
  }

  /** The targets finish in any order: verdict, response code and authority do not depend on it. */
  lemma TargetOrderDoesNotMatter(r: Outcome, ts: seq<Outcome>, us: seq<Outcome>)
    requires r.Resolved? && AllResolved(ts) && AllResolved(us) && multiset(ts) == multiset(us)
    ensures var a, b := MergeAll(r, ts), MergeAll(r, us);
      a.auth == b.auth && a.msg.rcode == b.msg.rcode && a.msg.authoritative == b.msg.authoritative
  {
    assert forall t :: t in ts <==> t in us by {
      assert forall t :: t in ts <==> t in multiset(ts);
      assert forall t :: t in us <==> t in multiset(us);
    }
    MoreTargets(r, ts, us);
    MoreTargets(r, us, ts);
    WorstVerdictWins(r, ts);
    WorstVerdictWins(r, us);
  }

  lemma MoreTargets(r: Outcome, ts: seq<Outcome>, us: seq<Outcome>)
    requires r.Resolved? && AllResolved(ts) && AllResolved(us) && forall t :: t in ts ==> t in us
    ensures forall a :: SomeAuth(r, ts, a) ==> SomeAuth(r, us, a)
    ensures MergeAll(r, ts).msg.rcode <= MergeAll(r, us).msg.rcode
    ensures MergeAll(r, us).msg.authoritative ==> MergeAll(r, ts).msg.authoritative
  {
    assert forall i :: 0 <= i < |ts| ==> ts[i] in us;
    forall a | SomeAuth(r, ts, a)
      ensures SomeAuth(r, us, a)
    {
      if r.auth != a {
        var i :| 0 <= i < |ts| && ts[i].auth == a;
        assert ts[i] in us;
      }
    }
    RcodeIsHighest(r, ts);
    RcodeIsHighest(r, us);
  }

  // ---------------------------------------------------------------- the walk

  predicate IsDelegation(msg: Packet) {
    msg.answer == [] && TypeExists(msg.ns, TYPE_NS) && !TypeExists(msg.ns, TYPE_SOA)
  }

  function NsRecords(rrs: seq<RR>): (r: seq<RR>)
    ensures forall i :: 0 <= i < |r| ==> r[i].data.NsData? && r[i] in rrs
  {
    var r := Filter(rrs, (rr: RR) => rr.data.NsData?);
    assert forall i :: 0 <= i < |r| ==> r[i] in r;
    r
  }

  function CnameRecords(rrs: seq<RR>): (r: seq<RR>)
    ensures forall i :: 0 <= i < |r| ==> r[i].data.CnameData? && r[i] in rrs
  {
    var r := Filter(rrs, (rr: RR) => rr.data.CnameData?);
    assert forall i :: 0 <= i < |r| ==> r[i] in r;
    r
  }

  /**
   A delegation towards the question has no deeper record that points away from it, so that the
   cursor is moved as far as the delegation goes.
   */
  ghost predicate AlignedReply(name: Name, zone: Name, msg: Packet) {
    var nss := NsRecords(msg.ns);
    IsDelegation(msg) && nss != [] && IsSubDomain(nss[0].owner, name) && IsSubDomain(zone, nss[0].owner) ==>
      IsSubDomain(DeepestOwner(zone, RecordsIn(msg)), name)
  }

  ghost predicate AlignedNet(net: Net) {
    forall n: nat, z: KnownZone, q: Question ::
      net.reply(n, z, q).Answered? ==> AlignedReply(Canonical(q.name), z.name, net.reply(n, z, q).msg)
  }

  lemma DelegationReached(name: Name, zone: Name, msg: Packet, below: Name, at: nat)
    requires AlignedReply(name, zone, msg) && IsDelegation(msg) && NsRecords(msg.ns) != []
    requires below == Canonical(NsRecords(msg.ns)[0].owner) && IsSubDomain(zone, below) && IsSubDomain(below, name)
    requires IsSubDomain(DeepestOwner(zone, RecordsIn(msg)), name) ==> |DeepestOwner(zone, RecordsIn(msg))| <= at
    ensures |below| <= at
  {
    var ns := NsRecords(msg.ns)[0];
    CanonicalIdempotent(ns.owner);
    assert ns in NsRecords(msg.ns);
    var i :| 0 <= i < |msg.ns| && msg.ns[i] == ns;
    assert RecordsIn(msg)[i] == ns && Below(zone, RecordsIn(msg)[i]);
  }

  lemma SubDomainTransitive(a: Name, b: Name, c: Name)
    requires IsSubDomain(a, b) && IsSubDomain(b, c)
    ensures IsSubDomain(a, c)
  {
  }

  /** The cursor is past the zone, if the zone is on the way at all, or at the full name. */
  ghost predicate AheadAt(zone: Name, name: Name, at: nat) {
    IsSubDomain(zone, name) ==> |zone| < at || at >= |name|
  }

  ghost predicate Ahead(zone: Name, d: Domain)
    reads d
  {
    AheadAt(zone, d.name, d.currentIdx)
  }

  // ---------------------------------------------------------------- what is delivered to the authenticator

  /** The zones for which a DS link is asked while a gap is filled. */
  function LinksOf(z: KnownZone, gap: seq<Name>, found: seq<bool>): seq<Name>
    requires |found| == |gap|
  {
    if gap == [] then []
    else
      var n := |gap| - 1;
      var above := FollowGap(z, gap[..n], found[..n]);
      LinksOf(z, gap[..n], found[..n]) + if above.Some? && found[n] then [above.value.name] else []
  }

  /** Those of the names that are above the question get deeper one by one. */
  ghost predicate Ordered(sent: seq<Name>, name: Name) {
    forall i, j :: 0 <= i < j < |sent| && IsSubDomain(sent[i], name) && IsSubDomain(sent[j], name) ==> |sent[i]| < |sent[j]|
  }

  ghost predicate AtLeast(sent: seq<Name>, name: Name, k: nat) {
    forall i :: 0 <= i < |sent| && IsSubDomain(sent[i], name) ==> k <= |sent[i]|
  }

  ghost predicate LessThan(sent: seq<Name>, name: Name, k: nat) {
    forall i :: 0 <= i < |sent| && IsSubDomain(sent[i], name) ==> |sent[i]| < k
  }

  /** How deep a zone that is still to be asked is at least. */
  ghost function Floor(zone: Name, name: Name, at: nat): nat {
    if IsSubDomain(zone, name) then |zone| else at
  }

  lemma OrderedConcat(a: seq<Name>, b: seq<Name>, name: Name, k: nat)
    requires Ordered(a, name) && Ordered(b, name) && LessThan(a, name, k) && AtLeast(b, name, k)
    ensures Ordered(a + b, name)
  {
    var s := a + b;
    forall i, j | 0 <= i < j < |s| && IsSubDomain(s[i], name) && IsSubDomain(s[j], name)
      ensures |s[i]| < |s[j]|
    {
      assert s[i] == if i < |a| then a[i] else b[i - |a|];
      assert s[j] == if j < |a| then a[j] else b[j - |a|];
    }
  }

  lemma LessThanConcat(a: seq<Name>, b: seq<Name>, name: Name, k: nat, m: nat)
    requires LessThan(a, name, k) && LessThan(b, name, m) && k <= m
    ensures LessThan(a + b, name, m)
  {
    var s := a + b;
    forall i | 0 <= i < |s| && IsSubDomain(s[i], name)
      ensures |s[i]| < m
    {
      assert s[i] == if i < |a| then a[i] else b[i - |a|];
    }
  }

  /** Of several deliveries for zones above the question no two are for the same zone. */
  lemma DeliveredOnce(sent: seq<Name>, name: Name, i: nat, j: nat)
    requires Ordered(sent, name) && i < j < |sent| && IsSubDomain(sent[i], name) && IsSubDomain(sent[j], name)
    ensures !NamesEqual(sent[i], sent[j])
  {
    AncestorsNest(sent[i], sent[j], name);
  }

  /** Filling a gap from above goes strictly down: each link, then the zone that replied. */
  lemma {:induction false} LinksDescend(z: KnownZone, name: Name, at: nat, gap: seq<Name>, found: seq<bool>)
    requires |found| == |gap| && IsGap(name, at, gap) && IsSubDomain(z.name, name) && |z.name| < at
    ensures FollowGap(z, gap, found).Some?
    ensures var w := FollowGap(z, gap, found).value.name;
      && IsSubDomain(w, name) && |z.name| <= |w| < at + |gap|
      && Ordered(LinksOf(z, gap, found), name) && LessThan(LinksOf(z, gap, found), name, |w|)
      && AtLeast(LinksOf(z, gap, found), name, |z.name|)
  {
    NoPanicBelow(z, name, at, gap, found);
    if gap != [] {
      var n := |gap| - 1;
      LinksDescend(z, name, at, gap[..n], found[..n]);
      var v := FollowGap(z, gap[..n], found[..n]).value.name;
      if found[n] {
        ProperAncestor(v, name, at + n);
        var links := LinksOf(z, gap[..n], found[..n]);
        OrderedConcat(links, [v], name, |v|);
        LessThanConcat(links, [v], name, |v|, at + n);
      }
    }
  }

  /** What a reply makes the walk deliver: the links of the gap, and the reply itself. */
  function Delivered(name: Name, at: nat, z: KnownZone, msg: Packet, found: seq<bool>): seq<Name>
    requires |found| == |GapAfter(name, at, z, msg)| && AfterReply(name, at, z, msg, found).Some?
  {
    LinksOf(z, GapAfter(name, at, z, msg), found) + [AfterReply(name, at, z, msg, found).value.name]
  }

  /** The deliveries of one reply, asked for from ahead, are in order and no shallower than the zone asked. */
  lemma DeliveriesDescend(name: Name, at: nat, z: KnownZone, msg: Packet, found: seq<bool>)
    requires Canonical(name) == name && AheadAt(z.name, name, at) && |found| == |GapAfter(name, at, z, msg)|
    ensures AfterReply(name, at, z, msg, found).Some?
    ensures var w, sent := AfterReply(name, at, z, msg, found).value.name, Delivered(name, at, z, msg, found);
      && IsSubDomain(z.name, w) && (IsSubDomain(w, name) <==> IsSubDomain(z.name, name))
      && Ordered(sent, name) && AtLeast(sent, name, Floor(z.name, name, at)) && LessThan(sent, name, |w| + 1)
      && (IsSubDomain(w, name) ==> |z.name| <= |w| <= at + |GapAfter(name, at, z, msg)|)
  {
    var owner := DeepestOwner(z.name, RecordsIn(msg));
    var gap := GapAfter(name, at, z, msg);
    GapIsGap(name, at, owner);
    if gap == [] {
      assert Delivered(name, at, z, msg, found) == [z.name];
    } else {
      SubDomainTransitive(z.name, owner, name);
      LinksDescend(z, name, at, gap, found);
      FollowGapDescends(z, gap, found);
      var w := FollowGap(z, gap, found).value.name;
      OrderedConcat(LinksOf(z, gap, found), [w], name, |w|);
      LessThanConcat(LinksOf(z, gap, found), [w], name, |w|, |w| + 1);
      AtLeastConcat(LinksOf(z, gap, found), [w], name, |z.name|);
    }
  }

  lemma AtLeastConcat(a: seq<Name>, b: seq<Name>, name: Name, k: nat)
    requires AtLeast(a, name, k) && AtLeast(b, name, k)
    ensures AtLeast(a + b, name, k)
  {
    var s := a + b;
    forall i | 0 <= i < |s| && IsSubDomain(s[i], name)
      ensures k <= |s[i]|
    {
      assert s[i] == if i < |a| then a[i] else b[i - |a|];
    }
  }

  /** Deliveries in order, none for a zone above the floor. */
  ghost predicate Continues(name: Name, sent: seq<Name>, floor: nat) {
    Ordered(sent, name) && AtLeast(sent, name, floor)
  }

  /** All deliveries so far are above the next floor. */
  ghost predicate LeavesRoom(sent: seq<Name>, name: Name, floor: nat, next: nat) {
    LessThan(sent, name, next) && floor <= next
  }

  lemma DeliverMore(sent: seq<Name>, more: seq<Name>, name: Name, floor: nat, next: Option<nat>)
    requires Ordered(sent, name) && LessThan(sent, name, floor) && Continues(name, more, floor)
    requires next.Some? ==> LeavesRoom(more, name, floor, next.value)
    ensures Ordered(sent + more, name) && (next.Some? ==> LessThan(sent + more, name, next.value))
  {
    OrderedConcat(sent, more, name, floor);
    if next.Some? {
      LessThanConcat(sent, more, name, floor, next.value);
    }
  }

  /** The known zones above the one the walk starts at, from the root down. */
  function LinksAbove(known: seq<KnownZone>): seq<Name>
    requires known != []
  {
    seq(|known| - 1, i requires 0 <= i < |known| - 1 => known[|known| - 1 - i].name)
  }

  lemma {:induction false} KnownDescend(zs: map<Name, KnownZone>, known: seq<KnownZone>, i: nat, j: nat)
    requires GoodStore(zs) && ParentLinked(known) && i < j < |known|
    requires forall k :: 0 <= k < |known| ==> known[k].name in zs && zs[known[k].name] == known[k]
    ensures |known[j].name| < |known[i].name|
    decreases j
  {
    assert WellFiled(known[j - 1].name, known[j - 1]) && known[j - 1].parent == Some(known[j].name);
    if i < j - 1 {
      KnownDescend(zs, known, i, j - 1);
    }
  }

  lemma LinksAboveDescend(zs: map<Name, KnownZone>, known: seq<KnownZone>, name: Name)
    requires GoodStore(zs) && known != [] && ParentLinked(known)
    requires forall k :: 0 <= k < |known| ==> known[k].name in zs && zs[known[k].name] == known[k]
    ensures Ordered(LinksAbove(known), name) && LessThan(LinksAbove(known), name, |known[0].name|)
  {
    var links, n := LinksAbove(known), |known| - 1;
    forall i, j | 0 <= i < j < |links|
      ensures |links[i]| < |links[j]|
    {
      KnownDescend(zs, known, n - j, n - i);
    }
    forall i | 0 <= i < |links|
      ensures |links[i]| < |known[0].name|
    {
      KnownDescend(zs, known, 0, n - i);
    }
  }

  /** A delegation strictly below the zone that replied leaves room for what comes next. */
  lemma NextIsDeeper(name: Name, at: nat, z: KnownZone, msg: Packet, found: seq<bool>, below: Name)
    requires Canonical(name) == name && AheadAt(z.name, name, at) && |found| == |GapAfter(name, at, z, msg)|
    requires AfterReply(name, at, z, msg, found).Some? && IsProperSubDomain(AfterReply(name, at, z, msg, found).value.name, below)
    ensures var floor := Floor(below, name, at + |GapAfter(name, at, z, msg)| + 1);
      LessThan(Delivered(name, at, z, msg, found), name, floor) && Floor(z.name, name, at) <= floor
  {
    DeliveriesDescend(name, at, z, msg, found);
    var w := AfterReply(name, at, z, msg, found).value.name;
    if IsSubDomain(below, name) {
      SubDomainTransitive(w, below, name);
      AncestorsNest(w, below, name);
    }
  }

  lemma ReplyContinues(name: Name, at: nat, z: KnownZone, msg: Packet, found: seq<bool>)
    requires Canonical(name) == name && |found| == |GapAfter(name, at, z, msg)| && AfterReply(name, at, z, msg, found).Some?
    ensures AheadAt(z.name, name, at) ==> Continues(name, Delivered(name, at, z, msg, found), Floor(z.name, name, at))
  {
    if AheadAt(z.name, name, at) {
      DeliveriesDescend(name, at, z, msg, found);
    }
  }

  lemma DelegationContinues(name: Name, at: nat, z: KnownZone, msg: Packet, found: seq<bool>, below: Name)
    requires Canonical(name) == name && |found| == |GapAfter(name, at, z, msg)| && AfterReply(name, at, z, msg, found).Some?
    requires IsDelegation(msg) && NsRecords(msg.ns) != [] && below == Canonical(NsRecords(msg.ns)[0].owner)
    requires IsProperSubDomain(AfterReply(name, at, z, msg, found).value.name, below)
    ensures AheadAt(z.name, name, at) ==>
      LeavesRoom(Delivered(name, at, z, msg, found), name, Floor(z.name, name, at), Floor(below, name, at + |GapAfter(name, at, z, msg)| + 1))
    ensures AlignedReply(name, z.name, msg) && IsSubDomain(below, name) ==> |below| <= at + |GapAfter(name, at, z, msg)|
  {
    if AheadAt(z.name, name, at) {
      NextIsDeeper(name, at, z, msg, found, below);
    }
    if AlignedReply(name, z.name, msg) && IsSubDomain(below, name) {
      var gap := GapAfter(name, at, z, msg);
      FollowGapDescends(z, gap, found);
      SubDomainTransitive(z.name, AfterReply(name, at, z, msg, found).value.name, below);
      GapIsGap(name, at, DeepestOwner(z.name, RecordsIn(msg)));
      DelegationReached(name, z.name, msg, below, at + |gap|);
    }
  }

  // ---------------------------------------------------------------- when the panic can happen

  /** Which of the missing names have a SOA was read one after the other, from the zone each time reached. */
  ghost predicate SoasAre(net: Net, z: KnownZone, gap: seq<Name>, found: seq<bool>, reading: nat) {
    && |found| == |gap|
    && (gap == [] ||
        (var n := |gap| - 1;
         && SoasAre(net, z, gap[..n], found[..n], reading)
         && var above := FollowGap(z, gap[..n], found[..n]);
         && (above.Some? ==> found[n] == net.hasSoa(reading + n, above.value, gap[n]))))
  }

  ghost function SoaAnswers(net: Net, z: KnownZone, gap: seq<Name>, reading: nat): iset<seq<bool>> {
    iset found: seq<bool> | SoasAre(net, z, gap, found, reading)
  }

  lemma SoasSnoc(net: Net, z: KnownZone, gap: seq<Name>, found: seq<bool>, i: nat, reading: nat, soa: bool)
    requires i < |gap| && |found| == i && found in SoaAnswers(net, z, gap[..i], reading)
    requires var above := FollowGap(z, gap[..i], found); above.Some? ==> soa == net.hasSoa(reading + i, above.value, gap[i])
    ensures found + [soa] in SoaAnswers(net, z, gap[..i + 1], reading)
  {
    assert gap[..i + 1][..i] == gap[..i] && (found + [soa])[..i] == found;
  }

  lemma {:induction false} SoasStay(net: Net, z: KnownZone, gap: seq<Name>, all: seq<bool>, i: nat, k: nat, reading: nat)
    requires i <= k <= |gap| == |all| && all[..i] in SoaAnswers(net, z, gap[..i], reading)
    requires forall m :: i <= m <= |gap| ==> FollowGap(z, gap[..m], all[..m]).None?
    ensures all[..k] in SoaAnswers(net, z, gap[..k], reading)
  {
    if i < k {
      SoasStay(net, z, gap, all, i, k - 1, reading);
      SoasSnoc(net, z, gap, all[..k - 1], k - 1, reading, all[k - 1]);
      assert all[..k - 1] + [all[k - 1]] == all[..k];
    }
  }

  /** A gap broken after these answers stays broken, whatever the rest of them would be. */
  lemma BrokenGap(net: Net, z: KnownZone, gap: seq<Name>, found: seq<bool>, reading: nat) returns (all: seq<bool>)
    requires |found| <= |gap| && FollowGap(z, gap[..|found|], found).None? && found in SoaAnswers(net, z, gap[..|found|], reading)
    ensures |all| == |gap| && FollowGap(z, gap, all).None? && all in SoaAnswers(net, z, gap, reading)
  {
    all := GapStaysBroken(z, gap, found, |found|);
    assert all[..|found|] == found && gap[..|gap|] == gap && all[..|gap|] == all;
    SoasStay(net, z, gap, all, |found|, |gap|, reading);
  }

  /** One more answer; after one that breaks the gap, any others will do. */
  lemma FillStep(net: Net, z: KnownZone, gap: seq<Name>, i: nat, found: seq<bool>, reading: nat, soa: bool, next: Option<KnownZone>)
    returns (all: seq<bool>)
    requires i < |gap| && |found| == i && found in SoaAnswers(net, z, gap[..i], reading) && FollowGap(z, gap[..i], found).Some?
    requires var zone := FollowGap(z, gap[..i], found).value;
      soa == net.hasSoa(reading + i, zone, gap[i]) && next == if soa then Clone(zone, gap[i], zone.name) else Some(zone)
    ensures next.Some? ==> |all| == i + 1 && next == FollowGap(z, gap[..i + 1], all) && all in SoaAnswers(net, z, gap[..i + 1], reading)
    ensures next.None? ==> |all| == |gap| && next == FollowGap(z, gap, all) && all in SoaAnswers(net, z, gap, reading)
  {
    FollowGapStep(z, gap, found, i, soa);
    SoasSnoc(net, z, gap, found, i, reading, soa);
    all := found + [soa];
    if next.None? {
      assert |all| == i + 1;
      all := BrokenGap(net, z, gap, all, reading);
    }
  }

  /** What a reply does at the cursor, given which of the missing names have a SOA. */
  function AfterReply(name: Name, at: nat, z: KnownZone, msg: Packet, found: seq<bool>): Option<KnownZone>
    requires |found| == |GapAfter(name, at, z, msg)|
  {
    FollowGap(z, GapAfter(name, at, z, msg), found)
  }

  function GapAfter(name: Name, at: nat, z: KnownZone, msg: Packet): seq<Name> {
    GapNames(name, at, DeepestOwner(z.name, RecordsIn(msg)))
  }

  /** Some reply and some SOA answers make the program panic. */
  ghost predicate CanPanic(name: Name, at: nat, z: KnownZone) {
    exists msg: Packet, found: seq<bool> :: |found| == |GapAfter(name, at, z, msg)| && AfterReply(name, at, z, msg, found).None?
  }

  lemma GapIsGap(name: Name, at: nat, target: Name)
    ensures IsGap(name, at, GapNames(name, at, target)) || GapNames(name, at, target) == []
    ensures GapNames(name, at, target) != [] <==> IsSubDomain(target, name) && at < |target|
  {
    if IsSubDomain(target, name) && at < |target| {
      assert |Canonical(target)| <= |Canonical(name)|;
      var gap := GapNames(name, at, target);
      forall j | 0 <= j < |gap|
        ensures gap[j] == name[..at + j]
      {
        assert gap[j] == Ancestor(name, at + j);
      }
    }
  }

  /** A message with a record of this owner alone. */
  function AnswerFrom(owner: Name): Packet {
    Packet(0, true, false, [RR(owner, 60, OtherData(TYPE_A, []))], [], [])
  }

  lemma DeepestOfAnswer(zone: Name, owner: Name)
    requires IsSubDomain(zone, owner) && owner != ROOT
    ensures DeepestOwner(zone, RecordsIn(AnswerFrom(owner))) == owner
  {
    var records := RecordsIn(AnswerFrom(owner));
    var r := DeepestOwner(zone, records);
    assert records == [RR(owner, 60, OtherData(TYPE_A, []))] && Below(zone, records[0]);
    assert |records[0].owner| <= |r|;
    var i: nat :| DeepestSoFar(zone, records, i) && records[i].owner == r;
    assert i == 0;
  }

  lemma AheadCannotPanic(name: Name, at: nat, z: KnownZone, msg: Packet, found: seq<bool>)
    requires Canonical(name) == name && AheadAt(z.name, name, at) && |found| == |GapAfter(name, at, z, msg)|
    ensures AfterReply(name, at, z, msg, found).Some?
  {
    var owner := DeepestOwner(z.name, RecordsIn(msg));
    var gap := GapAfter(name, at, z, msg);
    GapIsGap(name, at, owner);
    if gap != [] {
      SubDomainTransitive(z.name, owner, name);
      NoPanicBelow(z, name, at, gap, found);
    }
  }

  /** A zone can be asked in safety, whatever it replies, if and only if the cursor is ahead of it. */
  lemma CanPanicIff(name: Name, at: nat, z: KnownZone)
    requires Canonical(name) == name
    ensures CanPanic(name, at, z) <==> !AheadAt(z.name, name, at)
  {
    if AheadAt(z.name, name, at) {
      forall msg: Packet, found: seq<bool> | |found| == |GapAfter(name, at, z, msg)|
        ensures AfterReply(name, at, z, msg, found).Some?
      {
        AheadCannotPanic(name, at, z, msg, found);
      }
    } else {
      var msg := AnswerFrom(name);
      DeepestOfAnswer(z.name, name);
      GapIsGap(name, at, name);
      var gap := GapAfter(name, at, z, msg);
      GapIsSafeIff(z, name, at, gap);
      var found: seq<bool> :| |found| == |gap| && FollowGap(z, gap, found).None?;
      assert AfterReply(name, at, z, msg, found).None?;
    }
  }

  /**
   What a delegation on the way does to that position: the cursor stays ahead of the new zone if
   and only if it was that deep already, or the deepest record owner is on the way as well.
   */
  lemma StaysAheadIff(name: Name, at: nat, z: KnownZone, msg: Packet, below: Name)
    requires NsRecords(msg.ns) != [] && below == Canonical(NsRecords(msg.ns)[0].owner)
    requires IsSubDomain(z.name, below) && IsSubDomain(below, name)
    ensures |below| < at + |GapAfter(name, at, z, msg)| + 1 <==>
      |below| <= at || IsSubDomain(DeepestOwner(z.name, RecordsIn(msg)), name)
  {
    GapIsGap(name, at, DeepestOwner(z.name, RecordsIn(msg)));
    var ns := NsRecords(msg.ns)[0];
    CanonicalIdempotent(ns.owner);
    var i :| 0 <= i < |msg.ns| && msg.ns[i] == ns;
    assert RecordsIn(msg)[i] == ns && Below(z.name, RecordsIn(msg)[i]);
  }

  /**
   So a delegation past the cursor, short of the full name and accompanied by a deeper record off
   the way, leaves the walk where some next reply makes it panic, unless a live zone is known at
   the new cursor position.
   */
  lemma MisalignedReplyCanPanic(name: Name, at: nat, z: KnownZone, msg: Packet, below: KnownZone)
    requires Canonical(name) == name && AheadAt(z.name, name, at)
    requires NsRecords(msg.ns) != [] && below.name == Canonical(NsRecords(msg.ns)[0].owner)
    requires IsSubDomain(z.name, below.name) && IsSubDomain(below.name, name) && at < |below.name| < |name|
    requires !IsSubDomain(DeepestOwner(z.name, RecordsIn(msg)), name)
    ensures CanPanic(name, at + |GapAfter(name, at, z, msg)| + 1, below)
  {
    StaysAheadIff(name, at, z, msg, below.name);
    GapIsGap(name, at, DeepestOwner(z.name, RecordsIn(msg)));
    CanPanicIff(name, at + |GapAfter(name, at, z, msg)| + 1, below);
  }

  /** A referral to `zone` with one more record, of owner `other`. */
  function ReferralWith(zone: Name, other: Name): Packet {
    Packet(0, false, false, [], [RR(zone, 60, NsData(zone)), RR(other, 60, OtherData(TYPE_A, []))], [])
  }

  lemma DeepestOfReferral(zone: Name, other: Name)
    requires zone != ROOT && |zone| < |other|
    ensures DeepestOwner(ROOT, RecordsIn(ReferralWith(zone, other))) == other
  {
    var records := RecordsIn(ReferralWith(zone, other));
    assert |records| == 2 && Below(ROOT, records[0]) && Below(ROOT, records[1]);
    assert records[1].owner == other && records[0].owner == zone;
  }

  /**
   For example: with nothing known but the root, which is asked at cursor 1. It refers to the
   third ancestor of the question and adds a deeper record off the way. The new zone is then
   asked at cursor 2, and answers for its child that only its own name has a SOA.
   */
  lemma RootReferralPanics(name: Name, other: Name, root: KnownZone, below: KnownZone)
    requires Canonical(name) == name && |name| >= 4 && |other| >= 4 && !IsSubDomain(other, name)
    requires root.name == ROOT && below.name == name[..3]
    ensures var referral, answer := ReferralWith(name[..3], other), AnswerFrom(name[..4]);
      && IsDelegation(referral) && NsRecords(referral.ns) != [] && below.name == Canonical(NsRecords(referral.ns)[0].owner)
      && GapAfter(name, 1, root, referral) == []
      && GapAfter(name, 2, below, answer) == [name[..2], name[..3]]
      && FollowGap(below, [name[..2], name[..3]], [false, true]).None?
  {
    CanonicalTake(name, 3);
    ReferralIsDelegation(name[..3], other);
    NoGapToOther(name, root, name[..3], other);
    GapToChild(name, below);
    OwnSoaPanics(below, name[..2]);
  }

  /** A zone that is asked for another name and then for its own, and has a SOA at its own only. */
  lemma OwnSoaPanics(z: KnownZone, before: Name)
    ensures FollowGap(z, [before, z.name], [false, true]).None?
  {
    var gap := [before, z.name];
    assert gap[..1] == [before] && [false, true][..1] == [false];
    assert FollowGap(z, [before], [false]) == Some(z);
  }

  lemma NoGapToOther(name: Name, root: KnownZone, zone: Name, other: Name)
    requires root.name == ROOT && zone != ROOT && |zone| < |other| && !IsSubDomain(other, name)
    ensures GapAfter(name, 1, root, ReferralWith(zone, other)) == []
  {
    DeepestOfReferral(zone, other);
  }

  lemma ReferralIsDelegation(zone: Name, other: Name)
    ensures IsDelegation(ReferralWith(zone, other)) && NsRecords(ReferralWith(zone, other).ns) == [RR(zone, 60, NsData(zone))]
  {
    var ns := ReferralWith(zone, other).ns;
    var p := (rr: RR) => rr.data.NsData?;
    assert ns[0].Rrtype() == TYPE_NS && ns == [ns[0]] + [ns[1]];
    FilterConcat([ns[0]], [ns[1]], p);
    FilterAll([ns[0]], p);
    FilterNone([ns[1]], p);
  }

  lemma TwoMissingNames(name: Name)
    requires |name| >= 4
    ensures GapNames(name, 2, name[..4]) == [name[..2], name[..3]]
  {
    AncestorIsSubDomain(name, 4);
    var gap := GapNames(name, 2, name[..4]);
    assert gap[0] == Ancestor(name, 2) && gap[1] == Ancestor(name, 3);
  }

  lemma GapToChild(name: Name, below: KnownZone)
    requires |name| >= 4 && below.name == name[..3]
    ensures GapAfter(name, 2, below, AnswerFrom(name[..4])) == [name[..2], name[..3]]
  {
    AncestorIsSubDomain(name[..4], 3);
    assert name[..4][..3] == name[..3];
    DeepestOfAnswer(below.name, name[..4]);
    TwoMissingNames(name);
  }

  /** The delegation the walk follows is the one the validator looks for in the denial records. */
  lemma WalkEntersDeniedName(ns: seq<RR>)
    requires NsRecords(ns) != [] && forall rr :: rr in ns && rr.Rrtype() == TYPE_NS ==> rr.data.NsData?
    ensures TypeExists(ns, TYPE_NS) && Verifier.DelegationName(ns) == NsRecords(ns)[0].owner
  {
    var first := NsRecords(ns)[0];
    var i :| 0 <= i < |ns| && ns[i] == first;
    assert ns[i].Rrtype() == TYPE_NS;
    FilterAlike(ns, (rr: RR) => rr.Rrtype() == TYPE_NS, (rr: RR) => rr.data.NsData?);
  }

  ghost predicate Reached(d: Domain, owner: Name)
    reads d
  {
    IsSubDomain(owner, d.name) ==> |owner| <= d.currentIdx
  }

  predicate HasNameAndType(rrs: seq<RR>, name: Name, t: TypeCode) {
    exists i :: 0 <= i < |rrs| && rrs[i].Rrtype() == t && rrs[i].owner == name
  }

  /** The alias has a target for which the answer holds neither the type asked for nor another alias. */
  predicate IsPending(answer: seq<RR>, qtype: TypeCode, rr: RR) {
    rr.data.CnameData? &&
    var target := Canonical(rr.data.target);
    !HasNameAndType(answer, target, qtype) && !HasNameAndType(answer, target, TYPE_CNAME)
  }

  function Pending(answer: seq<RR>, qtype: TypeCode): (r: seq<RR>)
    ensures forall i :: 0 <= i < |r| ==> r[i].data.CnameData?
  {
    var r := Filter(CnameRecords(answer), (rr: RR) => IsPending(answer, qtype, rr));
    assert forall i :: 0 <= i < |r| ==> r[i] in r;
    r
  }

  /** An alias has to be followed exactly when the answer has neither the type asked for nor an alias at its target. */
  lemma PendingIff(answer: seq<RR>, qtype: TypeCode, rr: RR)
    ensures rr in Pending(answer, qtype) <==>
      && rr in answer && rr.data.CnameData?
      && forall x :: x in answer && x.owner == Canonical(rr.data.target) ==> x.Rrtype() != qtype && x.Rrtype() != TYPE_CNAME
  {
    assert forall i :: 0 <= i < |answer| ==> answer[i] in answer;
  }

  /** Without an authenticator nothing is known. */
  function AuthOf(j: Option<Judgement>): AuthResult {
    if j.Some? then j.value.auth else Unknown
  }

  const SERVER_FAILURE := 2
  const NAME_ERROR := 3

  /** The end of a response: errors first, then the verdict is written into the message. */
  function Final(j: Option<Judgement>, suppress: bool, r: Outcome): Outcome
    requires r.Resolved?
  {
    var msg := r.msg;
    if msg.rcode != 0 && msg.rcode != NAME_ERROR then Error(BadRcode)
    else if j.Some? && j.value.failed then Error(ValidationFailed)
    else if j.None? || !j.value.enforced then r
    else
      var marked := msg.(authentic := r.auth == Secure);
      if r.auth != Bogus then r.(msg := marked)
      else
        var refused := marked.(rcode := SERVER_FAILURE);
        r.(msg := if suppress then refused.(answer := [], ns := [], extra := []) else refused)
  }

  /**
   Where the verdict is enforced, only Secure data is marked authentic, and Bogus data leaves as a
   server failure, with no records if they are to be suppressed.
   */
  ghost predicate IsFinal(j: Option<Judgement>, suppress: bool, r: Outcome)
    requires r.Resolved?
  {
    var enforced := j.Some? && j.value.enforced;
    && (j.Some? ==> !j.value.failed)
    && (enforced ==> (r.msg.authentic <==> r.auth == Secure))
    && (if enforced && r.auth == Bogus
        then r.msg.rcode == SERVER_FAILURE && (suppress ==> r.msg.answer == r.msg.ns == r.msg.extra == [])
        else r.msg.rcode == 0 || r.msg.rcode == NAME_ERROR)
  }

  /** A response fails on its code first, then on its validation; what it keeps of its records is all or nothing. */
  lemma FinalExactly(j: Option<Judgement>, suppress: bool, r: Outcome)
    requires r.Resolved?
    ensures var f, enforced := Final(j, suppress, r), j.Some? && j.value.enforced;
      if r.msg.rcode !in {0, NAME_ERROR} then f == Error(BadRcode)
      else if j.Some? && j.value.failed then f == Error(ValidationFailed)
      else
        && f.Resolved? && f.auth == r.auth && f.msg.authoritative == r.msg.authoritative
        && (if enforced && r.auth == Bogus && suppress then f.msg.answer == f.msg.ns == f.msg.extra == []
            else f.msg.answer == r.msg.answer && f.msg.ns == r.msg.ns && f.msg.extra == r.msg.extra)
        && f.msg.rcode == (if enforced && r.auth == Bogus then SERVER_FAILURE else r.msg.rcode)
        && f.msg.authentic == if enforced then r.auth == Secure else r.msg.authentic
  {
  }

  lemma FinalIsFinal(j: Option<Judgement>, suppress: bool, r: Outcome)
    requires r.Resolved?
    ensures !Final(j, suppress, r).Panic?
    ensures Final(j, suppress, r).Resolved? ==> IsFinal(j, suppress, Final(j, suppress, r))
  {
  }

  // ---------------------------------------------------------------- how an outcome comes about

  /** A zone that was asked, and the reading that brought its reply. */
  datatype Asked = Asked(zone: KnownZone, reading: nat)

  /** How a walk ended. */
  datatype Walk =
    | Cached(reading: nat)
    | OutOfBudget
    | PastTheEnd
    | NoAnswer(asked: Asked)
    | Broken(asked: Asked, at: nat, found: seq<bool>)
    | DeadEnd(asked: Asked, at: nat, found: seq<bool>, looked: seq<Nested>)
    | Concluded(asked: Asked, verdict: nat, targets: seq<Nested>)

  /** A nested question, how its walk ended, and what came of it. */
  datatype Nested = Nested(question: Question, walk: Walk, outcome: Outcome)

  function ReplyTo(net: Net, q: Question, a: Asked): Reply {
    net.reply(a.reading, a.zone, q)
  }

  /** Nested questions are put one after the other, until one makes the program panic. */
  ghost predicate Runs(questions: seq<Question>, ns: seq<Nested>) {
    && |ns| <= |questions| && (forall i :: 0 <= i < |ns| ==> ns[i].question == questions[i])
    && (forall i :: 0 <= i < |ns| - 1 ==> !ns[i].outcome.Panic?)
    && (|ns| < |questions| ==> Panicked(ns))
  }

  ghost predicate Panicked(ns: seq<Nested>) {
    ns != [] && ns[|ns| - 1].outcome.Panic?
  }

  /** The outcomes that were responses, in order. */
  ghost function Successes(ns: seq<Nested>): (ts: seq<Outcome>)
    ensures AllResolved(ts) && |ts| <= |ns|
  {
    if ns == [] then []
    else
      var last := ns[|ns| - 1].outcome;
      Successes(ns[..|ns| - 1]) + if last.Resolved? then [last] else []
  }

  /** The answer sections, of those responses that have one. */
  ghost function AnswersOf(ns: seq<Nested>): seq<seq<RR>> {
    if ns == [] then []
    else
      var last := ns[|ns| - 1].outcome;
      AnswersOf(ns[..|ns| - 1]) + if last.Resolved? && last.msg.answer != [] then [last.msg.answer] else []
  }

  /** The aliases of a response that have to be followed. */
  function AliasesOf(q: Question, msg: Packet): seq<RR> {
    if q.qtype == TYPE_CNAME then [] else Pending(msg.answer, q.qtype)
  }

  function TargetQuestions(aliases: seq<RR>, qtype: TypeCode): (r: seq<Question>)
    ensures |r| == |aliases|
  {
    seq(|aliases|, i requires 0 <= i < |aliases| =>
      Question(if aliases[i].data.CnameData? then Canonical(aliases[i].data.target) else ROOT, qtype))
  }

  /** The question put for an alias is for the type asked, at its target. */
  lemma TargetIsAsked(aliases: seq<RR>, qtype: TypeCode, i: nat)
    requires i < |aliases| && aliases[i].data.CnameData?
    ensures TargetQuestions(aliases, qtype)[i].name == Canonical(aliases[i].data.target) && TargetQuestions(aliases, qtype)[i].qtype == qtype
  {
  }

  /** What a reply and its followed aliases amount to: an error if all targets failed. */
  ghost function Conclusion(j: Option<Judgement>, suppress: bool, msg: Packet, targets: seq<Nested>): Outcome {
    if Panicked(targets) then Panic
    else if targets != [] && Successes(targets) == [] then Error(CnameFailed)
    else Final(j, suppress, MergeAll(Resolved(AuthOf(j), msg), Successes(targets)))
  }

  ghost predicate Concludes(net: Net, suppress: bool, q: Question, a: Asked, verdict: nat, targets: seq<Nested>, r: Outcome) {
    && ReplyTo(net, q, a).Answered?
    && var msg := ReplyTo(net, q, a).msg;
    && !IsDelegation(msg) && Runs(TargetQuestions(AliasesOf(q, msg), q.qtype), targets)
    && r == Conclusion(net.verdict(verdict), suppress, msg, targets)
  }

  function HostQuestions(hosts: seq<Name>, t: TypeCode): (r: seq<Question>)
    ensures |r| == |hosts|
  {
    seq(|hosts|, i requires 0 <= i < |hosts| => Question(hosts[i], t))
  }

  /** The addresses that are looked up for a pool: of as many hosts without one as are desired. */
  function LookUps(settings: Settings, c: Pool.Contents): seq<Question> {
    var hosts := if |c.without| > settings.desiredServers then c.without[..settings.desiredServers] else c.without;
    HostQuestions(hosts, TYPE_A) + if settings.ipv6 then HostQuestions(hosts, TYPE_AAAA) else []
  }

  /** Addresses are looked up for the first hosts without one, as many as desired, and in the second family only if it can be used. */
  lemma LookUpsIff(settings: Settings, c: Pool.Contents, q: Question)
    ensures q in LookUps(settings, c) <==>
      && (exists i :: 0 <= i < |c.without| && i < settings.desiredServers && c.without[i] == q.name)
      && (q.qtype == TYPE_A || (settings.ipv6 && q.qtype == TYPE_AAAA))
  {
    var hosts := if |c.without| > settings.desiredServers then c.without[..settings.desiredServers] else c.without;
    HostQuestionsIff(hosts, TYPE_A, q);
    HostQuestionsIff(hosts, TYPE_AAAA, q);
    assert forall i :: 0 <= i < |hosts| ==> hosts[i] == c.without[i];
    if i :| 0 <= i < |c.without| && i < settings.desiredServers && c.without[i] == q.name {
      assert hosts[i] == q.name;
    }
  }

  lemma HostQuestionsIff(hosts: seq<Name>, t: TypeCode, q: Question)
    ensures q in HostQuestions(hosts, t) <==> q.name in hosts && q.qtype == t
  {
    if q.name in hosts && q.qtype == t {
      var i :| 0 <= i < |hosts| && hosts[i] == q.name;
      assert HostQuestions(hosts, t)[i] == q;
    }
  }

  function UsableIn(settings: Settings, c: Pool.Contents): nat {
    |c.ipv4| + if settings.ipv6 then |c.ipv6| else 0
  }

  /** A pool without a usable address for which the look-ups find none either. */
  ghost predicate StaysUnusable(settings: Settings, c: Pool.Contents, looked: seq<Nested>) {
    UsableIn(settings, c) == 0 && (AnswersOf(looked) == [] || UsableIn(settings, Pool.EnrichAll(c, AnswersOf(looked))) == 0)
  }

  /** Why a delegation by `zone` leads nowhere. */
  ghost predicate LeadsNowhere(settings: Settings, zone: Name, msg: Packet, looked: seq<Nested>, r: Outcome) {
    var nss := NsRecords(msg.ns);
    if nss == [] || Canonical(nss[0].owner) == zone || !IsSubDomain(zone, nss[0].owner)
    then looked == [] && r == Error(NextNameserversNotFound)
    else if NamesEqual(nss[0].owner, zone) then looked == [] && r == Error(FailedCreatingZone)
    else
      var c := Pool.NewPool(nss, msg.extra);
      && Runs(LookUps(settings, c), looked)
      && if Panicked(looked) then r == Panic else r == Error(FailedEnrichingPool) && StaysUnusable(settings, c, looked)
  }

  ghost function DeadEnds(settings: Settings, zone: Name, msg: Packet, looked: seq<Nested>): iset<Outcome> {
    iset r: Outcome | LeadsNowhere(settings, zone, msg, looked, r)
  }

  /** Why no zone can be made of a delegation. */
  ghost predicate CannotBeMade(settings: Settings, zoneName: Name, parentName: Name, nameservers: seq<RR>, extra: seq<RR>, looked: seq<Nested>, r: Outcome) {
    if !IsProperSubDomain(parentName, zoneName) || nameservers == [] then looked == [] && r == Error(FailedCreatingZone)
    else
      var c := Pool.NewPool(nameservers, extra);
      && Runs(LookUps(settings, c), looked)
      && if Panicked(looked) then r == Panic else r == Error(FailedEnrichingPool) && StaysUnusable(settings, c, looked)
  }

  /** Every name server host is in its pool, with an address or without. */
  lemma NewPoolIsEmptyIff(nameservers: seq<RR>, extra: seq<RR>)
    ensures var c := Pool.NewPool(nameservers, extra); c.without == [] && c.ipv4 == [] && c.ipv6 == [] <==> nameservers == []
  {
    Pool.HostsAreConserved(nameservers, extra, []);
    var hosts := Pool.HostsOf(nameservers);
    if nameservers != [] {
      assert hosts[0] in hosts;
    } else {
      assert hosts == [];
    }
  }

  ghost predicate EndsDead(net: Net, settings: Settings, q: Question, a: Asked, at: nat, found: seq<bool>, looked: seq<Nested>, r: Outcome) {
    && ReplyTo(net, q, a).Answered?
    && var msg, name := ReplyTo(net, q, a).msg, Canonical(q.name);
    && IsDelegation(msg) && |found| == |GapAfter(name, at, a.zone, msg)| && AfterReply(name, at, a.zone, msg, found).Some?
    && found in SoaAnswers(net, a.zone, GapAfter(name, at, a.zone, msg), a.reading + 1)
    && r in DeadEnds(settings, AfterReply(name, at, a.zone, msg, found).value.name, msg, looked)
  }

  ghost predicate Breaks(net: Net, q: Question, a: Asked, at: nat, found: seq<bool>) {
    && ReplyTo(net, q, a).Answered?
    && var msg, name := ReplyTo(net, q, a).msg, Canonical(q.name);
    && |found| == |GapAfter(name, at, a.zone, msg)| && AfterReply(name, at, a.zone, msg, found).None?
    && found in SoaAnswers(net, a.zone, GapAfter(name, at, a.zone, msg), a.reading + 1)
  }

  /** The outcome of a question whose walk ended so. */
  ghost predicate Yields(net: Net, settings: Settings, q: Question, w: Walk, r: Outcome)
    decreases w
  {
    match w
    case Cached(n) => net.cached(n, q).Some? && r == Resolved(Unknown, net.cached(n, q).value)
    case OutOfBudget => r == Error(MaxQueriesReached)
    case PastTheEnd => r == Error(UnableToResolve)
    case NoAnswer(a) => !ReplyTo(net, q, a).Answered? && r == Error(if ReplyTo(net, q, a).Failed? then QueryFailed else EmptyResponse)
    case Broken(a, at, found) => Breaks(net, q, a, at, found) && r == Panic
    case DeadEnd(a, at, found, looked) =>
      && (forall i :: 0 <= i < |looked| ==> Yields(net, settings, looked[i].question, looked[i].walk, looked[i].outcome))
      && EndsDead(net, settings, q, a, at, found, looked, r)
    case Concluded(a, k, targets) =>
      && (forall i :: 0 <= i < |targets| ==> Yields(net, settings, targets[i].question, targets[i].walk, targets[i].outcome))
      && Concludes(net, settings.suppressBogus, q, a, k, targets, r)
  }

  /** The outcomes that walks which ended so can have; at most one, except that a delegation may lead nowhere in two ways. */
  ghost function Outcomes(net: Net, settings: Settings, q: Question, w: Walk): iset<Outcome> {
    iset r: Outcome | Yields(net, settings, q, w, r)
  }

  /** Every nested question has an outcome that its walk can have. */
  ghost predicate AllYield(net: Net, settings: Settings, ns: seq<Nested>) {
    forall i :: 0 <= i < |ns| ==> Yields(net, settings, ns[i].question, ns[i].walk, ns[i].outcome)
  }

  /** The zone that ended the walk, if it did not end by itself. */
  function LastAsked(w: Walk): Option<Asked> {
    if w.NoAnswer? || w.Broken? || w.DeadEnd? || w.Concluded? then Some(w.asked) else None
  }

  lemma YieldOneMore(net: Net, settings: Settings, ns: seq<Nested>, n: Nested)
    requires AllYield(net, settings, ns) && n.outcome in Outcomes(net, settings, n.question, n.walk)
    ensures AllYield(net, settings, ns + [n])
  {
    var all := ns + [n];
    forall i | 0 <= i < |all|
      ensures Yields(net, settings, all[i].question, all[i].walk, all[i].outcome)
    {
      assert all[i] == if i < |ns| then ns[i] else n;
    }
  }

  /** The first of the questions were put, and none made the program panic. */
  ghost predicate CarriedOn(questions: seq<Question>, ns: seq<Nested>) {
    |ns| <= |questions| && forall i :: 0 <= i < |ns| ==> ns[i].question == questions[i] && !ns[i].outcome.Panic?
  }

  lemma CarryOn(questions: seq<Question>, ns: seq<Nested>, n: Nested)
    requires CarriedOn(questions, ns) && |ns| < |questions| && n.question == questions[|ns|]
    ensures if n.outcome.Panic? then Runs(questions, ns + [n]) && Panicked(ns + [n]) else CarriedOn(questions, ns + [n])
  {
    var all := ns + [n];
    assert all[|ns|] == n && forall i :: 0 <= i < |ns| ==> all[i] == ns[i];
  }

  lemma SuccessesSnoc(ns: seq<Nested>, n: Nested)
    ensures Successes(ns + [n]) == Successes(ns) + (if n.outcome.Resolved? then [n.outcome] else [])
  {
    assert (ns + [n])[..|ns + [n]| - 1] == ns;
  }

  lemma CarriedThrough(questions: seq<Question>, ns: seq<Nested>)
    requires CarriedOn(questions, ns) && |ns| == |questions|
    ensures Runs(questions, ns) && !Panicked(ns)
  {
  }

  /** What the look-ups so far have made of a pool, and whether any was good. */
  ghost predicate Gained(c: Pool.Contents, ns: seq<Nested>, now: Pool.Contents, done: bool) {
    now == Pool.EnrichAll(c, AnswersOf(ns)) && (done <==> AnswersOf(ns) != [])
  }

  predicate IsGood(r: Outcome) {
    r.Resolved? && r.msg.answer != []
  }

  lemma GainMore(c: Pool.Contents, ns: seq<Nested>, now: Pool.Contents, done: bool, n: Nested)
    requires Gained(c, ns, now, done)
    ensures Gained(c, ns + [n], if IsGood(n.outcome) then Pool.Enriched(now, n.outcome.msg.answer) else now, done || IsGood(n.outcome))
  {
    assert (ns + [n])[..|ns + [n]| - 1] == ns;
    if IsGood(n.outcome) {
      EnrichSnoc(c, AnswersOf(ns), n.outcome.msg.answer);
    } else {
      assert AnswersOf(ns + [n]) == AnswersOf(ns);
    }
  }

  lemma GainTwice(c: Pool.Contents, a: seq<Nested>, c1: Pool.Contents, d1: bool, b: seq<Nested>, c2: Pool.Contents, d2: bool)
    requires Gained(c, a, c1, d1) && Gained(c1, b, c2, d2)
    ensures Gained(c, a + b, c2, d1 || d2)
  {
    AnswersConcat(a, b);
    EnrichConcat(c, AnswersOf(a), AnswersOf(b));
  }

  lemma AccountsConcat(net: Net, settings: Settings, a: seq<Nested>, b: seq<Nested>)
    requires AllYield(net, settings, a) && AllYield(net, settings, b)
    ensures AllYield(net, settings, a + b)
  {
    var ns := a + b;
    forall i | 0 <= i < |ns|
      ensures Yields(net, settings, ns[i].question, ns[i].walk, ns[i].outcome)
    {
      assert ns[i] == if i < |a| then a[i] else b[i - |a|];
    }
  }

  /** Two rounds of questions, the second only if the first did not panic. */
  lemma TwoRounds(first: seq<Question>, a: seq<Nested>, second: seq<Question>, b: seq<Nested>)
    requires Runs(first, a) && !Panicked(a) && Runs(second, b)
    ensures Runs(first + second, a + b) && (Panicked(a + b) <==> Panicked(b))
  {
    var ns, questions := a + b, first + second;
    assert |a| == |first| && |ns| == |a| + |b|;
    forall i | 0 <= i < |ns|
      ensures ns[i].question == questions[i] && (i < |ns| - 1 ==> !ns[i].outcome.Panic?)
    {
      if i < |a| {
        assert ns[i] == a[i] && questions[i] == first[i] && !a[i].outcome.Panic?;
      } else {
        assert ns[i] == b[i - |a|] && questions[i] == second[i - |a|];
      }
    }
    if b != [] {
      assert ns[|ns| - 1] == b[|b| - 1];
    } else {
      assert ns == a;
    }
  }

  lemma FirstRoundOnly(first: seq<Question>, a: seq<Nested>, second: seq<Question>)
    requires Runs(first, a) && (Panicked(a) || second == [])
    ensures Runs(first + second, a)
  {
  }

  lemma {:induction false} AnswersConcat(a: seq<Nested>, b: seq<Nested>)
    ensures AnswersOf(a + b) == AnswersOf(a) + AnswersOf(b)
  {
    if b == [] {
      assert a + b == a;
    } else {
      assert (a + b)[..|a + b| - 1] == a + b[..|b| - 1];
      AnswersConcat(a, b[..|b| - 1]);
    }
  }

  lemma {:induction false} EnrichConcat(c: Pool.Contents, a: seq<seq<RR>>, b: seq<seq<RR>>)
    ensures Pool.EnrichAll(c, a + b) == Pool.EnrichAll(Pool.EnrichAll(c, a), b)
  {
    if b == [] {
      assert a + b == a;
    } else {
      assert (a + b)[..|a + b| - 1] == a + b[..|b| - 1];
      EnrichConcat(c, a, b[..|b| - 1]);
    }
  }

  lemma EnrichSnoc(c: Pool.Contents, answers: seq<seq<RR>>, x: seq<RR>)
    ensures Pool.EnrichAll(c, answers + [x]) == Pool.Enriched(Pool.EnrichAll(c, answers), x)
  {
    assert (answers + [x])[..|answers|] == answers;
  }

  lemma NoAliases(q: Question, msg: Packet)
    requires q.qtype == TYPE_CNAME || !TypeExists(msg.answer, TYPE_CNAME)
    ensures AliasesOf(q, msg) == []
  {
    if q.qtype != TYPE_CNAME {
      forall rr | rr in msg.answer
        ensures !rr.data.CnameData?
      {
        var i :| 0 <= i < |msg.answer| && msg.answer[i] == rr;
      }
      FilterNone(msg.answer, (rr: RR) => rr.data.CnameData?);
    }
  }

  lemma DeadEndYields(net: Net, settings: Settings, q: Question, a: Asked, at: nat, found: seq<bool>, looked: seq<Nested>, r: Outcome)
    requires AllYield(net, settings, looked) && EndsDead(net, settings, q, a, at, found, looked, r)
    ensures r in Outcomes(net, settings, q, DeadEnd(a, at, found, looked))
  {
  }

  lemma ConcludedYields(net: Net, settings: Settings, q: Question, a: Asked, verdict: nat, targets: seq<Nested>, r: Outcome)
    requires AllYield(net, settings, targets) && Concludes(net, settings.suppressBogus, q, a, verdict, targets, r)
    ensures r in Outcomes(net, settings, q, Concluded(a, verdict, targets))
  {
  }

  // ---------------------------------------------------------------- the zones on the way

  /** The zone replied with a delegation to this name. */
  ghost predicate Refers(net: Net, q: Question, a: Asked, to: Name) {
    && ReplyTo(net, q, a).Answered? && IsDelegation(ReplyTo(net, q, a).msg)
    && var nss := NsRecords(ReplyTo(net, q, a).msg.ns);
    && nss != [] && to == Canonical(nss[0].owner)
  }

  /** The zone that is asked first, and the cursor position then: known zones are entered without asking. */
  function FirstAsked(zs: map<Name, KnownZone>, expired: KnownZone -> bool, name: Name, at: nat, z: KnownZone): (r: (KnownZone, nat))
    ensures r.1 >= at
    decreases SizeAfter(|name|, at)
  {
    if at < |name| && LiveAt(zs, name[..at], expired) then FirstAsked(zs, expired, name, at + 1, zs[name[..at]]) else (z, at)
  }

  /** Where the walk starts: at the head of the list of known zones. */
  ghost predicate StartsAt(zs: map<Name, KnownZone>, qname: Name, expired: KnownZone -> bool, z: KnownZone) {
    exists known: seq<KnownZone>, depth: nat :: ListedFor(zs, qname, expired, known, depth) && known != [] && known[0] == z
  }

  /** One iteration of a walk: the zone in hand, the cursor, and the reading if the zone was asked. */
  datatype Visit = Visit(zone: KnownZone, at: nat, reading: Option<nat>)

  /** What a walk starts from: the store, the readings and iterations so far, and the zone in hand. */
  datatype Origin = Origin(zs: map<Name, KnownZone>, reading: nat, count: nat, start: KnownZone)

  ghost predicate Unread(visits: seq<Visit>) {
    forall i :: 0 <= i < |visits| ==> visits[i].reading.None?
  }

  predicate KnownAt(net: Net, zs: map<Name, KnownZone>, name: Name, at: nat) {
    at < |name| && LiveAt(zs, name[..at], net.expired)
  }

  /** A zone in hand, and a cursor position. */
  datatype Place = Place(zone: KnownZone, at: nat)

  /** Where a visit leads: to the known zone at the cursor, or to the one the zone asked referred to. */
  ghost function Next(net: Net, q: Question, v: Visit): iset<Place> {
    iset p: Place |
      match v.reading
      case None => p.at == v.at + 1 && v.at < |q.name| && p.zone.name == Canonical(q.name)[..v.at]
      case Some(n) => v.at < p.at && Refers(net, q, Asked(v.zone, n), p.zone.name)
  }

  /** Where a walk is after these visits. */
  ghost function After(net: Net, o: Origin, q: Question, visits: seq<Visit>): iset<Place> {
    if visits == [] then iset{Place(o.start, |o.start.name|)}
    else
      var v := visits[|visits| - 1];
      iset p | p in Next(net, q, v) &&
        (Unread(visits) ==> KnownAt(net, o.zs, Canonical(q.name), v.at) && p.zone == o.zs[Canonical(q.name)[..v.at]])
  }

  /** Known zones are entered; the first zone asked is asked where none is known, by the first reading. */
  ghost predicate AsksInTime(net: Net, o: Origin, q: Question, visits: seq<Visit>, v: Visit) {
    Unread(visits) ==> v.reading == if KnownAt(net, o.zs, Canonical(q.name), v.at) then None else Some(o.reading)
  }

  /** The iterations of one walk. */
  ghost predicate IsLog(net: Net, o: Origin, q: Question, visits: seq<Visit>) {
    visits == [] ||
    (var front, v := visits[..|visits| - 1], visits[|visits| - 1];
     IsLog(net, o, q, front) && Place(v.zone, v.at) in After(net, o, q, front) && AsksInTime(net, o, q, front, v))
  }

  ghost function Logs(net: Net, o: Origin, q: Question): iset<seq<Visit>> {
    iset visits | IsLog(net, o, q, visits)
  }

  lemma LogGrows(net: Net, o: Origin, q: Question, visits: seq<Visit>, v: Visit)
    requires visits in Logs(net, o, q) && Place(v.zone, v.at) in After(net, o, q, visits) && AsksInTime(net, o, q, visits, v)
    ensures visits + [v] in Logs(net, o, q)
  {
    assert (visits + [v])[..|visits + [v]| - 1] == visits;
  }

  lemma LogLeadsOn(net: Net, o: Origin, q: Question, visits: seq<Visit>, v: Visit, p: Place)
    requires p in Next(net, q, v)
    requires Unread(visits) && v.reading.None? ==> KnownAt(net, o.zs, Canonical(q.name), v.at) && p.zone == o.zs[Canonical(q.name)[..v.at]]
    ensures p in After(net, o, q, visits + [v])
  {
    UnreadGrows(visits, v);
  }

  lemma UnreadGrows(visits: seq<Visit>, v: Visit)
    ensures Unread(visits + [v]) <==> Unread(visits) && v.reading.None?
  {
    if Unread(visits + [v]) {
      assert (visits + [v])[|visits|] == v && forall i :: 0 <= i < |visits| ==> (visits + [v])[i] == visits[i];
    }
  }

  /** All zones visited are in the store, and asked by readings in this range. */
  ghost predicate Filed(visits: seq<Visit>, known: set<Name>, from: nat, to: nat) {
    forall i :: 0 <= i < |visits| ==>
      visits[i].zone.name in known && (visits[i].reading.Some? ==> from <= visits[i].reading.value < to)
  }

  lemma FiledGrows(visits: seq<Visit>, v: Visit, known: set<Name>, more: set<Name>, from: nat, to: nat, later: nat)
    requires Filed(visits, known, from, to) && known <= more && to <= later
    requires v.zone.name in more && (v.reading.Some? ==> from <= v.reading.value < later)
    ensures Filed(visits + [v], more, from, later)
  {
    var all := visits + [v];
    forall i | 0 <= i < |all|
      ensures all[i].zone.name in more && (all[i].reading.Some? ==> from <= all[i].reading.value < later)
    {
      assert all[i] == if i < |visits| then visits[i] else v;
    }
  }

  /** A reply that is no delegation ends the walk; a message is concluded after the gap was looked at. */
  ghost predicate AnsweredAtOnce(net: Net, q: Question, at: nat, asked: Asked, ended: bool, walk: Walk) {
    match ReplyTo(net, q, asked)
    case Answered(msg) =>
      !IsDelegation(msg) ==>
        ended && walk.Concluded? && walk.verdict == asked.reading + 1 + |GapAfter(Canonical(q.name), at, asked.zone, msg)|
    case _ => ended
  }

  /** Whether the walk ends, and how, when this zone has replied with the cursor at `at`. */
  ghost function Prompt(net: Net, q: Question, at: nat, asked: Asked): iset<(bool, Walk)> {
    iset e: (bool, Walk) | AnsweredAtOnce(net, q, at, asked, e.0, e.1)
  }

  /** How the log ends: with the zone that ended the walk, or where the walk ended by itself. */
  ghost predicate EndsLog(net: Net, q: Question, visits: seq<Visit>, walk: Walk, budget: nat) {
    match LastAsked(walk)
    case Some(a) =>
      && visits != []
      && var v := visits[|visits| - 1];
      && v.zone == a.zone && v.reading == Some(a.reading)
      && (Unread(visits[..|visits| - 1]) ==> (true, walk) in Prompt(net, q, v.at, a))
    case None =>
      && (visits != [] && visits[|visits| - 1].reading.Some? ==>
            RefersOn(net, q, Asked(visits[|visits| - 1].zone, visits[|visits| - 1].reading.value)))
      && (Unread(visits) ==> walk.OutOfBudget? && |visits| >= budget)
      && (walk.PastTheEnd? && visits != [] ==> LeadsPastTheEnd(net, q, visits[|visits| - 1]))
  }

  /** The visit leads to a cursor position after both at which the full name is offered. */
  ghost predicate LeadsPastTheEnd(net: Net, q: Question, v: Visit) {
    exists p :: p in Next(net, q, v) && p.at > |q.name| + 1
  }

  ghost function Endings(net: Net, q: Question, visits: seq<Visit>, budget: nat): iset<Walk> {
    iset walk: Walk | !walk.Cached? && EndsLog(net, q, visits, walk, budget)
  }

  lemma EndsAsked(net: Net, q: Question, visits: seq<Visit>, v: Visit, walk: Walk, budget: nat)
    requires v.reading.Some? && LastAsked(walk) == Some(Asked(v.zone, v.reading.value))
    requires Unread(visits) ==> (true, walk) in Prompt(net, q, v.at, Asked(v.zone, v.reading.value))
    ensures walk in Endings(net, q, visits + [v], budget)
  {
    assert (visits + [v])[..|visits + [v]| - 1] == visits;
  }

  /** A visit of a walk in its log: the walk goes on to a place, or has ended. */
  lemma LogStep(net: Net, o: Origin, q: Question, visits: seq<Visit>, v: Visit, p: Option<Place>, walk: Walk, budget: nat)
    requires visits in Logs(net, o, q) && Place(v.zone, v.at) in After(net, o, q, visits) && AsksInTime(net, o, q, visits, v)
    requires p.Some? ==> p.value in Next(net, q, v)
    requires p.Some? && Unread(visits) && v.reading.None? ==> KnownAt(net, o.zs, Canonical(q.name), v.at) && p.value.zone == o.zs[Canonical(q.name)[..v.at]]
    requires p.None? ==> v.reading.Some? && LastAsked(walk) == Some(Asked(v.zone, v.reading.value))
    requires p.None? && Unread(visits) ==> (true, walk) in Prompt(net, q, v.at, Asked(v.zone, v.reading.value))
    ensures visits + [v] in Logs(net, o, q) && (Unread(visits + [v]) <==> Unread(visits) && v.reading.None?)
    ensures p.Some? ==> p.value in After(net, o, q, visits + [v])
    ensures p.None? ==> walk in Endings(net, q, visits + [v], budget)
  {
    LogGrows(net, o, q, visits, v);
    UnreadGrows(visits, v);
    if p.None? {
      EndsAsked(net, q, visits, v, walk, budget);
    } else {
      LogLeadsOn(net, o, q, visits, v, p.value);
    }
  }

  lemma EndsByItself(net: Net, o: Origin, q: Question, visits: seq<Visit>, p: Place, walk: Walk, budget: nat)
    requires p in After(net, o, q, visits) && LastAsked(walk).None? && !walk.Cached? && (Unread(visits) ==> walk.OutOfBudget? && |visits| >= budget)
    requires walk.PastTheEnd? ==> p.at > |q.name| + 1
    ensures walk in Endings(net, q, visits, budget)
  {
  }

  ghost function ReferredTo(net: Net, q: Question, a: Asked): iset<Name> {
    iset to: Name | Refers(net, q, a, to)
  }

  ghost predicate RefersOn(net: Net, q: Question, a: Asked) {
    exists to :: Refers(net, q, a, to)
  }

  // ---------------------------------------------------------------- what the log says

  /** A response comes from a final reply of the zone asked last: it is what that reply and the followed targets amount to. */
  lemma ResponseHasReply(net: Net, settings: Settings, q: Question, o: Origin, visits: seq<Visit>, w: Walk, r: Outcome, budget: nat)
    requires visits in Logs(net, o, q) && w in Endings(net, q, visits, budget) && r in Outcomes(net, settings, q, w) && r.Resolved?
    ensures w.Concluded? && visits != [] && visits[|visits| - 1].zone == w.asked.zone && visits[|visits| - 1].reading == Some(w.asked.reading)
    ensures var reply := net.reply(w.asked.reading, w.asked.zone, q);
      && reply.Answered? && !IsDelegation(reply.msg) && Runs(TargetQuestions(AliasesOf(q, reply.msg), q.qtype), w.targets)
      && var j := net.verdict(w.verdict);
      && r == Final(j, settings.suppressBogus, MergeAll(Resolved(if j.Some? then j.value.auth else Unknown, reply.msg), Successes(w.targets)))
  {
  }

  /** What a walk that ended without a message amounts to, and a target found in the cache. */
  lemma EndingDecides(net: Net, settings: Settings, q: Question, w: Walk, r: Outcome)
    requires r in Outcomes(net, settings, q, w) && !w.Concluded? && !w.DeadEnd?
    ensures match w
      case Cached(n) => net.cached(n, q).Some? && r == Resolved(Unknown, net.cached(n, q).value)
      case OutOfBudget => r == Error(MaxQueriesReached)
      case PastTheEnd => r == Error(UnableToResolve)
      case NoAnswer(a) => r == Error(if net.reply(a.reading, a.zone, q).Failed? then QueryFailed else EmptyResponse)
      case _ => r == Panic
  {
  }

  /** What can be wrong with a final reply. */
  lemma ConcludedFailure(net: Net, suppress: bool, q: Question, a: Asked, verdict: nat, targets: seq<Nested>, r: Outcome)
    requires Concludes(net, suppress, q, a, verdict, targets, r) && r.Error?
    ensures match r.failure
      case CnameFailed => targets != [] && forall i :: 0 <= i < |targets| ==> targets[i].outcome.Error?
      case BadRcode => MergeAll(Resolved(AuthOf(net.verdict(verdict)), ReplyTo(net, q, a).msg), Successes(targets)).msg.rcode !in {0, NAME_ERROR}
      case ValidationFailed => net.verdict(verdict).Some? && net.verdict(verdict).value.failed
      case _ => false
  {
    if r.failure == CnameFailed {
      NoSuccess(targets);
    }
  }

  /** What can be wrong with a delegation. */
  lemma DeadEndFailure(settings: Settings, zone: Name, msg: Packet, looked: seq<Nested>, r: Outcome)
    requires r in DeadEnds(settings, zone, msg, looked) && r.Error?
    ensures var nss := NsRecords(msg.ns);
      match r.failure
      case NextNameserversNotFound => nss == [] || !IsProperSubDomain(zone, nss[0].owner)
      case FailedCreatingZone => nss != [] && NamesEqual(zone, nss[0].owner)
      case FailedEnrichingPool => nss != [] && IsProperSubDomain(zone, nss[0].owner) && StaysUnusable(settings, Pool.NewPool(nss, msg.extra), looked)
      case _ => false
  {
    if NsRecords(msg.ns) != [] {
      CanonicalIdempotent(NsRecords(msg.ns)[0].owner);
    }
  }

  /** Which way a walk that failed has ended. */
  lemma FailureHasCause(net: Net, settings: Settings, q: Question, w: Walk, r: Outcome)
    requires r in Outcomes(net, settings, q, w) && r.Error?
    ensures match r.failure
      case MaxQueriesReached => w.OutOfBudget?
      case UnableToResolve => w.PastTheEnd?
      case QueryFailed => w.NoAnswer? && ReplyTo(net, q, w.asked).Failed?
      case EmptyResponse => w.NoAnswer? && ReplyTo(net, q, w.asked).NoMessage?
      case NextNameserversNotFound | FailedCreatingZone | FailedEnrichingPool =>
        w.DeadEnd? && EndsDead(net, settings, q, w.asked, w.at, w.found, w.looked, r)
      case CnameFailed | BadRcode | ValidationFailed =>
        w.Concluded? && Concludes(net, settings.suppressBogus, q, w.asked, w.verdict, w.targets, r)
  {
    if w.Concluded? {
      ConcludedFailure(net, settings.suppressBogus, q, w.asked, w.verdict, w.targets, r);
    } else if w.DeadEnd? {
      var msg, name := ReplyTo(net, q, w.asked).msg, Canonical(q.name);
      DeadEndFailure(settings, AfterReply(name, w.at, w.asked.zone, msg, w.found).value.name, msg, w.looked, r);
    }
  }

  lemma {:induction false} NoSuccess(ns: seq<Nested>)
    requires Successes(ns) == []
    ensures forall i :: 0 <= i < |ns| ==> !ns[i].outcome.Resolved?
  {
    if ns != [] {
      NoSuccess(ns[..|ns| - 1]);
    }
  }

  lemma {:induction false} LogPrefix(net: Net, o: Origin, q: Question, visits: seq<Visit>, k: nat)
    requires IsLog(net, o, q, visits) && k <= |visits|
    ensures IsLog(net, o, q, visits[..k])
  {
    if k < |visits| {
      var front := visits[..|visits| - 1];
      LogPrefix(net, o, q, front, k);
      assert front[..k] == visits[..k];
    } else {
      assert visits[..k] == visits;
    }
  }

  /** Each visit was to the place the one before led to. */
  lemma {:induction false} VisitIsNext(net: Net, o: Origin, q: Question, visits: seq<Visit>, k: nat)
    requires IsLog(net, o, q, visits) && k < |visits|
    ensures var v := visits[k];
      Place(v.zone, v.at) in After(net, o, q, visits[..k]) && AsksInTime(net, o, q, visits[..k], v)
  {
    var front := visits[..|visits| - 1];
    if k < |front| {
      VisitIsNext(net, o, q, front, k);
      assert front[..k] == visits[..k] && front[k] == visits[k];
    }
  }

  /** The first visit is to the head of the known zones, and every other to a place the one before led to. */
  lemma VisitsAreOnTheWay(net: Net, o: Origin, q: Question, visits: seq<Visit>, k: nat)
    requires visits in Logs(net, o, q) && k < |visits|
    ensures if k == 0 then visits[k].zone == o.start else Place(visits[k].zone, visits[k].at) in Next(net, q, visits[k - 1])
  {
    var front, p := visits[..k], Place(visits[k].zone, visits[k].at);
    VisitIsNext(net, o, q, visits, k);
    if k > 0 {
      AfterIsNext(net, o, q, front, p);
      assert front[|front| - 1] == visits[k - 1];
    }
  }

  lemma AfterIsNext(net: Net, o: Origin, q: Question, visits: seq<Visit>, p: Place)
    requires p in After(net, o, q, visits) && visits != []
    ensures p in Next(net, q, visits[|visits| - 1])
  {
  }

  /** A visit leads to an ancestor of the question, or to the zone that the zone asked referred to. */
  lemma NextIsOnTheWay(net: Net, q: Question, v: Visit, p: Place)
    requires p in Next(net, q, v)
    ensures if v.reading.Some? then Refers(net, q, Asked(v.zone, v.reading.value), p.zone.name)
      else |p.zone.name| <= |q.name| && p.zone.name == Canonical(q.name)[..|p.zone.name|]
  {
  }

  /** Before a zone is asked the cursor has moved one label for each visit, towards the first zone to be asked. */
  lemma {:induction false} UnreadLog(net: Net, o: Origin, q: Question, visits: seq<Visit>, p: Place)
    requires IsLog(net, o, q, visits) && Unread(visits) && p in After(net, o, q, visits)
    ensures p.at == |o.start.name| + |visits|
    ensures FirstAsked(o.zs, net.expired, Canonical(q.name), p.at, p.zone) == FirstAsked(o.zs, net.expired, Canonical(q.name), |o.start.name|, o.start)
  {
    if visits != [] {
      var front, v := visits[..|visits| - 1], visits[|visits| - 1];
      UnreadLog(net, o, q, front, Place(v.zone, v.at));
    }
  }

  /** While no zone was asked, the first zone to be asked lies ahead of all visits. */
  lemma FirstLiesAhead(net: Net, o: Origin, q: Question, visits: seq<Visit>)
    requires IsLog(net, o, q, visits) && Unread(visits)
    ensures FirstAsked(o.zs, net.expired, Canonical(q.name), |o.start.name|, o.start).1 >= |o.start.name| + |visits|
  {
    if visits != [] {
      var front, v := visits[..|visits| - 1], visits[|visits| - 1];
      assert Unread(front);
      UnreadLog(net, o, q, front, Place(v.zone, v.at));
    }
  }

  lemma {:induction false} FirstRead(visits: seq<Visit>) returns (k: nat)
    requires !Unread(visits)
    ensures k < |visits| && Unread(visits[..k]) && visits[k].reading.Some?
  {
    var front := visits[..|visits| - 1];
    if Unread(front) {
      k := |visits| - 1;
    } else {
      k := FirstRead(front);
      assert front[..k] == visits[..k];
    }
  }

  /** The first zone that is asked is `FirstAsked`, by the first reading. */
  lemma FirstReadIsFirstAsked(net: Net, o: Origin, q: Question, visits: seq<Visit>, k: nat)
    requires IsLog(net, o, q, visits) && k < |visits| && Unread(visits[..k]) && visits[k].reading.Some?
    ensures var (z, at) := FirstAsked(o.zs, net.expired, Canonical(q.name), |o.start.name|, o.start);
      visits[k] == Visit(z, at, Some(o.reading))
  {
    var v := visits[k];
    VisitIsNext(net, o, q, visits, k);
    LogPrefix(net, o, q, visits, k);
    UnreadLog(net, o, q, visits[..k], Place(v.zone, v.at));
  }

  /** A reply after which the walk goes on is a delegation. */
  lemma GoingOnIsReferred(net: Net, o: Origin, q: Question, visits: seq<Visit>, k: nat)
    requires IsLog(net, o, q, visits) && k + 1 < |visits| && visits[k].reading.Some?
    ensures RefersOn(net, q, Asked(visits[k].zone, visits[k].reading.value))
  {
    var front, p := visits[..k + 1], Place(visits[k + 1].zone, visits[k + 1].at);
    VisitIsNext(net, o, q, visits, k + 1);
    AfterIsNext(net, o, q, front, p);
    NextIsOnTheWay(net, q, visits[k], p);
  }

  /** Within budget, a first reply that is no delegation ends the walk. */
  lemma FirstReplyEnds(net: Net, o: Origin, q: Question, visits: seq<Visit>, w: Walk, budget: nat)
    requires visits in Logs(net, o, q) && w in Endings(net, q, visits, budget)
    requires var (z, at) := FirstAsked(o.zs, net.expired, Canonical(q.name), |o.start.name|, o.start);
      at < |o.start.name| + budget && !RefersOn(net, q, Asked(z, o.reading))
    ensures var (z, at) := FirstAsked(o.zs, net.expired, Canonical(q.name), |o.start.name|, o.start);
      LastAsked(w) == Some(Asked(z, o.reading)) && AnsweredAtOnce(net, q, at, Asked(z, o.reading), true, w)
  {
    if Unread(visits) {
      FirstLiesAhead(net, o, q, visits);
    }
    var k := FirstRead(visits);
    FirstReadIsFirstAsked(net, o, q, visits, k);
    if k + 1 < |visits| {
      GoingOnIsReferred(net, o, q, visits, k);
    }
    assert visits[..k] == visits[..|visits| - 1];
  }

  /**
   The first reply decides. Within budget, if the first zone to be asked replies with a message that
   is no delegation and has no alias to follow, the outcome is exactly the final form of that
   message under the verdict read after the gap; if it does not reply, the failure says so.
   */
  lemma FirstReplyDecides(net: Net, settings: Settings, o: Origin, q: Question, visits: seq<Visit>, w: Walk, r: Outcome, budget: nat)
    requires visits in Logs(net, o, q) && w in Endings(net, q, visits, budget) && r in Outcomes(net, settings, q, w)
    requires FirstAsked(o.zs, net.expired, Canonical(q.name), |o.start.name|, o.start).1 < |o.start.name| + budget
    ensures var (z, at) := FirstAsked(o.zs, net.expired, Canonical(q.name), |o.start.name|, o.start);
      match net.reply(o.reading, z, q)
      case Failed => r == Error(QueryFailed)
      case NoMessage => r == Error(EmptyResponse)
      case Answered(msg) =>
        !IsDelegation(msg) && AliasesOf(q, msg) == [] ==>
          var j := net.verdict(o.reading + 1 + |GapAfter(Canonical(q.name), at, z, msg)|);
          r == Final(j, settings.suppressBogus, Resolved(if j.Some? then j.value.auth else Unknown, msg))
  {
    var (z, at) := FirstAsked(o.zs, net.expired, Canonical(q.name), |o.start.name|, o.start);
    if !RefersOn(net, q, Asked(z, o.reading)) {
      FirstReplyEnds(net, o, q, visits, w, budget);
      PromptOutcome(net, settings, q, at, Asked(z, o.reading), w, r);
    }
  }

  lemma PromptOutcome(net: Net, settings: Settings, q: Question, at: nat, a: Asked, w: Walk, r: Outcome)
    requires LastAsked(w) == Some(a) && AnsweredAtOnce(net, q, at, a, true, w) && r in Outcomes(net, settings, q, w)
    ensures match ReplyTo(net, q, a)
      case Failed => r == Error(QueryFailed)
      case NoMessage => r == Error(EmptyResponse)
      case Answered(msg) =>
        !IsDelegation(msg) && AliasesOf(q, msg) == [] ==>
          var j := net.verdict(a.reading + 1 + |GapAfter(Canonical(q.name), at, a.zone, msg)|);
          r == Final(j, settings.suppressBogus, Resolved(AuthOf(j), msg))
  {
  }

  class Resolver {
    const zones: Zones
    const net: Net
    const settings: Settings
    /** No delegation leads the walk past its cursor. */
    ghost const aligned: bool
    /** Loop iterations begun during this query, over all nested walks. */
    var counter: nat
    /** Those that got past the budget check. */
    ghost var passed: nat
    /** Readings made from outside so far. */
    var tick: nat

    constructor (zones: Zones, net: Net, settings: Settings)
      requires GoodStore(zones.zones) && !net.expired(zones.zones[ROOT])
      ensures Ready() && this.zones == zones && this.net == net && this.settings == settings
      ensures counter == 0 && aligned == AlignedNet(net)
    {
      this.zones, this.net, this.settings := zones, net, settings;
      aligned := AlignedNet(net);
      counter, passed, tick := 0, 0, 0;
    }

    /** The store is in order, its root is alive, and the iterations within budget are counted. */
    ghost predicate Ready()
      reads this, zones
    {
      && GoodStore(zones.zones) && !net.expired(zones.zones[ROOT])
      && (aligned ==> AlignedNet(net))
      && passed == if counter <= settings.maxQueries then counter else settings.maxQueries
    }

    ghost function Budget(): nat
      reads this
    {
      if counter <= settings.maxQueries then settings.maxQueries - counter else 0
    }

    /** What every part of the walk keeps. */
    twostate predicate Progressed()
      reads this, zones
    {
      && Ready() && old(counter) <= counter && old(tick) <= tick
      && ROOT in old(zones.zones) && old(zones.zones).Keys <= zones.zones.Keys && zones.zones[ROOT] == old(zones.zones)[ROOT]
    }

    /**
     A fresh query: at most `maxQueries` iterations get past the check, however walks nest. The
     outcome is what the reply that ended the walk amounts to.
     */
    method Resolve(q: Question) returns (r: Outcome, ghost walk: Walk, ghost visits: seq<Visit>, ghost start: KnownZone)
      requires Ready()
      modifies this, zones
      ensures Ready() && passed <= settings.maxQueries
      ensures aligned ==> r != Panic
      ensures r in Outcomes(net, settings, q, walk) && (walk.OutOfBudget? ==> counter > settings.maxQueries)
      ensures StartsAt(old(zones.zones), q.name, net.expired, start)
      ensures visits in Logs(net, Origin(old(zones.zones), old(tick), 0, start), q) && walk in Endings(net, q, visits, settings.maxQueries)
      ensures Filed(visits, zones.zones.Keys, old(tick), tick)
    {
      counter, passed := 0, 0;
      ghost var sent;
      r, walk, sent, visits, start := Exchange(q);
    }

    /**
     Known zones lead from the root to the one the walk starts at, and the cursor stops on it. A DS
     link is asked for each of the zones above it.
     */
    method Start(q: Question) returns (d: Domain, z: KnownZone, ghost links: seq<Name>, ghost o: Origin)
      requires Ready()
      ensures fresh(d) && d.Valid() && d.name == Canonical(q.name) && d.currentIdx <= |d.name|
      ensures d.Current() == z.name && InPosition(z, d) && |z.name| == d.currentIdx
      ensures Ordered(links, d.name) && LessThan(links, d.name, |z.name|)
      ensures StartsAt(zones.zones, q.name, net.expired, z) && o == Origin(zones.zones, tick, counter, z)
      ensures links in Deliveries(q, d, z) && [] in LogsOf(o, q, z, d) && z.name in zones.zones
    {
      var known, depth := zones.GetZoneList(q.name, net.expired);
      ZoneListEndsAtRoot(zones.zones, q.name, net.expired, known, depth);
      z := known[0];
      assert LiveAncestor(zones.zones, q.name, net.expired, z);
      assert WellFiled(z.name, zones.zones[z.name]);
      CanonicalIdempotent(q.name);
      d := new Domain(q.name);
      var ok := d.WindTo(z.name);
      assert ok;
      links := LinksAbove(known);
      LinksAboveDescend(zones.zones, known, d.name);
      o := Origin(zones.zones, tick, counter, z);
    }

    /**
     One walk, top-level or nested. Every call spends budget before it starts another, and delivers
     at most one response for each zone above the question. What it returns is what the reply that
     ended it amounts to.
     */
    method Exchange(q: Question)
      returns (r: Outcome, ghost walk: Walk, ghost sent: seq<Name>, ghost visits: seq<Visit>, ghost start: KnownZone)
      requires Ready()
      modifies this, zones
      ensures Progressed() && old(counter) < counter
      ensures old(counter) >= settings.maxQueries ==> r == Error(MaxQueriesReached)
      ensures aligned ==> r != Panic && Ordered(sent, Canonical(q.name))
      ensures r in Outcomes(net, settings, q, walk) && (walk.OutOfBudget? ==> counter > settings.maxQueries)
      ensures StartsAt(old(zones.zones), q.name, net.expired, start)
      ensures visits in Logs(net, Origin(old(zones.zones), old(tick), old(counter), start), q) && walk in Endings(net, q, visits, old(Budget()))
      ensures Filed(visits, zones.zones.Keys, old(tick), tick)
      decreases Budget(), 0, 2
    {
      var d, z;
      ghost var o, links;
      d, z, links, o := Start(q);
      start := z;
      r, walk, sent, visits := WalkDown(d, z, q, o, links);
    }

    /** The loop over the labels. */
    method WalkDown(d: Domain, head: KnownZone, q: Question, ghost o: Origin, ghost links: seq<Name>)
      returns (r: Outcome, ghost walk: Walk, ghost sent: seq<Name>, ghost visits: seq<Visit>)
      requires Ready() && d.Valid() && d.name == Canonical(q.name) && d.currentIdx <= |d.name|
      requires links in Deliveries(q, d, head) && [] in LogsOf(o, q, head, d) && o.count == counter && o.reading == tick && head.name in zones.zones
      modifies this, zones, d
      ensures Progressed() && old(counter) < counter
      ensures old(counter) >= settings.maxQueries ==> r == Error(MaxQueriesReached)
      ensures aligned ==> r != Panic && Ordered(sent, Canonical(q.name))
      ensures r in Outcomes(net, settings, q, walk) && (walk.OutOfBudget? ==> counter > settings.maxQueries)
      ensures visits in Logs(net, o, q) && walk in Endings(net, q, visits, BudgetOf(o)) && Filed(visits, zones.zones.Keys, o.reading, tick)
      decreases Budget(), 0, 1
    {
      var z := head;
      sent, visits := links, [];
      while d.More()
        invariant Progressed() && d.Valid() && d.name == Canonical(q.name) && sent in Deliveries(q, d, z) && visits in LogsOf(o, q, z, d)
        invariant Counted(o, visits) && z.name in zones.zones && Filed(visits, zones.zones.Keys, o.reading, tick) && o.reading <= tick
        invariant if counter == old(counter) then d.currentIdx <= |d.name| else old(counter) < settings.maxQueries
        decreases |d.name| + 2 - d.currentIdx
      {
        var response;
        z, response, walk, sent, visits := Iterate(d, z, q, o, sent, visits);
        if response.Some? {
          return response.value, walk, sent, visits;
        }
      }
      EndsByItself(net, o, q, visits, Place(z, d.currentIdx), PastTheEnd, BudgetOf(o));
      return Error(UnableToResolve), PastTheEnd, sent, visits;
    }

    /** The visits so far are those of a walk, which has come to this zone and cursor. */
    ghost predicate Logged(o: Origin, q: Question, visits: seq<Visit>, z: KnownZone, d: Domain)
      reads this, zones, d
    {
      && visits in Logs(net, o, q) && Place(z, d.currentIdx) in After(net, o, q, visits)
      && (Unread(visits) ==> Entering(o, z, d))
    }

    ghost function LogsOf(o: Origin, q: Question, z: KnownZone, d: Domain): iset<seq<Visit>>
      reads this, zones, d
    {
      iset visits | Logged(o, q, visits, z, d)
    }

    ghost function Deliveries(q: Question, d: Domain, z: KnownZone): iset<seq<Name>>
      reads this, zones, d
    {
      iset sent | OnTrack(q, d, z, sent)
    }

    /** Only known zones have been entered so far. */
    ghost predicate Entering(o: Origin, z: KnownZone, d: Domain)
      reads this, zones, d
    {
      d.Valid() && zones.zones == o.zs && tick == o.reading && d.currentIdx <= |d.name| && InPosition(z, d)
    }

    ghost function BudgetOf(o: Origin): nat {
      if o.count <= settings.maxQueries then settings.maxQueries - o.count else 0
    }

    /** One iteration of the loop, if it is within budget, and its place in the log. */
    method Iterate(d: Domain, z: KnownZone, q: Question, ghost o: Origin, ghost sent: seq<Name>, ghost visits: seq<Visit>)
      returns (below: KnownZone, response: Option<Outcome>, ghost walk: Walk, ghost sent': seq<Name>, ghost visits': seq<Visit>)
      requires Ready() && sent in Deliveries(q, d, z) && visits in LogsOf(o, q, z, d) && Counted(o, visits)
      requires z.name in zones.zones && Filed(visits, zones.zones.Keys, o.reading, tick) && o.reading <= tick
      modifies this, zones, d
      ensures Progressed() && old(counter) < counter
      ensures if old(counter) < settings.maxQueries then response.None? ==> d.currentIdx > old(d.currentIdx) else response == Some(Error(MaxQueriesReached))
      ensures aligned ==> response != Some(Panic) && Ordered(sent', Canonical(q.name))
      ensures response.None? ==> sent' in Deliveries(q, d, below) && visits' in LogsOf(o, q, below, d) && Counted(o, visits') && below.name in zones.zones
      ensures response.Some? ==> response.value in Outcomes(net, settings, q, walk) && walk in Endings(net, q, visits', BudgetOf(o))
      ensures response.Some? ==> visits' in Logs(net, o, q) && (walk.OutOfBudget? ==> counter > settings.maxQueries)
      ensures Filed(visits', zones.zones.Keys, o.reading, tick)
      decreases Budget(), 0, 0
    {
      counter := counter + 1;
      if counter > settings.maxQueries {
        EndsByItself(net, o, q, visits, Place(z, d.currentIdx), OutOfBudget, BudgetOf(o));
        return z, Some(Error(MaxQueriesReached)), OutOfBudget, sent, visits;
      }
      passed := passed + 1;
      ghost var v, known, reading := Visit(z, 0, None), zones.zones.Keys, tick;
      below, response, walk, sent', v := TakeStep(d, z, q, o, sent, visits);
      visits' := visits + [v];
      FiledGrows(visits, v, known, zones.zones.Keys, o.reading, reading, tick);
    }

    /** While no zone was asked, every iteration is one of this walk's own. */
    ghost predicate Counted(o: Origin, visits: seq<Visit>)
      reads this
    {
      Unread(visits) ==> counter == o.count + |visits|
    }

    /** An iteration within budget, and its place in the log. */
    method TakeStep(d: Domain, z: KnownZone, q: Question, ghost o: Origin, ghost sent: seq<Name>, ghost visits: seq<Visit>)
      returns (below: KnownZone, response: Option<Outcome>, ghost walk: Walk, ghost sent': seq<Name>, ghost v: Visit)
      requires Ready() && sent in Deliveries(q, d, z) && visits in LogsOf(o, q, z, d)
      modifies this, zones, d
      ensures Progressed()
      ensures aligned ==> response != Some(Panic) && Ordered(sent', Canonical(q.name))
      ensures response.None? ==> sent' in Deliveries(q, d, below) && visits + [v] in LogsOf(o, q, below, d) && d.currentIdx > old(d.currentIdx) && below.name in zones.zones
      ensures response.Some? ==> response.value in Outcomes(net, settings, q, walk) && walk in Endings(net, q, visits + [v], BudgetOf(o)) && !walk.OutOfBudget?
      ensures visits + [v] in Logs(net, o, q) && v.zone == z && (v.reading.Some? ==> v.reading.value == old(tick) < tick)
      ensures Unread(visits + [v]) ==> Unread(visits) && counter == old(counter)
      decreases Budget(), 8
    {
      below, response, walk, sent', v := Step(d, z, q, sent);
      LogStep(net, o, q, visits, v, if response.None? then Some(Place(below, d.currentIdx)) else None, walk, BudgetOf(o));
    }

    /** Deliveries are in order, and the cursor is where the next zone can be asked. */
    ghost predicate OnTrack(q: Question, d: Domain, z: KnownZone, sent: seq<Name>)
      reads this, zones, d
    {
      && d.Valid() && d.name == Canonical(q.name)
      && (aligned ==> InPosition(z, d) && Ordered(sent, d.name) && LessThan(sent, d.name, Floor(z.name, d.name, d.currentIdx)))
    }

    /** One iteration of the loop, within budget. */
    method Step(d: Domain, z: KnownZone, q: Question, ghost sent: seq<Name>)
      returns (below: KnownZone, response: Option<Outcome>, ghost walk: Walk, ghost sent': seq<Name>, ghost v: Visit)
      requires Ready() && OnTrack(q, d, z, sent)
      modifies this, zones, d
      ensures Progressed()
      ensures aligned ==> response != Some(Panic) && Ordered(sent', d.name)
      ensures v == Visit(z, old(d.currentIdx), if old(EntersKnown(d)) then None else Some(old(tick)))
      ensures response.None? ==> OnTrack(q, d, below, sent') && below.name in zones.zones && Place(below, d.currentIdx) in Next(net, q, v)
      ensures response.Some? ==> v.reading.Some? && response.value in Outcomes(net, settings, q, walk) && LastAsked(walk) == Some(Asked(z, old(tick)))
      ensures if v.reading.None? then response.None? && tick == old(tick) && zones.zones == old(zones.zones) && counter == old(counter)
          && below == zones.zones[d.name[..v.at]] && |below.name| == v.at else old(tick) < tick
      ensures old(Ahead(z.name, d)) && v.reading.Some? ==> (response.Some?, walk) in Prompt(net, q, v.at, Asked(z, old(tick)))
      decreases Budget(), 7
    {
      ghost var more, floor := [], Floor(z.name, d.name, d.currentIdx);
      v := Visit(z, d.currentIdx, if EntersKnown(d) then None else Some(tick));
      below, response, more, walk := VisitLabel(d, z, q);
      if aligned {
        DeliverMore(sent, more, d.name, floor, if response.None? then Some(Floor(below.name, d.name, d.currentIdx + 1)) else None);
      }
      sent' := sent + more;
      if response.None? {
        d.Next();
      }
    }

    /** The cursor is ahead of the zone, or on a zone known to be alive. */
    ghost predicate InPosition(z: KnownZone, d: Domain)
      reads this, zones, d
      requires d.Valid()
    {
      Ahead(z.name, d) || (LiveAt(zones.zones, d.Current(), net.expired) && |z.name| <= d.currentIdx)
    }

    /** A known zone on the way is entered without asking; the full name is always asked for. */
    method VisitLabel(d: Domain, z: KnownZone, q: Question)
      returns (below: KnownZone, response: Option<Outcome>, ghost sent: seq<Name>, ghost walk: Walk)
      requires Ready() && d.Valid() && d.name == Canonical(q.name)
      modifies this, zones, d
      ensures Progressed() && d.currentIdx >= old(d.currentIdx)
      ensures aligned && old(InPosition(z, d)) ==> response != Some(Panic)
      ensures aligned && response.None? && IsSubDomain(below.name, d.name) ==> |below.name| <= d.currentIdx
      ensures old(InPosition(z, d)) ==> Continues(d.name, sent, old(Floor(z.name, d.name, d.currentIdx)))
      ensures old(InPosition(z, d)) && response.None? ==>
        LeavesRoom(sent, d.name, old(Floor(z.name, d.name, d.currentIdx)), Floor(below.name, d.name, d.currentIdx + 1))
      ensures if old(EntersKnown(d)) then response.None? && tick == old(tick) && zones.zones == old(zones.zones) && counter == old(counter)
          && d.currentIdx == old(d.currentIdx) && d.Current() in zones.zones && below == zones.zones[d.Current()]
        else Explained(q, Asked(z, old(tick)), below, response, walk) && old(tick) < tick
      ensures old(Ahead(z.name, d)) && !old(EntersKnown(d)) ==> (response.Some?, walk) in Prompt(net, q, old(d.currentIdx), Asked(z, old(tick)))
      decreases Budget(), 6
    {
      walk := PastTheEnd;
      var next := zones.Get(d.Current(), net.expired);
      if next.Some? && !d.Last() {
        assert WellFiled(d.Current(), next.value);
        return next.value, None, [], walk;
      }
      below, response, sent, walk := ResolveLabel(d, z, q);
    }

    /** A zone known to be alive is at the cursor, short of the full name. */
    ghost predicate EntersKnown(d: Domain)
      reads this, zones, d
      requires d.Valid()
    {
      d.currentIdx < |d.name| && LiveAt(zones.zones, d.Current(), net.expired)
    }

    /** Ask the zone: the zone to go on with, or the final response. */
    method ResolveLabel(d: Domain, z: KnownZone, q: Question)
      returns (below: KnownZone, response: Option<Outcome>, ghost sent: seq<Name>, ghost walk: Walk)
      requires Ready() && d.Valid() && d.name == Canonical(q.name)
      modifies this, zones, d
      ensures Progressed() && d.currentIdx >= old(d.currentIdx)
      ensures aligned && old(Ahead(z.name, d)) ==> response != Some(Panic)
      ensures aligned && response.None? && IsSubDomain(below.name, d.name) ==> |below.name| <= d.currentIdx
      ensures old(Ahead(z.name, d)) ==> Continues(d.name, sent, old(Floor(z.name, d.name, d.currentIdx)))
      ensures old(Ahead(z.name, d)) && response.None? ==>
        LeavesRoom(sent, d.name, old(Floor(z.name, d.name, d.currentIdx)), Floor(below.name, d.name, d.currentIdx + 1))
      ensures Explained(q, Asked(z, old(tick)), below, response, walk) && old(tick) < tick
      ensures old(Ahead(z.name, d)) ==> (response.Some?, walk) in Prompt(net, q, old(d.currentIdx), Asked(z, old(tick)))
      decreases Budget(), 5
    {
      ghost var asked := Asked(z, tick);
      var reply := net.reply(tick, z, q);
      tick := tick + 1;
      match reply
      case Failed => return z, Some(Error(QueryFailed)), [], NoAnswer(asked);
      case NoMessage => return z, Some(Error(EmptyResponse)), [], NoAnswer(asked);
      case Answered(msg) =>
        assert aligned ==> AlignedReply(d.name, z.name, msg);
        below, response, sent, walk := HandleMessage(d, z, q, msg, asked);
    }

    /** The walk goes on in the zone that was referred to, or what it ended with is explained. */
    ghost predicate Explained(q: Question, asked: Asked, below: KnownZone, response: Option<Outcome>, walk: Walk)
      reads this, zones
    {
      match response
      case Some(r) => r in Outcomes(net, settings, q, walk) && LastAsked(walk) == Some(asked)
      case None => below.name in ReferredTo(net, q, asked) && below.name in zones.zones
    }

    /** Fill in missing zones, deliver the message, and follow its delegation or finish with it. */
    method HandleMessage(d: Domain, z: KnownZone, q: Question, msg: Packet, ghost asked: Asked)
      returns (below: KnownZone, response: Option<Outcome>, ghost sent: seq<Name>, ghost walk: Walk)
      requires Ready() && d.Valid() && d.name == Canonical(q.name) && (aligned ==> AlignedReply(d.name, z.name, msg))
      requires asked.zone == z && asked.reading + 1 == tick && ReplyTo(net, q, asked) == Answered(msg)
      modifies this, zones, d
      ensures Progressed() && d.currentIdx >= old(d.currentIdx)
      ensures aligned && old(Ahead(z.name, d)) ==> response != Some(Panic)
      ensures aligned && response.None? && IsSubDomain(below.name, d.name) ==> |below.name| <= d.currentIdx
      ensures old(Ahead(z.name, d)) ==> Continues(d.name, sent, old(Floor(z.name, d.name, d.currentIdx)))
      ensures old(Ahead(z.name, d)) && response.None? ==>
        LeavesRoom(sent, d.name, old(Floor(z.name, d.name, d.currentIdx)), Floor(below.name, d.name, d.currentIdx + 1))
      ensures Explained(q, asked, below, response, walk)
      ensures old(Ahead(z.name, d)) && !IsDelegation(msg) ==>
        response.Some? && walk.Concluded? && walk.verdict == old(tick) + |GapAfter(d.name, old(d.currentIdx), z, msg)|
      decreases Budget(), 4, 2
    {
      ghost var at := d.currentIdx;
      var zone, found := CheckForMissingZones(d, z, msg);
      walk := Broken(asked, at, found);
      if zone.None? {
        return z, Some(Panic), [], walk;
      }
      sent := Delivered(d.name, at, z, msg, found);
      ReplyContinues(d.name, at, z, msg, found);
      below, response, walk := ActOn(zone.value, q, msg, asked, at, found);
      if response.None? {
        DelegationContinues(d.name, at, z, msg, found, below.name);
      }
    }

    /** A delegation is followed, any other message is finished with. */
    method ActOn(zone: KnownZone, q: Question, msg: Packet, ghost asked: Asked, ghost at: nat, ghost found: seq<bool>)
      returns (below: KnownZone, response: Option<Outcome>, ghost walk: Walk)
      requires Ready() && ReplyTo(net, q, asked) == Answered(msg) && |found| == |GapAfter(Canonical(q.name), at, asked.zone, msg)|
      requires AfterReply(Canonical(q.name), at, asked.zone, msg, found) == Some(zone)
      requires found in SoaAnswers(net, asked.zone, GapAfter(Canonical(q.name), at, asked.zone, msg), asked.reading + 1)
      modifies this, zones
      ensures Progressed()
      ensures aligned ==> response != Some(Panic)
      ensures response.None? ==> NsRecords(msg.ns) != [] && below.name == Canonical(NsRecords(msg.ns)[0].owner) && IsProperSubDomain(zone.name, below.name)
      ensures Explained(q, asked, below, response, walk)
      ensures if IsDelegation(msg) then response.Some? ==> walk.DeadEnd? else response.Some? && walk.Concluded? && walk.verdict == old(tick)
      decreases Budget(), 4, 1
    {
      if !IsDelegation(msg) {
        ghost var verdict, targets := tick, [];
        var r;
        r, targets := FinaliseResponse(q, msg, asked);
        return zone, Some(r), Concluded(asked, verdict, targets);
      }
      ghost var looked;
      below, response, looked := ProcessDelegation(zone, msg);
      walk := DeadEnd(asked, at, found, looked);
      if response.Some? {
        DeadEndYields(net, settings, q, asked, at, found, looked, response.value);
      }
    }

    /** Files the zones skipped between the cursor and the deepest record owner, and moves the cursor there. */
    method CheckForMissingZones(d: Domain, z: KnownZone, msg: Packet) returns (r: Option<KnownZone>, ghost found: seq<bool>)
      requires Ready() && d.Valid()
      modifies this, zones, d
      ensures Progressed() && counter == old(counter)
      ensures d.currentIdx >= old(d.currentIdx)
      ensures old(Ahead(z.name, d)) ==> r.Some?
      ensures r.Some? ==> IsSubDomain(z.name, r.value.name)
      ensures r.Some? ==> Reached(d, DeepestOwner(z.name, RecordsIn(msg)))
      ensures var gap := GapAfter(d.name, old(d.currentIdx), z, msg);
        && |found| == |gap| && r == AfterReply(d.name, old(d.currentIdx), z, msg, found)
        && (r.Some? ==> d.currentIdx == old(d.currentIdx) + |gap| && tick == old(tick) + |gap|)
        && found in SoaAnswers(net, z, gap, old(tick))
    {
      var owner := FindDeepestOwner(z.name, RecordsIn(msg));
      if owner == ROOT {
        return Some(z), [];
      }
      var gap := d.Gap(owner);
      ghost var at := d.currentIdx;
      r, found := FillGap(d, z, gap);
      FollowGapDescends(z, gap, found);
      if gap != [] && |z.name| < at {
        SubDomainTransitive(z.name, owner, d.name);
        NoPanicBelow(z, d.name, at, gap, found);
      }
    }

    method FillGap(d: Domain, z: KnownZone, gap: seq<Name>) returns (r: Option<KnownZone>, ghost found: seq<bool>)
      requires Ready()
      modifies this, zones, d
      ensures Progressed() && counter == old(counter)
      ensures |found| == |gap| && r == FollowGap(z, gap, found)
      ensures d.currentIdx >= old(d.currentIdx) && (r.Some? ==> d.currentIdx == old(d.currentIdx) + |gap| && tick == old(tick) + |gap|)
      ensures found in SoaAnswers(net, z, gap, old(tick))
    {
      r, found := Some(z), [];
      for i := 0 to |gap|
        invariant Progressed() && counter == old(counter) && d.currentIdx == old(d.currentIdx) + i && tick == old(tick) + i
        invariant |found| == i && r.Some? && r == FollowGap(z, gap[..i], found) && found in SoaAnswers(net, z, gap[..i], old(tick))
      {
        ghost var soa := false;
        r, soa := FillOne(r.value, gap[i]);
        found := FillStep(net, z, gap, i, found, old(tick), soa, r);
        if r.None? {
          return;
        }
        d.Next();
      }
      assert gap[..|gap|] == gap;
    }

    /** A missing name that has a SOA is filed as a zone below the one at hand. */
    method FillOne(z: KnownZone, name: Name) returns (r: Option<KnownZone>, ghost soa: bool)
      requires Ready()
      modifies this, zones
      ensures Progressed() && counter == old(counter) && tick == old(tick) + 1
      ensures soa == net.hasSoa(old(tick), z, name) && r == if soa then Clone(z, name, z.name) else Some(z)
      ensures soa && r.Some? ==> Canonical(name) in zones.zones
    {
      var found := net.hasSoa(tick, z, name);
      r, soa := Some(z), found;
      tick := tick + 1;
      if found {
        r := Clone(z, name, z.name);
        if r.Some? {
          zones.Add(r.value);
        }
      }
    }

    method ProcessDelegation(z: KnownZone, msg: Packet) returns (below: KnownZone, response: Option<Outcome>, ghost looked: seq<Nested>)
      requires Ready()
      modifies this, zones
      ensures Progressed()
      ensures aligned ==> response != Some(Panic)
      ensures response.None? ==> NsRecords(msg.ns) != [] && below.name == Canonical(NsRecords(msg.ns)[0].owner) && IsProperSubDomain(z.name, below.name)
      ensures response.None? ==> below.name in zones.zones && zones.zones[below.name] == below
      ensures response.Some? ==> AllYield(net, settings, looked) && response.value in DeadEnds(settings, z.name, msg, looked)
      decreases Budget(), 4, 0
    {
      below, looked := z, [];
      var nameservers := NsRecords(msg.ns);
      if nameservers == [] {
        return z, Some(Error(NextNameserversNotFound)), [];
      }
      var next := Canonical(nameservers[0].owner);
      CanonicalIdempotent(nameservers[0].owner);
      if next == z.name || !IsSubDomain(z.name, next) {
        return z, Some(Error(NextNameserversNotFound)), [];
      }
      var created, failure;
      created, failure, looked := CreateZone(next, z.name, nameservers, msg.extra);
      if failure.Some? {
        return z, failure, looked;
      }
      zones.Add(created);
      return created, None, looked;
    }

    /** A zone strictly below its parent, with a pool that has an address to ask. */
    method CreateZone(zoneName: Name, parentName: Name, nameservers: seq<RR>, extra: seq<RR>)
      returns (created: KnownZone, failure: Option<Outcome>, ghost looked: seq<Nested>)
      requires Ready() && forall i :: 0 <= i < |nameservers| ==> nameservers[i].data.NsData?
      modifies this, zones
      ensures Progressed()
      ensures aligned ==> failure != Some(Panic)
      ensures failure.None? ==> WellFiled(created.name, created) && created.name == Canonical(zoneName) && created.name != ROOT
      ensures failure.None? ==> created.parent == Some(Canonical(parentName)) && IsProperSubDomain(parentName, zoneName)
      ensures AllYield(net, settings, looked) && (failure.Some? ==> CannotBeMade(settings, zoneName, parentName, nameservers, extra, looked, failure.value))
      decreases Budget(), 3
    {
      var name, parent := Canonical(zoneName), Canonical(parentName);
      CanonicalIdempotent(zoneName);
      CanonicalIdempotent(parentName);
      looked := [];
      created := KnownZone(name, Some(parent), tick);
      if name == parent || !IsSubDomain(parent, name) {
        return created, Some(Error(FailedCreatingZone)), [];
      }
      var pool := new Pool.NameserverPool(nameservers, extra, settings.maxTtl, net.now(tick));
      tick := tick + 1;
      NewPoolIsEmptyIff(nameservers, extra);
      match pool.GetStatus(settings.ipv6, settings.desiredServers)
      case PrimedButNeedsEnhancing =>
        if !settings.lazyEnrichment {
          var outcome;
          outcome, looked := EnrichPool(pool);
          if outcome == Some(Panic) {
            return created, outcome, looked;
          }
        }
        return created, None, looked;
      case Primed => return created, None, [];
      case HostnamesButNoAddresses =>
        failure, looked := EnrichPool(pool);
      case Empty => return created, Some(Error(FailedCreatingZone)), [];
    }

    /** Looks up the addresses of hosts that have none; succeeds once the pool has an address. */
    method EnrichPool(pool: Pool.NameserverPool) returns (failure: Option<Outcome>, ghost looked: seq<Nested>)
      requires Ready() && pool.Valid()
      modifies this, zones, pool
      ensures Progressed() && pool.Valid()
      ensures aligned ==> failure != Some(Panic)
      ensures failure.None? ==> pool.Usable(settings.ipv6) > 0
      ensures Runs(LookUps(settings, old(pool.View())), looked) && AllYield(net, settings, looked)
      ensures failure == if Panicked(looked) then Some(Panic)
        else if AnswersOf(looked) != [] && UsableIn(settings, Pool.EnrichAll(old(pool.View()), AnswersOf(looked))) > 0 then None
        else Some(Error(FailedEnrichingPool))
      decreases Budget(), 2
    {
      looked := [];
      var hosts := pool.hostsWithoutAddresses;
      if |hosts| == 0 {
        return Some(Error(FailedEnrichingPool)), [];
      }
      if |hosts| > settings.desiredServers {
        hosts := hosts[..settings.desiredServers];
      }
      var done, panic;
      done, panic, looked := LookUpAll(pool, hosts);
      if panic {
        return Some(Panic), looked;
      }
      var status := pool.GetStatus(settings.ipv6, settings.desiredServers);
      if done && (status.Primed? || status.PrimedButNeedsEnhancing?) {
        return None, looked;
      }
      return Some(Error(FailedEnrichingPool)), looked;
    }

    /** Both rounds over the hosts, the second if the other address family can be used. */
    method LookUpAll(pool: Pool.NameserverPool, hosts: seq<Name>) returns (done: bool, panic: bool, ghost looked: seq<Nested>)
      requires Ready() && pool.Valid()
      modifies this, zones, pool
      ensures Progressed() && pool.Valid()
      ensures aligned ==> !panic
      ensures Runs(HostQuestions(hosts, TYPE_A) + if settings.ipv6 then HostQuestions(hosts, TYPE_AAAA) else [], looked)
      ensures AllYield(net, settings, looked) && (panic <==> Panicked(looked)) && Gained(old(pool.View()), looked, pool.View(), done)
      decreases Budget(), 1, 1
    {
      done, panic, looked := LookUpHosts(pool, hosts, TYPE_A);
      if settings.ipv6 && !panic {
        var more;
        ghost var second, between, before := [], pool.View(), done;
        more, panic, second := LookUpHosts(pool, hosts, TYPE_AAAA);
        done := done || more;
        TwoRounds(HostQuestions(hosts, TYPE_A), looked, HostQuestions(hosts, TYPE_AAAA), second);
        AccountsConcat(net, settings, looked, second);
        GainTwice(old(pool.View()), looked, between, before, second, pool.View(), more);
        looked := looked + second;
      } else {
        FirstRoundOnly(HostQuestions(hosts, TYPE_A), looked, if settings.ipv6 then HostQuestions(hosts, TYPE_AAAA) else []);
      }
    }

    /** One round over the hosts for one record type; each good answer enriches the pool. */
    method LookUpHosts(pool: Pool.NameserverPool, hosts: seq<Name>, t: TypeCode) returns (done: bool, panic: bool, ghost looked: seq<Nested>)
      requires Ready() && pool.Valid()
      modifies this, zones, pool
      ensures Progressed() && pool.Valid()
      ensures aligned ==> !panic
      ensures Runs(HostQuestions(hosts, t), looked) && AllYield(net, settings, looked) && (panic <==> Panicked(looked))
      ensures Gained(old(pool.View()), looked, pool.View(), done)
      decreases Budget(), 1, 0
    {
      done, panic, looked := false, false, [];
      ghost var questions := HostQuestions(hosts, t);
      for h := 0 to |hosts|
        invariant Progressed() && pool.Valid() && !panic
        invariant |looked| == h && AllYield(net, settings, looked) && CarriedOn(questions, looked)
        invariant Gained(old(pool.View()), looked, pool.View(), done)
      {
        ghost var n, now := Nested(Question(ROOT, t), PastTheEnd, Panic), pool.View();
        var good;
        good, panic, n := LookUpHost(pool, hosts[h], t);
        YieldOneMore(net, settings, looked, n);
        CarryOn(questions, looked, n);
        GainMore(old(pool.View()), looked, now, done, n);
        looked := looked + [n];
        if panic {
          return;
        }
        done := done || good;
      }
      CarriedThrough(questions, looked);
    }

    /** A response with an answer section enriches the pool. */
    method LookUpHost(pool: Pool.NameserverPool, host: Name, t: TypeCode) returns (good: bool, panic: bool, ghost n: Nested)
      requires Ready() && pool.Valid()
      modifies this, zones, pool
      ensures Progressed() && pool.Valid()
      ensures aligned ==> !panic
      ensures n.question == Question(host, t) && n.outcome in Outcomes(net, settings, n.question, n.walk)
      ensures (panic <==> n.outcome.Panic?) && (good <==> IsGood(n.outcome))
      ensures pool.View() == if good then Pool.Enriched(old(pool.View()), n.outcome.msg.answer) else old(pool.View())
      decreases Budget(), 0, 4
    {
      ghost var walk;
      var r;
      r, walk := Nest(Question(host, t));
      n := Nested(Question(host, t), walk, r);
      good, panic := r.Resolved? && r.msg.answer != [], r.Panic?;
      if good {
        pool.Enrich(r.msg.answer, settings.maxTtl, net.now(tick));
        tick := tick + 1;
      }
    }

    /** Take the validator's verdict, follow aliases, refuse unsuccessful response codes, and withhold Bogus data. */
    method FinaliseResponse(q: Question, msg: Packet, ghost asked: Asked) returns (r: Outcome, ghost targets: seq<Nested>)
      requires Ready() && ReplyTo(net, q, asked) == Answered(msg) && !IsDelegation(msg)
      modifies this, zones
      ensures Progressed()
      ensures aligned ==> r != Panic
      ensures r in Outcomes(net, settings, q, Concluded(asked, old(tick), targets))
      ensures AliasesOf(q, msg) == [] ==>
        r == Final(net.verdict(old(tick)), settings.suppressBogus, Resolved(AuthOf(net.verdict(old(tick))), msg))
      ensures r.Resolved? ==> IsFinal(net.verdict(old(tick)), settings.suppressBogus, r)
      decreases Budget(), 3
    {
      var judgement := net.verdict(tick);
      tick := tick + 1;
      r, targets := Resolved(AuthOf(judgement), msg), [];
      if q.qtype != TYPE_CNAME && TypeExists(msg.answer, TYPE_CNAME) {
        r, targets := FollowAliases(q, r);
      } else {
        NoAliases(q, msg);
      }
      if r.Resolved? {
        FinalIsFinal(judgement, settings.suppressBogus, r);
        r := Final(judgement, settings.suppressBogus, r);
      }
      ConcludedYields(net, settings, q, asked, old(tick), targets, r);
    }

    /**
     Resolves the alias targets the answer does not contain, and merges what they yield. With such
     targets, success means that at least one of them was resolved.
     */
    method FollowAliases(q: Question, response: Outcome) returns (r: Outcome, ghost targets: seq<Nested>)
      requires Ready() && response.Resolved?
      modifies this, zones
      ensures Progressed()
      ensures aligned ==> r != Panic
      ensures Runs(TargetQuestions(Pending(response.msg.answer, q.qtype), q.qtype), targets) && AllYield(net, settings, targets)
      ensures r == if Panicked(targets) then Panic
        else if targets != [] && Successes(targets) == [] then Error(CnameFailed)
        else MergeAll(response, Successes(targets))
      decreases Budget(), 2
    {
      var responses, failed, panic;
      responses, failed, panic, targets := ResolveTargets(q.qtype, Pending(response.msg.answer, q.qtype));
      if panic {
        return Panic, targets;
      }
      r := response;
      for i := 0 to |responses|
        invariant r.Resolved? && r == MergeAll(response, responses[..i])
      {
        assert responses[..i + 1][..i] == responses[..i];
        r := Merge(r, responses[i]);
      }
      assert responses[..|responses|] == responses;
      if responses == [] && failed {
        r := Error(CnameFailed);
      }
    }

    /** Each pending target is taken from the cache or resolved by a nested walk. */
    method ResolveTargets(qtype: TypeCode, pending: seq<RR>)
      returns (responses: seq<Outcome>, failed: bool, panic: bool, ghost targets: seq<Nested>)
      requires Ready() && forall i :: 0 <= i < |pending| ==> pending[i].data.CnameData?
      modifies this, zones
      ensures Progressed()
      ensures aligned ==> !panic
      ensures Runs(TargetQuestions(pending, qtype), targets) && AllYield(net, settings, targets) && (panic <==> Panicked(targets))
      ensures responses == Successes(targets) && (!panic && responses == [] ==> (failed <==> targets != []))
      decreases Budget(), 1
    {
      responses, failed, panic, targets := [], false, false, [];
      ghost var questions := TargetQuestions(pending, qtype);
      for i := 0 to |pending|
        invariant Progressed() && !panic
        invariant |targets| == i && AllYield(net, settings, targets) && CarriedOn(questions, targets)
        invariant responses == Successes(targets) && (responses == [] ==> (failed <==> i > 0))
      {
        var question := Question(Canonical(pending[i].data.target), qtype);
        assert question == questions[i];
        ghost var walk;
        var t;
        t, walk := Target(question);
        YieldOneMore(net, settings, targets, Nested(question, walk, t));
        CarryOn(questions, targets, Nested(question, walk, t));
        SuccessesSnoc(targets, Nested(question, walk, t));
        targets := targets + [Nested(question, walk, t)];
        match t
        case Panic => return responses, failed, true, targets;
        case Error(_) => failed := true;
        case Resolved(_, _) => responses := responses + [t];
      }
      CarriedThrough(questions, targets);
    }

    /** A walk started by another one. */
    method Nest(q: Question) returns (r: Outcome, ghost walk: Walk)
      requires Ready()
      modifies this, zones
      ensures Progressed()
      ensures aligned ==> r != Panic
      ensures r in Outcomes(net, settings, q, walk)
      decreases Budget(), 0, 3
    {
      ghost var sent, visits, start;
      r, walk, sent, visits, start := Exchange(q);
    }

    method Target(question: Question) returns (t: Outcome, ghost walk: Walk)
      requires Ready()
      modifies this, zones
      ensures Progressed()
      ensures aligned ==> t != Panic
      ensures t in Outcomes(net, settings, question, walk)
      ensures net.cached(old(tick), question).Some? ==> walk == Cached(old(tick))
      decreases Budget(), 0, 4
    {
      var cached := net.cached(tick, question);
      walk := Cached(tick);
      tick := tick + 1;
      if cached.Some? {
        return Resolved(Unknown, cached.value), walk;
      }
      t, walk := Nest(question);
    }
  }
}
