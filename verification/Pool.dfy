/**
 The pool of name servers of one zone (pool.go): its hosts without a known address, and the
 addresses found so far, handed out in turn.
 */
module Pool {
  import opened Collections
  import opened Names
  import opened Records

  /** Counters are 32 bits wide. */
  const WORD := 0x1_0000_0000

  function Truncated(n: nat): (r: nat)
    ensures r < WORD && r <= n && (n < WORD ==> r == n)
  {
    n % WORD
  }

  datatype Server = Server(hostname: Name, addr: seq<Octet>)

  datatype Status = Empty | HostnamesButNoAddresses | PrimedButNeedsEnhancing | Primed

  // ---------------------------------------------------------------- addresses among records

  predicate IsAddress(rr: RR, code: TypeCode, host: Name) {
    rr.data.OtherData? && rr.data.code == code && Canonical(rr.owner) == host
  }

  function AddressesOf(host: Name, records: seq<RR>, code: TypeCode): seq<RR> {
    Filter(records, (rr: RR) => IsAddress(rr, code, host))
  }

  predicate HasAddress(host: Name, records: seq<RR>) {
    AddressesOf(host, records, TYPE_A) != [] || AddressesOf(host, records, TYPE_AAAA) != []
  }

  function ServersOf(rrs: seq<RR>): (r: seq<Server>)
    ensures |r| == |rrs| && forall i :: 0 <= i < |rrs| ==> r[i].hostname == rrs[i].owner
  {
    seq(|rrs|, i requires 0 <= i < |rrs| => Server(rrs[i].owner, if rrs[i].data.OtherData? then rrs[i].data.content else []))
  }

  /** The addresses for all the hosts, host by host. */
  function ServersFor(hosts: seq<Name>, records: seq<RR>, code: TypeCode): seq<Server> {
    if hosts == [] then []
    else ServersFor(hosts[..|hosts| - 1], records, code) + ServersOf(AddressesOf(hosts[|hosts| - 1], records, code))
  }

  /** The lowest TTL among the addresses of a host, and `bound`. */
  function AddressTtl(host: Name, records: seq<RR>, bound: Seconds): Seconds {
    if records == [] then bound
    else
      var last, rest := records[|records| - 1], AddressTtl(host, records[..|records| - 1], bound);
      if IsAddress(last, TYPE_A, host) || IsAddress(last, TYPE_AAAA, host) then Min(last.ttl, rest) else rest
  }

  method FindAddressesForHostname(host: Name, records: seq<RR>, maxTtl: Seconds)
    returns (a: seq<RR>, aaaa: seq<RR>, ttl: Seconds)
    ensures a == AddressesOf(host, records, TYPE_A) && aaaa == AddressesOf(host, records, TYPE_AAAA)
    ensures ttl == AddressTtl(host, records, maxTtl)
  {
    a, aaaa, ttl := [], [], maxTtl;
    for i := 0 to |records|
      invariant a == AddressesOf(host, records[..i], TYPE_A) && aaaa == AddressesOf(host, records[..i], TYPE_AAAA)
      invariant ttl == AddressTtl(host, records[..i], maxTtl)
    {
      var rr := records[i];
      FilterStep(records, i, (rr: RR) => IsAddress(rr, TYPE_A, host));
      FilterStep(records, i, (rr: RR) => IsAddress(rr, TYPE_AAAA, host));
      assert records[..i + 1][..i] == records[..i];
      if Canonical(rr.owner) == host {
        if rr.data.OtherData? && rr.data.code == TYPE_A {
          a := a + [rr];
          ttl := Min(rr.ttl, ttl);
        } else if rr.data.OtherData? && rr.data.code == TYPE_AAAA {
          aaaa := aaaa + [rr];
          ttl := Min(rr.ttl, ttl);
        }
      }
    }
    assert records[..|records|] == records;
  }

  // ---------------------------------------------------------------- the pool as a value

  datatype Contents = Contents(without: seq<Name>, ipv4: seq<Server>, ipv6: seq<Server>)

  function Unaddressed(hosts: seq<Name>, records: seq<RR>): seq<Name> {
    Filter(hosts, (h: Name) => !HasAddress(h, records))
  }

  /** What the pool holds after looking for its hosts among `records`. */
  function Enriched(c: Contents, records: seq<RR>): Contents {
    Contents(Unaddressed(c.without, records),
             c.ipv4 + ServersFor(c.without, records, TYPE_A),
             c.ipv6 + ServersFor(c.without, records, TYPE_AAAA))
  }

  function EnrichedTtl(hosts: seq<Name>, records: seq<RR>, bound: Seconds): Seconds {
    if hosts == [] then bound
    else
      var rest := EnrichedTtl(hosts[..|hosts| - 1], records, bound);
      var h := hosts[|hosts| - 1];
      if HasAddress(h, records) then Min(AddressTtl(h, records, bound), rest) else rest
  }

  function HostsOf(nameservers: seq<RR>): (r: seq<Name>)
    ensures |r| == |nameservers|
  {
    seq(|nameservers|, i requires 0 <= i < |nameservers| => Canonical(HostOf(nameservers[i])))
  }

  function HostOf(rr: RR): Name {
    if rr.data.NsData? then rr.data.host else ROOT
  }

  function NsTtl(nameservers: seq<RR>, bound: Seconds): Seconds {
    if nameservers == [] then bound else Min(nameservers[|nameservers| - 1].ttl, NsTtl(nameservers[..|nameservers| - 1], bound))
  }

  function NewPool(nameservers: seq<RR>, extra: seq<RR>): Contents {
    Enriched(Contents(HostsOf(nameservers), [], []), extra)
  }

  function EnrichAll(c: Contents, answers: seq<seq<RR>>): Contents {
    if answers == [] then c else Enriched(EnrichAll(c, answers[..|answers| - 1]), answers[|answers| - 1])
  }

  // ---------------------------------------------------------------- conservation

  predicate Owns(servers: seq<Server>, host: Name) {
    exists i :: 0 <= i < |servers| && Canonical(servers[i].hostname) == host
  }

  predicate Addressed(c: Contents, host: Name) {
    Owns(c.ipv4, host) || Owns(c.ipv6, host)
  }

  /** Each host is listed as lacking an address, or owns one, and never both. */
  ghost predicate Partitioned(c: Contents, hosts: seq<Name>) {
    && (forall h :: h in c.without ==> h in hosts)
    && (forall h :: h in hosts ==> (h in c.without <==> !Addressed(c, h)))
  }

  lemma OwnsConcat(a: seq<Server>, b: seq<Server>, host: Name)
    ensures Owns(a + b, host) <==> Owns(a, host) || Owns(b, host)
  {
    var s := a + b;
    if i :| 0 <= i < |a| && Canonical(a[i].hostname) == host {
      assert s[i] == a[i];
    }
    if i :| 0 <= i < |b| && Canonical(b[i].hostname) == host {
      assert s[|a| + i] == b[i];
    }
    if i :| 0 <= i < |s| && Canonical(s[i].hostname) == host {
      assert if i < |a| then s[i] == a[i] else s[i] == b[i - |a|];
    }
  }

  lemma OwnAddresses(host: Name, records: seq<RR>, code: TypeCode, h: Name)
    ensures Owns(ServersOf(AddressesOf(host, records, code)), h) <==> h == host && AddressesOf(host, records, code) != []
  {
    var rrs := AddressesOf(host, records, code);
    assert forall i :: 0 <= i < |rrs| ==> rrs[i] in rrs && Canonical(rrs[i].owner) == host;
    if rrs != [] {
      assert Canonical(ServersOf(rrs)[0].hostname) == host;
    }
  }

  /** The addresses found belong to exactly those hosts looked for that have one among the records. */
  lemma {:induction false} FoundAddresses(hosts: seq<Name>, records: seq<RR>, code: TypeCode, h: Name)
    ensures Owns(ServersFor(hosts, records, code), h) <==> h in hosts && AddressesOf(h, records, code) != []
  {
    if hosts != [] {
      var front, last := hosts[..|hosts| - 1], hosts[|hosts| - 1];
      FoundAddresses(front, records, code, h);
      OwnAddresses(last, records, code, h);
      OwnsConcat(ServersFor(front, records, code), ServersOf(AddressesOf(last, records, code)), h);
      assert hosts == front + [last];
    }
  }

  /** The servers added are exactly the address records of the hosts looked for, name and address. */
  lemma {:induction false} ServersAreRecords(hosts: seq<Name>, records: seq<RR>, code: TypeCode, s: Server)
    ensures s in ServersFor(hosts, records, code) <==>
      exists rr :: rr in records && IsAddress(rr, code, Canonical(rr.owner)) && Canonical(rr.owner) in hosts && s == Server(rr.owner, rr.data.content)
  {
    if hosts != [] {
      var front, last := hosts[..|hosts| - 1], hosts[|hosts| - 1];
      ServersAreRecords(front, records, code, s);
      AddressIsRecord(last, records, code, s);
      assert hosts == front + [last];
    }
  }

  lemma AddressIsRecord(host: Name, records: seq<RR>, code: TypeCode, s: Server)
    ensures s in ServersOf(AddressesOf(host, records, code)) <==>
      exists rr :: rr in records && IsAddress(rr, code, host) && s == Server(rr.owner, rr.data.content)
  {
    var rrs := AddressesOf(host, records, code);
    var servers := ServersOf(rrs);
    if s in servers {
      var i :| 0 <= i < |servers| && servers[i] == s;
      assert rrs[i] in rrs && s == Server(rrs[i].owner, rrs[i].data.content);
    }
    forall rr | rr in records && IsAddress(rr, code, host)
      ensures Server(rr.owner, rr.data.content) in servers
    {
      assert rr in rrs;
      var i :| 0 <= i < |rrs| && rrs[i] == rr;
      assert servers[i] == Server(rr.owner, rr.data.content);
    }
  }

  /** A TTL that bounds how long a pool is kept: of a name server record, or of an address of one of its hosts. */
  ghost predicate BoundsPool(nameservers: seq<RR>, extra: seq<RR>, maxTtl: Seconds, ttl: int) {
    || ttl == maxTtl || (exists rr :: rr in nameservers && ttl == rr.ttl)
    || exists rr :: rr in extra && IsHostAddress(rr, HostsOf(nameservers)) && ttl == rr.ttl
  }

  predicate IsHostAddress(rr: RR, hosts: seq<Name>) {
    rr.data.OtherData? && rr.data.code in {TYPE_A, TYPE_AAAA} && Canonical(rr.owner) in hosts
  }

  lemma {:induction false} NsTtlIsLowest(nameservers: seq<RR>, bound: Seconds)
    ensures var m := NsTtl(nameservers, bound);
      && m <= bound && (forall rr :: rr in nameservers ==> m <= rr.ttl) && (m == bound || exists rr :: rr in nameservers && m == rr.ttl)
  {
    if nameservers != [] {
      NsTtlIsLowest(nameservers[..|nameservers| - 1], bound);
      assert nameservers == nameservers[..|nameservers| - 1] + [nameservers[|nameservers| - 1]];
    }
  }

  lemma {:induction false} AddressTtlIsLowest(host: Name, records: seq<RR>, bound: Seconds)
    ensures var m := AddressTtl(host, records, bound);
      && m <= bound && (forall rr :: rr in records && IsHostAddress(rr, [host]) ==> m <= rr.ttl)
      && (m == bound || exists rr :: rr in records && IsHostAddress(rr, [host]) && m == rr.ttl)
  {
    if records != [] {
      var front, last := records[..|records| - 1], records[|records| - 1];
      AddressTtlIsLowest(host, front, bound);
      assert records == front + [last];
      assert IsHostAddress(last, [host]) <==> IsAddress(last, TYPE_A, host) || IsAddress(last, TYPE_AAAA, host);
    }
  }

  lemma {:induction false} EnrichedTtlIsLowest(hosts: seq<Name>, records: seq<RR>, bound: Seconds)
    ensures var m := EnrichedTtl(hosts, records, bound);
      && m <= bound && (forall rr :: rr in records && IsHostAddress(rr, hosts) ==> m <= rr.ttl)
      && (m == bound || exists rr :: rr in records && IsHostAddress(rr, hosts) && m == rr.ttl)
  {
    if hosts != [] {
      var front, last := hosts[..|hosts| - 1], hosts[|hosts| - 1];
      EnrichedTtlIsLowest(front, records, bound);
      AddressTtlIsLowest(last, records, bound);
      assert hosts == front + [last];
      HostAddresses(front, last, records);
    }
  }

  lemma HostAddresses(front: seq<Name>, last: Name, records: seq<RR>)
    ensures forall rr :: IsHostAddress(rr, front + [last]) <==> IsHostAddress(rr, front) || IsHostAddress(rr, [last])
    ensures HasAddress(last, records) <==> exists rr :: rr in records && IsHostAddress(rr, [last])
  {
    var a, aaaa := AddressesOf(last, records, TYPE_A), AddressesOf(last, records, TYPE_AAAA);
    if a != [] {
      assert a[0] in a && IsHostAddress(a[0], [last]);
    }
    if aaaa != [] {
      assert aaaa[0] in aaaa && IsHostAddress(aaaa[0], [last]);
    }
    forall rr | rr in records && IsHostAddress(rr, [last])
      ensures rr in a || rr in aaaa
    {
    }
  }

  /** A new pool expires with the shortest-lived of its name server records and their addresses. */
  lemma PoolExpiresFirst(nameservers: seq<RR>, extra: seq<RR>, maxTtl: Seconds)
    ensures var life := Min(NsTtl(nameservers, maxTtl), EnrichedTtl(HostsOf(nameservers), extra, maxTtl));
      BoundsPool(nameservers, extra, maxTtl, life) && forall ttl :: BoundsPool(nameservers, extra, maxTtl, ttl) ==> life <= ttl
  {
    NsTtlIsLowest(nameservers, maxTtl);
    EnrichedTtlIsLowest(HostsOf(nameservers), extra, maxTtl);
  }

  lemma EnrichedKeepsPartition(c: Contents, records: seq<RR>, hosts: seq<Name>)
    requires Partitioned(c, hosts)
    ensures Partitioned(Enriched(c, records), hosts)
  {
    var d := Enriched(c, records);
    forall h | h in hosts
      ensures h in d.without <==> !Addressed(d, h)
    {
      FoundAddresses(c.without, records, TYPE_A, h);
      FoundAddresses(c.without, records, TYPE_AAAA, h);
      OwnsConcat(c.ipv4, ServersFor(c.without, records, TYPE_A), h);
      OwnsConcat(c.ipv6, ServersFor(c.without, records, TYPE_AAAA), h);
    }
  }

  /**
   After construction and any number of enrichments every name server host is listed without an
   address or owns one, never both, and no address found earlier is lost or moved.
   */
  lemma {:induction false} HostsAreConserved(nameservers: seq<RR>, extra: seq<RR>, answers: seq<seq<RR>>)
    ensures Partitioned(EnrichAll(NewPool(nameservers, extra), answers), HostsOf(nameservers))
    ensures var c, d := NewPool(nameservers, extra), EnrichAll(NewPool(nameservers, extra), answers);
      c.ipv4 <= d.ipv4 && c.ipv6 <= d.ipv6
  {
    if answers == [] {
      var hosts := HostsOf(nameservers);
      EnrichedKeepsPartition(Contents(hosts, [], []), extra, hosts);
    } else {
      var front := answers[..|answers| - 1];
      HostsAreConserved(nameservers, extra, front);
      EnrichedKeepsPartition(EnrichAll(NewPool(nameservers, extra), front), answers[|answers| - 1], HostsOf(nameservers));
    }
  }

  // ---------------------------------------------------------------- taking turns

  /** Which servers `k` consecutive requests get, out of `n`, when the counter stands at `next`. */
  function Picks(next: nat, n: nat, k: nat): (r: seq<nat>)
    requires n > 0
    ensures |r| == k
    decreases k
  {
    if k == 0 then [] else [next % n] + Picks(next % n + 1, n, k - 1)
  }

  /** The place `i` turns after `first` on a circle of `n`. */
  function Turn(first: nat, n: nat, i: nat): nat
    requires first < n && i < n
  {
    if first + i < n then first + i else first + i - n
  }

  lemma WrapAround(b: nat, n: nat)
    requires b < n
    ensures (b + 1) % n == Turn(b, n, if n > 1 then 1 else 0)
  {
    if b + 1 < n {
      assert (b + 1) % n == b + 1;
    } else {
      assert n % n == 0;
    }
  }

  lemma TurnOnce(b: nat, c: nat, n: nat, i: nat)
    requires b < n && 0 < i < n && c == Turn(b, n, 1)
    ensures Turn(c, n, i - 1) == Turn(b, n, i)
  {
  }

  lemma {:induction false} PickAt(next: nat, n: nat, k: nat, i: nat)
    requires i < n && i < k
    ensures Picks(next, n, k)[i] == Turn(next % n, n, i)
    decreases k
  {
    if i > 0 {
      var b := next % n;
      var c := (b + 1) % n;
      PickAt(b + 1, n, k - 1, i - 1);
      WrapAround(b, n);
      TurnOnce(b, c, n, i);
    }
  }

  /** Any `n` consecutive requests reach each of the `n` servers exactly once. */
  lemma RoundRobinIsFair(next: nat, n: nat, j: nat)
    requires j < n
    ensures exists i :: 0 <= i < n && Picks(next, n, n)[i] == j
    ensures forall i, k :: 0 <= i < k < n ==> Picks(next, n, n)[i] != Picks(next, n, n)[k]
  {
    var picks, b := Picks(next, n, n), next % n;
    forall i | 0 <= i < n
      ensures picks[i] == Turn(b, n, i)
    {
      PickAt(next, n, n, i);
    }
    assert picks[if j >= b then j - b else j + n - b] == j;
  }

  // ---------------------------------------------------------------- looking for addresses

  lemma GatherStep(hosts: seq<Name>, i: nat, records: seq<RR>, bound: Seconds)
    requires i < |hosts|
    ensures Unaddressed(hosts[..i + 1], records) == Unaddressed(hosts[..i], records) + (if HasAddress(hosts[i], records) then [] else [hosts[i]])
    ensures forall code :: ServersFor(hosts[..i + 1], records, code) == ServersFor(hosts[..i], records, code) + ServersOf(AddressesOf(hosts[i], records, code))
    ensures EnrichedTtl(hosts[..i + 1], records, bound) ==
      if HasAddress(hosts[i], records) then Min(AddressTtl(hosts[i], records, bound), EnrichedTtl(hosts[..i], records, bound))
      else EnrichedTtl(hosts[..i], records, bound)
  {
    FilterStep(hosts, i, (h: Name) => !HasAddress(h, records));
    assert hosts[..i + 1][..i] == hosts[..i];
  }

  /** The hosts still without an address, the addresses found, and their lowest TTL. */
  method Gather(hosts: seq<Name>, records: seq<RR>, maxTtl: Seconds)
    returns (still: seq<Name>, v4: seq<Server>, v6: seq<Server>, ttl: Seconds)
    ensures still == Unaddressed(hosts, records)
    ensures v4 == ServersFor(hosts, records, TYPE_A) && v6 == ServersFor(hosts, records, TYPE_AAAA)
    ensures ttl == EnrichedTtl(hosts, records, maxTtl)
  {
    still, v4, v6, ttl := [], [], [], maxTtl;
    for i := 0 to |hosts|
      invariant still == Unaddressed(hosts[..i], records)
      invariant v4 == ServersFor(hosts[..i], records, TYPE_A) && v6 == ServersFor(hosts[..i], records, TYPE_AAAA)
      invariant ttl == EnrichedTtl(hosts[..i], records, maxTtl)
    {
      GatherStep(hosts, i, records, maxTtl);
      var a, aaaa, minTtlSeen := FindAddressesForHostname(hosts[i], records, maxTtl);
      if a == [] && aaaa == [] {
        still := still + [hosts[i]];
        continue;
      }
      ttl := Min(minTtlSeen, ttl);
      v4 := v4 + ServersOf(a);
      v6 := v6 + ServersOf(aaaa);
    }
    assert hosts[..|hosts|] == hosts;
  }

  // ---------------------------------------------------------------- the mutable pool

  class NameserverPool {
    var hostsWithoutAddresses: seq<Name>
    var ipv4: seq<Server>
    var ipv4Next: nat
    var ipv4Count: nat
    var ipv6: seq<Server>
    var ipv6Next: nat
    var ipv6Count: nat
    var expires: int

    function View(): Contents
      reads this
    {
      Contents(hostsWithoutAddresses, ipv4, ipv6)
    }

    /** The counters are the list lengths, kept in 32 bits. */
    predicate Valid()
      reads this
    {
      && ipv4Count == Truncated(|ipv4|) && ipv6Count == Truncated(|ipv6|)
      && ipv4Next < WORD && ipv6Next < WORD
    }

    constructor (nameservers: seq<RR>, extra: seq<RR>, maxTtl: Seconds, now: int)
      requires forall i :: 0 <= i < |nameservers| ==> nameservers[i].data.NsData?
      ensures Valid() && View() == NewPool(nameservers, extra) && ipv4Next == 0 && ipv6Next == 0
      ensures expires == now + Min(NsTtl(nameservers, maxTtl), EnrichedTtl(HostsOf(nameservers), extra, maxTtl))
    {
      var ttl := maxTtl;
      for i := 0 to |nameservers|
        invariant ttl == NsTtl(nameservers[..i], maxTtl)
      {
        assert nameservers[..i + 1][..i] == nameservers[..i];
        ttl := Min(nameservers[i].ttl, ttl);
      }
      assert nameservers[..|nameservers|] == nameservers;
      var without, v4, v6, minTtlSeen := Gather(HostsOf(nameservers), extra, maxTtl);
      hostsWithoutAddresses, ipv4, ipv6 := without, v4, v6;
      ipv4Next, ipv6Next := 0, 0;
      expires := now + Min(ttl, minTtlSeen);
      ipv4Count, ipv6Count := Truncated(|v4|), Truncated(|v6|);
    }

    /** A pool that never expires keeps doing so. */
    method Enrich(records: seq<RR>, maxTtl: Seconds, now: int)
      requires Valid()
      modifies this
      ensures Valid() && View() == Enriched(old(View()), records)
      ensures expires == if records != [] && old(expires) > 0
        then now + EnrichedTtl(old(hostsWithoutAddresses), records, maxTtl) else old(expires)
      ensures ipv4Next == old(ipv4Next) && ipv6Next == old(ipv6Next)
    {
      if |records| == 0 {
        NothingFound(View(), records);
        return;
      }
      var still, v4, v6, ttl := Gather(hostsWithoutAddresses, records, maxTtl);
      ipv4, ipv6 := ipv4 + v4, ipv6 + v6;
      if expires > 0 {
        expires := now + ttl;
      }
      hostsWithoutAddresses := still;
      ipv4Count, ipv6Count := Truncated(|ipv4|), Truncated(|ipv6|);
    }

    /** The server whose turn it is; the next request gets the next one. */
    method GetIPv4() returns (server: Option<Server>)
      requires Valid()
      modifies this`ipv4Next
      ensures Valid()
      ensures server.None? <==> ipv4Count == 0
      ensures server.Some? ==> old(ipv4Next) % ipv4Count < |ipv4| && server.value == ipv4[old(ipv4Next) % ipv4Count]
      ensures server.Some? ==> ipv4Next == old(ipv4Next) % ipv4Count + 1
    {
      server := None;
      if ipv4Count > 0 {
        var next := ipv4Next % ipv4Count;
        ipv4Next := next + 1;
        if next < |ipv4| {
          server := Some(ipv4[next]);
        }
      }
    }

    /** What any number of consecutive requests get, with no enrichment in between. */
    method TakeTurns(k: nat) returns (servers: seq<Server>)
      requires Valid() && ipv4Count > 0
      modifies this`ipv4Next
      ensures |servers| == k
      ensures forall i :: 0 <= i < k ==>
        Picks(old(ipv4Next), ipv4Count, k)[i] < |ipv4| && servers[i] == ipv4[Picks(old(ipv4Next), ipv4Count, k)[i]]
    {
      servers := [];
      ghost var n, picked: seq<nat> := ipv4Count, [];
      ghost var all := Picks(ipv4Next, n, k);
      for i := 0 to k
        invariant Valid() && ipv4Count == n && |servers| == |picked| == i
        invariant picked + Picks(ipv4Next, n, k - i) == all
        invariant forall j :: 0 <= j < i ==> picked[j] < |ipv4| && servers[j] == ipv4[picked[j]]
      {
        ghost var slot, rest := ipv4Next % n, Picks(ipv4Next % n + 1, n, k - i - 1);
        assert picked + ([slot] + rest) == (picked + [slot]) + rest;
        picked := picked + [slot];
        var server := GetIPv4();
        servers := servers + [server.value];
      }
      assert picked == all;
    }

    method GetIPv6() returns (server: Option<Server>)
      requires Valid()
      modifies this`ipv6Next
      ensures Valid()
      ensures server.None? <==> ipv6Count == 0
      ensures server.Some? ==> old(ipv6Next) % ipv6Count < |ipv6| && server.value == ipv6[old(ipv6Next) % ipv6Count]
      ensures server.Some? ==> ipv6Next == old(ipv6Next) % ipv6Count + 1
    {
      server := None;
      if ipv6Count > 0 {
        var next := ipv6Next % ipv6Count;
        ipv6Next := next + 1;
        if next < |ipv6| {
          server := Some(ipv6[next]);
        }
      }
    }

    /** How many addresses can be asked. */
    function Usable(ipv6Available: bool): nat
      reads this
    {
      |ipv4| + if ipv6Available then |ipv6| else 0
    }

    function GetStatus(ipv6Available: bool, desired: nat): (s: Status)
      reads this
      ensures s.Empty? <==> ipv4 == [] && ipv6 == [] && hostsWithoutAddresses == []
      ensures s.Primed? || s.PrimedButNeedsEnhancing? <==> Usable(ipv6Available) > 0
      ensures s.PrimedButNeedsEnhancing? <==> 0 < Usable(ipv6Available) < desired && hostsWithoutAddresses != []
    {
      var total := Usable(ipv6Available);
      if |ipv4| == 0 && |ipv6| == 0 && |hostsWithoutAddresses| == 0 then Empty
      else if total == 0 then HostnamesButNoAddresses
      else if total < desired && |hostsWithoutAddresses| > 0 then PrimedButNeedsEnhancing
      else Primed
    }
  }

  lemma NothingFound(c: Contents, records: seq<RR>)
    requires records == []
    ensures Enriched(c, records) == c
  {
    NoServersFor(c.without, TYPE_A);
    NoServersFor(c.without, TYPE_AAAA);
    FilterAll(c.without, (h: Name) => !HasAddress(h, []));
  }

  lemma {:induction false} NoServersFor(hosts: seq<Name>, code: TypeCode)
    ensures ServersFor(hosts, [], code) == []
  {
    if hosts != [] {
      NoServersFor(hosts[..|hosts| - 1], code);
    }
  }
}
