/**
 The TTLs a validated response leaves with (dnssec/result.go, and the TTL part of
 finaliseResponse in resolver_exchange.go), against the bound of section 5.3.3 of RFC 4035.
 */
module TtlBound {
  import opened Collections
  import opened Names
  import opened Records
  import opened Signatures
  import opened Verifier
  import opened StageExactness
  import opened ChainOfTrust

  predicate Counts(s: Signature, t: TypeCode) {
    s.rtype == t && s.verified
  }

  /** The lowest TTL of the verified signatures for this type, capped; `None` if there are none. */
  function ResultTtl(t: TypeCode, sigs: seq<Signature>, maxTtl: Seconds): (r: Option<Seconds>)
    ensures r.None? <==> forall s :: s in sigs ==> !Counts(s, t)
    ensures r.Some? ==> r.value <= maxTtl && forall s :: s in sigs && Counts(s, t) ==> r.value <= s.ttl
    ensures r.Some? ==> r.value == maxTtl || exists s :: s in sigs && Counts(s, t) && s.ttl == r.value
  {
    if sigs == [] then None
    else
      var s := sigs[|sigs| - 1];
      assert sigs == sigs[..|sigs| - 1] + [s];
      var rest := ResultTtl(t, sigs[..|sigs| - 1], maxTtl);
      if !Counts(s, t) then rest
      else Some(Min(if rest.Some? then rest.value else maxTtl, s.ttl))
  }

  method ComputeResultTtl(t: TypeCode, sigs: seq<Signature>, maxTtl: Seconds) returns (ttl: Seconds, found: bool)
    ensures (if found then Some(ttl) else None) == ResultTtl(t, sigs, maxTtl)
    ensures !found ==> ttl == 0
  {
    found, ttl := false, maxTtl;
    for i := 0 to |sigs|
      invariant ResultTtl(t, sigs[..i], maxTtl) == if found then Some(ttl) else None
      invariant !found ==> ttl == maxTtl
    {
      assert sigs[..i + 1][..i] == sigs[..i];
      if sigs[i].rtype == t && sigs[i].verified {
        found := true;
        ttl := Min(ttl, sigs[i].ttl);
      }
    }
    assert sigs[..|sigs|] == sigs;
    if !found {
      ttl := 0;
    }
  }

  /** A record with the TTL it leaves with. */
  function Capped(rr: RR, sigs: seq<Signature>, maxTtl: Seconds): RR {
    var cap := ResultTtl(rr.Rrtype(), sigs, maxTtl);
    if cap.Some? then rr.(ttl := Min(cap.value, rr.ttl)) else rr
  }

  type TtlCache = map<TypeCode, Option<Seconds>>

  ghost predicate Remembers(ttls: TtlCache, sigs: seq<Signature>, maxTtl: Seconds) {
    forall t :: t in ttls ==> ttls[t] == ResultTtl(t, sigs, maxTtl)
  }

  /** The cap for a type, computed on first use. */
  method LookUp(ttls: TtlCache, t: TypeCode, sigs: seq<Signature>, maxTtl: Seconds)
    returns (cap: Option<Seconds>, ttls': TtlCache)
    requires Remembers(ttls, sigs, maxTtl)
    ensures cap == ResultTtl(t, sigs, maxTtl) && Remembers(ttls', sigs, maxTtl)
  {
    ttls' := ttls;
    if t !in ttls {
      var ttl, found := ComputeResultTtl(t, sigs, maxTtl);
      ttls' := ttls[t := if found then Some(ttl) else None];
    }
    cap := ttls'[t];
  }

  /** Rewrites the TTLs of one section in place, looking each type up once. */
  method CapSection(records: array<RR>, sigs: seq<Signature>, maxTtl: Seconds)
    modifies records
    ensures forall i :: 0 <= i < records.Length ==> records[i] == Capped(old(records[i]), sigs, maxTtl)
  {
    var ttls: TtlCache := map[];
    for i := 0 to records.Length
      invariant forall j :: 0 <= j < i ==> records[j] == Capped(old(records[j]), sigs, maxTtl)
      invariant forall j :: i <= j < records.Length ==> records[j] == old(records[j])
      invariant Remembers(ttls, sigs, maxTtl)
    {
      var cap;
      cap, ttls := LookUp(ttls, records[i].Rrtype(), sigs, maxTtl);
      if cap.Some? {
        records[i] := records[i].(ttl := Min(cap.value, records[i].ttl));
      }
    }
  }

  /** `answer` and `ns` of the final response, capped only when the verdict is Secure. */
  method FinaliseTtls(auth: AuthResult, last: ChainResult, answer: array<RR>, ns: array<RR>, maxTtl: Seconds)
    requires answer != ns
    modifies answer, ns
    ensures auth == Secure ==>
      && (forall i :: 0 <= i < answer.Length ==> answer[i] == Capped(old(answer[i]), last.answer, maxTtl))
      && (forall i :: 0 <= i < ns.Length ==> ns[i] == Capped(old(ns[i]), last.authority, maxTtl))
    ensures auth != Secure ==> answer[..] == old(answer[..]) && ns[..] == old(ns[..])
  {
    if auth == Secure {
      CapSection(answer, last.answer, maxTtl);
      CapSection(ns, last.authority, maxTtl);
    }
  }

  lemma CheckedTtlBound(cfg: Config, zone: Name, rrs: seq<RR>, keys: seq<RR>, section: Section, sigs: seq<Signature>, s: Signature)
    requires Checked(cfg, zone, rrs, keys, section, sigs) && s in sigs && s.verified
    ensures s.rrsig.data.SigData? && s.ttl <= s.rrsig.data.expiration - cfg.now
    ensures (forall bound :: BoundsTtl(s, cfg.now, bound) ==> s.ttl <= bound) && BoundsTtl(s, cfg.now, s.ttl)
  {
    var i :| 0 <= i < |sigs| && sigs[i] == s;
    assert RrsigsOf(rrs)[i] in RrsigsOf(rrs);
    VerifiedTtlBound(cfg.oracle, cfg.now, Canonical(zone), rrs, keys, RrsigsOf(rrs)[i]);
  }

  /** All the bounds of section 5.3.3 of RFC 4035 and of local policy. */
  ghost predicate WithinBounds(cfg: Config, maxTtl: Seconds, received: RR, final: RR, s: Signature) {
    && s.rrsig.data.SigData?
    && final.ttl <= received.ttl && final.ttl <= maxTtl
    && final.ttl <= s.rrsig.ttl && final.ttl <= s.rrsig.data.origTtl
    && final.ttl <= s.rrsig.data.expiration - cfg.now
    && (forall x :: x in s.rrset ==> final.ttl <= x.ttl)
  }

  /** The final TTL is one of the bounds: it is no lower than it has to be. */
  ghost predicate IsABound(cfg: Config, sigs: seq<Signature>, maxTtl: Seconds, received: RR, final: RR) {
    || final.ttl == received.ttl || final.ttl == maxTtl
    || exists s :: s in sigs && Counts(s, received.Rrtype()) && BoundsTtl(s, cfg.now, final.ttl)
  }

  /** What holds of a record of a section with these signatures. */
  ghost predicate RightTtl(cfg: Config, sigs: seq<Signature>, maxTtl: Seconds, received: RR, final: RR) {
    && final == received.(ttl := final.ttl)
    && (forall s :: s in sigs && Counts(s, received.Rrtype()) ==> WithinBounds(cfg, maxTtl, received, final, s))
    && ((forall s :: s in sigs ==> !Counts(s, received.Rrtype())) ==> final == received)
    && IsABound(cfg, sigs, maxTtl, received, final)
  }

  lemma SectionTtls(cfg: Config, zone: Name, rrs: seq<RR>, keys: seq<RR>, section: Section, sigs: seq<Signature>, maxTtl: Seconds, rr: RR)
    requires Checked(cfg, zone, rrs, keys, section, sigs)
    ensures RightTtl(cfg, sigs, maxTtl, rr, Capped(rr, sigs, maxTtl))
  {
    var final := Capped(rr, sigs, maxTtl);
    forall s | s in sigs && Counts(s, rr.Rrtype())
      ensures WithinBounds(cfg, maxTtl, rr, final, s) && BoundsTtl(s, cfg.now, s.ttl)
    {
      CheckedTtlBound(cfg, zone, rrs, keys, section, sigs, s);
      assert BoundsTtl(s, cfg.now, s.rrsig.ttl) && BoundsTtl(s, cfg.now, s.rrsig.data.origTtl);
      assert forall x :: x in s.rrset ==> BoundsTtl(s, cfg.now, x.ttl);
    }
  }

  /**
   In a Secure result, for every clock in 32-bit seconds: each record whose type has a verified
   signature in its section ends within the bounds set by every such signature, and at one of
   them; a record whose type has none keeps its TTL; nothing but the TTL changes.
   */
  lemma SecureTtlsAreBounded(cfg: Config, ds: seq<RR>, r: ChainResult, maxTtl: Seconds, rr: RR)
    requires SecureLink(cfg, ds, r)
    ensures RightTtl(cfg, r.answer, maxTtl, rr, Capped(rr, r.answer, maxTtl))
    ensures RightTtl(cfg, r.authority, maxTtl, rr, Capped(rr, r.authority, maxTtl))
  {
    var keys := DnskeysOf(r.zone.dnskeys.records);
    SectionTtls(cfg, r.zone.name, r.msg.answer, keys, AnswerSection, r.answer, maxTtl, rr);
    SectionTtls(cfg, r.zone.name, r.msg.ns, keys, AuthoritySection, r.authority, maxTtl, rr);
  }
}
