/**
 The staged verification of one response against the DS records of its parent
 (dnssec/verify.go and the five stages it calls).

 Each stage fills in a mutable result, as in the implementation, and is proved equal to a
 function from the result's old value to its new one; the chain-level theorems use the functions.
 */
module Verifier {
  import opened Collections
  import opened Names
  import opened Records
  import opened Signatures
  import Nsec
  import Nsec3

  /** Policy, clock and foreign computations for one validation. */
  datatype Config = Config(requireAll: bool, now: Seconds, oracle: Oracle)

  datatype ChainResult = ChainResult(
    zone: Zone, msg: Msg, keys: seq<Signature>, answer: seq<Signature>, authority: seq<Signature>,
    dsRecords: seq<RR>, doe: Doe, state: AuthResult, err: Option<Error>)

  datatype Stage = Stage(status: AuthResult, r: ChainResult, err: Option<Error>)

  /** The result under construction. */
  class PendingResult {
    const zone: Zone
    const msg: Msg
    var keys: seq<Signature>
    var answer: seq<Signature>
    var authority: seq<Signature>
    var dsRecords: seq<RR>
    var doe: Doe

    constructor (zone: Zone, msg: Msg)
      ensures View() == Blank(zone, msg)
    {
      this.zone, this.msg := zone, msg;
      keys, answer, authority, dsRecords, doe := [], [], [], [], NotFound;
    }

    function View(): ChainResult
      reads this
    {
      ChainResult(zone, msg, keys, answer, authority, dsRecords, doe, Unknown, None)
    }
  }

  function Blank(zone: Zone, msg: Msg): ChainResult {
    ChainResult(zone, msg, [], [], [], [], NotFound, Unknown, None)
  }

  // ---------------------------------------------------------------- records behind signatures

  /** The records of every signature for this type, in order. */
  function Gather(sigs: seq<Signature>, t: TypeCode): (r: seq<RR>)
    ensures forall x :: x in r <==> exists s :: s in sigs && s.rtype == t && x in s.rrset
  {
    if sigs == [] then []
    else
      assert sigs == [sigs[0]] + sigs[1..];
      (if sigs[0].rtype == t then sigs[0].rrset else []) + Gather(sigs[1..], t)
  }

  function NsecsFrom(sigs: seq<Signature>): (r: seq<RR>)
    ensures Nsec.AllNsec(r)
  {
    NsecsOf(Gather(sigs, TYPE_NSEC))
  }

  function Nsec3sFrom(sigs: seq<Signature>): (r: seq<RR>)
    ensures Nsec3.AllNsec3(r)
  {
    Nsec3.UsableOf(Nsec3sOf(Gather(sigs, TYPE_NSEC3)))
  }

  method DenialNsec3(sigs: seq<Signature>) returns (r: seq<RR>)
    ensures r == Nsec3sFrom(sigs)
  {
    var all := Nsec3sOf(Gather(sigs, TYPE_NSEC3));
    assert forall i :: 0 <= i < |all| ==> all[i] in all;
    r := Nsec3.NewDenialOfExistence(all);
  }

  // ---------------------------------------------------------------- DNSKEY stage

  /** The DS record designates this key: algorithm, key tag and digest agree. */
  predicate Designates(o: Oracle, ds: RR, key: RR) {
    && ds.data.DSData? && key.data.KeyData?
    && ds.data.dsAlgorithm == key.data.keyAlgorithm && ds.data.dsKeyTag == o.tagOf(key) && o.dsMatches(ds, key)
  }

  /** The first key each DS record designates. */
  function KeySigningKeys(o: Oracle, ds: seq<RR>, keys: seq<RR>): (r: seq<RR>)
    ensures forall k :: k in r ==> k in keys && exists d :: d in ds && Designates(o, d, k)
    ensures r == [] ==> forall d, k :: d in ds && k in keys ==> !Designates(o, d, k)
  {
    if ds == [] then []
    else
      var d := ds[|ds| - 1];
      assert ds == ds[..|ds| - 1] + [d];
      var rest := KeySigningKeys(o, ds[..|ds| - 1], keys);
      var i := FirstDesignated(o, d, keys);
      if i < |keys| then assert Designates(o, d, keys[i]); rest + [keys[i]] else rest
  }

  function FirstDesignated(o: Oracle, d: RR, keys: seq<RR>): (i: nat)
    ensures i <= |keys|
    ensures forall j :: 0 <= j < i ==> !Designates(o, d, keys[j])
    ensures i < |keys| ==> Designates(o, d, keys[i])
  {
    if keys == [] || Designates(o, d, keys[0]) then 0 else 1 + FirstDesignated(o, d, keys[1..])
  }

  /** Each DS record that designates a key contributes the first such key. */
  lemma {:induction false} EachDSContributes(o: Oracle, ds: seq<RR>, keys: seq<RR>, d: RR, i: nat)
    requires d in ds && i < |keys| && Designates(o, d, keys[i]) && forall j :: 0 <= j < i ==> !Designates(o, d, keys[j])
    ensures keys[i] in KeySigningKeys(o, ds, keys)
  {
    var n := |ds| - 1;
    assert FirstDesignated(o, d, keys) == i;
    if d != ds[n] {
      assert d in ds[..n];
      EachDSContributes(o, ds[..n], keys, d, i);
    }
  }

  function DnskeyStage(cfg: Config, r: ChainResult, keys: seq<RR>, ds: seq<RR>): Stage {
    var zoneKeys := DnskeysOf(keys);
    var ksks := KeySigningKeys(cfg.oracle, ds, zoneKeys);
    if zoneKeys == [] || ksks == [] then Stage(Insecure, r, Some(ErrKeysNotFound))
    else
      var sigs := SignaturesFor(cfg.oracle, cfg.now, r.zone.name, keys, ksks);
      if CountError(keys, sigs, AnswerSection).Some? then Stage(Bogus, r, Some(ErrBogusResultFound))
      else if !Accepted(cfg.requireAll, sigs) then Stage(Bogus, r.(keys := sigs), Some(ErrBogusResultFound))
      else Stage(Unknown, r.(keys := sigs), None)
  }

  method FindKeySigningKeys(o: Oracle, ds: seq<RR>, keys: seq<RR>) returns (ksks: seq<RR>)
    requires forall d :: d in ds ==> d.data.DSData?
    requires forall k :: k in keys ==> k.data.KeyData?
    ensures ksks == KeySigningKeys(o, ds, keys)
  {
    ksks := [];
    for i := 0 to |ds|
      invariant ksks == KeySigningKeys(o, ds[..i], keys)
    {
      assert ds[i] in ds && ds[..i + 1][..i] == ds[..i];
      var j := 0;
      while j < |keys|
        invariant 0 <= j <= |keys|
        invariant forall m :: 0 <= m < j ==> !Designates(o, ds[i], keys[m])
      {
        assert keys[j] in keys;
        if ds[i].data.dsAlgorithm == keys[j].data.keyAlgorithm && ds[i].data.dsKeyTag == o.tagOf(keys[j])
           && o.dsMatches(ds[i], keys[j]) {
          ksks := ksks + [keys[j]];
          break;
        }
        j := j + 1;
      }
      assert j == FirstDesignated(o, ds[i], keys);
    }
    assert ds[..|ds|] == ds;
  }

  method VerifyDNSKEYs(cfg: Config, r: PendingResult, keys: seq<RR>, ds: seq<RR>)
    returns (status: AuthResult, err: Option<Error>)
    requires forall d :: d in ds ==> d.data.DSData?
    modifies r
    ensures Stage(status, r.View(), err) == DnskeyStage(cfg, old(r.View()), keys, ds)
  {
    var zoneKeys := DnskeysOf(keys);
    if |zoneKeys| == 0 {
      return Insecure, Some(ErrKeysNotFound);
    }
    var ksks := FindKeySigningKeys(cfg.oracle, ds, zoneKeys);
    if |ksks| == 0 {
      return Insecure, Some(ErrKeysNotFound);
    }
    var sigs, e := Authenticate(cfg.oracle, cfg.now, r.zone.name, keys, ksks, AnswerSection);
    if e.Some? {
      return Bogus, Some(ErrBogusResultFound);
    }
    r.keys := sigs;
    e := Signatures.Verify(cfg.requireAll, sigs);
    if e.Some? {
      return Bogus, Some(ErrBogusResultFound);
    }
    return Unknown, None;
  }

  // ---------------------------------------------------------------- RRset stage

  function RrsetStage(cfg: Config, r: ChainResult, keys: seq<RR>): Stage {
    var answer := SignaturesFor(cfg.oracle, cfg.now, r.zone.name, r.msg.answer, keys);
    var authority := SignaturesFor(cfg.oracle, cfg.now, r.zone.name, r.msg.ns, keys);
    if CountError(r.msg.answer, answer, AnswerSection).Some? || CountError(r.msg.ns, authority, AuthoritySection).Some?
       || !Accepted(cfg.requireAll, answer + authority)
    then Stage(Bogus, r, Some(ErrBogusResultFound))
    else Stage(Unknown, r.(answer := answer, authority := authority), None)
  }

  method VerifyRRSETs(cfg: Config, r: PendingResult, keys: seq<RR>)
    returns (status: AuthResult, err: Option<Error>)
    requires forall k :: k in keys ==> k.data.KeyData?
    modifies r
    ensures Stage(status, r.View(), err) == RrsetStage(cfg, old(r.View()), keys)
  {
    var answer, e := Authenticate(cfg.oracle, cfg.now, r.zone.name, r.msg.answer, keys, AnswerSection);
    if e.Some? {
      return Bogus, Some(ErrBogusResultFound);
    }
    var authority, e' := Authenticate(cfg.oracle, cfg.now, r.zone.name, r.msg.ns, keys, AuthoritySection);
    if e'.Some? {
      return Bogus, Some(ErrBogusResultFound);
    }
    e := Signatures.Verify(cfg.requireAll, answer + authority);
    if e.Some? {
      return Bogus, Some(ErrBogusResultFound);
    }
    r.answer := answer;
    r.authority := authority;
    return Unknown, None;
  }

  // ---------------------------------------------------------------- delegating responses

  predicate SameOwner(rrs: seq<RR>) {
    forall i :: 0 <= i < |rrs| ==> rrs[i].owner == rrs[0].owner
  }

  const PRESENT_AT_DELEGATION: seq<TypeCode> := [TYPE_NS]
  const ABSENT_AT_DELEGATION: seq<TypeCode> := [TYPE_CNAME, TYPE_DS, TYPE_SOA]

  /** An NSEC record shows a delegation without DS records. */
  predicate NsecShowsNoDS(records: seq<RR>, name: Name)
    requires Nsec.AllNsec(records)
  {
    Nsec.NameSeen(records, name) && Nsec.TypeSeen(records, name, PRESENT_AT_DELEGATION)
    && !Nsec.TypeSeen(records, name, ABSENT_AT_DELEGATION)
  }

  predicate Nsec3ShowsNoDS(o: Oracle, records: seq<RR>, name: Name)
    requires Nsec3.AllNsec3(records)
  {
    Nsec3.AnyMatch(o, records, name) && Nsec3.TypeSeen(o, records, name, PRESENT_AT_DELEGATION)
    && !Nsec3.TypeSeen(o, records, name, ABSENT_AT_DELEGATION)
  }

  /** What the denial records prove about a delegation; `NotFound` if nothing. */
  function DelegationDoe(o: Oracle, zone: Name, nsec: seq<RR>, nsec3: seq<RR>, name: Name): Doe
    requires Nsec.AllNsec(nsec) && Nsec3.AllNsec3(nsec3)
  {
    if nsec != [] && NsecShowsNoDS(nsec, name) then NsecMissingDS
    else if nsec3 != [] && Nsec3ShowsNoDS(o, nsec3, name) then Nsec3MissingDS
    else if nsec3 != [] && Nsec3.ClosestEncloserProof(o, zone, nsec3, name).optedOut then Nsec3OptOut
    else NotFound
  }

  method DelegationDenial(o: Oracle, zone: Name, nsec: seq<RR>, nsec3: seq<RR>, name: Name) returns (doe: Doe)
    requires Nsec.AllNsec(nsec) && Nsec3.AllNsec3(nsec3)
    ensures doe == DelegationDoe(o, zone, nsec, nsec3, name)
  {
    if |nsec| != 0 {
      var nameSeen, typeSeen := Nsec.TypeBitMapContainsAnyOf(nsec, name, PRESENT_AT_DELEGATION);
      if nameSeen && typeSeen {
        nameSeen, typeSeen := Nsec.TypeBitMapContainsAnyOf(nsec, name, ABSENT_AT_DELEGATION);
        if nameSeen && !typeSeen {
          return NsecMissingDS;
        }
      }
    }
    if |nsec3| != 0 {
      var nameSeen, typeSeen := Nsec3.TypeBitMapContainsAnyOf(o, nsec3, name, PRESENT_AT_DELEGATION);
      if nameSeen && typeSeen {
        nameSeen, typeSeen := Nsec3.TypeBitMapContainsAnyOf(o, nsec3, name, ABSENT_AT_DELEGATION);
        if nameSeen && !typeSeen {
          return Nsec3MissingDS;
        }
      }
      var p := Nsec3.PerformClosestEncloserProof(o, zone, nsec3, name);
      if p.optedOut {
        return Nsec3OptOut;
      }
    }
    return NotFound;
  }

  function DelegatingStage(cfg: Config, r: ChainResult): Stage
    requires TypeExists(r.msg.ns, TYPE_NS)
  {
    var ds := DsOf(Gather(r.authority, TYPE_DS));
    var r1 := r.(dsRecords := ds);
    if ds != [] then Stage(Secure, r1, None)
    else if !SameOwner(OfType(r.msg.ns, TYPE_NS)) then Stage(Bogus, r1, Some(ErrNSRecordsHaveMismatchingOwners))
    else
      var doe := DelegationDoe(cfg.oracle, r.zone.name, NsecsFrom(r.authority), Nsec3sFrom(r.authority), DelegationName(r.msg.ns));
      if doe == NotFound then Stage(Bogus, r1, Some(ErrBogusDoeRecordsNotFound))
      else Stage(Secure, r1.(doe := doe), None)
  }

  /** The owner of the first NS record. */
  function DelegationName(ns: seq<RR>): Name
    requires TypeExists(ns, TYPE_NS)
  {
    var nsRecords := OfType(ns, TYPE_NS);
    assert nsRecords != [] by {
      var i :| 0 <= i < |ns| && ns[i].Rrtype() == TYPE_NS;
      assert ns[i] in nsRecords;
    }
    nsRecords[0].owner
  }

  method ValidateDelegatingResponse(cfg: Config, r: PendingResult) returns (status: AuthResult, err: Option<Error>)
    requires TypeExists(r.msg.ns, TYPE_NS)
    modifies r
    ensures Stage(status, r.View(), err) == DelegatingStage(cfg, old(r.View()))
  {
    r.dsRecords := DsOf(Gather(r.authority, TYPE_DS));
    if |r.dsRecords| > 0 {
      return Secure, None;
    }
    if !SameOwner(OfType(r.msg.ns, TYPE_NS)) {
      return Bogus, Some(ErrNSRecordsHaveMismatchingOwners);
    }
    var name := DelegationName(r.msg.ns);
    var nsec3 := DenialNsec3(r.authority);
    var doe := DelegationDenial(cfg.oracle, r.zone.name, NsecsFrom(r.authority), nsec3, name);
    if doe != NotFound {
      r.doe := doe;
      return Secure, None;
    }
    return Bogus, Some(ErrBogusDoeRecordsNotFound);
  }

  // ---------------------------------------------------------------- positive responses

  /** What the denial records say about one wildcard-expanded signature. */
  function WildcardDoe(cfg: Config, r: ChainResult, sig: Signature): Doe {
    var nsec, nsec3 := NsecsFrom(r.authority), Nsec3sFrom(r.authority);
    if nsec3 != [] && sig.rrsig.data.SigData?
       && Nsec3.ExpandedWildcardProof(cfg.oracle, nsec3, sig.name, sig.rrsig.data.labels) then Nsec3Wildcard
    else if nsec != [] && Nsec.ExpandedWildcardProof(r.zone.name, nsec, r.msg.question.name) then NsecWildcard
    else NotFound
  }

  predicate IsWildcard(s: Signature) {
    s.wildcard
  }

  /** Signatures as `authenticate` makes them: of RRSIG records, a wildcard having spare labels. */
  predicate WellFormed(s: Signature) {
    s.rrsig.data.SigData? && (s.wildcard ==> s.rrsig.data.labels < |s.name|)
  }

  /** A wildcard at the root, checked against NSEC3 records: the program indexes out of range. */
  predicate Panics(r: ChainResult, sig: Signature) {
    sig.rrsig.data.SigData? && sig.rrsig.data.labels == 0 && Nsec3sFrom(r.authority) != []
  }

  /** The program's panic is recorded as a Bogus result with an error of its own. */
  function PositiveStage(cfg: Config, r: ChainResult): Stage
    requires forall s :: s in r.answer ==> WellFormed(s)
  {
    var r1 := r.(dsRecords := DsOf(Gather(r.answer, TYPE_DS)));
    var wild := Filter(r.answer, IsWildcard);
    if wild == [] then Stage(Secure, r1, None)
    else if Panics(r, wild[0]) then Stage(Bogus, r1, Some(ErrPanic))
    else
      var doe := WildcardDoe(cfg, r, wild[0]);
      var r2 := if doe == NotFound then r1 else r1.(doe := doe);
      if |wild| > 1 then Stage(Bogus, r2, Some(ErrMultipleWildcardSignatures))
      else if doe == NotFound then Stage(Bogus, r2, Some(ErrBogusWildcardDoeNotFound))
      else Stage(Secure, r2, None)
  }

  /** What one wildcard signature proves; `None` for the panic. */
  method CheckWildcard(cfg: Config, r: PendingResult, sig: Signature) returns (doe: Option<Doe>)
    requires WellFormed(sig) && sig.wildcard
    ensures doe == if Panics(r.View(), sig) then None else Some(WildcardDoe(cfg, r.View(), sig))
  {
    var nsec := NsecsFrom(r.authority);
    var nsec3 := DenialNsec3(r.authority);
    doe := Some(NotFound);
    if |nsec| != 0 {
      var ok := Nsec.PerformExpandedWildcardProof(r.zone.name, nsec, r.msg.question.name);
      if ok {
        doe := Some(NsecWildcard);
      }
    }
    if |nsec3| != 0 {
      var ok := Nsec3.PerformExpandedWildcardProof(cfg.oracle, nsec3, sig.name, sig.rrsig.data.labels);
      if ok.None? {
        return None;
      }
      if ok.value {
        doe := Some(Nsec3Wildcard);
      }
    }
  }

  /** The loop over the answer's signatures: how many wildcards were met, and what the first one proved. */
  method CheckWildcards(cfg: Config, r: PendingResult) returns (seen: nat, doe: Option<Doe>)
    requires forall s :: s in r.answer ==> WellFormed(s)
    ensures var wild := Filter(r.answer, IsWildcard);
      && (wild == [] ==> seen == 0 && doe == Some(NotFound))
      && (wild != [] ==> doe == if Panics(r.View(), wild[0]) then None else Some(WildcardDoe(cfg, r.View(), wild[0])))
      && (wild != [] && doe.Some? ==> seen == if |wild| > 1 then 2 else 1)
  {
    seen, doe := 0, Some(NotFound);
    for i := 0 to |r.answer|
      invariant var wild := Filter(r.answer[..i], IsWildcard);
        && seen == |wild| <= 1 && doe.Some?
        && (wild == [] ==> doe == Some(NotFound))
        && (wild != [] ==> !Panics(r.View(), wild[0]) && doe == Some(WildcardDoe(cfg, r.View(), wild[0])))
    {
      FilterStep(r.answer, i, IsWildcard);
      FilterPrefix(r.answer, i + 1, IsWildcard);
      var sig := r.answer[i];
      assert sig in r.answer;
      if sig.wildcard {
        if seen == 1 {
          return 2, doe;
        }
        seen := 1;
        doe := CheckWildcard(cfg, r, sig);
        if doe.None? {
          return;
        }
      }
    }
    assert r.answer[..|r.answer|] == r.answer;
  }

  method ValidatePositiveResponse(cfg: Config, r: PendingResult) returns (status: AuthResult, err: Option<Error>)
    requires forall s :: s in r.answer ==> WellFormed(s)
    modifies r
    ensures Stage(status, r.View(), err) == PositiveStage(cfg, old(r.View()))
  {
    var seen, doe := CheckWildcards(cfg, r);
    r.dsRecords := DsOf(Gather(r.answer, TYPE_DS));
    if doe.None? {
      return Bogus, Some(ErrPanic);
    }
    if doe.value != NotFound {
      r.doe := doe.value;
    }
    if seen > 1 {
      return Bogus, Some(ErrMultipleWildcardSignatures);
    }
    if seen == 0 || doe.value != NotFound {
      return Secure, None;
    }
    return Bogus, Some(ErrBogusWildcardDoeNotFound);
  }

  // ---------------------------------------------------------------- negative responses

  /** What the denial records prove about a question; `NotFound` if nothing. */
  function NegativeDoe(o: Oracle, zone: Name, nsec: seq<RR>, nsec3: seq<RR>, q: Question): Doe
    requires Nsec.AllNsec(nsec) && Nsec3.AllNsec3(nsec3)
  {
    var types := [TYPE_CNAME, q.qtype];
    if nsec != [] && Nsec.NameSeen(nsec, q.name) && !Nsec.TypeSeen(nsec, q.name, types) then NsecNoData
    else if nsec != [] && Nsec.NameDoesNotExistProof(zone, nsec, q.name) then NsecNxDomain
    else if nsec3 == [] then NotFound
    else if Nsec3.AnyMatch(o, nsec3, q.name) && !Nsec3.TypeSeen(o, nsec3, q.name, types) then Nsec3NoData
    else
      var p := Nsec3.ClosestEncloserProof(o, zone, nsec3, q.name);
      var d := Nsec3.ClosestEncloserDepth(o, zone, nsec3, q.name);
      if p.optedOut && q.qtype == TYPE_DS then Nsec3OptOut
      else if p.encloser && p.nextCloser && (p.wildcard || WildcardNoData(o, nsec3, q.name[..d], types)) then Nsec3NxDomain
      else NotFound
  }

  /** A record matches the wildcard below the encloser and shows none of the types. */
  predicate WildcardNoData(o: Oracle, nsec3: seq<RR>, encloser: Name, types: seq<TypeCode>)
    requires Nsec3.AllNsec3(nsec3)
  {
    Nsec3.AnyMatch(o, nsec3, encloser + [ASTERISK]) && !Nsec3.TypeSeen(o, nsec3, encloser + [ASTERISK], types)
  }

  method Nsec3Denial(o: Oracle, zone: Name, nsec3: seq<RR>, q: Question) returns (doe: Doe)
    requires Nsec3.AllNsec3(nsec3)
    ensures doe == NegativeDoe(o, zone, [], nsec3, q)
  {
    if |nsec3| == 0 {
      return NotFound;
    }
    var nameSeen, typeSeen := Nsec3.TypeBitMapContainsAnyOf(o, nsec3, q.name, [TYPE_CNAME, q.qtype]);
    if nameSeen && !typeSeen {
      return Nsec3NoData;
    }
    var p := Nsec3.PerformClosestEncloserProof(o, zone, nsec3, q.name);
    if p.optedOut && q.qtype == TYPE_DS {
      return Nsec3OptOut;
    }
    var wildcard := p.wildcard;
    if p.encloser && p.nextCloser && !wildcard {
      var encloser, _, ok := Nsec3.FindClosestEncloser(o, zone, nsec3, q.name);
      if ok {
        nameSeen, typeSeen := Nsec3.TypeBitMapContainsAnyOf(o, nsec3, encloser + [ASTERISK], [TYPE_CNAME, q.qtype]);
        if nameSeen && !typeSeen {
          wildcard := true;
        }
      }
    }
    return if p.encloser && p.nextCloser && wildcard then Nsec3NxDomain else NotFound;
  }

  method NegativeDenial(o: Oracle, zone: Name, nsec: seq<RR>, nsec3: seq<RR>, q: Question) returns (doe: Doe)
    requires Nsec.AllNsec(nsec) && Nsec3.AllNsec3(nsec3)
    ensures doe == NegativeDoe(o, zone, nsec, nsec3, q)
  {
    if |nsec| != 0 {
      var nameSeen, typeSeen := Nsec.TypeBitMapContainsAnyOf(nsec, q.name, [TYPE_CNAME, q.qtype]);
      if nameSeen && !typeSeen {
        return NsecNoData;
      }
      var denied := Nsec.PerformQNameDoesNotExistProof(zone, nsec, q.name);
      if denied {
        return NsecNxDomain;
      }
    }
    doe := Nsec3Denial(o, zone, nsec3, q);
  }

  function NegativeStage(cfg: Config, r: ChainResult): Stage {
    var doe := NegativeDoe(cfg.oracle, r.zone.name, NsecsFrom(r.authority), Nsec3sFrom(r.authority), r.msg.question);
    if doe == NotFound then Stage(Bogus, r, Some(ErrBogusDoeRecordsNotFound))
    else Stage(Secure, r.(doe := doe), None)
  }

  method ValidateNegativeResponse(cfg: Config, r: PendingResult) returns (status: AuthResult, err: Option<Error>)
    modifies r
    ensures Stage(status, r.View(), err) == NegativeStage(cfg, old(r.View()))
  {
    var nsec3 := DenialNsec3(r.authority);
    var doe := NegativeDenial(cfg.oracle, r.zone.name, NsecsFrom(r.authority), nsec3, r.msg.question);
    if doe == NotFound {
      return Bogus, Some(ErrBogusDoeRecordsNotFound);
    }
    r.doe := doe;
    return Secure, None;
  }

  // ---------------------------------------------------------------- all stages

  lemma SignaturesAreWellFormed(cfg: Config, r: ChainResult, keys: seq<RR>)
    requires RrsetStage(cfg, r, keys).status == Unknown
    ensures forall s :: s in RrsetStage(cfg, r, keys).r.answer ==> WellFormed(s)
  {
    var answer := RrsetStage(cfg, r, keys).r.answer;
    forall s | s in answer
      ensures WellFormed(s)
    {
      var i :| 0 <= i < |answer| && answer[i] == s;
      assert RrsigsOf(r.msg.answer)[i] in RrsigsOf(r.msg.answer);
    }
  }

  /** Which stage judges a response whose signatures have been checked; the header is not trusted. */
  function ClassifyStage(cfg: Config, r: ChainResult): Stage
    requires forall s :: s in r.answer ==> WellFormed(s)
  {
    var soa := TypeExists(r.msg.ns, TYPE_SOA);
    if !soa && r.msg.answer == [] && TypeExists(r.msg.ns, TYPE_NS) then DelegatingStage(cfg, r)
    else if !soa && r.msg.answer != [] then PositiveStage(cfg, r)
    else if soa then NegativeStage(cfg, r)
    else Stage(Bogus, r, Some(ErrFailsafeResponse))
  }

  function VerifyStage(cfg: Config, zone: Zone, msg: Msg, ds: seq<RR>): Stage {
    var r := Blank(zone, msg);
    if ds == [] then Stage(Insecure, r, None)
    else if zone.dnskeys.KeysUnavailable? then Stage(Bogus, r, Some(ErrKeysUnavailable))
    else
      var s1 := DnskeyStage(cfg, r, zone.dnskeys.records, ds);
      if s1.status != Unknown || s1.err.Some? then s1
      else
        var keys := DnskeysOf(zone.dnskeys.records);
        var s2 := RrsetStage(cfg, s1.r, keys);
        if s2.status != Unknown || s2.err.Some? then s2
        else
          SignaturesAreWellFormed(cfg, s1.r, keys);
          ClassifyStage(cfg, s2.r)
  }

  method Verify(cfg: Config, zone: Zone, msg: Msg, ds: seq<RR>)
    returns (status: AuthResult, r: PendingResult, err: Option<Error>)
    requires forall d :: d in ds ==> d.data.DSData?
    ensures fresh(r) && Stage(status, r.View(), err) == VerifyStage(cfg, zone, msg, ds)
  {
    r := new PendingResult(zone, msg);
    if |ds| == 0 {
      return Insecure, r, None;
    }
    if zone.dnskeys.KeysUnavailable? {
      return Bogus, r, Some(ErrKeysUnavailable);
    }
    var keys := zone.dnskeys.records;
    status, err := VerifyDNSKEYs(cfg, r, keys, ds);
    if status != Unknown || err.Some? {
      return;
    }
    ghost var before := r.View();
    status, err := VerifyRRSETs(cfg, r, DnskeysOf(keys));
    if status != Unknown || err.Some? {
      return;
    }
    SignaturesAreWellFormed(cfg, before, DnskeysOf(keys));
    var soa := TypeExists(r.msg.ns, TYPE_SOA);
    if !soa && |r.msg.answer| == 0 && TypeExists(r.msg.ns, TYPE_NS) {
      status, err := ValidateDelegatingResponse(cfg, r);
    } else if !soa && |r.msg.answer| > 0 {
      status, err := ValidatePositiveResponse(cfg, r);
    } else if soa {
      status, err := ValidateNegativeResponse(cfg, r);
    } else {
      status, err := Bogus, Some(ErrFailsafeResponse);
    }
  }
}
