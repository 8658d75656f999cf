/**
 Signature checking of one message section (dnssec/authenticate_rrset.go) and the two acceptance
 policies (dnssec/signatures.go).

 A section counts as fully signed when the number of name/type combinations among its records
 equals the number among its signatures. `CoverageByCounting` shows why comparing the two
 cardinalities is enough.
 */
module Signatures {
  import opened Collections
  import opened Names
  import opened Records

  datatype Section = AnswerSection | AuthoritySection

  datatype Signature = Signature(
    zone: Name, name: Name, rtype: TypeCode, ttl: Seconds, key: Option<RR>,
    rrsig: RR, rrset: seq<RR>, wildcard: bool, verified: bool, err: Option<Error>)

  type Combination = (Name, TypeCode)

  // ---------------------------------------------------------------- serial-number arithmetic

  const YEAR68 := 0x8000_0000

  /** Integer division that truncates toward zero, as the implementation language does. */
  function TruncDiv(a: int, b: int): int
    requires b > 0
  {
    if a >= 0 then a / b else -((-a) / b)
  }

  function SerialAdjusted(t: Seconds, now: int): int {
    t + TruncDiv(t - now, YEAR68) * YEAR68
  }

  predicate ValidityPeriod(sig: RData, now: int)
    requires sig.SigData?
  {
    SerialAdjusted(sig.inception, now) <= now <= SerialAdjusted(sig.expiration, now)
  }

  function ToUint32(x: int): Seconds {
    x % 0x1_0000_0000
  }

  /** Seconds until the signature expires, converted to 32 bits the way the code does it. */
  function Remaining(sig: RData, now: int): Seconds
    requires sig.SigData?
  {
    ToUint32(SerialAdjusted(sig.expiration, now) - now)
  }

  /**
   For every clock in 32-bit seconds a signature inside its validity period has not expired in
   plain arithmetic either, and the conversion never yields more than the time left: it yields
   that time exactly, less one serial half-cycle when the expiration is that far away.
   */
  lemma RemainingIsBounded(sig: RData, now: Seconds)
    requires sig.SigData? && ValidityPeriod(sig, now)
    ensures now <= sig.expiration
    ensures Remaining(sig, now) <= sig.expiration - now
    ensures Remaining(sig, now) == (sig.expiration - now) % YEAR68
  {
    var diff := sig.expiration - now;
    assert -0x1_0000_0000 < diff < 0x1_0000_0000;
    if diff >= YEAR68 {
      assert TruncDiv(diff, YEAR68) == 1;
    } else if diff > -YEAR68 {
      assert TruncDiv(diff, YEAR68) == 0;
    }
  }

  /**
   The validity period for every clock in 32-bit seconds: both ends are compared in plain
   arithmetic, not in the serial arithmetic of section 3.1.5 of RFC 4034.
   */
  lemma ValidityIsPlain(sig: RData, now: Seconds)
    requires sig.SigData?
    ensures ValidityPeriod(sig, now) <==> sig.inception <= now <= sig.expiration
  {
    SerialSide(sig.inception, now);
    SerialSide(sig.expiration, now);
  }

  /** The adjustment moves a time further away from the clock, or not at all. */
  lemma SerialSide(t: Seconds, now: Seconds)
    ensures SerialAdjusted(t, now) <= now <==> t <= now
    ensures now <= SerialAdjusted(t, now) <==> now <= t
  {
    var diff := t - now;
    if diff >= YEAR68 {
      assert TruncDiv(diff, YEAR68) == 1;
    } else if diff > -YEAR68 {
      assert TruncDiv(diff, YEAR68) == 0;
    } else {
      assert TruncDiv(diff, YEAR68) == -1;
    }
  }

  // ---------------------------------------------------------------- one signature

  /** Section 5.3.1 of RFC 4035: this key is one the signature may have been made with. */
  predicate KeyFits(o: Oracle, sig: RData, key: RR)
    requires sig.SigData?
  {
    key.data.KeyData? && key.data.keyAlgorithm == sig.algorithm && o.tagOf(key) == sig.keyTag
    && Canonical(key.owner) == Canonical(sig.signer)
  }

  predicate KeyVerifies(o: Oracle, rrsig: RR, key: RR, rrset: seq<RR>)
    requires rrsig.data.SigData?
  {
    KeyFits(o, rrsig.data, key) && o.verifies(rrsig, key, rrset)
  }

  /** The checks made before any key is tried. */
  function PreCheck(zone: Name, rrsig: RR, now: Seconds): Option<Error>
    requires rrsig.data.SigData?
  {
    if Canonical(zone) != Canonical(rrsig.data.signer) then Some(ErrAuthSignerNameMismatch)
    else if |rrsig.owner| < rrsig.data.labels then Some(ErrInvalidLabelCount)
    else if !ValidityPeriod(rrsig.data, now) then Some(ErrInvalidTime)
    else None
  }

  /** The index of the first key that verifies, or the number of keys. */
  function FirstVerifying(o: Oracle, rrsig: RR, keys: seq<RR>, rrset: seq<RR>): (k: nat)
    requires rrsig.data.SigData?
    ensures k <= |keys|
    ensures forall j :: 0 <= j < k ==> !KeyVerifies(o, rrsig, keys[j], rrset)
    ensures k < |keys| ==> KeyVerifies(o, rrsig, keys[k], rrset)
  {
    if keys == [] || KeyVerifies(o, rrsig, keys[0], rrset) then 0
    else 1 + FirstVerifying(o, rrsig, keys[1..], rrset)
  }

  /** What trying every fitting key reports when none verifies. */
  function KeyError(o: Oracle, d: RData, keys: seq<RR>): Error
    requires d.SigData?
  {
    if exists key :: key in keys && KeyFits(o, d, key) then ErrInvalidSignature else ErrNoKeyFoundForSignature
  }

  function SignatureFor(o: Oracle, now: Seconds, zone: Name, rrs: seq<RR>, keys: seq<RR>, rrsig: RR): Signature
    requires rrsig.data.SigData?
  {
    var d := rrsig.data;
    var rrset := OfNameAndType(rrs, rrsig.owner, d.typeCovered);
    var ttl := Min(rrsig.ttl, d.origTtl);
    var pre := PreCheck(zone, rrsig, now);
    if pre.Some? then
      Signature(zone, rrsig.owner, d.typeCovered, ttl, None, rrsig, rrset, false, false, pre)
    else
      var k := FirstVerifying(o, rrsig, keys, rrset);
      var found := k < |keys|;
      Signature(zone, rrsig.owner, d.typeCovered, MinTtl(Min(ttl, Remaining(d, now)), rrset),
                if found then Some(keys[k]) else None, rrsig, rrset, |rrsig.owner| > d.labels, found,
                if found then None else Some(KeyError(o, d, keys)))
  }

  method TryKeys(o: Oracle, rrsig: RR, keys: seq<RR>, rrset: seq<RR>) returns (key: Option<RR>, err: Option<Error>)
    requires rrsig.data.SigData?
    requires forall k :: k in keys ==> k.data.KeyData?
    ensures var k := FirstVerifying(o, rrsig, keys, rrset);
      if k < |keys| then key == Some(keys[k]) && err == None
      else key == None && err == Some(KeyError(o, rrsig.data, keys))
  {
    var d := rrsig.data;
    key, err := None, None;
    for i := 0 to |keys|
      invariant key == None
      invariant forall j :: 0 <= j < i ==> !KeyVerifies(o, rrsig, keys[j], rrset)
      invariant err == if exists j :: 0 <= j < i && KeyFits(o, d, keys[j]) then Some(ErrInvalidSignature) else None
    {
      var k := keys[i];
      assert k in keys;
      if k.data.keyAlgorithm == d.algorithm && o.tagOf(k) == d.keyTag && Canonical(k.owner) == Canonical(d.signer) {
        if !o.verifies(rrsig, k, rrset) {
          err := Some(ErrInvalidSignature);
        } else {
          assert KeyVerifies(o, rrsig, keys[i], rrset);
          return Some(k), None;
        }
      }
    }
    if err.None? {
      err := Some(ErrNoKeyFoundForSignature);
    }
  }

  /** The loop body of `authenticate`. */
  method CheckSignature(o: Oracle, now: Seconds, zone: Name, rrs: seq<RR>, keys: seq<RR>, rrsig: RR)
    returns (sig: Signature)
    requires rrsig.data.SigData?
    requires forall k :: k in keys ==> k.data.KeyData?
    ensures sig == SignatureFor(o, now, zone, rrs, keys, rrsig)
  {
    var d := rrsig.data;
    sig := Signature(zone, rrsig.owner, d.typeCovered, Min(rrsig.ttl, d.origTtl), None, rrsig,
                     OfNameAndType(rrs, rrsig.owner, d.typeCovered), false, false, None);
    if Canonical(sig.zone) != Canonical(d.signer) {
      return sig.(err := Some(ErrAuthSignerNameMismatch));
    }
    if |rrsig.owner| < d.labels {
      return sig.(err := Some(ErrInvalidLabelCount));
    }
    if !ValidityPeriod(d, now) {
      return sig.(err := Some(ErrInvalidTime));
    }
    if |rrsig.owner| > d.labels {
      sig := sig.(wildcard := true);
    }
    var ttl := LowestTtl(Min(sig.ttl, Remaining(d, now)), sig.rrset);
    var key, err := TryKeys(o, rrsig, keys, sig.rrset);
    sig := sig.(ttl := ttl, key := key, verified := key.Some?, err := err);
  }

  /**
   A signature is marked verified exactly when it meets section 5.3.1 of RFC 4035 and some
   offered key checks out; the recorded key is then such a key.
   */
  lemma VerifiedIff(o: Oracle, now: Seconds, zone: Name, rrs: seq<RR>, keys: seq<RR>, rrsig: RR)
    requires rrsig.data.SigData?
    ensures var s := SignatureFor(o, now, zone, rrs, keys, rrsig);
      && (s.verified <==>
          && NamesEqual(zone, rrsig.data.signer)
          && rrsig.data.labels <= |rrsig.owner|
          && rrsig.data.inception <= now <= rrsig.data.expiration
          && exists key :: key in keys && KeyVerifies(o, rrsig, key, s.rrset))
      && (s.verified ==> s.key.Some? && s.key.value in keys && KeyVerifies(o, rrsig, s.key.value, s.rrset))
      && s.err == (if !NamesEqual(zone, rrsig.data.signer) then Some(ErrAuthSignerNameMismatch)
                   else if |rrsig.owner| < rrsig.data.labels then Some(ErrInvalidLabelCount)
                   else if !(rrsig.data.inception <= now <= rrsig.data.expiration) then Some(ErrInvalidTime)
                   else if s.verified then None
                   else if exists key :: key in keys && KeyFits(o, rrsig.data, key) then Some(ErrInvalidSignature)
                   else Some(ErrNoKeyFoundForSignature))
  {
    ValidityIsPlain(rrsig.data, now);
    var s := SignatureFor(o, now, zone, rrs, keys, rrsig);
    var k := FirstVerifying(o, rrsig, keys, s.rrset);
    if s.verified {
      assert keys[k] in keys && KeyVerifies(o, rrsig, keys[k], s.rrset);
    }
  }

  /** Fewer labels than its owner: the mark of an expanded wildcard (section 5.3.4 of RFC 4035). */
  predicate SpareLabels(rrsig: RR) {
    rrsig.data.SigData? && rrsig.data.labels < |rrsig.owner|
  }

  /** An RRSIG record of an expanded wildcard, by this zone and inside its validity period. */
  predicate Expands(zone: Name, now: Seconds, rrsig: RR) {
    && SpareLabels(rrsig)
    && NamesEqual(zone, rrsig.data.signer) && rrsig.data.inception <= now <= rrsig.data.expiration
  }

  /** The wildcard mark, and every field that is copied, from the RRSIG record alone. */
  lemma WildcardIff(o: Oracle, now: Seconds, zone: Name, rrs: seq<RR>, keys: seq<RR>, rrsig: RR)
    requires rrsig.data.SigData?
    ensures var s := SignatureFor(o, now, zone, rrs, keys, rrsig);
      && (s.wildcard <==> Expands(zone, now, rrsig))
      && s.rrsig == rrsig && s.name == rrsig.owner && s.rtype == rrsig.data.typeCovered
      && (forall x :: x in s.rrset <==> x in rrs && x.owner == rrsig.owner && x.Rrtype() == rrsig.data.typeCovered)
  {
    ValidityIsPlain(rrsig.data, now);
  }

  /** Something that bounds the TTL of a signed RRset; the time left is cut off at 68 years. */
  predicate BoundsTtl(s: Signature, now: Seconds, ttl: int) {
    && s.rrsig.data.SigData?
    && (|| ttl == s.rrsig.ttl || ttl == s.rrsig.data.origTtl
        || (now <= s.rrsig.data.expiration && ttl == (s.rrsig.data.expiration - now) % YEAR68)
        || exists x :: x in s.rrset && ttl == x.ttl)
  }

  /**
   Section 5.3.3 of RFC 4035: the TTL recorded with a verified signature honours every bound, the
   time left until the signature expires included, and is one of them.
   */
  lemma VerifiedTtlBound(o: Oracle, now: Seconds, zone: Name, rrs: seq<RR>, keys: seq<RR>, rrsig: RR)
    requires rrsig.data.SigData?
    requires SignatureFor(o, now, zone, rrs, keys, rrsig).verified
    ensures var s := SignatureFor(o, now, zone, rrs, keys, rrsig);
      && (forall bound :: BoundsTtl(s, now, bound) ==> s.ttl <= bound)
      && s.ttl <= rrsig.data.expiration - now
      && BoundsTtl(s, now, s.ttl)
  {
    VerifiedIff(o, now, zone, rrs, keys, rrsig);
    ValidityIsPlain(rrsig.data, now);
    RemainingIsBounded(rrsig.data, now);
  }

  // ---------------------------------------------------------------- a whole section

  function SignaturesFor(o: Oracle, now: Seconds, zone: Name, rrs: seq<RR>, keys: seq<RR>): (s: seq<Signature>)
    ensures |s| == |RrsigsOf(rrs)|
  {
    var sigs := RrsigsOf(rrs);
    seq(|sigs|, i requires 0 <= i < |sigs| => assert sigs[i] in sigs; SignatureFor(o, now, Canonical(zone), rrs, keys, sigs[i]))
  }

  predicate TypeSigned(sigs: seq<Signature>, t: TypeCode) {
    exists i :: 0 <= i < |sigs| && sigs[i].rtype == t
  }

  /** Whether a record must be covered: RRSIGs never, authority NS records only if some are signed. */
  predicate Counted(rr: RR, sigs: seq<Signature>, section: Section) {
    rr.Rrtype() != TYPE_RRSIG
    && !(section == AuthoritySection && rr.Rrtype() == TYPE_NS && !TypeSigned(sigs, TYPE_NS))
  }

  function RecordCombinations(rrs: seq<RR>, sigs: seq<Signature>, section: Section): set<Combination> {
    set rr | rr in rrs && Counted(rr, sigs, section) :: (rr.owner, rr.Rrtype())
  }

  function SignatureCombinations(sigs: seq<Signature>): set<Combination> {
    set s | s in sigs :: (s.name, s.rtype)
  }

  /** What `authenticate` reports beside the signatures. */
  function CountError(rrs: seq<RR>, sigs: seq<Signature>, section: Section): Option<Error> {
    if |RecordCombinations(rrs, sigs, section)| != |SignatureCombinations(sigs)|
    then Some(ErrUnexpectedSignatureCount) else None
  }

  /** The owner and type pairs that have to be signed: no RRSIG records, and NS records of the authority only if some are signed. */
  ghost function ToBeSigned(rrs: seq<RR>, section: Section): set<Combination> {
    set rr | rr in rrs && rr.Rrtype() != TYPE_RRSIG
             && (section == AnswerSection || rr.Rrtype() != TYPE_NS || exists s :: s in RrsigsOf(rrs) && s.data.typeCovered == TYPE_NS) ::
      (rr.owner, rr.Rrtype())
  }

  ghost function SignedPairs(rrs: seq<RR>): set<Combination> {
    set s | s in RrsigsOf(rrs) && s.data.SigData? :: (s.owner, s.data.typeCovered)
  }

  /** Over the records alone: a section passes if and only if as many pairs are signed as have to be. */
  lemma CountErrorIff(o: Oracle, now: Seconds, zone: Name, rrs: seq<RR>, keys: seq<RR>, section: Section)
    ensures CountError(rrs, SignaturesFor(o, now, zone, rrs, keys), section) ==
      if |ToBeSigned(rrs, section)| == |SignedPairs(rrs)| then None else Some(ErrUnexpectedSignatureCount)
  {
    var sigs, rrsigs := SignaturesFor(o, now, zone, rrs, keys), RrsigsOf(rrs);
    forall i | 0 <= i < |rrsigs|
      ensures rrsigs[i].data.SigData? && sigs[i].name == rrsigs[i].owner && sigs[i].rtype == rrsigs[i].data.typeCovered
    {
      assert rrsigs[i] in rrsigs;
    }
    SamePairs(rrs, sigs);
    SignedTypes(rrs, sigs);
    assert RecordCombinations(rrs, sigs, section) == ToBeSigned(rrs, section);
  }

  lemma SamePairs(rrs: seq<RR>, sigs: seq<Signature>)
    requires |sigs| == |RrsigsOf(rrs)|
    requires forall i :: 0 <= i < |sigs| ==> var s := RrsigsOf(rrs)[i]; s.data.SigData? && sigs[i].name == s.owner && sigs[i].rtype == s.data.typeCovered
    ensures SignatureCombinations(sigs) == SignedPairs(rrs)
  {
    var rrsigs := RrsigsOf(rrs);
    forall c | c in SignatureCombinations(sigs)
      ensures c in SignedPairs(rrs)
    {
      var i :| 0 <= i < |sigs| && (sigs[i].name, sigs[i].rtype) == c;
      assert rrsigs[i] in rrsigs;
    }
    forall c | c in SignedPairs(rrs)
      ensures c in SignatureCombinations(sigs)
    {
      var i :| 0 <= i < |rrsigs| && (rrsigs[i].owner, rrsigs[i].data.typeCovered) == c;
      assert sigs[i] in sigs;
    }
  }

  lemma SignedTypes(rrs: seq<RR>, sigs: seq<Signature>)
    requires |sigs| == |RrsigsOf(rrs)|
    requires forall i :: 0 <= i < |sigs| ==> var s := RrsigsOf(rrs)[i]; s.data.SigData? && sigs[i].rtype == s.data.typeCovered
    ensures TypeSigned(sigs, TYPE_NS) <==> exists s :: s in RrsigsOf(rrs) && s.data.typeCovered == TYPE_NS
  {
    var rrsigs := RrsigsOf(rrs);
    if i :| 0 <= i < |sigs| && sigs[i].rtype == TYPE_NS {
      assert rrsigs[i] in rrsigs;
    }
  }

  method Authenticate(o: Oracle, now: Seconds, zone: Name, rrs: seq<RR>, keys: seq<RR>, section: Section)
    returns (sigs: seq<Signature>, err: Option<Error>)
    requires forall k :: k in keys ==> k.data.KeyData?
    ensures sigs == SignaturesFor(o, now, zone, rrs, keys)
    ensures err == CountError(rrs, sigs, section)
  {
    var apex := Canonical(zone);
    var rrsigs := RrsigsOf(rrs);
    sigs := [];
    for i := 0 to |rrsigs|
      invariant sigs == SignaturesFor(o, now, zone, rrs, keys)[..i]
    {
      assert rrsigs[i] in rrsigs;
      var sig := CheckSignature(o, now, apex, rrs, keys, rrsigs[i]);
      sigs := sigs + [sig];
    }
    var combinations := CollectCombinations(rrs, sigs, section);
    var signed := CountNameTypeCombinations(sigs);
    err := if |combinations| != signed then Some(ErrUnexpectedSignatureCount) else None;
  }

  method CollectCombinations(rrs: seq<RR>, sigs: seq<Signature>, section: Section) returns (combinations: set<Combination>)
    ensures combinations == RecordCombinations(rrs, sigs, section)
  {
    combinations := {};
    for i := 0 to |rrs|
      invariant combinations == RecordCombinations(rrs[..i], sigs, section)
    {
      assert rrs[..i + 1] == rrs[..i] + [rrs[i]];
      if rrs[i].Rrtype() == TYPE_RRSIG {
        continue;
      }
      if section == AuthoritySection && rrs[i].Rrtype() == TYPE_NS {
        if !TypeSigned(sigs, TYPE_NS) {
          continue;
        }
      }
      combinations := combinations + {(rrs[i].owner, rrs[i].Rrtype())};
    }
    assert rrs[..|rrs|] == rrs;
  }

  method CountNameTypeCombinations(sigs: seq<Signature>) returns (n: nat)
    ensures n == |SignatureCombinations(sigs)|
  {
    var combinations: set<Combination> := {};
    for i := 0 to |sigs|
      invariant combinations == SignatureCombinations(sigs[..i])
    {
      assert sigs[..i + 1] == sigs[..i] + [sigs[i]];
      combinations := combinations + {(sigs[i].name, sigs[i].rtype)};
    }
    assert sigs[..|sigs|] == sigs;
    n := |combinations|;
  }

  // ---------------------------------------------------------------- acceptance policies

  predicate AllVerified(sigs: seq<Signature>) {
    sigs != [] && forall s :: s in sigs ==> s.verified
  }

  predicate TypeVerified(sigs: seq<Signature>, t: TypeCode) {
    exists i :: 0 <= i < |sigs| && sigs[i].rtype == t && sigs[i].verified
  }

  /** Every record type that is signed at all has one verified signature. */
  predicate EachTypeVerified(sigs: seq<Signature>) {
    sigs != [] && forall i :: 0 <= i < |sigs| ==> TypeVerified(sigs, sigs[i].rtype)
  }

  predicate Accepted(requireAll: bool, sigs: seq<Signature>) {
    if requireAll then AllVerified(sigs) else EachTypeVerified(sigs)
  }

  method VerifyAll(sigs: seq<Signature>) returns (err: Option<Error>)
    ensures err.None? <==> AllVerified(sigs)
    ensures err.Some? ==> err.value == if sigs == [] then ErrSignatureSetEmpty else ErrVerifyFailed
  {
    if |sigs| == 0 {
      return Some(ErrSignatureSetEmpty);
    }
    err := None;
    for i := 0 to |sigs|
      invariant err.None? <==> forall j :: 0 <= j < i ==> sigs[j].verified
      invariant err.Some? ==> err.value == ErrVerifyFailed
    {
      if !sigs[i].verified {
        err := Some(ErrVerifyFailed);
      }
    }
  }

  method VerifyOneOrMore(sigs: seq<Signature>) returns (err: Option<Error>)
    ensures err.None? <==> EachTypeVerified(sigs)
    ensures err.Some? ==> err.value == if sigs == [] then ErrSignatureSetEmpty else ErrVerifyFailed
  {
    if |sigs| == 0 {
      return Some(ErrSignatureSetEmpty);
    }
    if |sigs| == 1 {
      if sigs[0].verified {
        return None;
      }
      assert sigs[0] in sigs;
      return Some(ErrVerifyFailed);
    }
    var states: map<TypeCode, bool> := map[];
    for i := 0 to |sigs|
      invariant forall t :: t in states <==> exists j :: 0 <= j < i && sigs[j].rtype == t
      invariant forall t :: t in states ==>
                  (states[t] <==> exists j :: 0 <= j < i && sigs[j].rtype == t && sigs[j].verified)
    {
      var s := sigs[i];
      var seen := s.rtype in states && states[s.rtype];
      states := states[s.rtype := seen || s.verified];
    }
    err := None;
    var pending := states.Keys;
    while pending != {}
      invariant pending <= states.Keys
      invariant err.None? <==> forall t :: t in states.Keys - pending ==> states[t]
      invariant err.Some? ==> err.value == ErrVerifyFailed
    {
      var t :| t in pending;
      if !states[t] {
        err := Some(ErrVerifyFailed);
      }
      pending := pending - {t};
    }
    assert forall j :: 0 <= j < |sigs| ==> (TypeVerified(sigs, sigs[j].rtype) <==> states[sigs[j].rtype]);
  }

  method Verify(requireAll: bool, sigs: seq<Signature>) returns (err: Option<Error>)
    ensures err.None? <==> Accepted(requireAll, sigs)
  {
    if requireAll {
      err := VerifyAll(sigs);
    } else {
      err := VerifyOneOrMore(sigs);
    }
  }

  // ---------------------------------------------------------------- coverage by counting

  /** Each type that carries a signature has one owner name throughout the section. */
  ghost predicate OneOwnerPerSignedType(rrs: seq<RR>, sigs: seq<Signature>) {
    forall rr, s :: rr in rrs && s in sigs && rr.Rrtype() == s.rtype ==> rr.owner == s.name
  }

  /** The signature stands for records that are in the section and have to be signed. */
  ghost predicate StandsForRecords(s: Signature, rrs: seq<RR>, sigs: seq<Signature>, section: Section) {
    && s.rrset == OfNameAndType(rrs, s.name, s.rtype)
    && (s.name, s.rtype) in RecordCombinations(rrs, sigs, section)
  }

  lemma VerifiedStandsForRecords(o: Oracle, now: Seconds, zone: Name, rrs: seq<RR>, keys: seq<RR>, section: Section, s: Signature)
    requires GoodOracle(o)
    requires s in SignaturesFor(o, now, zone, rrs, keys) && s.verified
    ensures StandsForRecords(s, rrs, SignaturesFor(o, now, zone, rrs, keys), section)
  {
    var sigs := SignaturesFor(o, now, zone, rrs, keys);
    var i :| 0 <= i < |sigs| && sigs[i] == s;
    var rrsig := RrsigsOf(rrs)[i];
    assert rrsig in RrsigsOf(rrs);
    VerifiedIff(o, now, Canonical(zone), rrs, keys, rrsig);
    assert s.rrset[0] in s.rrset;
    assert Counted(s.rrset[0], sigs, section);
  }

  ghost predicate SetVerified(sigs: seq<Signature>, c: Combination) {
    exists i :: 0 <= i < |sigs| && sigs[i].verified && (sigs[i].name, sigs[i].rtype) == c
  }

  /** Every RRset that is signed at all has a verified signature. */
  ghost predicate EachSetVerified(sigs: seq<Signature>) {
    forall i :: 0 <= i < |sigs| ==> SetVerified(sigs, (sigs[i].name, sigs[i].rtype))
  }

  ghost predicate CoveredBy(sigs: seq<Signature>, rr: RR) {
    exists i :: 0 <= i < |sigs| && sigs[i].verified && rr in sigs[i].rrset
  }

  /** Every record that has to be signed lies in the RRset of a verified signature. */
  ghost predicate Covered(rrs: seq<RR>, sigs: seq<Signature>, section: Section) {
    forall rr :: rr in rrs && Counted(rr, sigs, section) ==> CoveredBy(sigs, rr)
  }

  ghost predicate VerifiedStand(rrs: seq<RR>, sigs: seq<Signature>, section: Section) {
    forall i :: 0 <= i < |sigs| && sigs[i].verified ==> StandsForRecords(sigs[i], rrs, sigs, section)
  }

  /** What the policies amount to for single RRsets. */
  lemma PolicyVerifiesSets(rrs: seq<RR>, sigs: seq<Signature>, section: Section, requireAll: bool)
    requires Accepted(requireAll, sigs) && (requireAll || OneOwnerPerSignedType(rrs, sigs))
    requires VerifiedStand(rrs, sigs, section)
    ensures EachSetVerified(sigs)
  {
    forall i | 0 <= i < |sigs|
      ensures SetVerified(sigs, (sigs[i].name, sigs[i].rtype))
    {
      var s := sigs[i];
      assert s in sigs;
      if !requireAll {
        assert TypeVerified(sigs, s.rtype);
        var j :| 0 <= j < |sigs| && sigs[j].rtype == s.rtype && sigs[j].verified;
        assert StandsForRecords(sigs[j], rrs, sigs, section);
        OneOwner(rrs, sigs, section, s, sigs[j]);
      }
    }
  }

  lemma OneOwner(rrs: seq<RR>, sigs: seq<Signature>, section: Section, s: Signature, v: Signature)
    requires OneOwnerPerSignedType(rrs, sigs) && StandsForRecords(v, rrs, sigs, section)
    requires s in sigs && v in sigs && s.rtype == v.rtype
    ensures s.name == v.name
  {
    var rr :| rr in rrs && Counted(rr, sigs, section) && (rr.owner, rr.Rrtype()) == (v.name, v.rtype);
  }

  /** The counting argument: equal numbers leave no record out. */
  lemma EqualCountsCover(rrs: seq<RR>, sigs: seq<Signature>, section: Section)
    requires CountError(rrs, sigs, section).None? && VerifiedStand(rrs, sigs, section) && EachSetVerified(sigs)
    ensures Covered(rrs, sigs, section)
  {
    var recs := RecordCombinations(rrs, sigs, section);
    var signed := SignatureCombinations(sigs);
    assert signed <= recs by {
      forall c | c in signed
        ensures c in recs
      {
        var i :| 0 <= i < |sigs| && (sigs[i].name, sigs[i].rtype) == c;
        assert SetVerified(sigs, (sigs[i].name, sigs[i].rtype));
      }
    }
    SubsetOfSameSize(signed, recs);
    forall rr | rr in rrs && Counted(rr, sigs, section)
      ensures CoveredBy(sigs, rr)
    {
      var c := (rr.owner, rr.Rrtype());
      assert c in signed;
      var i :| 0 <= i < |sigs| && (sigs[i].name, sigs[i].rtype) == c;
      assert SetVerified(sigs, c);
      var j :| 0 <= j < |sigs| && sigs[j].verified && (sigs[j].name, sigs[j].rtype) == c;
      assert StandsForRecords(sigs[j], rrs, sigs, section);
      assert rr in sigs[j].rrset;
    }
  }

  /** The converse: full coverage leaves no signed RRset without a verified signature. */
  lemma CoverVerifiesSets(rrs: seq<RR>, sigs: seq<Signature>, section: Section)
    requires CountError(rrs, sigs, section).None? && VerifiedStand(rrs, sigs, section) && Covered(rrs, sigs, section)
    ensures EachSetVerified(sigs)
  {
    var recs := RecordCombinations(rrs, sigs, section);
    var signed := SignatureCombinations(sigs);
    forall c | c in recs
      ensures SetVerified(sigs, c) && c in signed
    {
      var rr :| rr in rrs && Counted(rr, sigs, section) && (rr.owner, rr.Rrtype()) == c;
      assert CoveredBy(sigs, rr);
      var i :| 0 <= i < |sigs| && sigs[i].verified && rr in sigs[i].rrset;
      assert StandsForRecords(sigs[i], rrs, sigs, section);
      assert sigs[i] in sigs;
    }
    SubsetOfSameSize(recs, signed);
    forall i | 0 <= i < |sigs|
      ensures SetVerified(sigs, (sigs[i].name, sigs[i].rtype))
    {
      assert sigs[i] in sigs;
      assert (sigs[i].name, sigs[i].rtype) in signed;
    }
  }

  lemma AuthenticatedStand(o: Oracle, now: Seconds, zone: Name, rrs: seq<RR>, keys: seq<RR>, section: Section)
    requires GoodOracle(o)
    ensures VerifiedStand(rrs, SignaturesFor(o, now, zone, rrs, keys), section)
  {
    var sigs := SignaturesFor(o, now, zone, rrs, keys);
    forall i | 0 <= i < |sigs| && sigs[i].verified
      ensures StandsForRecords(sigs[i], rrs, sigs, section)
    {
      VerifiedStandsForRecords(o, now, zone, rrs, keys, section, sigs[i]);
    }
  }

  /**
   When `authenticate` reports no error, every record that has to be signed is covered by a
   verified signature if and only if every signed RRset has a verified signature.
   */
  lemma CoverageIff(o: Oracle, now: Seconds, zone: Name, rrs: seq<RR>, keys: seq<RR>, section: Section)
    requires GoodOracle(o) && CountError(rrs, SignaturesFor(o, now, zone, rrs, keys), section).None?
    ensures Covered(rrs, SignaturesFor(o, now, zone, rrs, keys), section) <==> EachSetVerified(SignaturesFor(o, now, zone, rrs, keys))
  {
    var sigs := SignaturesFor(o, now, zone, rrs, keys);
    AuthenticatedStand(o, now, zone, rrs, keys, section);
    if EachSetVerified(sigs) {
      EqualCountsCover(rrs, sigs, section);
    }
    if Covered(rrs, sigs, section) {
      CoverVerifiesSets(rrs, sigs, section);
    }
  }

  /**
   If `authenticate` reports no error and the signatures are accepted, every record that has to
   be signed lies in the RRset of a verified signature. With the strict policy this needs no
   more; with the default policy, which judges by record type only, it needs each signed type to
   have a single owner name in the section.
   */
  lemma CoverageByCounting(o: Oracle, now: Seconds, zone: Name, rrs: seq<RR>, keys: seq<RR>, section: Section,
                           requireAll: bool, rr: RR)
    returns (v: Signature)
    requires GoodOracle(o)
    requires var sigs := SignaturesFor(o, now, zone, rrs, keys);
      && CountError(rrs, sigs, section).None? && Accepted(requireAll, sigs)
      && (requireAll || OneOwnerPerSignedType(rrs, sigs))
      && rr in rrs && Counted(rr, sigs, section)
    ensures v in SignaturesFor(o, now, zone, rrs, keys) && v.verified
    ensures v.rrset == OfNameAndType(rrs, rr.owner, rr.Rrtype()) && rr in v.rrset
  {
    var sigs := SignaturesFor(o, now, zone, rrs, keys);
    AuthenticatedStand(o, now, zone, rrs, keys, section);
    PolicyVerifiesSets(rrs, sigs, section, requireAll);
    EqualCountsCover(rrs, sigs, section);
    assert CoveredBy(sigs, rr);
    var i :| 0 <= i < |sigs| && sigs[i].verified && rr in sigs[i].rrset;
    v := sigs[i];
    assert StandsForRecords(v, rrs, sigs, section);
  }

  // ---------------------------------------------------------------- the default policy is weaker

  /** A validator that only ever verifies signatures at the root. */
  function RootOnly(): Oracle {
    Oracle(_ => 0, (_, _) => false,
           (sig: RR, key: RR, rrset: seq<RR>) => sig.owner == ROOT && rrset != [] && (sig.data.SigData? ==> sig.data.typeCovered != TYPE_RRSIG),
           (_, _) => false, (_, _) => false)
  }

  function AddressAt(n: Name): RR {
    RR(n, 60, OtherData(TYPE_A, []))
  }

  function AddressSignatureAt(n: Name): RR {
    RR(n, 60, SigData(TYPE_A, 8, 0, 60, 100, 0, 0, ROOT, []))
  }

  function TwoAddresses(child: Name): seq<RR> {
    [AddressAt(ROOT), AddressAt(child), AddressSignatureAt(ROOT), AddressSignatureAt(child)]
  }

  function SignatureAt(n: Name, child: Name): Signature {
    SignatureFor(RootOnly(), 50, ROOT, TwoAddresses(child), [RR(ROOT, 60, KeyData(8, []))], AddressSignatureAt(n))
  }

  lemma SignedSetAt(n: Name, child: Name)
    ensures var s := SignatureAt(n, child);
      && s.name == n && s.rtype == TYPE_A && (forall rr :: rr in s.rrset ==> rr.owner == n)
      && (n == ROOT ==> s.rrset != [])
  {
    var rrs := TwoAddresses(child);
    assert rrs[0] in rrs && rrs[0].owner == ROOT && rrs[0].Rrtype() == TYPE_A;
    assert n == ROOT ==> rrs[0] in OfNameAndType(rrs, n, TYPE_A);
  }

  lemma InOrder(n: Name)
    ensures PreCheck(ROOT, AddressSignatureAt(n), 50).None?
  {
  }

  lemma SingleKey(o: Oracle, now: Seconds, zone: Name, rrs: seq<RR>, key: RR, rrsig: RR)
    requires rrsig.data.SigData? && PreCheck(zone, rrsig, now).None?
    ensures SignatureFor(o, now, zone, rrs, [key], rrsig).verified <==>
      KeyVerifies(o, rrsig, key, OfNameAndType(rrs, rrsig.owner, rrsig.data.typeCovered))
  {
    VerifiedIff(o, now, zone, rrs, [key], rrsig);
    assert key in [key];
  }

  lemma OnlyRootVerifies(n: Name, child: Name)
    ensures SignatureAt(n, child).verified <==> n == ROOT
  {
    InOrder(n);
    SignedSetAt(n, child);
    SingleKey(RootOnly(), 50, ROOT, TwoAddresses(child), RR(ROOT, 60, KeyData(8, [])), AddressSignatureAt(n));
  }

  /** Such a pair of signatures passes the count and the default policy and covers one record only. */
  lemma PairIsAcceptedUncovered(child: Name, s: Signature, t: Signature)
    requires child != ROOT && s.verified && !t.verified && s.rtype == t.rtype == TYPE_A && s.name == ROOT && t.name == child
    requires forall rr :: rr in s.rrset ==> rr.owner == ROOT
    ensures CountError(TwoAddresses(child), [s, t], AnswerSection).None? && Accepted(false, [s, t])
    ensures !Covered(TwoAddresses(child), [s, t], AnswerSection)
  {
    var rrs, sigs := TwoAddresses(child), [s, t];
    var both := {(ROOT, TYPE_A), (child, TYPE_A)};
    assert RecordCombinations(rrs, sigs, AnswerSection) == both by {
      assert rrs[0] in rrs && rrs[1] in rrs;
      assert Counted(rrs[0], sigs, AnswerSection) && Counted(rrs[1], sigs, AnswerSection);
    }
    assert SignatureCombinations(sigs) == both by {
      assert sigs[0] in sigs && sigs[1] in sigs;
    }
    assert sigs[0].rtype == TYPE_A && sigs[0].verified;
    assert rrs[1] in rrs && Counted(rrs[1], sigs, AnswerSection) && !CoveredBy(sigs, rrs[1]);
  }

  /**
   Two address records at different names, each signed, only one signature verifying: the default
   policy accepts the section although one record has no verified signature.
   */
  lemma TypePolicyLeavesRecordsUncovered(child: Name)
    requires child != ROOT
    ensures var sigs := SignaturesFor(RootOnly(), 50, ROOT, TwoAddresses(child), [RR(ROOT, 60, KeyData(8, []))]);
      && GoodOracle(RootOnly())
      && CountError(TwoAddresses(child), sigs, AnswerSection).None? && Accepted(false, sigs)
      && !Covered(TwoAddresses(child), sigs, AnswerSection)
  {
    SignaturesAre(child);
    OnlyRootVerifies(ROOT, child);
    OnlyRootVerifies(child, child);
    SignedSetAt(ROOT, child);
    SignedSetAt(child, child);
    PairIsAcceptedUncovered(child, SignatureAt(ROOT, child), SignatureAt(child, child));
  }

  lemma SignaturesAre(child: Name)
    ensures SignaturesFor(RootOnly(), 50, ROOT, TwoAddresses(child), [RR(ROOT, 60, KeyData(8, []))]) ==
      [SignatureAt(ROOT, child), SignatureAt(child, child)]
  {
    TwoSignatures(AddressAt(ROOT), AddressAt(child), AddressSignatureAt(ROOT), AddressSignatureAt(child));
  }

  lemma TwoSignatures(a: RR, b: RR, s: RR, t: RR)
    requires !a.data.SigData? && !b.data.SigData? && s.data.SigData? && t.data.SigData?
    ensures RrsigsOf([a, b, s, t]) == [s, t]
  {
    var p := (x: RR) => x.data.SigData?;
    FilterSplits([a, b], [s, t], p);
    assert [a, b, s, t] == [a, b] + [s, t];
  }
}
