/**
 How much a set of genuine denial records can prove, and no more: what they leave open is realised
 by some zone they could have come from.
 */
module DenialExactness {
  import opened Collections
  import opened Names
  import opened Records
  import opened CanonicalOrder
  import opened Nsec
  import Nsec3

  // ---------------------------------------------------------------- adding an owner to an NSEC chain

  ghost predicate ContainsAll(z: NsecZone, records: seq<RR>) {
    |z.owners| == |z.types| && forall r :: r in records ==> z.Contains(r)
  }

  lemma FindPlace(z: NsecZone, n: Name) returns (i: nat)
    requires z.Readable() && FaithfulName(n) && OctetOrder(z.apex, n) < 0 && !z.IsOwner(n)
    ensures FitsAfter(z, n, i)
  {
    GenuineIffSorted(z);
    EqualNamesOnTheWire(z.owners[0], z.apex);
    CanonicalCmpIsOctetOrder(z.owners[0], n);
    i := 0;
    while i + 1 < |z.owners| && CanonicalCmp(z.owners[i + 1], n) < 0
      invariant i < |z.owners| && CanonicalCmp(z.owners[i], n) < 0
      decreases |z.owners| - i
    {
      i := i + 1;
    }
    if i + 1 < |z.owners| {
      CanonicalCmpIsOctetOrder(z.owners[i + 1], n);
      CanonicalCmpIsTotalPreorder(z.owners[i + 1], n, n);
    }
  }

  /** The chain with one more owner after place `i`. */
  function Inserted(z: NsecZone, n: Name, types: seq<TypeCode>, i: nat): NsecZone
    requires |z.owners| == |z.types| && i < |z.owners|
  {
    NsecZone(z.apex, z.owners[..i + 1] + [n] + z.owners[i + 1..], z.types[..i + 1] + [types] + z.types[i + 1..])
  }

  lemma InsertedAt(z: NsecZone, n: Name, types: seq<TypeCode>, i: nat, j: nat)
    requires |z.owners| == |z.types| && i < |z.owners| && j <= |z.owners|
    ensures var y := Inserted(z, n, types, i);
      && |y.owners| == |y.types| == |z.owners| + 1
      && y.owners[j] == (if j <= i then z.owners[j] else if j == i + 1 then n else z.owners[j - 1])
      && y.types[j] == (if j <= i then z.types[j] else if j == i + 1 then types else z.types[j - 1])
  {
  }

  lemma InsertedIsFaithful(z: NsecZone, n: Name, types: seq<TypeCode>, i: nat)
    requires z.Readable() && FaithfulName(n) && i < |z.owners|
    ensures Inserted(z, n, types, i).Faithful()
    ensures forall j :: 0 <= j <= |z.owners| ==> ProperName(Inserted(z, n, types, i).owners[j])
  {
    var y := Inserted(z, n, types, i);
    forall j | 0 <= j <= |z.owners|
      ensures FaithfulName(y.owners[j]) && ProperName(y.owners[j])
    {
      InsertedAt(z, n, types, i, j);
      FaithfulNameIsProper(y.owners[j]);
    }
  }

  /** The owners before and after a name that fits, by octets. */
  ghost predicate Splits(owners: seq<Name>, n: Name, i: nat) {
    && i < |owners|
    && (forall j :: 0 <= j <= i ==> OctetOrder(owners[j], n) < 0)
    && (forall j :: i < j < |owners| ==> OctetOrder(n, owners[j]) < 0)
    && (forall j, k :: 0 <= j < k < |owners| ==> OctetOrder(owners[j], owners[k]) < 0)
  }

  lemma FittingSplits(z: NsecZone, n: Name, i: nat)
    requires z.Readable() && FaithfulName(n) && FitsAfter(z, n, i)
    ensures Splits(z.owners, n, i)
  {
    forall j | 0 <= j < |z.owners|
      ensures if j <= i then OctetOrder(z.owners[j], n) < 0 else OctetOrder(n, z.owners[j]) < 0
    {
      FitsAmongOwners(z, n, i, j);
    }
  }

  lemma InsertedInOrder(owners: seq<Name>, n: Name, i: nat, j: nat, k: nat)
    requires Splits(owners, n, i) && j < k <= |owners|
    ensures var all := owners[..i + 1] + [n] + owners[i + 1..]; OctetOrder(all[j], all[k]) < 0
  {
    var all := owners[..i + 1] + [n] + owners[i + 1..];
    assert all[j] == (if j <= i then owners[j] else if j == i + 1 then n else owners[j - 1]);
    assert all[k] == (if k <= i then owners[k] else if k == i + 1 then n else owners[k - 1]);
  }

  lemma InsertedIsReadable(z: NsecZone, n: Name, types: seq<TypeCode>, i: nat)
    requires z.Readable() && FaithfulName(n) && FitsAfter(z, n, i)
    ensures Inserted(z, n, types, i).Readable()
  {
    var y := Inserted(z, n, types, i);
    assert y.owners[0] == z.owners[0];
    InsertedIsFaithful(z, n, types, i);
    FittingSplits(z, n, i);
    forall j, k | 0 <= j < k < |y.owners|
      ensures OctetOrder(y.owners[j], y.owners[k]) < 0
    {
      InsertedInOrder(z.owners, n, i, j, k);
    }
  }

  lemma RecordAtPlaceCovers(z: NsecZone, zone: Name, n: Name, i: nat, rec: RR)
    requires z.Genuine() && zone == Canonical(z.apex) && FitsAfter(z, n, i) && z.RecordAt(i, rec)
    ensures Covers(zone, rec, n)
  {
    EqualNamesCompareAlike(rec.owner, z.owners[i], n);
    if i + 1 < |z.owners| {
      EqualNamesCompareAlike(rec.data.nextDomain, z.owners[i + 1], n);
    }
  }

  lemma RecordOf(y: NsecZone, k: nat, rec: RR, owner: Name, next: Name)
    requires |y.owners| == |y.types| && k < |y.owners| && rec.data.NsecData? && rec.data.nsecTypes == y.types[k]
    requires y.owners[k] == owner && NamesEqual(rec.owner, owner) && NamesEqual(rec.data.nextDomain, next)
    requires next == y.owners[if k + 1 == |y.owners| then 0 else k + 1]
    ensures y.Contains(rec)
  {
    assert y.RecordAt(k, rec);
  }

  /** Where a record of the old chain stands in the new one: before the new owner, or one place further. */
  lemma RecordMoves(z: NsecZone, n: Name, types: seq<TypeCode>, i: nat, j: nat, rec: RR)
    requires z.Genuine() && i < |z.owners| && j != i && z.RecordAt(j, rec)
    ensures Inserted(z, n, types, i).Contains(rec)
  {
    var y := Inserted(z, n, types, i);
    var k := if j < i then j else j + 1;
    var next := if k == |z.owners| then 0 else k + 1;
    InsertedAt(z, n, types, i, k);
    InsertedAt(z, n, types, i, next);
    RecordOf(y, k, rec, z.owners[j], y.owners[next]);
  }

  lemma InsertedKeepsRecords(z: NsecZone, zone: Name, records: seq<RR>, n: Name, types: seq<TypeCode>, i: nat)
    requires z.Genuine() && zone == Canonical(z.apex) && FitsAfter(z, n, i)
    requires AllNsec(records) && ContainsAll(z, records) && !Covered(zone, records, n)
    ensures ContainsAll(Inserted(z, n, types, i), records)
  {
    forall r | r in records
      ensures Inserted(z, n, types, i).Contains(r)
    {
      var j: nat :| z.RecordAt(j, r);
      if j == i {
        RecordAtPlaceCovers(z, zone, n, i, r);
      } else {
        RecordMoves(z, n, types, i, j, r);
      }
    }
  }

  lemma InsertedOwners(z: NsecZone, n: Name, types: seq<TypeCode>, i: nat, m: Name)
    requires |z.owners| == |z.types| && i < |z.owners|
    ensures Inserted(z, n, types, i).Exists(m) <==> z.Exists(m) || OctetUnder(m, n)
  {
    var y := Inserted(z, n, types, i);
    if j :| 0 <= j < |z.owners| && OctetUnder(m, z.owners[j]) {
      assert y.owners[if j <= i then j else j + 1] == z.owners[j];
    }
    if OctetUnder(m, n) {
      assert y.owners[i + 1] == n;
    }
    if j :| 0 <= j < |y.owners| && OctetUnder(m, y.owners[j]) {
      assert y.owners[j] == if j <= i then z.owners[j] else if j == i + 1 then n else z.owners[j - 1];
    }
  }

  // ---------------------------------------------------------------- wildcard synthesis

  /** The deepest existing ancestor of the name has `k` labels. */
  ghost predicate ClosestEncloser(z: NsecZone, qname: Name, k: nat) {
    && k < |qname| && z.Exists(qname[..k])
    && forall m :: k < m <= |qname| ==> !z.Exists(qname[..m])
  }

  /** The wildcard that could synthesise an answer for a name with this closest encloser. */
  function SourceOfSynthesis(qname: Name, k: nat): Name
    requires k <= |qname|
  {
    qname[..k] + [ASTERISK]
  }

  /** No zone the records can come from, with this closest encloser, owns that wildcard. */
  ghost predicate SynthesisDenied(apex: Name, records: seq<RR>, qname: Name, k: nat)
    requires k <= |qname|
  {
    forall z: NsecZone :: z.Readable() && z.apex == apex && ContainsAll(z, records) && ClosestEncloser(z, qname, k) ==>
      !z.IsOwner(SourceOfSynthesis(qname, k))
  }

  lemma ApexIsFaithful(z: NsecZone)
    requires z.Readable()
    ensures FaithfulName(z.apex)
  {
    EqualNamesOnTheWire(z.owners[0], z.apex);
  }

  lemma WildcardBelow(z: NsecZone, qname: Name, k: nat)
    requires z.Readable() && FaithfulName(qname) && k <= |qname| && IsSubDomain(z.apex, qname[..k])
    ensures FaithfulName(SourceOfSynthesis(qname, k)) && OctetOrder(z.apex, SourceOfSynthesis(qname, k)) < 0
  {
    var w := SourceOfSynthesis(qname, k);
    FaithfulWildcard(qname[..k]);
    ApexIsFaithful(z);
    Nsec3.WildcardInZone(z.apex, qname[..k]);
    AncestorSortsFirst(z.apex, w);
    CanonicalCmpIsOctetOrder(z.apex, w);
  }

  lemma OwnedWildcardExists(z: NsecZone, qname: Name, k: nat)
    requires k < |qname| && z.IsOwner(SourceOfSynthesis(qname, k))
    requires OctetKey(qname[..k + 1]) == OctetKey(SourceOfSynthesis(qname, k))
    ensures z.Exists(qname[..k + 1])
  {
    var w := SourceOfSynthesis(qname, k);
    var j :| 0 <= j < |z.owners| && OctetOrder(z.owners[j], w) == 0;
    OctetOrderIsTotalPreorder(z.owners[j], w, w);
    assert OctetUnder(qname[..k + 1], z.owners[j]);
  }

  lemma InsertedWildcardKeepsEncloser(z: NsecZone, qname: Name, k: nat, types: seq<TypeCode>, i: nat)
    requires |z.owners| == |z.types| && i < |z.owners| && ClosestEncloser(z, qname, k)
    requires OctetKey(qname[..k + 1]) != OctetKey(SourceOfSynthesis(qname, k))
    ensures ClosestEncloser(Inserted(z, SourceOfSynthesis(qname, k), types, i), qname, k)
  {
    var w := SourceOfSynthesis(qname, k);
    InsertedOwners(z, w, types, i, qname[..k]);
    forall m | k < m <= |qname|
      ensures !Inserted(z, w, types, i).Exists(qname[..m])
    {
      InsertedOwners(z, w, types, i, qname[..m]);
    }
  }

  lemma SynthesisIsDenied(y: NsecZone, zone: Name, records: seq<RR>, qname: Name, k: nat)
    requires y.Readable() && zone == Canonical(y.apex) && AllNsec(records) && ContainsAll(y, records)
    requires FaithfulName(qname) && ClosestEncloser(y, qname, k)
    requires Covered(zone, records, SourceOfSynthesis(qname, k)) || OctetKey(qname[..k + 1]) == OctetKey(SourceOfSynthesis(qname, k))
    ensures !y.IsOwner(SourceOfSynthesis(qname, k))
  {
    var w := SourceOfSynthesis(qname, k);
    FaithfulWildcard(qname[..k]);
    CanonicalIdempotent(y.apex);
    if Covered(zone, records, w) {
      var r :| r in records && Covers(zone, r, w);
      var j: nat :| y.RecordAt(j, r);
      CoveringIsBetween(y, zone, j, r, w);
    } else if y.IsOwner(w) {
      OwnedWildcardExists(y, qname, k);
    }
  }

  /**
   Over genuine records wildcard synthesis is ruled out if and only if the records cover the
   wildcard at the closest encloser, or the query name itself runs through it.
   */
  lemma SynthesisDeniedIff(z: NsecZone, zone: Name, records: seq<RR>, qname: Name, k: nat)
    requires z.Readable() && zone == Canonical(z.apex) && AllNsec(records) && ContainsAll(z, records)
    requires FaithfulName(qname) && ClosestEncloser(z, qname, k) && IsSubDomain(z.apex, qname[..k])
    ensures SynthesisDenied(z.apex, records, qname, k) <==>
      Covered(zone, records, SourceOfSynthesis(qname, k)) || OctetKey(qname[..k + 1]) == OctetKey(SourceOfSynthesis(qname, k))
  {
    var w := SourceOfSynthesis(qname, k);
    if Covered(zone, records, w) || OctetKey(qname[..k + 1]) == OctetKey(w) {
      forall y: NsecZone | y.Readable() && y.apex == z.apex && ContainsAll(y, records) && ClosestEncloser(y, qname, k)
        ensures !y.IsOwner(w)
      {
        SynthesisIsDenied(y, zone, records, qname, k);
      }
    } else if !z.IsOwner(w) {
      WildcardBelow(z, qname, k);
      var i := FindPlace(z, w);
      var y := Inserted(z, w, [], i);
      InsertedIsReadable(z, w, [], i);
      InsertedKeepsRecords(z, zone, records, w, [], i);
      InsertedWildcardKeepsEncloser(z, qname, k, [], i);
      assert y.owners[i + 1] == w;
      OctetOrderIsTotalPreorder(w, w, w);
      assert y.IsOwner(w);
    }
  }

  /** An accepted proof does rule synthesis out when the parent of the query name exists. */
  lemma ExistingParentDeniesSynthesis(z: NsecZone, zone: Name, records: seq<RR>, qname: Name)
    requires z.Readable() && zone == Canonical(z.apex) && AllNsec(records) && ContainsAll(z, records)
    requires FaithfulName(qname) && NameDoesNotExistProof(zone, records, qname) && qname != []
    requires ClosestEncloser(z, qname, |qname| - 1) && IsSubDomain(z.apex, qname[..|qname| - 1])
    ensures SynthesisDenied(z.apex, records, qname, |qname| - 1)
  {
    CoveredWildcard(zone, records, qname);
    SynthesisDeniedIff(z, zone, records, qname, |qname| - 1);
  }

  lemma CoveredWildcard(zone: Name, records: seq<RR>, qname: Name)
    requires AllNsec(records) && NameDoesNotExistProof(zone, records, qname) && qname != []
    ensures Covered(zone, records, SourceOfSynthesis(qname, |qname| - 1))
  {
    var w := WildcardOf(qname);
    CanonicalWildcard(qname);
    var r :| r in records && Covers(zone, r, Canonical(w));
    CoversIgnoresCase(zone, r, w);
  }

  // ---------------------------------------------------------------- absence of a type

  /** Whatever owner the name is, it has no records of the type. */
  ghost predicate Lacks(z: NsecZone, n: Name, t: TypeCode) {
    |z.owners| == |z.types| && forall i :: 0 <= i < |z.owners| && OctetOrder(z.owners[i], n) == 0 ==> t !in z.types[i]
  }

  /** The records cover the name, or list it without the type. */
  ghost predicate NsecDenies(zone: Name, records: seq<RR>, n: Name, t: TypeCode)
    requires AllNsec(records)
  {
    Covered(zone, records, n) || exists r :: r in records && OctetOrder(r.owner, n) == 0 && t !in r.data.nsecTypes
  }

  /** No zone the records can come from has records of the type at the name. */
  ghost predicate Denied(apex: Name, records: seq<RR>, n: Name, t: TypeCode) {
    forall z: NsecZone :: z.Readable() && z.apex == apex && ContainsAll(z, records) ==> Lacks(z, n, t)
  }

  lemma OneOwnerPerName(z: NsecZone, n: Name, i: nat, j: nat)
    requires z.Genuine() && i < |z.owners| && j < |z.owners|
    requires OctetOrder(z.owners[i], n) == 0 && OctetOrder(z.owners[j], n) == 0
    ensures i == j
  {
    OctetOrderIsTotalPreorder(z.owners[i], n, n);
    OctetOrderIsTotalPreorder(z.owners[j], n, n);
    OctetOrderIsTotalPreorder(z.owners[i], z.owners[j], n);
    OctetOrderIsTotalPreorder(z.owners[j], z.owners[i], n);
  }

  /** A name that is an owner without the type has none. */
  lemma OwnerLacks(z: NsecZone, i: nat, n: Name, t: TypeCode)
    requires z.Genuine() && i < |z.owners| && OctetOrder(z.owners[i], n) == 0 && t !in z.types[i]
    ensures Lacks(z, n, t)
  {
    forall j | 0 <= j < |z.owners| && OctetOrder(z.owners[j], n) == 0
      ensures t !in z.types[j]
    {
      OneOwnerPerName(z, n, i, j);
    }
  }

  lemma OwnerOfRecord(z: NsecZone, i: nat, rec: RR, n: Name)
    requires z.Genuine() && z.RecordAt(i, rec)
    ensures OctetOrder(rec.owner, n) == 0 <==> OctetOrder(z.owners[i], n) == 0
  {
    EqualNamesOnTheWire(rec.owner, z.owners[i]);
  }

  lemma NsecDenialHolds(z: NsecZone, zone: Name, records: seq<RR>, n: Name, t: TypeCode)
    requires z.Readable() && NamesEqual(zone, z.apex) && AllNsec(records) && ContainsAll(z, records)
    requires FaithfulName(n) && NsecDenies(zone, records, n, t)
    ensures Lacks(z, n, t)
  {
    if Covered(zone, records, n) {
      var r :| r in records && Covers(zone, r, n);
      var i: nat :| z.RecordAt(i, r);
      CoveringIsBetween(z, zone, i, r, n);
    } else {
      var r :| r in records && OctetOrder(r.owner, n) == 0 && t !in r.data.nsecTypes;
      var i: nat :| z.RecordAt(i, r);
      OwnerOfRecord(z, i, r, n);
      OwnerLacks(z, i, n, t);
    }
  }

  /** An owner no record speaks of may as well have the type. */
  lemma GiveType(z: NsecZone, records: seq<RR>, n: Name, i: nat, t: TypeCode) returns (y: NsecZone)
    requires z.Readable() && AllNsec(records) && ContainsAll(z, records)
    requires i < |z.owners| && OctetOrder(z.owners[i], n) == 0 && t !in z.types[i]
    requires forall r :: r in records && OctetOrder(r.owner, n) == 0 ==> t in r.data.nsecTypes
    ensures y.Readable() && y.apex == z.apex && ContainsAll(y, records) && !Lacks(y, n, t)
  {
    y := z.(types := z.types[i := z.types[i] + [t]]);
    forall r | r in records
      ensures y.Contains(r)
    {
      var j: nat :| z.RecordAt(j, r);
      OwnerOfRecord(z, j, r, n);
      assert j != i;
      assert y.RecordAt(j, r);
    }
    assert t in y.types[i];
  }

  /** A name no record covers may as well be an owner with the type. */
  lemma AddOwner(z: NsecZone, zone: Name, records: seq<RR>, n: Name, t: TypeCode) returns (y: NsecZone)
    requires z.Readable() && zone == Canonical(z.apex) && AllNsec(records) && ContainsAll(z, records)
    requires FaithfulName(n) && OctetOrder(z.apex, n) < 0 && !z.IsOwner(n) && !Covered(zone, records, n)
    ensures y.Readable() && y.apex == z.apex && ContainsAll(y, records) && !Lacks(y, n, t)
  {
    var i := FindPlace(z, n);
    y := Inserted(z, n, [t], i);
    InsertedIsReadable(z, n, [t], i);
    InsertedKeepsRecords(z, zone, records, n, [t], i);
    OctetOrderIsTotalPreorder(n, n, n);
    assert y.owners[i + 1] == n && y.types[i + 1] == [t];
  }

  /**
   Genuine NSEC records prove that a name below the apex has no records of a type if and only
   if they cover the name or list it without the type.
   */
  lemma NsecDeniesIff(z: NsecZone, zone: Name, records: seq<RR>, n: Name, t: TypeCode)
    requires z.Readable() && zone == Canonical(z.apex) && AllNsec(records) && ContainsAll(z, records)
    requires FaithfulName(n) && OctetOrder(z.apex, n) < 0
    ensures Denied(z.apex, records, n, t) <==> NsecDenies(zone, records, n, t)
  {
    CanonicalIdempotent(z.apex);
    if NsecDenies(zone, records, n, t) {
      forall y: NsecZone | y.Readable() && y.apex == z.apex && ContainsAll(y, records)
        ensures Lacks(y, n, t)
      {
        NsecDenialHolds(y, zone, records, n, t);
      }
    } else if Denied(z.apex, records, n, t) {
      if z.IsOwner(n) {
        var i :| 0 <= i < |z.owners| && OctetOrder(z.owners[i], n) == 0;
        var y := GiveType(z, records, n, i, t);
      } else {
        var y := AddOwner(z, zone, records, n, t);
      }
    }
  }

  // ---------------------------------------------------------------- the same for NSEC3

  /** A match without the type, or a covered name on the way from the apex. */
  ghost predicate Nsec3Denies(apex: Name, hash: Name -> nat, records: seq<RR>, n: Name, t: TypeCode) {
    exists r :: r in records && r.data.Nsec3Data? &&
      (|| (r.data.ownerHash == hash(n) && t !in r.data.nsec3Types)
       || exists k :: |apex| <= k <= |n| && Nsec3.Between(r.data.ownerHash, hash(n[..k]), r.data.nextHash))
  }

  ghost predicate Lacks3(z: Nsec3.Nsec3Zone, n: Name, t: TypeCode) {
    n in z.names ==> n in z.types && t !in z.types[n]
  }

  ghost predicate IsChainOf(z: Nsec3.Nsec3Zone, records: seq<RR>) {
    forall r :: r in records ==> exists owner :: z.RecordFor(owner, r)
  }

  ghost predicate Denied3(apex: Name, hash: Name -> nat, records: seq<RR>, n: Name, t: TypeCode) {
    forall z: Nsec3.Nsec3Zone :: z.Genuine() && z.apex == apex && z.hash == hash && IsChainOf(z, records) ==> Lacks3(z, n, t)
  }

  lemma Nsec3DenialHolds(z: Nsec3.Nsec3Zone, records: seq<RR>, n: Name, t: TypeCode)
    requires z.Genuine() && IsChainOf(z, records) && Nsec3Denies(z.apex, z.hash, records, n, t)
    ensures Lacks3(z, n, t)
  {
    var r :| r in records && r.data.Nsec3Data? &&
      (|| (r.data.ownerHash == z.hash(n) && t !in r.data.nsec3Types)
       || exists k :: |z.apex| <= k <= |n| && Nsec3.Between(r.data.ownerHash, z.hash(n[..k]), r.data.nextHash));
    var owner :| z.RecordFor(owner, r);
    if n in z.names && !(r.data.ownerHash == z.hash(n) && t !in r.data.nsec3Types) {
      var k :| |z.apex| <= k <= |n| && Nsec3.Between(r.data.ownerHash, z.hash(n[..k]), r.data.nextHash);
      assert n[..k] in z.names;
    }
  }

  /** The chain with the name and all names on the way to it, the name with the type. */
  function WithType(z: Nsec3.Nsec3Zone, n: Name, t: TypeCode): Nsec3.Nsec3Zone
    requires |z.apex| <= |n|
  {
    var way := set k | |z.apex| <= k <= |n| :: n[..k];
    var has := if n in z.types then z.types[n] else [];
    z.(names := z.names + way,
       types := (map m | m in z.names + z.types.Keys + way :: if m in z.types then z.types[m] else [])[n := has + [t]])
  }

  lemma WithTypeIsGenuine(z: Nsec3.Nsec3Zone, n: Name, t: TypeCode)
    requires z.Genuine() && Canonical(n) == n && IsSubDomain(z.apex, n)
    ensures WithType(z, n, t).Genuine() && !Lacks3(WithType(z, n, t), n, t)
  {
    var y := WithType(z, n, t);
    assert n[..|n|] == n;
    forall m | m in y.names && m !in z.names
      ensures Canonical(m) == m && IsSubDomain(y.apex, m)
    {
      var k :| |z.apex| <= k <= |n| && m == n[..k];
      CanonicalTake(n, k);
    }
    forall m, k | m in y.names && |y.apex| <= k <= |m|
      ensures m[..k] in y.names
    {
      if m !in z.names {
        var j :| |z.apex| <= j <= |n| && m == n[..j];
        assert m[..k] == n[..k];
      }
    }
  }

  lemma WithTypeKeepsRecord(z: Nsec3.Nsec3Zone, records: seq<RR>, n: Name, r: RR, t: TypeCode)
    requires z.Genuine() && IsChainOf(z, records) && Canonical(n) == n && IsSubDomain(z.apex, n)
    requires Lacks3(z, n, t) && !Nsec3Denies(z.apex, z.hash, records, n, t) && r in records
    ensures exists owner :: WithType(z, n, t).RecordFor(owner, r)
  {
    var y := WithType(z, n, t);
    var owner :| z.RecordFor(owner, r);
    assert owner != n;
    forall m | m in y.names
      ensures !Nsec3.Between(r.data.ownerHash, y.hash(m), r.data.nextHash)
    {
      if m !in z.names {
        var k :| |z.apex| <= k <= |n| && m == n[..k];
      }
    }
    assert y.RecordFor(owner, r);
  }

  /**
   Genuine NSEC3 records prove that a name below the apex has no records of a type if and only if
   one of them matches it without the type or covers a name on the way to it.
   */
  lemma Nsec3DeniesIff(z: Nsec3.Nsec3Zone, records: seq<RR>, n: Name, t: TypeCode)
    requires z.Genuine() && IsChainOf(z, records) && Canonical(n) == n && IsSubDomain(z.apex, n)
    ensures Denied3(z.apex, z.hash, records, n, t) <==> Nsec3Denies(z.apex, z.hash, records, n, t)
  {
    if Nsec3Denies(z.apex, z.hash, records, n, t) {
      forall y: Nsec3.Nsec3Zone | y.Genuine() && y.apex == z.apex && y.hash == z.hash && IsChainOf(y, records)
        ensures Lacks3(y, n, t)
      {
        Nsec3DenialHolds(y, records, n, t);
      }
    } else if Lacks3(z, n, t) {
      var y := WithType(z, n, t);
      WithTypeIsGenuine(z, n, t);
      forall r | r in records
        ensures exists owner :: y.RecordFor(owner, r)
      {
        WithTypeKeepsRecord(z, records, n, r, t);
      }
      assert IsChainOf(y, records);
    }
  }

  // ---------------------------------------------------------------- names below a delegation

  /** The types of a delegation: name servers, but not the zone's own. */
  predicate IsCut(types: seq<TypeCode>) {
    TYPE_NS in types && TYPE_SOA !in types
  }

  /** Names below a delegation are not the zone's and have no record in its chain. */
  ghost predicate NothingBelowCuts(z: NsecZone)
    requires |z.owners| == |z.types|
  {
    forall i, j :: 0 <= i < |z.owners| && 0 <= j < |z.owners| && IsCut(z.types[i]) && OctetUnder(z.owners[i], z.owners[j]) ==> i == j
  }

  /** The name belongs to a zone the chain's zone delegates to. */
  ghost predicate BelowCut(z: NsecZone, n: Name)
    requires |z.owners| == |z.types|
  {
    exists i :: 0 <= i < |z.owners| && IsCut(z.types[i]) && OctetUnder(z.owners[i], n)
  }

  /**
   A covered name is outside the zone's authority if and only if the covering record is itself
   that of a delegation above the name (section 4.1 of RFC 6840). The code does not look.
   */
  lemma BelowCutIff(z: NsecZone, zone: Name, i: nat, rec: RR, n: Name)
    requires z.Readable() && NothingBelowCuts(z) && NamesEqual(zone, z.apex) && z.RecordAt(i, rec)
    requires FaithfulName(n) && Covers(zone, rec, n)
    ensures BelowCut(z, n) <==> IsCut(rec.data.nsecTypes) && OctetUnder(rec.owner, n)
  {
    EqualNamesOnTheWire(rec.owner, z.owners[i]);
    GenuineIffSorted(z);
    CoveringFits(z, zone, i, rec, n);
    if j :| 0 <= j < |z.owners| && IsCut(z.types[j]) && OctetUnder(z.owners[j], n) {
      CutIsCovering(z, n, i, j);
    }
  }

  lemma CutIsCovering(z: NsecZone, n: Name, i: nat, j: nat)
    requires z.Readable() && NothingBelowCuts(z) && FaithfulName(n) && FitsAfter(z, n, i) && j < |z.owners|
    requires IsCut(z.types[j]) && OctetUnder(z.owners[j], n)
    ensures i == j
  {
    var d := z.owners[j];
    GenuineIffSorted(z);
    UnderIsOctetUnder(d, n);
    UnderSortsAfter(d, n);
    NoOwnerBetween(z, n, i, j);
    CanonicalCmpIsTotalPreorder(d, n, d);
    CanonicalCmpIsTotalPreorder(d, d, d);
    SubtreeIsInterval(d, d, z.owners[i], n);
    UnderIsOctetUnder(d, z.owners[i]);
  }

  // ---------------------------------------------------------------- how names have to be spelled

  /** The root zone with one more owner. */
  function RootAnd(a: Name): NsecZone {
    NsecZone(ROOT, [ROOT, a], [[TYPE_SOA], [TYPE_A]])
  }

  lemma BelowRoot(a: Name)
    requires a != ROOT
    ensures CanonicalCmp(ROOT, a) < 0 && OctetOrder(ROOT, a) < 0
  {
    AncestorSortsFirst(ROOT, a);
    CompareBytesIsTotalOrder();
    LexPrefixFirst(CompareBytes, OctetKey(ROOT), OctetKey(a));
  }

  lemma RootAndIsGenuine(a: Name)
    requires a != ROOT && ProperName(a)
    ensures RootAnd(a).Genuine()
  {
    BelowRoot(a);
  }

  /** One of its two records covers any name the code takes for another than the owner. */
  lemma OneRecordCovers(a: Name, q: Name) returns (rec: RR)
    requires a != ROOT && q != ROOT && CanonicalCmp(a, q) != 0
    ensures RootAnd(a).Contains(rec) && rec.data.NsecData? && Covers(ROOT, rec, q)
  {
    var z := RootAnd(a);
    BelowRoot(q);
    CanonicalCmpIsTotalPreorder(a, q, a);
    if CanonicalCmp(a, q) < 0 {
      rec := RR(a, 60, NsecData(ROOT, [TYPE_A]));
      assert z.RecordAt(1, rec);
    } else {
      rec := RR(ROOT, 60, NsecData(a, [TYPE_SOA]));
      assert z.RecordAt(0, rec);
    }
  }

  /** No record of a genuine chain covers this owner, its other owners and the query being spelled faithfully. */
  ghost predicate NeverDeniedAsOwner(a: Name) {
    forall z: NsecZone, i: nat, rec: RR, q: Name ::
      && z.Genuine() && i < |z.owners| && z.owners[i] == a
      && (forall j :: 0 <= j < |z.owners| && j != i ==> FaithfulName(z.owners[j]))
      && z.Contains(rec) && rec.data.NsecData? && FaithfulName(q) && OctetOrder(a, q) == 0
      ==> !Covers(Canonical(z.apex), rec, q)
  }

  /** An owner is never denied if and only if it is itself spelled faithfully. */
  lemma NeverDeniedAsOwnerIff(a: Name)
    requires ProperName(a) && a != ROOT
    ensures NeverDeniedAsOwner(a) <==> FaithfulName(a)
  {
    if FaithfulName(a) {
      forall z: NsecZone, i: nat, rec: RR, q: Name |
        && z.Genuine() && i < |z.owners| && z.owners[i] == a
        && (forall j :: 0 <= j < |z.owners| && j != i ==> FaithfulName(z.owners[j]))
        && z.Contains(rec) && rec.data.NsecData? && FaithfulName(q) && OctetOrder(a, q) == 0
        ensures !Covers(Canonical(z.apex), rec, q)
      {
        OwnerIsNotCovered(z, rec, q);
      }
    } else {
      var q := Respelled(a);
      RespelledIsSame(a);
      MisreadName(a);
      RootAndIsGenuine(a);
      var rec := OneRecordCovers(a, q);
      assert RootAnd(a).owners[1] == a;
    }
  }

  lemma OwnerIsNotCovered(z: NsecZone, rec: RR, q: Name)
    requires z.Readable() && z.Contains(rec) && rec.data.NsecData? && FaithfulName(q) && z.IsOwner(q)
    ensures !Covers(Canonical(z.apex), rec, q)
  {
    var i: nat :| z.RecordAt(i, rec);
    CanonicalIdempotent(z.apex);
    if Covers(Canonical(z.apex), rec, q) {
      CoveringIsBetween(z, Canonical(z.apex), i, rec, q);
    }
  }

  /** No record of a readable chain covers the query when the name exists. */
  ghost predicate NeverDeniedAsQuery(q: Name) {
    forall z: NsecZone, rec: RR :: z.Readable() && z.Contains(rec) && rec.data.NsecData? && z.IsOwner(q) ==>
      !Covers(Canonical(z.apex), rec, q)
  }

  /** And a query for an existing name is never denied if and only if it is spelled faithfully. */
  lemma NeverDeniedAsQueryIff(q: Name)
    requires ProperName(q) && q != ROOT
    ensures NeverDeniedAsQuery(q) <==> FaithfulName(q)
  {
    if FaithfulName(q) {
      forall z: NsecZone, rec: RR | z.Readable() && z.Contains(rec) && rec.data.NsecData? && z.IsOwner(q)
        ensures !Covers(Canonical(z.apex), rec, q)
      {
        OwnerIsNotCovered(z, rec, q);
      }
    } else {
      var a := Respelled(q);
      RespelledIsSame(q);
      MisreadName(q);
      CanonicalCmpIsTotalPreorder(q, a, q);
      FaithfulNameIsProper(a);
      RootAndIsGenuine(a);
      OctetOrderIsTotalPreorder(a, q, q);
      var rec := OneRecordCovers(a, q);
      var z := RootAnd(a);
      assert z.owners[1] == a;
      assert z.Readable() && z.IsOwner(q);
    }
  }

  // ---------------------------------------------------------------- inputs that show it

  /** Labels of one octet that is printable, neither upper-case nor a backslash. */
  predicate Simple(n: Name) {
    forall i :: 0 <= i < |n| ==> |n[i]| == 1 && n[i][0] != BACKSLASH && !IsUpper(n[i][0]) && n[i][0] < 128
  }

  lemma SimpleLabel(l: Label)
    requires |l| == 1 && l[0] != BACKSLASH && !IsUpper(l[0]) && l[0] < 128
    ensures LowerLabel(l) == l && Faithful(l, 0) && Wire(l, 0) == l && LabelKey(l) == l
  {
    assert Faithful(l, 1) && Wire(l, 1) == [];
    assert BACKSLASH !in l;
  }

  lemma SimpleKey(n: Name)
    requires Simple(n)
    ensures NameKey(n) == n && Canonical(n) == n && OctetKey(n) == n && FaithfulName(n) && ProperName(n)
  {
    forall i | 0 <= i < |n|
      ensures NameKey(n)[i] == n[i] && Canonical(n)[i] == n[i] && OctetKey(n)[i] == n[i] && Faithful(n[i], 0)
    {
      SimpleLabel(n[i]);
    }
    FaithfulNameIsProper(n);
  }

  /** Simple names that agree up to label `k` compare by that label's octet. */
  lemma SimpleCompare(a: Name, b: Name, k: nat)
    requires Simple(a) && Simple(b) && k < |a| && k < |b| && a[..k] == b[..k] && a[k][0] < b[k][0]
    ensures CanonicalCmp(a, b) < 0 && OctetOrder(a, b) < 0
  {
    SimpleKey(a);
    SimpleKey(b);
    assert CompareBytes(a[k], b[k]) < 0;
    CompareLabelAt(NameKey(a), NameKey(b), k);
    CanonicalCmpIsOctetOrder(a, b);
  }

  lemma SimpleAncestor(a: Name, b: Name)
    requires Simple(a) && Simple(b) && a < b
    ensures CanonicalCmp(a, b) < 0 && OctetOrder(a, b) < 0 && OctetUnder(a, b)
  {
    SimpleKey(a);
    SimpleKey(b);
    AncestorSortsFirst(a, b);
    CanonicalCmpIsOctetOrder(a, b);
  }

  lemma ThreeOwners(a: Name, b: Name, c: Name, ta: seq<TypeCode>, tb: seq<TypeCode>, tc: seq<TypeCode>)
    requires ProperName(a) && ProperName(b) && ProperName(c)
    requires OctetOrder(a, b) < 0 && OctetOrder(b, c) < 0 && OctetOrder(a, c) < 0
    ensures NsecZone(a, [a, b, c], [ta, tb, tc]).Genuine()
    ensures NsecZone(a, [a, b, c], [ta, tb, tc]).IsOwner(b) && NsecZone(a, [a, b, c], [ta, tb, tc]).IsOwner(c)
  {
    var z := NsecZone(a, [a, b, c], [ta, tb, tc]);
    OctetOrderIsTotalPreorder(b, b, b);
    OctetOrderIsTotalPreorder(c, c, c);
    assert z.owners[1] == b && z.owners[2] == c;
  }

  lemma TwoOwners(a: Name, b: Name, ta: seq<TypeCode>, tb: seq<TypeCode>)
    requires ProperName(a) && ProperName(b) && OctetOrder(a, b) < 0
    ensures NsecZone(a, [a, b], [ta, tb]).Genuine() && NsecZone(a, [a, b], [ta, tb]).IsOwner(b)
  {
    var z := NsecZone(a, [a, b], [ta, tb]);
    OctetOrderIsTotalPreorder(b, b, b);
    assert z.owners[1] == b;
  }

  const APEX: Name := [[101]]
  const STAR: Name := [[101], ASTERISK]
  const PARENT: Name := [[101], [121]]
  const QNAME: Name := [[101], [121], [120]]

  /** The zone "e." with the owners "e." and "*.e.", and its record from "*.e." back to "e.". */
  function StarZone(): NsecZone {
    NsecZone(APEX, [APEX, STAR], [[TYPE_SOA], [TYPE_A]])
  }

  function StarRecord(): RR {
    RR(STAR, 60, NsecData(APEX, [TYPE_A]))
  }

  lemma StarZoneIsReadable()
    ensures StarZone().Readable() && ContainsAll(StarZone(), [StarRecord()]) && StarZone().IsOwner(STAR)
  {
    var z := StarZone();
    SimpleKey(APEX);
    SimpleKey(STAR);
    SimpleAncestor(APEX, STAR);
    TwoOwners(APEX, STAR, [TYPE_SOA], [TYPE_A]);
    assert z.RecordAt(1, StarRecord());
  }

  lemma StarIsEncloser()
    ensures ClosestEncloser(StarZone(), QNAME, 1) && SourceOfSynthesis(QNAME, 1) == STAR
  {
    var z := StarZone();
    SimpleKey(APEX);
    SimpleKey(STAR);
    SimpleKey(PARENT);
    SimpleKey(QNAME);
    assert QNAME[..1] == APEX && QNAME[..2] == PARENT && QNAME[..3] == QNAME;
    assert OctetUnder(APEX, z.owners[0]);
    assert STAR[1] != PARENT[1];
    assert !OctetUnder(PARENT, APEX) && !OctetUnder(PARENT, STAR) && !OctetUnder(QNAME, APEX) && !OctetUnder(QNAME, STAR);
    forall m | 1 < m <= |QNAME|
      ensures !z.Exists(QNAME[..m])
    {
      assert m == 2 || m == 3;
    }
  }

  lemma StarRecordDenies()
    ensures AllNsec([StarRecord()]) && NameDoesNotExistProof(APEX, [StarRecord()], QNAME)
  {
    SimpleKey(APEX);
    SimpleKey(QNAME);
    var w := WildcardOf(QNAME);
    assert w == [[101], [121], ASTERISK];
    SimpleCompare(STAR, QNAME, 1);
    SimpleCompare(STAR, w, 1);
    SingleProof(APEX, StarRecord(), QNAME);
  }

  lemma SingleProof(zone: Name, rec: RR, q: Name)
    requires rec.data.NsecData? && Canonical(q) == q && Covers(zone, rec, q) && Covers(zone, rec, WildcardOf(q))
    ensures AllNsec([rec]) && NameDoesNotExistProof(zone, [rec], q)
  {
    assert rec in [rec];
  }

  /**
   The wildcard at the closest encloser is not what the code looks at. Asked for "x.y.e." the zone
   would answer from "*.e.", yet its record for "*.e." passes as proof that there is no such name.
   */
  lemma NameErrorMissesWildcard()
    ensures var z, records := StarZone(), [StarRecord()];
      && z.Readable() && AllNsec(records) && ContainsAll(z, records)
      && NameDoesNotExistProof(APEX, records, QNAME)
      && ClosestEncloser(z, QNAME, 1) && z.IsOwner(SourceOfSynthesis(QNAME, 1))
  {
    StarZoneIsReadable();
    StarIsEncloser();
    StarRecordDenies();
  }

  const DEEP: Name := [[101], [97], [98]]
  const MIDDLE: Name := [[101], [97]]

  /** The record of an apex covers the name between it and a deeper owner, and the name exists. */
  lemma EmptyNonTerminal(a: Name, middle: Name, deep: Name) returns (z: NsecZone, rec: RR)
    requires FaithfulName(a) && FaithfulName(deep) && OctetOrder(a, deep) < 0 && OctetUnder(middle, deep)
    requires CanonicalCmp(a, middle) < 0 && CanonicalCmp(middle, deep) < 0
    ensures z.owners == [a, deep] && z.Readable() && z.RecordAt(0, rec) && Covers(Canonical(a), rec, middle) && z.Exists(middle)
  {
    z, rec := NsecZone(a, [a, deep], [[TYPE_SOA], [TYPE_A]]), RR(a, 60, NsecData(deep, [TYPE_SOA]));
    FaithfulNameIsProper(a);
    FaithfulNameIsProper(deep);
    TwoOwners(a, deep, [TYPE_SOA], [TYPE_A]);
    assert OctetUnder(middle, z.owners[1]);
  }

  /** In a zone with the owners "e." and "b.a.e." the apex record covers "a.e.", which exists. */
  lemma CoveredEmptyNonTerminal() returns (z: NsecZone, rec: RR)
    ensures z.owners == [APEX, DEEP] && z.Readable() && z.RecordAt(0, rec) && Covers(Canonical(APEX), rec, MIDDLE) && z.Exists(MIDDLE)
  {
    SimpleKey(APEX);
    SimpleKey(DEEP);
    SimpleAncestor(APEX, DEEP);
    SimpleAncestor(APEX, MIDDLE);
    SimpleAncestor(MIDDLE, DEEP);
    z, rec := EmptyNonTerminal(APEX, MIDDLE, DEEP);
  }

  const OTHER: Name := [[101], [98]]
  const CHILD: Name := [[101], [97], [120]]

  /** The record of a delegation covers a name below it and the wildcard beside that name. */
  lemma DelegatedName(a: Name, cut: Name, next: Name, n: Name) returns (z: NsecZone, rec: RR)
    requires FaithfulName(a) && FaithfulName(cut) && FaithfulName(next) && Canonical(n) == n
    requires OctetOrder(a, cut) < 0 && OctetOrder(cut, next) < 0 && OctetOrder(a, next) < 0 && OctetUnder(cut, n)
    requires CanonicalCmp(cut, n) < 0 && CanonicalCmp(n, next) < 0
    requires CanonicalCmp(cut, WildcardOf(n)) < 0 && CanonicalCmp(WildcardOf(n), next) < 0
    ensures z.owners == [a, cut, next] && z.Readable() && z.Contains(rec) && BelowCut(z, n)
    ensures AllNsec([rec]) && NameDoesNotExistProof(Canonical(a), [rec], n)
  {
    z := NsecZone(a, [a, cut, next], [[TYPE_SOA, TYPE_NS], [TYPE_NS], [TYPE_A]]);
    rec := RR(cut, 60, NsecData(next, [TYPE_NS]));
    FaithfulNameIsProper(a);
    FaithfulNameIsProper(cut);
    FaithfulNameIsProper(next);
    ThreeOwners(a, cut, next, [TYPE_SOA, TYPE_NS], [TYPE_NS], [TYPE_A]);
    RecordOf(z, 1, rec, cut, next);
    SingleProof(Canonical(a), rec, n);
    assert IsCut(z.types[1]) && OctetUnder(z.owners[1], n);
  }

  /** In a zone with the delegation "a.e." its record passes as proof that "x.a.e." does not exist. */
  lemma DelegationDeniesChild() returns (z: NsecZone, rec: RR)
    ensures z.owners == [APEX, MIDDLE, OTHER] && z.Readable() && z.Contains(rec) && BelowCut(z, CHILD)
    ensures AllNsec([rec]) && NameDoesNotExistProof(Canonical(APEX), [rec], CHILD)
  {
    DelegationOrder();
    ChildOrder();
    z, rec := DelegatedName(APEX, MIDDLE, OTHER, CHILD);
  }

  lemma DelegationOrder()
    ensures FaithfulName(APEX) && FaithfulName(MIDDLE) && FaithfulName(OTHER)
    ensures OctetOrder(APEX, MIDDLE) < 0 && OctetOrder(MIDDLE, OTHER) < 0 && OctetOrder(APEX, OTHER) < 0
  {
    SimpleKey(APEX);
    SimpleKey(MIDDLE);
    SimpleKey(OTHER);
    SimpleAncestor(APEX, MIDDLE);
    SimpleAncestor(APEX, OTHER);
    SimpleCompare(MIDDLE, OTHER, 1);
  }

  lemma ChildOrder()
    ensures Canonical(CHILD) == CHILD && OctetUnder(MIDDLE, CHILD)
    ensures CanonicalCmp(MIDDLE, CHILD) < 0 && CanonicalCmp(CHILD, OTHER) < 0
    ensures CanonicalCmp(MIDDLE, WildcardOf(CHILD)) < 0 && CanonicalCmp(WildcardOf(CHILD), OTHER) < 0
  {
    var w := WildcardOf(CHILD);
    SimpleKey(CHILD);
    assert w == [[101], [97], ASTERISK];
    SimpleAncestor(MIDDLE, CHILD);
    SimpleAncestor(MIDDLE, w);
    SimpleCompare(CHILD, OTHER, 1);
    SimpleCompare(w, OTHER, 1);
  }

  /** The octet 59 below "e.", as it is printed, and the octet 61. */
  const SEMICOLON: Name := [[101], [92, 59]]
  const EQUALS: Name := [[101], [61]]

  lemma SemicolonKeys()
    ensures NameKey(SEMICOLON) == [[101], [92, 59]] && OctetKey(SEMICOLON) == [[101], [59]]
    ensures Canonical(SEMICOLON) == SEMICOLON && ProperName(SEMICOLON)
  {
    var l := SEMICOLON[1];
    assert LowerLabel(l) == l;
    SimpleLabel(SEMICOLON[0]);
    FaithfulIsProper(SEMICOLON[0], 0);
    assert CharEscapeAt(l, 0) && Wire(l, 2) == [] && Proper(l, 2) && CodePoints(l, 2) == [] && CodePoints(l, 1) == [59];
    assert Wire(l, 0) == [59] && CodePoints(l, 0) == [92, 59] && l[0] == BACKSLASH;
    assert Utf8All([59]) == [59] && Utf8All(CodePoints(l, 0)) == [92, 59];
    assert LowerLabel([59]) == [59];
  }

  /** By octets the semicolon comes first, by the code the equals sign. */
  lemma SemicolonOrder()
    ensures OctetOrder(SEMICOLON, EQUALS) < 0 && CanonicalCmp(EQUALS, SEMICOLON) < 0 && OctetOrder(APEX, SEMICOLON) < 0
  {
    SemicolonKeys();
    SimpleKey(EQUALS);
    SimpleKey(APEX);
    assert CompareBytes([59], [61]) < 0 && CompareBytes([61], [92, 59]) < 0;
    CompareLabelAt(OctetKey(SEMICOLON), OctetKey(EQUALS), 1);
    CompareLabelAt(NameKey(EQUALS), NameKey(SEMICOLON), 1);
    CompareBytesIsTotalOrder();
    LexPrefixFirst(CompareBytes, OctetKey(APEX), OctetKey(SEMICOLON));
  }

  /** Of two owners the code takes in the wrong order, the record before them denies the second. */
  lemma MisorderedOwners(a: Name, b: Name, c: Name) returns (z: NsecZone, rec: RR)
    requires ProperName(a) && ProperName(b) && ProperName(c) && Canonical(c) == c
    requires OctetOrder(a, b) < 0 && OctetOrder(b, c) < 0 && OctetOrder(a, c) < 0
    requires CanonicalCmp(a, c) < 0 && CanonicalCmp(c, b) < 0
    requires CanonicalCmp(a, WildcardOf(c)) < 0 && CanonicalCmp(WildcardOf(c), b) < 0
    ensures z.owners == [a, b, c] && z.Genuine() && z.Contains(rec) && z.IsOwner(c)
    ensures AllNsec([rec]) && NameDoesNotExistProof(Canonical(a), [rec], c)
  {
    z := NsecZone(a, [a, b, c], [[TYPE_SOA], [TYPE_A], [TYPE_A]]);
    rec := RR(a, 60, NsecData(b, [TYPE_SOA]));
    ThreeOwners(a, b, c, [TYPE_SOA], [TYPE_A], [TYPE_A]);
    RecordOf(z, 0, rec, a, b);
    SingleProof(Canonical(a), rec, c);
  }

  /**
   A genuine zone with the owners "e.", "\;.e." and "=.e.": its record from "e." to "\;.e." passes
   as proof that "=.e." does not exist.
   */
  lemma EscapedOwnerDeniesNeighbour() returns (z: NsecZone, rec: RR)
    ensures z.owners == [APEX, SEMICOLON, EQUALS] && z.Genuine() && z.Contains(rec) && z.IsOwner(EQUALS)
    ensures AllNsec([rec]) && NameDoesNotExistProof(Canonical(APEX), [rec], EQUALS)
  {
    SimpleKey(APEX);
    SimpleKey(EQUALS);
    SemicolonKeys();
    SemicolonOrder();
    SimpleAncestor(APEX, EQUALS);
    assert WildcardOf(EQUALS) == STAR;
    SimpleAncestor(APEX, STAR);
    SimpleCompare(STAR, EQUALS, 1);
    CanonicalCmpIsTotalPreorder(STAR, EQUALS, SEMICOLON);
    z, rec := MisorderedOwners(APEX, SEMICOLON, EQUALS);
  }
}
