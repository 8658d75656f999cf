/**
 The store of zones whose name servers are known (zones.go, zone.go): a map from canonical names
 to zones, each naming its parent.
 */
module ZoneStore {
  import opened Collections
  import opened Names
  import opened Domain

  /** A known zone; the root has no parent. `pool` identifies its name servers. */
  datatype KnownZone = KnownZone(name: Name, parent: Option<Name>, pool: nat)

  /** The zone is filed under its own canonical name, strictly below its parent. */
  ghost predicate WellFiled(key: Name, z: KnownZone) {
    && z.name == key && Canonical(key) == key
    && (if key == ROOT then z.parent.None? else z.parent.Some? && IsProperSubDomain(z.parent.value, key))
  }

  ghost predicate GoodStore(zs: map<Name, KnownZone>) {
    ROOT in zs && forall k :: k in zs ==> WellFiled(k, zs[k])
  }

  predicate LiveAt(zs: map<Name, KnownZone>, name: Name, expired: KnownZone -> bool) {
    name in zs && !expired(zs[name])
  }

  /** Each zone's parent is the next one in the list. */
  ghost predicate ParentLinked(zones: seq<KnownZone>) {
    forall i :: 0 <= i < |zones| - 1 ==> zones[i].parent == Some(zones[i + 1].name)
  }

  /** The same, with the top-most zone first. */
  ghost predicate ChildLinked(zones: seq<KnownZone>) {
    forall i :: 0 < i < |zones| ==> zones[i].parent == Some(zones[i - 1].name)
  }

  /** The live zones among the ancestors of `name` with fewer than `depth` labels, from the root down. */
  function LiveZones(zs: map<Name, KnownZone>, name: Name, expired: KnownZone -> bool, depth: nat): seq<KnownZone>
    requires depth <= |name| + 1
  {
    if depth == 0 then []
    else
      var above := LiveZones(zs, name, expired, depth - 1);
      if LiveAt(zs, name[..depth - 1], expired) then above + [zs[name[..depth - 1]]] else above
  }

  /** A live zone whose parent is not the zone the list had reached. */
  ghost predicate CutsOff(zs: map<Name, KnownZone>, at: Name, expired: KnownZone -> bool, result: seq<KnownZone>) {
    result != [] && LiveAt(zs, at, expired) && zs[at].parent != Some(result[0].name)
  }

  ghost predicate LiveAncestor(zs: map<Name, KnownZone>, name: Name, expired: KnownZone -> bool, z: KnownZone) {
    IsSubDomain(z.name, name) && LiveAt(zs, z.name, expired) && zs[z.name] == z
  }

  lemma {:induction false} LiveZonesStartAtRoot(zs: map<Name, KnownZone>, name: Name, expired: KnownZone -> bool, depth: nat)
    requires GoodStore(zs) && !expired(zs[ROOT]) && depth <= |name| + 1
    ensures var chain := LiveZones(zs, name, expired, depth);
      && (depth > 0 ==> chain != [] && chain[0] == zs[ROOT])
      && (forall i :: 0 <= i < |chain| ==> LiveAncestor(zs, name, expired, chain[i]))
      && (forall k :: 0 <= k < depth && LiveAt(zs, name[..k], expired) ==> zs[name[..k]] in chain)
  {
    if depth > 0 {
      LiveZonesStartAtRoot(zs, name, expired, depth - 1);
      assert depth == 1 ==> name[..depth - 1] == ROOT;
      AncestorIsSubDomain(name, depth - 1);
      assert LiveAt(zs, name[..depth - 1], expired) ==> WellFiled(name[..depth - 1], zs[name[..depth - 1]]);
    }
  }

  /** The known live zones for a name, most specific first, up to the first that does not continue the list. */
  ghost predicate ListedFor(zs: map<Name, KnownZone>, qname: Name, expired: KnownZone -> bool, result: seq<KnownZone>, depth: nat) {
    && depth <= |qname| + 1 && Reversed(result) == LiveZones(zs, Canonical(qname), expired, depth)
    && ChildLinked(Reversed(result)) && (depth <= |qname| ==> CutsOff(zs, Canonical(qname)[..depth], expired, result))
  }

  /** A list of known zones is a parent-linked chain of live ancestors that ends at the root, and leaves none out above the cut. */
  lemma ZoneListEndsAtRoot(zs: map<Name, KnownZone>, qname: Name, expired: KnownZone -> bool, result: seq<KnownZone>, depth: nat)
    requires GoodStore(zs) && !expired(zs[ROOT]) && ListedFor(zs, qname, expired, result, depth)
    ensures result != [] && result[|result| - 1] == zs[ROOT] && ParentLinked(result)
    ensures forall i :: 0 <= i < |result| ==> LiveAncestor(zs, qname, expired, result[i])
    ensures forall k :: 0 <= k < depth && LiveAt(zs, Canonical(qname)[..k], expired) ==> zs[Canonical(qname)[..k]] in result
  {
    var chain := Reversed(result);
    LiveZonesStartAtRoot(zs, Canonical(qname), expired, depth);
    assert result[|result| - 1] == chain[0];
    CanonicalIdempotent(qname);
    forall i | 0 <= i < |result|
      ensures LiveAncestor(zs, qname, expired, result[i])
    {
      assert result[i] == chain[|result| - 1 - i];
    }
    forall i | 0 <= i < |result| - 1
      ensures result[i].parent == Some(result[i + 1].name)
    {
      var j := |result| - 1 - i;
      assert result[i] == chain[j] && result[i + 1] == chain[j - 1];
    }
  }

  class Zones {
    var zones: map<Name, KnownZone>

    constructor (root: KnownZone)
      requires root.name == ROOT && root.parent.None?
      ensures GoodStore(zones) && zones == map[ROOT := root]
    {
      zones := map[ROOT := root];
    }

    /**
     The known live zones for a name, the most specific first. `depth` is where the list was cut
     off: past the full name, or at a live zone that does not continue it.
     */
    method GetZoneList(qname: Name, expired: KnownZone -> bool) returns (result: seq<KnownZone>, ghost depth: nat)
      ensures ListedFor(zones, qname, expired, result, depth)
    {
      var name := Canonical(qname);
      var indexes := Reversed(SuffixLengths(name));
      var chain: seq<KnownZone> := [];
      var i := 0;
      while i < |indexes|
        invariant i <= |indexes|
        invariant chain == LiveZones(zones, name, expired, i) && ChildLinked(chain)
      {
        var zname := name[..indexes[i]];
        if zname in zones && !expired(zones[zname]) {
          var z := zones[zname];
          if chain != [] && z.parent != Some(chain[|chain| - 1].name) {
            break;
          }
          chain := chain + [z];
        }
        i := i + 1;
      }
      depth := i;
      result := Reversed(chain);
      ReversedTwice(chain);
    }

    method Get(name: Name, expired: KnownZone -> bool) returns (z: Option<KnownZone>)
      ensures z.Some? <==> LiveAt(zones, Canonical(name), expired)
      ensures z.Some? ==> z.value == zones[Canonical(name)]
    {
      var n := Canonical(name);
      if n in zones && !expired(zones[n]) {
        return Some(zones[n]);
      }
      return None;
    }

    /** Adding a zone that lies strictly below its parent keeps the store good and the root in place. */
    method Add(z: KnownZone)
      modifies this
      ensures zones == old(zones)[Canonical(z.name) := z]
      ensures old(GoodStore(zones)) && WellFiled(z.name, z) && z.name != ROOT ==> GoodStore(zones) && zones[ROOT] == old(zones)[ROOT]
    {
      zones := zones[Canonical(z.name) := z];
    }
  }

  lemma ReversedTwice<T>(s: seq<T>)
    ensures Reversed(Reversed(s)) == s
  {
  }

  /** The zone under which a missing zone is filed; `None` stands for the panic on an impossible child. */
  function Clone(z: KnownZone, name: Name, parent: Name): (r: Option<KnownZone>)
    ensures r.Some? <==> IsProperSubDomain(parent, name)
    ensures r.Some? ==> WellFiled(r.value.name, r.value) && r.value.name == Canonical(name) != ROOT && r.value.pool == z.pool
  {
    CanonicalIdempotent(name);
    CanonicalIdempotent(parent);
    if NamesEqual(name, parent) || !IsSubDomain(parent, name) then None
    else Some(KnownZone(Canonical(name), Some(Canonical(parent)), z.pool))
  }
}
