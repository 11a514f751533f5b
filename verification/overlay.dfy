/** The right-biased overlays of internal/admin/indexer_effective.go. Every list
    field of a component is overlaid by one loop: a `positions` map remembers
    where a key lives, an equal key overwrites its slot in place and a new key
    is appended. */
module Overlay {
  import opened AdminModel

  /** How one list field is keyed and how an overwritten entry inherits. */
  datatype Policy<!T> = Policy(key: T -> string, merge: (T, T) -> T, skipEmpty: bool)

  /** Index of the last entry with key `k`, or -1. */
  function Position<T>(list: seq<T>, p: Policy<T>, k: string): (i: int)
    ensures -1 <= i < |list|
    ensures i >= 0 ==> p.key(list[i]) == k
    ensures forall j :: i < j < |list| ==> p.key(list[j]) != k
  {
    if list == [] then -1
    else if p.key(list[|list| - 1]) == k then |list| - 1
    else Position(list[..|list| - 1], p, k)
  }

  function Lookup<T>(list: seq<T>, p: Policy<T>, k: string): Option<T> {
    var i := Position(list, p, k);
    if i < 0 then None else Some(list[i])
  }

  function Keys<T>(list: seq<T>, p: Policy<T>): (keys: seq<string>)
    ensures |keys| == |list|
    ensures forall i :: 0 <= i < |list| ==> keys[i] == p.key(list[i])
  {
    seq(|list|, i requires 0 <= i < |list| => p.key(list[i]))
  }

  ghost predicate UniqueKeys<T>(list: seq<T>, p: Policy<T>) {
    forall i, j :: 0 <= i < j < |list| ==> p.key(list[i]) != p.key(list[j])
  }

  /** One overlay entry laid on a list. */
  function Put<T>(list: seq<T>, p: Policy<T>, x: T): seq<T> {
    if p.skipEmpty && p.key(x) == "" then list
    else
      var i := Position(list, p, p.key(x));
      if i >= 0 then list[i := p.merge(list[i], x)] else list + [x]
  }

  function Lay<T>(base: seq<T>, overlay: seq<T>, p: Policy<T>): seq<T> {
    if overlay == [] then base
    else Put(Lay(base, overlay[..|overlay| - 1], p), p, overlay[|overlay| - 1])
  }

  /** The map holds exactly the keys of the list, each at its last index. */
  ghost predicate Indexes<T>(positions: map<string, int>, list: seq<T>, p: Policy<T>) {
    forall k :: (k in positions <==> Position(list, p, k) >= 0) && (k in positions ==> positions[k] == Position(list, p, k))
  }

  /** The `positions` map a base list starts with. */
  method IndexPositions<T>(list: seq<T>, p: Policy<T>) returns (positions: map<string, int>)
    ensures Indexes(positions, list, p)
  {
    positions := map[];
    for index := 0 to |list|
      invariant Indexes(positions, list[..index], p)
    {
      positions := positions[p.key(list[index]) := index];
      assert list[..index + 1][..index] == list[..index];
    }
    assert list[..|list|] == list;
  }

  /** The loop shared by overlayProps, overlayNames, overlayLocalComponents,
      overlayLocalDirectives, overlayMembers, overlaySlots, overlayEvents,
      overlayBlocks and overlayBlockScopeMembers. */
  method OverlayLoop<T(!new)>(base: seq<T>, overlay: seq<T>, p: Policy<T>) returns (result: seq<T>)
    requires KeyStable(p)
    ensures result == Lay(base, overlay, p)
  {
    result := base;
    var positions := IndexPositions(base, p);
    for n := 0 to |overlay|
      invariant result == Lay(base, overlay[..n], p)
      invariant Indexes(positions, result, p)
    {
      var x := overlay[n];
      var k := p.key(x);
      assert overlay[..n + 1][..n] == overlay[..n];
      PutIndexes(positions, result, p, x);
      if p.skipEmpty && k == "" {
        continue;
      }
      if k in positions {
        result := result[positions[k] := p.merge(result[positions[k]], x)];
      } else {
        positions := positions[k := |result|];
        result := result + [x];
      }
    }
    assert overlay[..|overlay|] == overlay;
  }

  lemma PutIndexes<T(!new)>(positions: map<string, int>, list: seq<T>, p: Policy<T>, x: T)
    requires KeyStable(p) && Indexes(positions, list, p)
    ensures !(p.skipEmpty && p.key(x) == "") ==>
              Indexes(if p.key(x) in positions then positions else positions[p.key(x) := |list|], Put(list, p, x), p)
  {
    if !(p.skipEmpty && p.key(x) == "") {
      forall q ensures Position(Put(list, p, x), p, q)
                    == if Position(list, p, p.key(x)) < 0 && q == p.key(x) then |list| else Position(list, p, q) {
        PutPosition(list, p, x, q);
      }
    }
  }

  lemma PositionIs<T>(list: seq<T>, p: Policy<T>, k: string, i: int)
    requires -1 <= i < |list|
    requires i >= 0 ==> p.key(list[i]) == k
    requires forall j :: i < j < |list| ==> p.key(list[j]) != k
    ensures Position(list, p, k) == i
  {
  }

  lemma PutPosition<T(!new)>(list: seq<T>, p: Policy<T>, x: T, q: string)
    requires !(p.skipEmpty && p.key(x) == "")
    requires KeyStable(p)
    ensures Position(Put(list, p, x), p, q)
         == if Position(list, p, p.key(x)) < 0 && q == p.key(x) then |list| else Position(list, p, q)
  {
    var i := Position(list, p, p.key(x));
    var put := Put(list, p, x);
    if i < 0 {
      PositionIs(put, p, q, if q == p.key(x) then |list| else Position(list, p, q));
    } else {
      PositionIs(put, p, q, Position(list, p, q));
    }
  }

  // ---- What an overlay means: keys in first-seen order, keyed lookup a merge.

  /** Overwriting never changes the key an entry is filed under. */
  ghost predicate KeyStable<T(!new)>(p: Policy<T>) {
    forall x, y {:trigger p.merge(x, y)} :: p.key(x) == p.key(y) ==> p.key(p.merge(x, y)) == p.key(y)
  }

  /** The keys an overlay appends: in overlay order, once each, not already in the base. */
  function NewKeys(base: seq<string>, keys: seq<string>, skipEmpty: bool): seq<string> {
    if keys == [] then []
    else
      var init, k := keys[..|keys| - 1], keys[|keys| - 1];
      NewKeys(base, init, skipEmpty) + if k in base || k in init || (skipEmpty && k == "") then [] else [k]
  }

  lemma {:induction false} NewKeysMember(base: seq<string>, keys: seq<string>, skipEmpty: bool, k: string)
    ensures k in NewKeys(base, keys, skipEmpty) <==> k in keys && k !in base && !(skipEmpty && k == "")
  {
    if keys != [] {
      var init, z := keys[..|keys| - 1], keys[|keys| - 1];
      assert keys == init + [z];
      NewKeysMember(base, init, skipEmpty, k);
    }
  }

  function Join<T>(p: Policy<T>, base: Option<T>, overlay: Option<T>): Option<T> {
    match (base, overlay)
    case (None, _) => overlay
    case (_, None) => base
    case (Some(x), Some(y)) => Some(p.merge(x, y))
  }

  lemma PositionInKeys<T>(list: seq<T>, p: Policy<T>, k: string)
    ensures Position(list, p, k) >= 0 <==> k in Keys(list, p)
  {
    var i := Position(list, p, k);
    if i >= 0 {
      assert Keys(list, p)[i] == k;
    }
  }

  lemma {:induction false} LayKeys<T(!new)>(base: seq<T>, overlay: seq<T>, p: Policy<T>)
    requires KeyStable(p)
    ensures Keys(Lay(base, overlay, p), p) == Keys(base, p) + NewKeys(Keys(base, p), Keys(overlay, p), p.skipEmpty)
  {
    if overlay != [] {
      var init, x := overlay[..|overlay| - 1], overlay[|overlay| - 1];
      LayKeys(base, init, p);
      assert Keys(overlay, p) == Keys(init, p) + [p.key(x)];
      assert Keys(overlay, p)[..|overlay| - 1] == Keys(init, p);
      PutKeys(Lay(base, init, p), p, x);
      NewKeysMember(Keys(base, p), Keys(init, p), p.skipEmpty, p.key(x));
      if p.key(x) in Keys(base, p) || p.key(x) in Keys(init, p) || (p.skipEmpty && p.key(x) == "") {
        NewKeysSkip(Keys(base, p), Keys(init, p), p.key(x), p.skipEmpty);
      } else {
        NewKeysAdd(Keys(base, p), Keys(init, p), p.key(x), p.skipEmpty);
      }
    } else {
      assert Keys(base, p) + [] == Keys(base, p);
    }
  }

  lemma PutKeys<T(!new)>(list: seq<T>, p: Policy<T>, x: T)
    requires KeyStable(p)
    ensures Keys(Put(list, p, x), p)
         == Keys(list, p) + if p.key(x) in Keys(list, p) || (p.skipEmpty && p.key(x) == "") then [] else [p.key(x)]
  {
    PositionInKeys(list, p, p.key(x));
  }

  lemma {:induction false} NewKeysUnique(base: seq<string>, keys: seq<string>, skipEmpty: bool, i: nat, j: nat)
    requires i < j < |NewKeys(base, keys, skipEmpty)|
    ensures NewKeys(base, keys, skipEmpty)[i] != NewKeys(base, keys, skipEmpty)[j]
    ensures NewKeys(base, keys, skipEmpty)[j] !in base
  {
    var init, z := keys[..|keys| - 1], keys[|keys| - 1];
    var r := NewKeys(base, init, skipEmpty);
    if j < |r| {
      NewKeysUnique(base, init, skipEmpty, i, j);
    } else {
      NewKeysMember(base, init, skipEmpty, z);
      assert r[i] in r;
    }
  }

  /** An overlay never creates a duplicate key. */
  lemma LayUnique<T(!new)>(base: seq<T>, overlay: seq<T>, p: Policy<T>)
    requires KeyStable(p) && UniqueKeys(base, p)
    ensures UniqueKeys(Lay(base, overlay, p), p)
  {
    LayKeys(base, overlay, p);
    var r, keys := Lay(base, overlay, p), Keys(Lay(base, overlay, p), p);
    var added := NewKeys(Keys(base, p), Keys(overlay, p), p.skipEmpty);
    forall i, j | 0 <= i < j < |r| ensures p.key(r[i]) != p.key(r[j]) {
      assert keys[i] == p.key(r[i]) && keys[j] == p.key(r[j]);
      if j < |base| {
        assert keys[i] == p.key(base[i]) && keys[j] == p.key(base[j]);
      } else if i < |base| {
        assert keys[j] in added && keys[i] == Keys(base, p)[i];
        NewKeysMember(Keys(base, p), Keys(overlay, p), p.skipEmpty, keys[j]);
      } else {
        NewKeysUnique(Keys(base, p), Keys(overlay, p), p.skipEmpty, i - |base|, j - |base|);
      }
    }
  }

  lemma PutLookup<T(!new)>(list: seq<T>, p: Policy<T>, x: T, k: string)
    requires KeyStable(p)
    ensures Lookup(Put(list, p, x), p, k)
         == if p.key(x) != k || (p.skipEmpty && k == "") then Lookup(list, p, k)
            else Join(p, Lookup(list, p, k), Some(x))
  {
    if !(p.skipEmpty && p.key(x) == "") {
      PutPosition(list, p, x, k);
    }
  }

  lemma LookupAppend<T>(init: seq<T>, x: T, p: Policy<T>, k: string)
    ensures Lookup(init + [x], p, k) == if p.key(x) == k then Some(x) else Lookup(init, p, k)
  {
    PositionIs(init + [x], p, k, if p.key(x) == k then |init| else Position(init, p, k));
  }

  /** Looking a key up in an overlay is the right-biased merge of the two lookups. */
  lemma {:induction false} LayLookup<T(!new)>(base: seq<T>, overlay: seq<T>, p: Policy<T>, k: string)
    requires KeyStable(p) && UniqueKeys(overlay, p)
    ensures Lookup(Lay(base, overlay, p), p, k)
         == if p.skipEmpty && k == "" then Lookup(base, p, k)
            else Join(p, Lookup(base, p, k), Lookup(overlay, p, k))
  {
    if overlay != [] {
      var init, x := overlay[..|overlay| - 1], overlay[|overlay| - 1];
      assert init + [x] == overlay;
      assert UniqueKeys(init, p);
      LayLookup(base, init, p, k);
      PutLookup(Lay(base, init, p), p, x, k);
      LookupAppend(init, x, p, k);
      if p.key(x) == k {
        PositionIs(init, p, k, -1);
      }
    }
  }

  /** A list with unique keys is determined by its key order and its lookups. */
  lemma KeyedListsEqual<T>(x: seq<T>, y: seq<T>, p: Policy<T>)
    requires UniqueKeys(x, p) && Keys(x, p) == Keys(y, p)
    requires forall k :: Lookup(x, p, k) == Lookup(y, p, k)
    ensures x == y
  {
    assert |x| == |Keys(x, p)| == |Keys(y, p)| == |y|;
    forall i | 0 <= i < |x| ensures x[i] == y[i] {
      var k := p.key(x[i]);
      assert forall j :: 0 <= j < |y| ==> p.key(y[j]) == Keys(x, p)[j] == p.key(x[j]);
      PositionIs(x, p, k, i);
      PositionIs(y, p, k, i);
      assert Lookup(x, p, k) == Lookup(y, p, k);
    }
  }

  lemma {:induction false} NewKeysAssociative(a: seq<string>, b: seq<string>, c: seq<string>, s: bool)
    ensures NewKeys(a, b + NewKeys(b, c, s), s) == NewKeys(a, b, s) + NewKeys(a + NewKeys(a, b, s), c, s)
  {
    if c == [] {
      assert b + [] == b;
    } else {
      var init, z := c[..|c| - 1], c[|c| - 1];
      NewKeysAssociative(a, b, init, s);
      NewKeysAssociativeStep(a, b, init, z, s);
      assert c == init + [z];
    }
  }

  lemma NewKeysAssociativeStep(a: seq<string>, b: seq<string>, init: seq<string>, z: string, s: bool)
    requires NewKeys(a, b + NewKeys(b, init, s), s) == NewKeys(a, b, s) + NewKeys(a + NewKeys(a, b, s), init, s)
    ensures NewKeys(a, b + NewKeys(b, init + [z], s), s)
         == NewKeys(a, b, s) + NewKeys(a + NewKeys(a, b, s), init + [z], s)
  {
    NewKeysMember(a, b, s, z);
    NewKeysMember(b, init, s, z);
    var ab, n := NewKeys(a, b, s), NewKeys(b, init, s);
    var m := a + ab;
    if z in b || z in init || (s && z == "") {
      NewKeysSkip(b, init, z, s);
      assert z in m || z in init || (s && z == "");
      NewKeysSkip(m, init, z, s);
    } else {
      NewKeysAdd(b, init, z, s);
      assert z !in ab && z !in n;
      NewKeysAssociativeNewStep(a, b, n, ab, init, z, s);
    }
  }

  lemma NewKeysAssociativeNewStep(a: seq<string>, b: seq<string>, n: seq<string>, ab: seq<string>,
                                  init: seq<string>, z: string, s: bool)
    requires z !in b && z !in n && z !in ab && z !in init && !(s && z == "")
    requires NewKeys(a, b + n, s) == ab + NewKeys(a + ab, init, s)
    ensures NewKeys(a, b + (n + [z]), s) == ab + NewKeys(a + ab, init + [z], s)
  {
    hide NewKeys;
    assert b + (n + [z]) == (b + n) + [z];
    if z in a {
      NewKeysSkip(a, b + n, z, s);
      assert z in a + ab;
      NewKeysSkip(a + ab, init, z, s);
    } else {
      assert z !in b + n;
      NewKeysAdd(a, b + n, z, s);
      assert z !in a + ab;
      NewKeysAdd(a + ab, init, z, s);
      var q := NewKeys(a + ab, init, s);
      assert (ab + q) + [z] == ab + (q + [z]);
    }
  }

  lemma NewKeysSkip(a: seq<string>, keys: seq<string>, z: string, s: bool)
    requires z in a || z in keys || (s && z == "")
    ensures NewKeys(a, keys + [z], s) == NewKeys(a, keys, s)
  {
    assert (keys + [z])[..|keys|] == keys;
  }

  lemma NewKeysAdd(a: seq<string>, keys: seq<string>, z: string, s: bool)
    requires z !in a && z !in keys && !(s && z == "")
    ensures NewKeys(a, keys + [z], s) == NewKeys(a, keys, s) + [z]
  {
    assert (keys + [z])[..|keys|] == keys;
  }

  /** Merging three entries of one key gives one value, however it is bracketed. */
  ghost predicate Associates<T(!new)>(p: Policy<T>, a: seq<T>, b: seq<T>, c: seq<T>) {
    forall x, y, z {:trigger p.merge(p.merge(x, y), z)} :: x in a && y in b && z in c && p.key(x) == p.key(y) == p.key(z)
      ==> p.merge(p.merge(x, y), z) == p.merge(x, p.merge(y, z))
  }

  lemma LayKeysBracketed<T(!new)>(a: seq<T>, b: seq<T>, c: seq<T>, p: Policy<T>)
    requires KeyStable(p)
    ensures Keys(Lay(Lay(a, b, p), c, p), p) == Keys(Lay(a, Lay(b, c, p), p), p)
  {
    var ka, kb, kc, s := Keys(a, p), Keys(b, p), Keys(c, p), p.skipEmpty;
    assert Keys(Lay(Lay(a, b, p), c, p), p) == (ka + NewKeys(ka, kb, s)) + NewKeys(ka + NewKeys(ka, kb, s), kc, s) by {
      LayKeys(a, b, p);
      LayKeys(Lay(a, b, p), c, p);
    }
    assert Keys(Lay(a, Lay(b, c, p), p), p) == ka + NewKeys(ka, kb + NewKeys(kb, kc, s), s) by {
      LayKeys(b, c, p);
      LayKeys(a, Lay(b, c, p), p);
    }
    NewKeysAssociative(ka, kb, kc, s);
    assert (ka + NewKeys(ka, kb, s)) + NewKeys(ka + NewKeys(ka, kb, s), kc, s)
        == ka + (NewKeys(ka, kb, s) + NewKeys(ka + NewKeys(ka, kb, s), kc, s));
  }

  lemma LayLookupBracketed<T(!new)>(a: seq<T>, b: seq<T>, c: seq<T>, p: Policy<T>, k: string)
    requires KeyStable(p) && UniqueKeys(b, p) && UniqueKeys(c, p)
    requires Associates(p, a, b, c)
    ensures Lookup(Lay(Lay(a, b, p), c, p), p, k) == Lookup(Lay(a, Lay(b, c, p), p), p, k)
  {
    LayUnique(b, c, p);
    LayLookup(a, b, p, k);
    LayLookup(b, c, p, k);
    LayLookup(Lay(a, b, p), c, p, k);
    LayLookup(a, Lay(b, c, p), p, k);
    var i, j, n := Position(a, p, k), Position(b, p, k), Position(c, p, k);
    if i >= 0 && j >= 0 && n >= 0 {
      assert a[i] in a && b[j] in b && c[n] in c;
    }
  }

  /** Overlays of uniquely keyed lists may be bracketed either way. */
  lemma LayAssociative<T(!new)>(a: seq<T>, b: seq<T>, c: seq<T>, p: Policy<T>)
    requires KeyStable(p) && UniqueKeys(a, p) && UniqueKeys(b, p) && UniqueKeys(c, p)
    requires Associates(p, a, b, c)
    ensures Lay(Lay(a, b, p), c, p) == Lay(a, Lay(b, c, p), p)
  {
    var left, right := Lay(Lay(a, b, p), c, p), Lay(a, Lay(b, c, p), p);
    LayUnique(a, b, p);
    LayUnique(b, c, p);
    LayUnique(Lay(a, b, p), c, p);
    LayKeysBracketed(a, b, c, p);
    forall k ensures Lookup(left, p, k) == Lookup(right, p, k) {
      LayLookupBracketed(a, b, c, p, k);
    }
    KeyedListsEqual(left, right, p);
  }
}
