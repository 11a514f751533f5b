/** Which entry of each list an overlaid component keeps
    (internal/admin/indexer_effective.go:477-752). */
module OverlayFields {
  import opened AdminModel
  import opened Overlay
  import opened ComponentOverlay

  // ---- Any list.

  lemma LookupMember<T>(list: seq<T>, p: Policy<T>, z: T)
    requires UniqueKeys(list, p)
    ensures z in list <==> Lookup(list, p, p.key(z)) == Some(z)
    ensures forall k :: Lookup(list, p, k).None? <==> forall x :: x in list ==> p.key(x) != k
    ensures forall k :: Lookup(list, p, k).Some? ==> Lookup(list, p, k).value in list && p.key(Lookup(list, p, k).value) == k
  {
    if z in list {
      var i :| 0 <= i < |list| && list[i] == z;
      var j := Position(list, p, p.key(z));
      assert i == j;
    }
    forall k ensures Lookup(list, p, k).None? <==> forall x :: x in list ==> p.key(x) != k {
      var j := Position(list, p, k);
      if j >= 0 {
        assert list[j] in list;
      }
    }
  }

  /** An entry of the overlay as it comes to stand over the base. */
  ghost predicate LaidOver<T(!new)>(base: seq<T>, y: T, p: Policy<T>, z: T) {
    && (forall x :: x in base && p.key(x) == p.key(y) ==> z == p.merge(x, y))
    && ((forall x :: x in base ==> p.key(x) != p.key(y)) ==> z == y)
  }

  /** The overlaid list holds the overlay's entries, merged with the base's of their key, and the
      entries of the base whose key the overlay does not have. */
  lemma LayMember<T(!new)>(base: seq<T>, overlay: seq<T>, p: Policy<T>, z: T)
    requires KeyStable(p) && UniqueKeys(base, p) && UniqueKeys(overlay, p)
    ensures z in Lay(base, overlay, p) <==>
            || (z in base && ((p.skipEmpty && p.key(z) == "") || forall y :: y in overlay ==> p.key(y) != p.key(z)))
            || exists y :: y in overlay && p.key(y) == p.key(z) && !(p.skipEmpty && p.key(y) == "") && LaidOver(base, y, p, z)
  {
    var k := p.key(z);
    LayUnique(base, overlay, p);
    LookupMember(Lay(base, overlay, p), p, z);
    LookupMember(base, p, z);
    LookupMember(overlay, p, z);
    LayLookup(base, overlay, p, k);
    var under, over := Lookup(base, p, k), Lookup(overlay, p, k);
    if over.Some? && under.Some? {
      assert p.key(p.merge(under.value, over.value)) == k;
      assert forall x :: x in base && p.key(x) == k ==> x == under.value by { OneOfKey(base, p, k); }
    }
    if over.Some? {
      assert forall y :: y in overlay && p.key(y) == k ==> y == over.value by { OneOfKey(overlay, p, k); }
    }
  }

  lemma OneOfKey<T>(list: seq<T>, p: Policy<T>, k: string)
    requires UniqueKeys(list, p) && Lookup(list, p, k).Some?
    ensures forall x :: x in list && p.key(x) == k ==> x == Lookup(list, p, k).value
  {
    forall x | x in list && p.key(x) == k ensures x == Lookup(list, p, k).value {
      LookupMember(list, p, x);
    }
  }

  // ---- The lists of a component.

  function Either(over: string, under: string): string {
    if over != "" then over else under
  }

  /** A child's prop replaces its parent's. */
  lemma PropsKept(a: Component, b: Component, z: Prop)
    requires WellKeyed(a) && WellKeyed(b)
    ensures z in OverlayComponents(a, b).props <==> z in b.props || (z in a.props && forall y :: y in b.props ==> y.name != z.name)
  {
    PoliciesKeyStable();
    LayMember(a.props, b.props, PROPS, z);
    forall y | y in b.props ensures LaidOver(a.props, y, PROPS, y) {
    }
  }

  predicate SameMember(x: Member, y: Member) {
    x.kind == y.kind && x.name == y.name
  }

  lemma MemberKeyIff(x: Member, y: Member)
    ensures MemberKey(x) == MemberKey(y) <==> SameMember(x, y)
  {
    var a, b := KindName(x.kind), KindName(y.kind);
    if MemberKey(x) == MemberKey(y) {
      KindsDiffer(x.kind, y.kind);
      assert MemberKey(x)[0] == MemberKey(y)[0];
      assert MemberKey(x)[|a| + 1..] == x.name && MemberKey(y)[|b| + 1..] == y.name;
    }
  }

  lemma KindsDiffer(x: MemberKind, y: MemberKind)
    ensures KindName(x)[0] == KindName(y)[0] <==> x == y
  {
  }

  /** A member replaces the one of its kind and name, and keeps that one's deprecation if it has none. */
  lemma MembersKept(a: Component, b: Component, z: Member)
    requires WellKeyed(a) && WellKeyed(b)
    ensures z in OverlayComponents(a, b).members <==>
            || (z in a.members && forall y :: y in b.members ==> !SameMember(y, z))
            || exists y :: y in b.members && MemberOver(a.members, y, z)
  {
    hide Lay;
    PoliciesKeyStable();
    LayMember(a.members, b.members, MEMBERS, z);
    forall x, y ensures MemberKey(x) == MemberKey(y) <==> SameMember(x, y) {
      MemberKeyIff(x, y);
    }
    forall y | y in b.members ensures MemberOver(a.members, y, z) <==> SameMember(y, z) && LaidOver(a.members, y, MEMBERS, z) {
    }
  }

  predicate MemberOver(base: seq<Member>, y: Member, z: Member) {
    && SameMember(y, z)
    && (forall x :: x in base && SameMember(x, y) ==> z == y.(deprecated := Either(y.deprecated, x.deprecated)))
    && ((forall x :: x in base ==> !SameMember(x, y)) ==> z == y)
  }

  /** Events are the same under their attribute name; an unnamed one is not laid. */
  predicate EventOver(base: seq<Event>, y: Event, z: Event) {
    && CamelToKebab(y.name) == CamelToKebab(z.name)
    && (forall x :: x in base && CamelToKebab(x.name) == CamelToKebab(y.name) ==>
          z == y.(documentation := Either(y.documentation, x.documentation), eventType := Either(y.eventType, x.eventType),
                  filePath := Either(y.filePath, x.filePath), line := if y.line != 0 then y.line else x.line,
                  nameRange := if y.nameRange != NO_RANGE then y.nameRange else x.nameRange))
    && ((forall x :: x in base ==> CamelToKebab(x.name) != CamelToKebab(y.name)) ==> z == y)
  }

  lemma EventsKept(a: Component, b: Component, z: Event)
    requires WellKeyed(a) && WellKeyed(b)
    ensures z in OverlayComponents(a, b).events <==>
            || (z in a.events && (CamelToKebab(z.name) == "" || forall y :: y in b.events ==> CamelToKebab(y.name) != CamelToKebab(z.name)))
            || exists y :: y in b.events && CamelToKebab(y.name) != "" && EventOver(a.events, y, z)
  {
    hide Upper, Lay, CamelToKebab;
    PoliciesKeyStable();
    LayMember(a.events, b.events, EVENTS, z);
    forall y | y in b.events
      ensures EventOver(a.events, y, z) <==> CamelToKebab(y.name) == CamelToKebab(z.name) && LaidOver(a.events, y, EVENTS, z)
    {
    }
  }

  /** Local components and directives are the same whatever the case of their names. */
  lemma LocalsKept(a: Component, b: Component, z: LocalEntry)
    requires WellKeyed(a) && WellKeyed(b)
    ensures z in OverlayComponents(a, b).localComponents <==>
            || (z in a.localComponents && (z.name == "" || forall y :: y in b.localComponents ==> ToLower(y.name) != ToLower(z.name)))
            || (z in b.localComponents && z.name != "")
    ensures z in OverlayComponents(a, b).localDirectives <==>
            || (z in a.localDirectives && (z.name == "" || forall y :: y in b.localDirectives ==> ToLower(y.name) != ToLower(z.name)))
            || (z in b.localDirectives && z.name != "")
  {
    PoliciesKeyStable();
    LayMember(a.localComponents, b.localComponents, LOCALS, z);
    LayMember(a.localDirectives, b.localDirectives, LOCALS, z);
    assert ToLower(z.name) == "" <==> z.name == "";
    forall y | y in b.localComponents ensures LaidOver(a.localComponents, y, LOCALS, z) <==> z == y {
      assert (forall x :: x in a.localComponents ==> ToLower(x.name) != ToLower(y.name))
          || exists x :: x in a.localComponents && ToLower(x.name) == ToLower(y.name);
    }
    forall y | y in b.localDirectives ensures LaidOver(a.localDirectives, y, LOCALS, z) <==> z == y {
      assert (forall x :: x in a.localDirectives ==> ToLower(x.name) != ToLower(y.name))
          || exists x :: x in a.localDirectives && ToLower(x.name) == ToLower(y.name);
    }
  }

  /** A block keeps the older deprecation and the scope members of both. */
  ghost predicate BlockOver(base: seq<Block>, y: Block, z: Block) {
    && y.name == z.name
    && (forall x :: x in base && x.name == y.name ==>
          && z.deprecated == Either(y.deprecated, x.deprecated) && z.line == y.line && z.filePath == y.filePath
          && (forall m :: m in z.scopeMembers <==>
                || (m in y.scopeMembers && m.name != "")
                || (m in x.scopeMembers && (m.name == "" || forall n :: n in y.scopeMembers ==> n.name != m.name))))
    && ((forall x :: x in base ==> x.name != y.name) ==> z == y)
  }

  lemma ScopeMembersKept(x: seq<ScopeMember>, y: seq<ScopeMember>, m: ScopeMember)
    requires UniqueKeys(x, SCOPE_MEMBERS) && UniqueKeys(y, SCOPE_MEMBERS)
    ensures m in Lay(x, y, SCOPE_MEMBERS) <==>
            || (m in y && m.name != "")
            || (m in x && (m.name == "" || forall n :: n in y ==> n.name != m.name))
  {
    PoliciesKeyStable();
    LayMember(x, y, SCOPE_MEMBERS, m);
    forall n | n in y ensures LaidOver(x, n, SCOPE_MEMBERS, m) <==> m == n {
      assert (forall w :: w in x ==> w.name != n.name) || exists w :: w in x && w.name == n.name;
    }
  }

  lemma BlocksKept(a: Component, b: Component, z: Block)
    requires WellKeyed(a) && WellKeyed(b) && z in OverlayComponents(a, b).blocks
    ensures (z in a.blocks && forall y :: y in b.blocks ==> y.name != z.name) || exists y :: y in b.blocks && BlockOver(a.blocks, y, z)
  {
    PoliciesKeyStable();
    LayMember(a.blocks, b.blocks, BLOCKS, z);
    if y :| y in b.blocks && y.name == z.name && LaidOver(a.blocks, y, BLOCKS, z) {
      forall x | x in a.blocks && x.name == y.name
        ensures forall m :: m in z.scopeMembers <==>
                  || (m in y.scopeMembers && m.name != "")
                  || (m in x.scopeMembers && (m.name == "" || forall n :: n in y.scopeMembers ==> n.name != m.name))
      {
        assert z == MergeBlock(x, y);
        forall m ensures m in z.scopeMembers <==>
                         || (m in y.scopeMembers && m.name != "")
                         || (m in x.scopeMembers && (m.name == "" || forall n :: n in y.scopeMembers ==> n.name != m.name))
        {
          ScopeMembersKept(x.scopeMembers, y.scopeMembers, m);
        }
      }
      assert BlockOver(a.blocks, y, z);
    }
  }

  /** Every block of both is there, under its name. */
  lemma BlocksNamed(a: Component, b: Component, name: string)
    requires WellKeyed(a) && WellKeyed(b)
    ensures (exists z :: z in OverlayComponents(a, b).blocks && z.name == name)
       <==> exists y :: (y in a.blocks || y in b.blocks) && y.name == name
  {
    PoliciesKeyStable();
    LayUnique(a.blocks, b.blocks, BLOCKS);
    LayLookup(a.blocks, b.blocks, BLOCKS, name);
    if z :| z in OverlayComponents(a, b).blocks && z.name == name {
      LookupMember(OverlayComponents(a, b).blocks, BLOCKS, z);
      LookupMember(a.blocks, BLOCKS, z);
      LookupMember(b.blocks, BLOCKS, z);
    }
    if y :| (y in a.blocks || y in b.blocks) && y.name == name {
      LookupMember(OverlayComponents(a, b).blocks, BLOCKS, y);
      LookupMember(a.blocks, BLOCKS, y);
      LookupMember(b.blocks, BLOCKS, y);
    }
  }

  // ---- Slots, name lists and assignments.

  /** Without NUL in their names, slots are the same when both are named alike, or when both are
      dynamic with the same prefix and suffix. */
  predicate SameSlot(x: Slot, y: Slot) {
    if x.name != "" then x.name == y.name
    else y.name == "" && x.namePrefix == y.namePrefix && x.nameSuffix == y.nameSuffix
  }

  predicate Printable(s: Slot) {
    '\0' !in s.namePrefix
  }

  lemma SlotKeyIff(x: Slot, y: Slot)
    requires Printable(x) && Printable(y)
    ensures SlotKey(x) == SlotKey(y) <==> SameSlot(x, y)
  {
    if SlotKey(x) == SlotKey(y) {
      assert SlotKey(x)[0] == SlotKey(y)[0];
      if x.name != "" {
        assert SlotKey(x)[6..] == x.name && SlotKey(y)[6..] == y.name;
      } else {
        var p, q := x.namePrefix + ['\0'] + x.nameSuffix, y.namePrefix + ['\0'] + y.nameSuffix;
        assert SlotKey(x) == "dynamic\0" + p && SlotKey(y) == "dynamic\0" + q;
        assert SlotKey(x)[8..] == p && SlotKey(y)[8..] == q;
        CutAtNul(x.namePrefix, x.nameSuffix, y.namePrefix, y.nameSuffix);
      }
    }
  }

  lemma CutAtNul(a: string, b: string, c: string, d: string)
    requires '\0' !in a && '\0' !in c && a + ['\0'] + b == c + ['\0'] + d
    ensures a == c && b == d
  {
    var t, u := a + ['\0'] + b, c + ['\0'] + d;
    assert t[|a|] == '\0' && u[|c|] == '\0';
    assert forall i :: 0 <= i < |a| ==> t[i] == a[i] && a[i] in a;
    assert forall i :: 0 <= i < |c| ==> u[i] == c[i] && c[i] in c;
    assert |a| == |c|;
    assert t[..|a|] == a && u[..|c|] == c && t[|a| + 1..] == b && u[|c| + 1..] == d;
  }

  /** A slot takes over the older line and file where it has none, and the older range only within the
      same file. */
  predicate SlotOver(base: seq<Slot>, y: Slot, z: Slot) {
    && SameSlot(y, z)
    && (forall x :: x in base && SameSlot(x, y) ==>
          z == y.(filePath := Either(y.filePath, x.filePath), line := if y.line != 0 then y.line else x.line,
                  nameRange := if y.nameRange == NO_RANGE && (y.filePath == "" || y.filePath == x.filePath) then x.nameRange
                               else y.nameRange))
    && ((forall x :: x in base ==> !SameSlot(x, y)) ==> z == y)
  }

  lemma SlotsKept(a: Component, b: Component, z: Slot)
    requires WellKeyed(a) && WellKeyed(b) && Printable(z)
    requires (forall x :: x in a.slots ==> Printable(x)) && forall y :: y in b.slots ==> Printable(y)
    ensures z in OverlayComponents(a, b).slots <==>
            || (z in a.slots && forall y :: y in b.slots ==> !SameSlot(y, z))
            || exists y :: y in b.slots && SlotOver(a.slots, y, z)
  {
    hide Lay;
    PoliciesKeyStable();
    LayMember(a.slots, b.slots, SLOTS, z);
    forall x, y | Printable(x) && Printable(y) ensures SlotKey(x) == SlotKey(y) <==> SameSlot(x, y) {
      SlotKeyIff(x, y);
    }
    forall y | y in b.slots ensures SlotOver(a.slots, y, z) <==> SameSlot(y, z) && LaidOver(a.slots, y, SLOTS, z) {
    }
  }

  /** The names of both lists, the base's first, without empty names; nothing of the base is lost. */
  predicate KeepsNames(base: seq<string>, overlay: seq<string>, laid: seq<string>) {
    base <= laid && (set z | z in laid) == (set z | z in base) + (set z | z in overlay && z != "")
  }

  lemma NamesKept(base: seq<string>, overlay: seq<string>)
    ensures KeepsNames(base, overlay, Lay(base, overlay, NAMES))
  {
    PoliciesKeyStable();
    NameKeys(base);
    NameKeys(overlay);
    NameKeys(Lay(base, overlay, NAMES));
    LayKeys(base, overlay, NAMES);
    forall z ensures z in Lay(base, overlay, NAMES) <==> z in base || (z in overlay && z != "") {
      NewKeysMember(base, overlay, true, z);
    }
  }

  lemma NameKeys(list: seq<string>)
    ensures Keys(list, NAMES) == list
  {
  }

  /** The six name lists, and the assignments one after the other. */
  lemma PlainListsKept(a: Component, b: Component)
    ensures var c := OverlayComponents(a, b);
            && c.assignments == a.assignments + b.assignments
            && KeepsNames(a.emits, b.emits, c.emits) && KeepsNames(a.methods, b.methods, c.methods)
            && KeepsNames(a.computed, b.computed, c.computed) && KeepsNames(a.data, b.data, c.data)
            && KeepsNames(a.injected, b.injected, c.injected) && KeepsNames(a.mixins, b.mixins, c.mixins)
  {
    hide Lay, KeepsNames;
    NamesKept(a.emits, b.emits);
    NamesKept(a.methods, b.methods);
    NamesKept(a.computed, b.computed);
    NamesKept(a.data, b.data);
    NamesKept(a.injected, b.injected);
    NamesKept(a.mixins, b.mixins);
  }

  /** What an overlay leaves open stays as it is in the base: its kind, its line, and whether members
      may come at run time. */
  lemma OriginKept(a: Component, b: Component)
    ensures var c := OverlayComponents(a, b);
            && (c.kind == b.kind || (b.kind == Unspecified && c.kind == a.kind))
            && (c.line == b.line || (b.line == 0 && c.line == a.line))
            && (b.kind == Unspecified ==> c.kind == a.kind) && (b.line == 0 ==> c.line == a.line)
            && (c.openRuntimeMembers <==> a.openRuntimeMembers || b.openRuntimeMembers)
            && c.inlineDefinition == a.inlineDefinition
  {
    hide Lay;
  }
}
