/** Open editor documents over the persisted index: internal/admin/live_vue.go.
    An open file replaces everything the persisted index holds for its path.
    Paths are taken in the cleaned form the index stores. */
module LiveView {
  import opened AdminModel

  datatype LegacyDocument = LegacyDocument(
    definition: Option<Definition>, registrations: seq<Component>, mixins: seq<Mixin>)

  datatype Template = Template(slots: seq<Slot>, blocks: seq<Block>)

  datatype StoredDefinition = StoredDefinition(key: string, definition: Definition)

  /** Everything an effective component is computed from: the persisted repositories
      (in index order) and the live document maps. */
  datatype Documents = Documents(
    components: seq<Component>, definitions: seq<StoredDefinition>, mixins: seq<Mixin>, typeFiles: map<string, string>,
    readTypes: map<string, string> -> TypeIndex,
    liveLegacy: map<string, LegacyDocument>, liveTwig: map<string, Template>, liveTypes: map<string, string>)
  {
    /** What the type inference reads: an open TypeScript file replaces the persisted one. */
    function Types(): TypeIndex {
      readTypes(typeFiles + liveTypes)
    }
  }

  datatype Edit =
    | UpdateTs(path: string, types: string, root: Option<LegacyDocument>)
    | UpdateJs(path: string, root: Option<LegacyDocument>)
    | UpdateTwig(path: string, template: Option<Template>)
    | Close(path: string)

  const SOURCE_MARKER := "/Resources/app/administration/src/"

  predicate Contains(text: string, part: string) {
    exists i :: 0 <= i <= |text| && part <= text[i..]
  }

  predicate IsAdministrationSourcePath(path: string) {
    Contains(path, SOURCE_MARKER)
  }

  /** Edits that return before touching any map. */
  predicate Ignored(edit: Edit) {
    || edit.path == ""
    || (!edit.Close? && !IsAdministrationSourcePath(edit.path))
    || (edit.UpdateJs? && edit.root.None?)
    || (edit.UpdateTwig? && edit.template.None?)
  }

  /** The document maps after one UpdateLiveDocument or RemoveLiveDocument. */
  function ApplyEdit(docs: Documents, edit: Edit): Documents {
    if Ignored(edit) then docs
    else match edit
      case UpdateTs(path, types, None) => docs.(liveTypes := docs.liveTypes[path := types])
      case UpdateTs(path, types, Some(d)) =>
        docs.(liveTypes := docs.liveTypes[path := types], liveLegacy := docs.liveLegacy[path := d])
      case UpdateJs(path, root) => docs.(liveLegacy := docs.liveLegacy[path := root.value])
      case UpdateTwig(path, template) => docs.(liveTwig := docs.liveTwig[path := template.value])
      case Close(path) =>
        docs.(liveLegacy := docs.liveLegacy - {path}, liveTwig := docs.liveTwig - {path},
              liveTypes := docs.liveTypes - {path})
  }

  function ApplyEdits(docs: Documents, edits: seq<Edit>): Documents {
    if edits == [] then docs else ApplyEdit(ApplyEdits(docs, edits[..|edits| - 1]), edits[|edits| - 1])
  }

  // ---- Sorted paths.

  predicate SortedPaths(paths: seq<string>) {
    forall i, j :: 0 <= i < j < |paths| ==> StringLess(paths[i], paths[j])
  }

  ghost predicate IsLeast(least: string, keys: set<string>) {
    least in keys && forall k :: k in keys ==> k == least || StringLess(least, k)
  }

  ghost function PathOrder(keys: set<string>): (r: seq<string>)
    ensures SortedPaths(r)
    ensures forall k :: k in r <==> k in keys
  {
    if keys == {} then []
    else
      LeastExists(keys);
      var least :| IsLeast(least, keys);
      [least] + PathOrder(keys - {least})
  }

  lemma {:induction false} LeastExists(keys: set<string>)
    requires keys != {}
    ensures exists least :: IsLeast(least, keys)
  {
    var x :| x in keys;
    if keys == {x} {
      assert IsLeast(x, keys);
    } else {
      LeastExists(keys - {x});
      var y :| IsLeast(y, keys - {x});
      StringLessTotal(x, y);
      if StringLess(x, y) {
        LeastPrepends(x, y, keys);
      } else {
        assert IsLeast(y, keys);
      }
    }
  }

  lemma LeastPrepends(x: string, y: string, keys: set<string>)
    requires x in keys && IsLeast(y, keys - {x}) && StringLess(x, y)
    ensures IsLeast(x, keys)
  {
    forall k | k in keys ensures k == x || StringLess(x, k) {
      if k != x && k != y {
        assert k in keys - {x};
        StringLessTransitive(x, y, k);
      }
    }
  }

  /** Two sorted lists with the same elements are the same list. */
  lemma {:induction false} SortedUnique(a: seq<string>, b: seq<string>)
    requires SortedPaths(a) && SortedPaths(b)
    requires forall k :: k in a <==> k in b
    ensures a == b
  {
    if a == [] {
      HeadIsElement(b);
    } else {
      assert a[0] in a && a[0] in b;
      assert b[0] in b && b[0] in a;
      SortedHead(a, b[0]);
      SortedHead(b, a[0]);
      StringLessTotal(a[0], b[0]);
      forall k ensures k in a[1..] <==> k in b[1..] {
        SortedTail(a, k);
        SortedTail(b, k);
      }
      SortedUnique(a[1..], b[1..]);
      assert a == [a[0]] + a[1..] && b == [b[0]] + b[1..];
    }
  }

  lemma HeadIsElement(b: seq<string>)
    ensures b == [] || b[0] in b
  {
  }

  lemma SortedHead(a: seq<string>, k: string)
    requires SortedPaths(a) && k in a
    ensures a[0] == k || StringLess(a[0], k)
  {
  }

  lemma SortedTail(a: seq<string>, k: string)
    requires SortedPaths(a) && a != []
    ensures k in a[1..] <==> k in a && k != a[0]
  {
    StringLessTotal(a[0], a[0]);
    if k in a && k != a[0] {
      var i :| 0 <= i < |a| && a[i] == k;
      assert a[1..][i - 1] == k;
    }
    if k in a[1..] {
      var i :| 0 <= i < |a[1..]| && a[1..][i] == k;
      assert a[i + 1] == k;
    }
  }

  function InsertPath(paths: seq<string>, k: string): seq<string> {
    if paths == [] || StringLess(k, paths[0]) then [k] + paths
    else [paths[0]] + InsertPath(paths[1..], k)
  }

  lemma {:induction false} InsertPathSorted(paths: seq<string>, k: string)
    requires SortedPaths(paths) && k !in paths
    ensures SortedPaths(InsertPath(paths, k))
    ensures forall q :: q in InsertPath(paths, k) <==> q == k || q in paths
  {
    if paths == [] {
    } else if StringLess(k, paths[0]) {
      forall j | 0 <= j < |paths| ensures StringLess(k, paths[j]) {
        if j > 0 { StringLessTransitive(k, paths[0], paths[j]); }
      }
    } else {
      assert paths[0] in paths;
      StringLessTotal(k, paths[0]);
      assert forall q :: q in paths <==> q == paths[0] || q in paths[1..];
      InsertPathSorted(paths[1..], k);
      var tail := InsertPath(paths[1..], k);
      forall j | 0 <= j < |tail| ensures StringLess(paths[0], tail[j]) {
        assert tail[j] in tail;
      }
    }
  }

  /** Collects the keys of a map, in whatever order the map yields them, and sorts them. */
  method SortPaths(keys: set<string>) returns (paths: seq<string>)
    ensures paths == PathOrder(keys)
  {
    paths := [];
    var rest := keys;
    while rest != {}
      invariant rest <= keys && SortedPaths(paths)
      invariant forall k :: k in paths <==> k in keys && k !in rest
      decreases rest
    {
      var k :| k in rest;
      InsertPathSorted(paths, k);
      paths := InsertPath(paths, k);
      rest := rest - {k};
    }
    SortedUnique(paths, PathOrder(keys));
  }

  // ---- The merged view.

  function Both<T>(p: T -> bool, q: T -> bool): T -> bool {
    (x: T) => p(x) && q(x)
  }

  /** Persisted values that pass the filter and whose file is not open. */
  function Shadowed<T>(live: map<string, LegacyDocument>, filePath: T -> string, keep: T -> bool): T -> bool {
    (x: T) => filePath(x) !in live && keep(x)
  }

  function FileOf(c: Component): string {
    c.filePath
  }

  predicate Any(c: Component) {
    true
  }

  function Named(name: string): Component -> bool {
    (c: Component) => c.name == name
  }

  function NamedOrAll(name: string): Component -> bool {
    (c: Component) => name == "" || c.name == name
  }

  function At(path: string): Component -> bool {
    (c: Component) => c.filePath == path
  }

  function Select<T>(values: seq<T>, keep: T -> bool): seq<T> {
    if values == [] then []
    else
      var init, x := values[..|values| - 1], values[|values| - 1];
      Select(init, keep) + if keep(x) then [x] else []
  }

  lemma {:induction false} SelectConcat<T>(a: seq<T>, b: seq<T>, keep: T -> bool)
    ensures Select(a + b, keep) == Select(a, keep) + Select(b, keep)
  {
    if b == [] {
      assert a + b == a;
    } else {
      assert (a + b)[..|a + b| - 1] == a + b[..|b| - 1];
      SelectConcat(a, b[..|b| - 1], keep);
    }
  }

  lemma {:induction false} SelectTwice<T>(a: seq<T>, p: T -> bool, q: T -> bool)
    ensures Select(Select(a, p), q) == Select(a, Both(p, q))
  {
    if a != [] {
      var init, x := a[..|a| - 1], a[|a| - 1];
      SelectTwice(init, p, q);
      SelectConcat(Select(init, p), if p(x) then [x] else [], q);
    }
  }

  lemma {:induction false} SelectAgree<T>(a: seq<T>, p: T -> bool, q: T -> bool)
    requires forall x :: x in a ==> p(x) == q(x)
    ensures Select(a, p) == Select(a, q)
  {
    if a != [] {
      var init := a[..|a| - 1];
      assert forall x :: x in init ==> x in a;
      assert a[|a| - 1] in a;
      SelectAgree(init, p, q);
    }
  }

  lemma {:induction false} SelectAll<T>(a: seq<T>, p: T -> bool)
    requires forall x :: x in a ==> p(x)
    ensures Select(a, p) == a
  {
    if a != [] {
      var init := a[..|a| - 1];
      assert forall x :: x in init ==> x in a;
      assert a[|a| - 1] in a;
      SelectAll(init, p);
    }
  }

  lemma {:induction false} SelectNone<T>(a: seq<T>, p: T -> bool)
    requires forall x :: x in a ==> !p(x)
    ensures Select(a, p) == []
  {
    if a != [] {
      var init := a[..|a| - 1];
      assert forall x :: x in init ==> x in a;
      assert a[|a| - 1] in a;
      SelectNone(init, p);
    }
  }

  /** The live values of the open documents, path by path in the given order. */
  function LiveValues<T>(live: map<string, LegacyDocument>, paths: seq<string>, values: LegacyDocument -> seq<T>,
                         keep: T -> bool): seq<T>
  {
    if paths == [] then []
    else
      var init, p := paths[..|paths| - 1], paths[|paths| - 1];
      LiveValues(live, init, values, keep) + if p in live then Select(values(live[p]), keep) else []
  }

  /** The view of overlayLiveLegacyValues: persisted values whose file is not open, then the
      open documents' values in path order. */
  ghost function Merged<T>(persisted: seq<T>, live: map<string, LegacyDocument>, filePath: T -> string,
                           values: LegacyDocument -> seq<T>, keep: T -> bool): seq<T>
  {
    Select(persisted, Shadowed(live, filePath, keep)) + LiveValues(live, PathOrder(live.Keys), values, keep)
  }

  /** The filter loops of the merged view. */
  method SelectLoop<T>(values: seq<T>, keep: T -> bool) returns (result: seq<T>)
    ensures result == Select(values, keep)
  {
    result := [];
    for i := 0 to |values|
      invariant result == Select(values[..i], keep)
    {
      assert values[..i + 1][..i] == values[..i];
      if keep(values[i]) {
        result := result + [values[i]];
      }
    }
    assert values[..|values|] == values;
  }

  /** overlayLiveLegacyValues, and registrationsWithLiveDocuments for registrations. */
  method OverlayLiveValues<T>(persisted: seq<T>, live: map<string, LegacyDocument>, filePath: T -> string,
                              values: LegacyDocument -> seq<T>, keep: T -> bool) returns (result: seq<T>)
    ensures result == Merged(persisted, live, filePath, values, keep)
  {
    hide SortedPaths;
    var shadowed := SelectLoop(persisted, Shadowed(live, filePath, keep));
    var paths := SortPaths(live.Keys);
    var shown := [];
    for i := 0 to |paths|
      invariant shown == LiveValues(live, paths[..i], values, keep)
    {
      assert paths[..i + 1][..i] == paths[..i] && paths[i] in paths;
      var found := SelectLoop(values(live[paths[i]]), keep);
      shown := shown + found;
    }
    assert paths[..|paths|] == paths;
    result := shadowed + shown;
  }

  // ---- Whole editing sessions.

  ghost predicate MarkedAt(path: string, before: string, behind: string) {
    path == before + "/Resources/app/administration/src/" + behind
  }

  /** The file lies in the source tree of an administration. */
  ghost predicate InSource(path: string) {
    exists before, behind :: MarkedAt(path, before, behind)
  }

  lemma SourcePathIff(path: string)
    ensures IsAdministrationSourcePath(path) <==> InSource(path)
  {
    if IsAdministrationSourcePath(path) {
      var i :| 0 <= i <= |path| && SOURCE_MARKER <= path[i..];
      assert path == path[..i] + SOURCE_MARKER + path[i..][|SOURCE_MARKER|..];
      assert MarkedAt(path, path[..i], path[i..][|SOURCE_MARKER|..]);
    }
    if before, behind :| MarkedAt(path, before, behind) {
      assert path[|before|..] == SOURCE_MARKER + behind;
    }
  }

  /** Updates are taken for source files only, closing for any path. */
  ghost predicate Taken(edit: Edit) {
    edit.path != "" && (edit.Close? || InSource(edit.path))
  }

  /** The snapshot an editing session leaves open for a path: the last update taken that has a
      parsed root, unless the path was closed after it. */
  ghost function LastSnapshot(edits: seq<Edit>, path: string): Option<LegacyDocument> {
    if edits == [] then None
    else
      var earlier, edit := LastSnapshot(edits[..|edits| - 1], path), edits[|edits| - 1];
      if edit.path != path || !Taken(edit) then earlier
      else match edit
        case UpdateTs(_, _, root) => if root.Some? then root else earlier
        case UpdateJs(_, root) => if root.Some? then root else earlier
        case UpdateTwig(_, _) => earlier
        case Close(_) => None
  }

  /** The TypeScript text an open file was last given. */
  ghost function LastTypes(edits: seq<Edit>, path: string): Option<string> {
    if edits == [] then None
    else
      var earlier, edit := LastTypes(edits[..|edits| - 1], path), edits[|edits| - 1];
      if edit.path != path || !Taken(edit) then earlier
      else if edit.UpdateTs? then Some(edit.types)
      else if edit.Close? then None
      else earlier
  }

  /** The last template parsed of an open file. */
  ghost function LastTemplate(edits: seq<Edit>, path: string): Option<Template> {
    if edits == [] then None
    else
      var earlier, edit := LastTemplate(edits[..|edits| - 1], path), edits[|edits| - 1];
      if edit.path != path || !Taken(edit) then earlier
      else match edit
        case UpdateTwig(_, template) => if template.Some? then template else earlier
        case Close(_) => None
        case _ => earlier
  }

  lemma {:induction false} TwigIsLastTemplate(docs: Documents, edits: seq<Edit>, path: string)
    requires docs.liveTwig == map[]
    ensures path in ApplyEdits(docs, edits).liveTwig <==> LastTemplate(edits, path).Some?
    ensures LastTemplate(edits, path).Some? ==> ApplyEdits(docs, edits).liveTwig[path] == LastTemplate(edits, path).value
  {
    if edits != [] {
      SourcePathIff(edits[|edits| - 1].path);
      TwigIsLastTemplate(docs, edits[..|edits| - 1], path);
    }
  }

  /** The type inference reads, path by path, the last text of an open file and the persisted one
      otherwise. */
  lemma {:induction false} TypesAreLastTexts(docs: Documents, edits: seq<Edit>, path: string)
    requires docs.liveTypes == map[]
    ensures var live := ApplyEdits(docs, edits).liveTypes;
            path in live <==> LastTypes(edits, path).Some?
    ensures var read := docs.typeFiles + ApplyEdits(docs, edits).liveTypes;
            if LastTypes(edits, path).Some? then path in read && read[path] == LastTypes(edits, path).value
            else if path in docs.typeFiles then path in read && read[path] == docs.typeFiles[path]
            else path !in read
  {
    hide InSource;
    if edits != [] {
      SourcePathIff(edits[|edits| - 1].path);
      TypesAreLastTexts(docs, edits[..|edits| - 1], path);
    }
  }

  /** The parser files every registration under the document it was found in. */
  ghost predicate OwnsRegistrations(edits: seq<Edit>) {
    forall e :: e in edits && (e.UpdateTs? || e.UpdateJs?) && e.root.Some? ==>
      forall r :: r in e.root.value.registrations ==> r.filePath == e.path
  }

  lemma {:induction false} LiveLegacyIsLastSnapshot(docs: Documents, edits: seq<Edit>, path: string)
    requires docs.liveLegacy == map[]
    ensures path in ApplyEdits(docs, edits).liveLegacy <==> LastSnapshot(edits, path).Some?
    ensures LastSnapshot(edits, path).Some? ==>
              ApplyEdits(docs, edits).liveLegacy[path] == LastSnapshot(edits, path).value
  {
    if edits != [] {
      SourcePathIff(edits[|edits| - 1].path);
      LiveLegacyIsLastSnapshot(docs, edits[..|edits| - 1], path);
    }
  }

  lemma {:induction false} EditsKeepPersisted(docs: Documents, edits: seq<Edit>)
    ensures var after := ApplyEdits(docs, edits);
            after.components == docs.components && after.definitions == docs.definitions
            && after.mixins == docs.mixins && after.typeFiles == docs.typeFiles && after.readTypes == docs.readTypes
  {
    if edits != [] {
      EditsKeepPersisted(docs, edits[..|edits| - 1]);
    }
  }

  lemma {:induction false} SnapshotOwns(edits: seq<Edit>, path: string)
    requires OwnsRegistrations(edits) && LastSnapshot(edits, path).Some?
    ensures forall r :: r in LastSnapshot(edits, path).value.registrations ==> r.filePath == path
  {
    var init, edit := edits[..|edits| - 1], edits[|edits| - 1];
    assert edit in edits;
    assert forall e :: e in init ==> e in edits;
    if LastSnapshot(init, path).Some? {
      SnapshotOwns(init, path);
    }
  }

  function Registrations(d: LegacyDocument): seq<Component> {
    d.registrations
  }

  /** The catalogue with no name filter: GetAllComponentsView. */
  ghost function Catalogue(docs: Documents): seq<Component> {
    Merged(docs.components, docs.liveLegacy, FileOf, Registrations, Any)
  }

  /** GetComponent: the by-name view of persisted by-name values. */
  ghost function ByName(docs: Documents, name: string): seq<Component> {
    Merged(Select(docs.components, Named(name)), docs.liveLegacy, FileOf, Registrations, NamedOrAll(name))
  }

  lemma {:induction false} LiveValuesSelect<T>(live: map<string, LegacyDocument>, paths: seq<string>,
                                              values: LegacyDocument -> seq<T>, p: T -> bool, q: T -> bool)
    ensures Select(LiveValues(live, paths, values, p), q) == LiveValues(live, paths, values, Both(p, q))
  {
    if paths != [] {
      var init, path := paths[..|paths| - 1], paths[|paths| - 1];
      LiveValuesSelect(live, init, values, p, q);
      var tail := if path in live then Select(values(live[path]), p) else [];
      SelectConcat(LiveValues(live, init, values, p), tail, q);
      if path in live {
        SelectTwice(values(live[path]), p, q);
      }
    }
  }

  /** Filtering a merged view filters both of its halves. */
  lemma MergedSelect<T>(persisted: seq<T>, live: map<string, LegacyDocument>, filePath: T -> string,
                        values: LegacyDocument -> seq<T>, p: T -> bool, q: T -> bool)
    ensures Select(Merged(persisted, live, filePath, values, p), q)
         == Merged(persisted, live, filePath, values, Both(p, q))
  {
    var visible := Shadowed(live, filePath, p);
    SelectConcat(Select(persisted, visible), LiveValues(live, PathOrder(live.Keys), values, p), q);
    SelectTwice(persisted, visible, q);
    SelectAgree(persisted, Both(visible, q), Shadowed(live, filePath, Both(p, q)));
    LiveValuesSelect(live, PathOrder(live.Keys), values, p, q);
  }

  lemma {:induction false} LiveValuesAgree<T>(live: map<string, LegacyDocument>, paths: seq<string>,
                                             values: LegacyDocument -> seq<T>, p: T -> bool, q: T -> bool)
    requires forall path, x :: path in live && x in values(live[path]) ==> p(x) == q(x)
    ensures LiveValues(live, paths, values, p) == LiveValues(live, paths, values, q)
  {
    if paths != [] {
      LiveValuesAgree(live, paths[..|paths| - 1], values, p, q);
      var path := paths[|paths| - 1];
      if path in live {
        SelectAgree(values(live[path]), p, q);
      }
    }
  }

  lemma {:induction false} SelectMember<T>(values: seq<T>, keep: T -> bool, x: T)
    ensures x in Select(values, keep) <==> x in values && keep(x)
  {
    if values != [] {
      var init := values[..|values| - 1];
      assert values == init + [values[|values| - 1]];
      SelectMember(init, keep, x);
    }
  }

  lemma {:induction false} LiveValuesMember<T>(live: map<string, LegacyDocument>, paths: seq<string>,
                                              values: LegacyDocument -> seq<T>, keep: T -> bool, x: T)
    ensures x in LiveValues(live, paths, values, keep) ==>
              keep(x) && exists p :: p in live && x in values(live[p])
  {
    if paths != [] {
      var p := paths[|paths| - 1];
      LiveValuesMember(live, paths[..|paths| - 1], values, keep, x);
      if p in live {
        SelectMember(values(live[p]), keep, x);
      }
    }
  }

  lemma MergedMember<T>(persisted: seq<T>, live: map<string, LegacyDocument>, filePath: T -> string,
                        values: LegacyDocument -> seq<T>, keep: T -> bool, x: T)
    requires x in Merged(persisted, live, filePath, values, keep)
    ensures keep(x) && (x in persisted || exists p :: p in live && x in values(live[p]))
  {
    SelectMember(persisted, Shadowed(live, filePath, keep), x);
    LiveValuesMember(live, PathOrder(live.Keys), values, keep, x);
  }

  lemma {:induction false} LiveValuesHold<T>(live: map<string, LegacyDocument>, paths: seq<string>,
                                             values: LegacyDocument -> seq<T>, keep: T -> bool, path: string, x: T)
    requires path in paths && path in live && x in values(live[path]) && keep(x)
    ensures x in LiveValues(live, paths, values, keep)
  {
    var last := paths[|paths| - 1];
    if last == path {
      SelectMember(values(live[path]), keep, x);
    } else {
      assert path in paths[..|paths| - 1];
      LiveValuesHold(live, paths[..|paths| - 1], values, keep, path, x);
    }
  }

  /** Some open document registers a component that has a name. */
  ghost predicate NamesLive(docs: Documents) {
    exists path, c :: path in docs.liveLegacy && c in docs.liveLegacy[path].registrations && c.name != ""
  }

  /** A by-name lookup equals filtering the full catalogue exactly for every real name; asking for
      the empty name also yields every open document's registrations, whatever they are called. */
  lemma ByNameFiltersIff(docs: Documents, name: string)
    ensures ByName(docs, name) == Select(Catalogue(docs), Named(name)) <==> name != "" || !NamesLive(docs)
  {
    if name == "" && NamesLive(docs) {
      var path, c :| path in docs.liveLegacy && c in docs.liveLegacy[path].registrations && c.name != "";
      LiveValuesHold(docs.liveLegacy, PathOrder(docs.liveLegacy.Keys), Registrations, NamedOrAll(name), path, c);
      assert c in ByName(docs, name);
      SelectMember(Catalogue(docs), Named(name), c);
    } else {
      ByNameFilters(docs, name);
    }
  }

  lemma ByNameFilters(docs: Documents, name: string)
    requires name != "" || !NamesLive(docs)
    ensures ByName(docs, name) == Select(Catalogue(docs), Named(name))
  {
    var live, kept, both := docs.liveLegacy, NamedOrAll(name), Both(Any, Named(name));
    MergedSelect(docs.components, live, FileOf, Registrations, Any, Named(name));
    SelectTwice(docs.components, Named(name), Shadowed(live, FileOf, kept));
    SelectAgree(docs.components, Both(Named(name), Shadowed(live, FileOf, kept)), Shadowed(live, FileOf, both));
    LiveValuesAgree(live, PathOrder(live.Keys), Registrations, kept, both);
  }

  lemma {:induction false} LiveValuesOfPath(live: map<string, LegacyDocument>, paths: seq<string>, path: string)
    requires SortedPaths(paths)
    requires forall q, c :: q in live && c in live[q].registrations ==> c.filePath == q
    ensures LiveValues(live, paths, Registrations, At(path))
         == if path in paths && path in live then live[path].registrations else []
  {
    var at := At(path);
    if paths != [] {
      var init, last := paths[..|paths| - 1], paths[|paths| - 1];
      LiveValuesOfPath(live, init, path);
      assert last !in init by {
        forall i | 0 <= i < |init| ensures init[i] != last {
          StringLessTotal(paths[i], last);
        }
      }
      assert paths == init + [last];
      if last in live {
        if last == path {
          SelectAll(live[last].registrations, at);
        } else {
          SelectNone(live[last].registrations, at);
        }
      }
    }
  }

  /** After any session the catalogue holds, for each path, the last open snapshot's
      registrations, or else the persisted ones. */
  lemma SessionView(docs: Documents, edits: seq<Edit>, path: string)
    requires docs.liveLegacy == map[] && OwnsRegistrations(edits)
    ensures Select(Catalogue(ApplyEdits(docs, edits)), At(path))
         == match LastSnapshot(edits, path)
            case Some(d) => d.registrations
            case None => Select(docs.components, At(path))
  {
    EditsKeepPersisted(docs, edits);
    LiveLegacyIsLastSnapshot(docs, edits, path);
    var live := ApplyEdits(docs, edits).liveLegacy;
    forall q, c | q in live && c in live[q].registrations ensures c.filePath == q {
      LiveLegacyIsLastSnapshot(docs, edits, q);
      SnapshotOwns(edits, q);
    }
    CatalogueAt(ApplyEdits(docs, edits), path);
  }

  lemma CatalogueAt(docs: Documents, path: string)
    requires forall q, c :: q in docs.liveLegacy && c in docs.liveLegacy[q].registrations ==> c.filePath == q
    ensures Select(Catalogue(docs), At(path))
         == if path in docs.liveLegacy then docs.liveLegacy[path].registrations else Select(docs.components, At(path))
  {
    var live, both := docs.liveLegacy, Both(Any, At(path));
    MergedSelect(docs.components, live, FileOf, Registrations, Any, At(path));
    LiveValuesAgree(live, PathOrder(live.Keys), Registrations, both, At(path));
    LiveValuesOfPath(live, PathOrder(live.Keys), path);
    if path in live {
      SelectNone(docs.components, Shadowed(live, FileOf, both));
    } else {
      SelectAgree(docs.components, Shadowed(live, FileOf, both), At(path));
    }
  }

  lemma TypesRestored(docs: Documents, edits: seq<Edit>)
    ensures docs.liveTypes == map[] && (forall path :: LastTypes(edits, path).None?) ==>
              ApplyEdits(docs, edits).Types() == docs.Types()
  {
    if docs.liveTypes == map[] && forall path :: LastTypes(edits, path).None? {
      EditsKeepPersisted(docs, edits);
      forall path ensures path !in ApplyEdits(docs, edits).liveTypes {
        TypesAreLastTexts(docs, edits, path);
      }
      assert docs.typeFiles + ApplyEdits(docs, edits).liveTypes == docs.typeFiles + docs.liveTypes;
    }
  }

  /** Once every document a session opened is closed, the catalogue is the persisted one. */
  lemma ClosingRestores(docs: Documents, edits: seq<Edit>)
    requires docs.liveLegacy == map[]
    requires forall path :: LastSnapshot(edits, path).None?
    ensures Catalogue(ApplyEdits(docs, edits)) == docs.components
    ensures docs.liveTypes == map[] && (forall path :: LastTypes(edits, path).None?) ==>
              ApplyEdits(docs, edits).Types() == docs.Types()
  {
    TypesRestored(docs, edits);
    var live := ApplyEdits(docs, edits).liveLegacy;
    EditsKeepPersisted(docs, edits);
    forall path ensures path !in live {
      LiveLegacyIsLastSnapshot(docs, edits, path);
    }
    assert live.Keys == {};
    forall c: Component ensures Shadowed(live, FileOf, Any)(c) {
      assert FileOf(c) !in live && Any(c);
    }
    SelectAll(docs.components, Shadowed(live, FileOf, Any));
    assert PathOrder({}) == [];
  }
}
