/** The records the Administration index stores: Vue component registrations,
    the definitions they refer to, and the values those definitions declare.
    Ranges, lines and documentation are carried as plain fields. */
module AdminModel {
  datatype Option<+T> = None | Some(value: T)

  datatype SourceRange = SourceRange(startLine: int, startCharacter: int, endLine: int, endCharacter: int)

  const NO_RANGE := SourceRange(0, 0, 0, 0)

  datatype RegistrationKind = Unspecified | Register | Extend | Override

  datatype Prop = Prop(name: string, propType: string, defaultValue: string, deprecated: string, filePath: string)

  datatype Event = Event(name: string, eventType: string, documentation: string, filePath: string,
                         line: int, nameRange: SourceRange)

  datatype MemberKind = DataMember | ComputedMember | MethodMember | PropMember | InjectMember

  datatype Member = Member(name: string, kind: MemberKind, memberType: string, deprecated: string, filePath: string,
                           sourceExpression: string, typeContextPath: string, openRuntimeShape: bool)

  datatype Slot = Slot(name: string, namePrefix: string, nameSuffix: string, line: int,
                       nameRange: SourceRange, filePath: string)

  datatype ScopeMember = ScopeMember(name: string, memberType: string, filePath: string)

  datatype Block = Block(name: string, deprecated: string, line: int, filePath: string, scopeMembers: seq<ScopeMember>)

  datatype LocalEntry = LocalEntry(name: string, symbol: string, filePath: string)

  datatype Assignment = Assignment(target: string, expression: string, filePath: string)

  /** What one definition file contributes to a component. */
  datatype Definition = Definition(
    filePath: string, deprecated: string,
    props: seq<Prop>, modelProp: string, modelEvent: string,
    emits: seq<string>, events: seq<Event>, methods: seq<string>, computed: seq<string>, data: seq<string>,
    injected: seq<string>, mixins: seq<string>,
    localComponents: seq<LocalEntry>, localDirectives: seq<LocalEntry>,
    members: seq<Member>, openRuntimeMembers: bool, assignments: seq<Assignment>,
    slots: seq<Slot>, blocks: seq<Block>, templatePath: string)

  datatype Component = Component(
    name: string, deprecated: string, kind: RegistrationKind, targetComponent: string, extendsComponent: string,
    importPath: string, filePath: string, definitionPath: string, line: int,
    props: seq<Prop>, modelProp: string, modelEvent: string,
    emits: seq<string>, events: seq<Event>, methods: seq<string>, computed: seq<string>, data: seq<string>,
    injected: seq<string>, mixins: seq<string>,
    localComponents: seq<LocalEntry>, localDirectives: seq<LocalEntry>,
    members: seq<Member>, openRuntimeMembers: bool, assignments: seq<Assignment>,
    slots: seq<Slot>, blocks: seq<Block>, templatePath: string,
    inlineDefinition: Option<Definition>)

  datatype Mixin = Mixin(name: string, filePath: string, definition: Definition)

  /** A type the inference found, the file it is to be read in, and whether it is open at run time. */
  datatype Resolved = Resolved(resolvedType: string, contextPath: string, openShape: bool)

  /** What the late type inference reads: expression texts as the parser splits them, and
      the indexed answers for member chains. */
  datatype TypeIndex = TypeIndex(parsed: map<string, TypeExpression>, chains: map<ChainQuery, Answer>,
                                 objectLiterals: set<string>)

  /** Literals and assertions have a type of their own, stores and globals are fixed by the
      index, and `this.root...` is a question about the root member's type. */
  datatype TypeExpression =
    | Unreadable
    | Literal(literalType: string)
    | Fixed(answer: Answer)
    | Nullish(left: TypeExpression, right: TypeExpression)
    | Chain(root: string, query: string)

  datatype ChainQuery = ChainQuery(rootType: string, rootContext: string, query: string)

  datatype Answer = Answer(resolved: Resolved, found: bool)

  /** The component value that only carries a name, from which every fold starts. */
  function Blank(name: string): Component {
    Component(name, "", Unspecified, "", "", "", "", "", 0,
              [], "", "", [], [], [], [], [], [], [], [], [], [], false, [], [], [], "", None)
  }

  /** Go's byte order on strings, used by every sort over paths. */
  predicate StringLess(a: string, b: string) {
    if b == [] then false
    else if a == [] then true
    else a[0] < b[0] || (a[0] == b[0] && StringLess(a[1..], b[1..]))
  }

  lemma {:induction false} StringLessTotal(a: string, b: string)
    ensures a == b || StringLess(a, b) || StringLess(b, a)
    ensures !(StringLess(a, b) && StringLess(b, a))
    ensures !StringLess(a, a)
  {
    if a != [] {
      StringLessTotal(a[1..], if b == [] then [] else b[1..]);
      if b != [] && a[0] == b[0] {
        assert a == [a[0]] + a[1..] && b == [b[0]] + b[1..];
      }
    }
  }

  lemma {:induction false} StringLessTransitive(a: string, b: string, c: string)
    requires StringLess(a, b) && StringLess(b, c)
    ensures StringLess(a, c)
  {
    if a != [] && a[0] == b[0] && b[0] == c[0] {
      StringLessTransitive(a[1..], b[1..], c[1..]);
    }
  }

  /** The order of dictionaries: at the first difference the smaller character, or the shorter text. */
  ghost predicate Precedes(a: string, b: string) {
    exists k :: PrecedesAt(a, b, k)
  }

  predicate PrecedesAt(a: string, b: string, k: int) {
    0 <= k <= |a| && k < |b| && a[..k] == b[..k] && (k == |a| || a[k] < b[k])
  }

  lemma HeadsAgree(a: string, b: string, k: int)
    requires PrecedesAt(a, b, k)
    ensures k > 0 ==> a != [] && b != [] && a[0] == b[0]
  {
    if k > 0 {
      assert a[..k][0] == b[..k][0];
    }
  }

  lemma {:induction false} StringLessIff(a: string, b: string)
    ensures StringLess(a, b) <==> Precedes(a, b)
  {
    if a != [] && b != [] && a[0] == b[0] {
      StringLessIff(a[1..], b[1..]);
      if k :| PrecedesAt(a[1..], b[1..], k) {
        assert a[..k + 1] == [a[0]] + a[1..][..k] && b[..k + 1] == [b[0]] + b[1..][..k];
        assert PrecedesAt(a, b, k + 1);
      }
      if k :| PrecedesAt(a, b, k) {
        assert k > 0;
        assert a[1..][..k - 1] == a[..k][1..] && b[1..][..k - 1] == b[..k][1..];
        assert PrecedesAt(a[1..], b[1..], k - 1);
      }
    } else if b != [] {
      assert a == [] || a[0] != b[0];
      assert PrecedesAt(a, b, 0) <==> a == [] || a[0] < b[0];
      if k :| PrecedesAt(a, b, k) {
        HeadsAgree(a, b, k);
      }
    }
  }
}
