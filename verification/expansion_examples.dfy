/** Concrete expansions: the `ContentView` of the macro's test, and the
    rejected shapes of a `body` property. */
module ExpansionExamples {
  import opened Results
  import opened Syntax
  import opened MacroErrors
  import opened HotReloadMacro
  import ExpansionProperties

  function Property(attributes: seq<string>, name: string, accessors: Option<AccessorBlock>): MemberItem {
    MemberItem(Variable(attributes, Var, [PatternBinding(Identifier(name), Some("some View"), None, accessors)]))
  }

  /** `@State private var text = "Hello, World!"` */
  const TextMember: MemberItem :=
    MemberItem(Variable(["State"], Var,
      [PatternBinding(Identifier("text"), None, Some("\"Hello, World!\""), None)]))

  /** `@ViewBuilder var headerView: some View { Text("Header") }` */
  const HeaderViewMember: MemberItem :=
    Property(["ViewBuilder"], "headerView", Some(Getter([CodeBlockItem("Text(\"Header\")")])))

  /** `var body: some View { Text(text) }` */
  const BodyMember: MemberItem :=
    Property([], "body", Some(Getter([CodeBlockItem("Text(text)")])))

  function ContentView(kind: GroupKind, body: MemberItem): DeclGroup {
    DeclGroup(kind, "ContentView", [TextMember, HeaderViewMember, body])
  }

  /** The test's struct gains exactly `@ObserveInjection var _redraw`; the
      members `text` and `headerView` are skipped by the search. */
  lemma ContentViewExpands()
    ensures Expansion(ContentView(Struct, BodyMember)) == Success([ObserveInjectionProperty])
  {
    var ms := ContentView(Struct, BodyMember).members;
    assert !DeclaresBody(ms[0]) by { assert "text"[0] != BodyName[0]; }
    assert !DeclaresBody(ms[1]) by { assert |"headerView"| != |BodyName|; }
    ExpansionProperties.FindBodyFindsFirst(ms, 2);
  }

  /** The same members in a class are rejected before any member is looked at. */
  lemma ClassIsRejected()
    ensures Expansion(ContentView(Class, BodyMember)) == Failure(NotApplicable(NotStructReason))
  {
  }

  /** A stored `var body: Int = 0` has no accessor block. */
  lemma StoredBodyIsRejected()
    ensures Expansion(ContentView(Struct,
      MemberItem(Variable([], Var, [PatternBinding(Identifier("body"), Some("Int"), Some("0"), None)]))))
      == Failure(NotApplicable(NotComputedReason))
  {
  }

  /** An explicit `get { ... }` is an accessor list, not an implicit getter. */
  lemma ExplicitGetterIsRejected()
    ensures Expansion(ContentView(Struct,
      Property([], "body", Some(AccessorList([AccessorDecl(Get, Some([CodeBlockItem("Text(text)")]))])))))
      == Failure(NotApplicable(NotComputedReason))
  {
  }

  /** A struct whose third member is a method has no `body` property. */
  lemma MissingBodyIsRejected()
    ensures Expansion(ContentView(Struct, MemberItem(Function("body", [CodeBlockItem("Text(text)")]))))
      == Failure(NotApplicable(NoBodyReason))
  {
  }
}
