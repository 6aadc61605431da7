/** A simplified, closed model of the SwiftSyntax nodes the HotReload member
    macro looks at.  Runtime-checked casts of the original (`decl.as(...)`)
    become case tests (`Variable?`, `Getter?`) on these datatypes. */
module Syntax {
  import opened Results

  /** The kinds of declaration group a member macro can be attached to. */
  datatype GroupKind = Struct | Class | Enum | Actor | Extension | Protocol

  /** One statement or expression of a code block, kept opaque. */
  datatype CodeBlockItem = CodeBlockItem(text: string)

  datatype Pattern =
    | Identifier(text: string)
    | Tuple(elements: seq<Pattern>)
    | Wildcard

  datatype AccessorKind = Get | Set | WillSet | DidSet | Read | Modify | Init

  /** An explicit accessor such as `get { ... }` or `didSet { ... }`. */
  datatype AccessorDecl = AccessorDecl(kind: AccessorKind, body: Option<seq<CodeBlockItem>>)

  /** The braces after a binding: either a bare statement list (the implicit
      getter of a read-only computed property) or a list of explicit accessors. */
  datatype AccessorBlock =
    | Getter(statements: seq<CodeBlockItem>)
    | AccessorList(accessors: seq<AccessorDecl>)

  datatype Specifier = Var | Let

  /** `pattern: type = initializer { accessors }`, each part but the pattern optional. */
  datatype PatternBinding = PatternBinding(
    pattern: Pattern,
    typeAnnotation: Option<string>,
    initializer: Option<string>,
    accessorBlock: Option<AccessorBlock>)

  datatype Decl =
    | Variable(attributes: seq<string>, specifier: Specifier, bindings: seq<PatternBinding>)
    | Function(name: string, body: seq<CodeBlockItem>)
    | Initializer(body: seq<CodeBlockItem>)
    | NestedType(name: string)
    | OtherDecl

  /** One entry of a member block. */
  datatype MemberItem = MemberItem(decl: Decl)

  /** The declaration the macro is attached to. */
  datatype DeclGroup = DeclGroup(kind: GroupKind, name: string, members: seq<MemberItem>)
}
