# HotReload member macro, modelled in Dafny

`@HotReload` is a Swift member macro. It is attached to a SwiftUI view struct and contributes
one extra member, `@ObserveInjection var _redraw`, so that an injection library can redraw the
view on reload. Before contributing anything it validates the declaration in four steps:

1. The declaration group must be a struct.
2. It finds the first member, in list order, that is a variable declaration whose first
   binding's pattern is the identifier `body`.
3. That member must be a variable declaration. This check can never fail, because the search
   only selects variable declarations.
4. The first binding's accessor block must be an implicit getter, that is, a bare statement
   list. An explicit `get`/`set`/`willSet`/`didSet` list fails, and so does a missing block.

Each failed step throws `MacroError.notApplicable(reason)`. The error's description is
`"This macro is not applicable: "` followed by the reason.

The model is pure and functional:

- `results.dfy` holds `Option` and `Result`.
- `syntax.dfy` is a closed, simplified syntax tree. It covers declaration groups, member
  items, declarations, pattern bindings, patterns and accessor blocks. Each runtime cast of
  the source (`decl.as(VariableDeclSyntax.self)`, `accessors.as(CodeBlockItemListSyntax.self)`)
  becomes a case test on a datatype.
- `macro_error.dfy` holds the error type, the four reason strings and `Description`.
- `hot_reload_macro.dfy` holds the `body` search (`FindBodyFrom`/`FindBody`), the constant
  contributed member and `Expansion`, which returns `Result<seq<Decl>, MacroError>`.
- `expansion_properties.dfy` relates several expansions: first match, insensitivity to
  non-`body` members, a constant output, and stability when the struct is expanded again.
- `expansion_examples.dfy` holds the struct of the macro's test and the rejected shapes.

The comment at `Sources/HotReloadMacros/HotReloadMacro.swift:25` mentions appending
`.enableInjection()` to the end of `body`, but the code never rewrites `body`. The model follows
the code: a successful expansion returns exactly one declaration, and `body` is left as it is.

## Model

| member | source | states |
|---|---|---|
| HotReloadMacro.FindBodyFrom | Sources/HotReloadMacros/HotReloadMacro.swift:26-29 | the scan from a position returns a member declaring `body` with no such member between the start and it, or reports that none exists from the start onwards |
| HotReloadMacro.FindBody | Sources/HotReloadMacros/HotReloadMacro.swift:26-29 | a position is found exactly when some member is a variable whose first binding is named `body`, and it is the first such member |
| HotReloadMacro.Expansion | Sources/HotReloadMacros/HotReloadMacro.swift:16-47 | a non-struct fails with the struct reason, whatever its members; a struct without a `body` variable fails with the missing-`body` reason; a struct whose first `body` lacks an implicit getter fails with the computed-property reason; every other struct succeeds with exactly `[@ObserveInjection var _redraw]`; the "not a variable declaration" error never occurs |
| MacroErrors.Description | Sources/HotReloadMacros/HotReloadMacro.swift:53-57 | the description is the fixed "This macro is not applicable: " prefix followed by the whole reason, and nothing else |
| MacroErrors.DescriptionInjective | Sources/HotReloadMacros/HotReloadMacro.swift:50-57 | two errors with the same description are the same error, so the reason can be read back from the description |
| MacroErrors.ReasonsDistinct | Sources/HotReloadMacros/HotReloadMacro.swift:21-41 | the four reasons thrown by the expansion are pairwise different strings, so each failed check is identifiable |
| ExpansionProperties.FirstBodyUnique | Sources/HotReloadMacros/HotReloadMacro.swift:26-29 | at most one position is the first `body` member |
| ExpansionProperties.FindBodyFindsFirst | Sources/HotReloadMacros/HotReloadMacro.swift:26-29 | whenever a position is the first `body` member, the search returns exactly that position |
| ExpansionProperties.FindBodyIgnoresTrailingMembers | Sources/HotReloadMacros/HotReloadMacro.swift:26-29 | once a `body` member exists, appending members does not change what the search finds |
| ExpansionProperties.FindBodyAfterInsert | Sources/HotReloadMacros/HotReloadMacro.swift:26-29 | inserting a member that does not declare `body` anywhere keeps the search's success or failure and selects the same member |
| ExpansionProperties.ExpansionIgnoresNonBodyMember | Sources/HotReloadMacros/HotReloadMacro.swift:21-46 | inserting a member that is not a `body` variable, such as `headerView`, `text` or a method, anywhere in the group leaves the expansion's result unchanged |
| ExpansionProperties.ExpansionIgnoresTrailingMembers | Sources/HotReloadMacros/HotReloadMacro.swift:26-46 | members after the first `body` member cannot change the expansion's result |
| ExpansionProperties.SuccessfulOutputsAgree | Sources/HotReloadMacros/HotReloadMacro.swift:43-46 | any two successful expansions contribute identical declarations |
| ExpansionProperties.SplicedMembers | Tests/HotReloadMacrosTests/HotReloadMacrosTests.swift:33-48 | splicing what a successful expansion returns after the struct's members keeps those members in order and adds exactly one member, `_redraw`, last, as the test's expected output shows |
| ExpansionProperties.ReExpansionIsStable | Sources/HotReloadMacros/HotReloadMacro.swift:26-46 | expanding the already-expanded struct again gives the same result, because `_redraw` is not a `body` member |
| ExpansionExamples.ContentViewExpands | Tests/HotReloadMacrosTests/HotReloadMacrosTests.swift:17-50 | the test's `ContentView` with `text`, `headerView` and `body` expands to exactly `@ObserveInjection var _redraw` |
| ExpansionExamples.ClassIsRejected | Sources/HotReloadMacros/HotReloadMacro.swift:21-23 | the same members in a class fail with the struct reason |
| ExpansionExamples.StoredBodyIsRejected | Sources/HotReloadMacros/HotReloadMacro.swift:39-41 | a stored `var body: Int = 0` fails with the computed-property reason |
| ExpansionExamples.ExplicitGetterIsRejected | Sources/HotReloadMacros/HotReloadMacro.swift:39-41 | a `body` with an explicit `get { ... }` fails with the computed-property reason |
| ExpansionExamples.MissingBodyIsRejected | Sources/HotReloadMacros/HotReloadMacro.swift:31-33 | a struct whose only `body` is a method fails with the missing-`body` reason |

## Left out

- Compiler-plugin registration (`HotReloadMacros: CompilerPlugin`, `HotReloadMacro.swift:61-66`) is host glue with no logic.
- The attribute node and the `MacroExpansionContext` parameters are not modelled. The expansion never reads them.
- SwiftSyntax parsing, printing, trivia and the text-interpolated `DeclSyntax` literal are not modelled. The contributed member is an abstract constant node.
- Modifiers such as `private`, and identifier spelling details such as backtick escapes, are not modelled. Names are plain strings compared for equality.
- The `body`-getter rewrite that appends `.enableInjection()` is not modelled. The code mentions it only in a comment and never performs it.
- The runtime behaviour of `@ObserveInjection` and `enableInjection` is not modelled. Both belong to an external library.
- The host's splicing of contributed members is modelled only as appending them at the end (`SplicedMembers`), as the test's expected output shows.
