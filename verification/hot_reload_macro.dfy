/** The `@HotReload` member macro: validate that it is attached to a struct
    whose `body` property is a read-only computed property, then contribute
    one fixed member, `@ObserveInjection var _redraw`. */
module HotReloadMacro {
  import opened Results
  import opened Syntax
  import opened MacroErrors

  const BodyName: string := "body"

  /** The name-only test of the member search: a variable declaration whose
      FIRST binding's pattern is the identifier `body`. */
  predicate DeclaresBody(m: MemberItem) {
    && m.decl.Variable?
    && |m.decl.bindings| > 0
    && m.decl.bindings[0].pattern == Identifier(BodyName)
  }

  /** The shape test: the first binding has an accessor block that is a bare
      statement list, not an explicit accessor list. */
  predicate HasImplicitGetter(d: Decl)
    requires d.Variable?
  {
    && |d.bindings| > 0
    && d.bindings[0].accessorBlock.Some?
    && d.bindings[0].accessorBlock.value.Getter?
  }

  /** `i` is the position of the first member that declares `body`. */
  ghost predicate IsFirstBody(ms: seq<MemberItem>, i: int) {
    && 0 <= i < |ms|
    && DeclaresBody(ms[i])
    && forall j :: 0 <= j < i ==> !DeclaresBody(ms[j])
  }

  ghost predicate HasBodyMember(ms: seq<MemberItem>) {
    exists i :: 0 <= i < |ms| && DeclaresBody(ms[i])
  }

  /** Linear scan from `from` for the first member declaring `body`. */
  function FindBodyFrom(ms: seq<MemberItem>, from: nat): (r: Option<nat>)
    requires from <= |ms|
    ensures r.Some? ==>
      && from <= r.value < |ms|
      && DeclaresBody(ms[r.value])
      && forall j :: from <= j < r.value ==> !DeclaresBody(ms[j])
    ensures r.None? ==> forall j :: from <= j < |ms| ==> !DeclaresBody(ms[j])
    decreases |ms| - from
  {
    if from == |ms| then None
    else if DeclaresBody(ms[from]) then Some(from)
    else FindBodyFrom(ms, from + 1)
  }

  /** Position of the first member, in list order, that declares `body`. */
  function FindBody(ms: seq<MemberItem>): (r: Option<nat>)
    ensures r.Some? <==> HasBodyMember(ms)
    ensures r.Some? ==> IsFirstBody(ms, r.value)
  {
    FindBodyFrom(ms, 0)
  }

  /** The single member the macro contributes. */
  const ObserveInjectionProperty: Decl :=
    Variable(["ObserveInjection"], Var,
             [PatternBinding(Identifier("_redraw"), None, None, None)])

  /** The expansion, check by check.  The third check can never fail, since
      the search only selects variable declarations; it is kept as written. */
  function Expansion(group: DeclGroup): (r: Result<seq<Decl>, MacroError>)
    ensures group.kind != Struct <==> r == Failure(NotApplicable(NotStructReason))
    ensures r == Failure(NotApplicable(NoBodyReason)) <==>
      group.kind == Struct && !HasBodyMember(group.members)
    ensures r == Failure(NotApplicable(NotComputedReason)) <==>
      && group.kind == Struct
      && exists i :: IsFirstBody(group.members, i) && !HasImplicitGetter(group.members[i].decl)
    ensures r.Success? <==>
      && group.kind == Struct
      && exists i :: IsFirstBody(group.members, i) && HasImplicitGetter(group.members[i].decl)
    ensures r.Success? ==> r.value == [ObserveInjectionProperty]
    ensures r != Failure(NotApplicable(BodyNotVariableReason))
  {
    ReasonsDistinct();
    if group.kind != Struct then
      Failure(NotApplicable(NotStructReason))
    else
      match FindBody(group.members)
      case None => Failure(NotApplicable(NoBodyReason))
      case Some(i) =>
        var bodyVar := group.members[i];
        if !bodyVar.decl.Variable? then
          Failure(NotApplicable(BodyNotVariableReason))
        else if !HasImplicitGetter(bodyVar.decl) then
          Failure(NotApplicable(NotComputedReason))
        else
          Success([ObserveInjectionProperty])
  }
}
