/** The macro's only error kind and its user-facing description. */
module MacroErrors {

  datatype MacroError = NotApplicable(reason: string)

  const DescriptionPrefix: string := "This macro is not applicable: "

  const NotStructReason: string := "HotReload can only be applied to structs"
  const NoBodyReason: string := "Struct does not have a `body` property"
  const BodyNotVariableReason: string := "`body` property is not a variable declaration"
  const NotComputedReason: string := "HotReload can only be applied to computed properties"

  /** The diagnostic text: the fixed prefix, then the reason unchanged. */
  function Description(e: MacroError): (d: string)
    ensures |d| == |DescriptionPrefix| + |e.reason|
    ensures d[..|DescriptionPrefix|] == DescriptionPrefix
    ensures d[|DescriptionPrefix|..] == e.reason
  {
    DescriptionPrefix + e.reason
  }

  /** Distinct errors never share a description: the reason can be read back. */
  lemma DescriptionInjective(e1: MacroError, e2: MacroError)
    requires Description(e1) == Description(e2)
    ensures e1 == e2
  {
  }

  /** The four reasons the expansion can report are pairwise distinct. */
  lemma ReasonsDistinct()
    ensures NotStructReason != NoBodyReason
    ensures NotStructReason != BodyNotVariableReason
    ensures NotStructReason != NotComputedReason
    ensures NoBodyReason != BodyNotVariableReason
    ensures NoBodyReason != NotComputedReason
    ensures BodyNotVariableReason != NotComputedReason
  {
  }
}
