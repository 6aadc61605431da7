/** Properties of the `@HotReload` expansion that relate several calls:
    first-match behaviour of the `body` search, insensitivity to members that
    do not declare `body`, a constant successful output, and stability when
    the expanded struct is expanded again. */
module ExpansionProperties {
  import opened Results
  import opened Syntax
  import opened MacroErrors
  import opened HotReloadMacro

  /** There is only one first `body` member. */
  lemma FirstBodyUnique(ms: seq<MemberItem>, i: int, j: int)
    requires IsFirstBody(ms, i) && IsFirstBody(ms, j)
    ensures i == j
  {
  }

  /** The search returns exactly the first `body` member. */
  lemma FindBodyFindsFirst(ms: seq<MemberItem>, i: int)
    requires IsFirstBody(ms, i)
    ensures FindBody(ms) == Some(i)
  {
  }

  /** Members after the first `body` member are never looked at. */
  lemma FindBodyIgnoresTrailingMembers(ms: seq<MemberItem>, extra: seq<MemberItem>)
    requires HasBodyMember(ms)
    ensures FindBody(ms + extra) == FindBody(ms)
  {
    var i := FindBody(ms).value;
    assert IsFirstBody(ms + extra, i) by {
      assert (ms + extra)[i] == ms[i];
      forall j | 0 <= j < i ensures !DeclaresBody((ms + extra)[j]) {
        assert (ms + extra)[j] == ms[j];
      }
    }
    FindBodyFindsFirst(ms + extra, i);
  }

  /** Inserting a member that does not declare `body` moves the first `body`
      member by at most one place and keeps it the same member. */
  lemma FindBodyAfterInsert(ms: seq<MemberItem>, p: nat, m: MemberItem)
    requires p <= |ms|
    requires !DeclaresBody(m)
    ensures var ms' := ms[..p] + [m] + ms[p..];
      && (FindBody(ms').Some? <==> FindBody(ms).Some?)
      && (FindBody(ms).Some? ==> ms'[FindBody(ms').value] == ms[FindBody(ms).value])
  {
    var ms' := ms[..p] + [m] + ms[p..];
    assert |ms'| == |ms| + 1;
    assert forall k :: 0 <= k < p ==> ms'[k] == ms[k];
    assert ms'[p] == m;
    assert forall k :: p < k < |ms'| ==> ms'[k] == ms[k - 1];
    match FindBody(ms)
    case None =>
      forall k | 0 <= k < |ms'| ensures !DeclaresBody(ms'[k]) {
        if k < p {
          assert ms'[k] == ms[k];
        } else if k > p {
          assert ms'[k] == ms[k - 1];
        }
      }
    case Some(i) =>
      var i' := if i < p then i else i + 1;
      assert IsFirstBody(ms', i') by {
        assert ms'[i'] == ms[i];
        forall j | 0 <= j < i' ensures !DeclaresBody(ms'[j]) {
          if j < p {
            assert ms'[j] == ms[j];
          } else if j > p {
            assert ms'[j] == ms[j - 1];
          }
        }
      }
      FindBodyFindsFirst(ms', i');
  }

  /** A member that does not declare `body` can be added anywhere in the
      struct without changing the outcome of the expansion. */
  lemma ExpansionIgnoresNonBodyMember(g: DeclGroup, p: nat, m: MemberItem)
    requires p <= |g.members|
    requires !DeclaresBody(m)
    ensures Expansion(g.(members := g.members[..p] + [m] + g.members[p..])) == Expansion(g)
  {
    FindBodyAfterInsert(g.members, p, m);
  }

  /** Once a `body` member exists, members after it cannot change the outcome. */
  lemma ExpansionIgnoresTrailingMembers(g: DeclGroup, extra: seq<MemberItem>)
    requires HasBodyMember(g.members)
    ensures Expansion(g.(members := g.members + extra)) == Expansion(g)
  {
    FindBodyIgnoresTrailingMembers(g.members, extra);
  }

  /** Every successful expansion contributes the same member, whatever the
      struct's other members or the statements of its `body`. */
  lemma SuccessfulOutputsAgree(g1: DeclGroup, g2: DeclGroup)
    requires Expansion(g1).Success? && Expansion(g2).Success?
    ensures Expansion(g1).value == Expansion(g2).value
  {
  }

  /** The members of a struct after the host splices in the declarations a
      successful expansion contributes, at the end of the member block. */
  function SplicedMembers(g: DeclGroup): (ms: seq<MemberItem>)
    requires Expansion(g).Success?
    ensures |ms| == |g.members| + 1
    ensures ms[..|g.members|] == g.members
    ensures ms[|g.members|].decl == ObserveInjectionProperty
  {
    var added := Expansion(g).value;
    g.members + seq(|added|, k requires 0 <= k < |added| => MemberItem(added[k]))
  }

  /** The contributed `_redraw` member does not declare `body`, so expanding
      the already-expanded struct again gives the same result. */
  lemma ReExpansionIsStable(g: DeclGroup)
    requires Expansion(g).Success?
    ensures Expansion(g.(members := SplicedMembers(g))) == Expansion(g)
  {
  }
}
