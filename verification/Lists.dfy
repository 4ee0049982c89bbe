/** Linked lists as sequences. */
module Lists {
  ghost predicate Distinct(s: seq<int>) { forall i, j | 0 <= i < j < |s| :: s[i] != s[j] }

  /** `list_remove` */
  function Without(s: seq<nat>, f: nat): seq<nat> {
    if s == [] then [] else if s[0] == f then s[1..] else [s[0]] + Without(s[1..], f)
  }

  lemma {:induction false} WithoutIs(s: seq<nat>, f: nat)
    requires Distinct(s) && f in s
    ensures |Without(s, f)| == |s| - 1 && Distinct(Without(s, f)) && forall g :: g in Without(s, f) <==>
      g in s && g != f
  {
    assert s == [s[0]] + s[1..];
    if s[0] != f {
      WithoutIs(s[1..], f);
      InsertIs(Without(s[1..], f), s[0]);
    }
  }

  lemma InsertIs(s: seq<nat>, f: nat)
    requires Distinct(s) && f !in s
    ensures Distinct([f] + s) && forall g :: g in [f] + s <==> g in s || g == f
  {
  }
}
