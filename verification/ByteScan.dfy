/** Searching a byte string for a character. */
module ByteScan {

  /** `memchr` from position `i`; the length stands for "not found". */
  function IndexFrom(s: string, c: char, i: nat): (r: nat)
    requires i <= |s|
    ensures i <= r <= |s|
    ensures r < |s| ==> s[r] == c
    ensures forall k :: i <= k < r ==> s[k] != c
    decreases |s| - i
  {
    if i == |s| || s[i] == c then i else IndexFrom(s, c, i + 1)
  }

  lemma IndexIs(s: string, c: char, i: nat, r: nat)
    requires i <= r < |s| && s[r] == c && forall k :: i <= k < r ==> s[k] != c
    ensures IndexFrom(s, c, i) == r
  {
  }

  lemma IndexExtends(s: string, t: string, c: char, i: nat)
    requires i <= |s| && IndexFrom(s, c, i) < |s|
    ensures IndexFrom(s + t, c, i) == IndexFrom(s, c, i)
  {
    var a, b := IndexFrom(s, c, i), IndexFrom(s + t, c, i);
    assert (s + t)[a] == s[a];
    assert forall k :: i <= k < a ==> (s + t)[k] == s[k];
  }

  /** `memchr` as a loop. */
  method FindChar(s: string, c: char, i: nat) returns (r: nat)
    requires i <= |s|
    ensures r == IndexFrom(s, c, i)
  {
    r := i;
    while r < |s| && s[r] != c
      invariant i <= r <= |s|
      invariant IndexFrom(s, c, i) == IndexFrom(s, c, r)
    {
      r := r + 1;
    }
  }

  /** `s` occurs in `b` at position `p`. */
  predicate At(b: string, p: nat, s: string) {
    p + |s| <= |b| && b[p..p + |s|] == s
  }

  lemma AtSplit(b: string, p: nat, s: string, t: string)
    requires At(b, p, s + t)
    ensures At(b, p, s) && At(b, p + |s|, t)
  {
    assert b[p..p + |s|] == (s + t)[..|s|];
    assert b[p + |s|..p + |s| + |t|] == (s + t)[|s|..];
  }

  lemma AtJoin(b: string, p: nat, s: string, t: string)
    requires At(b, p, s) && At(b, p + |s|, t)
    ensures At(b, p, s + t)
  {
    assert b[p..p + |s| + |t|] == b[p..p + |s|] + b[p + |s|..p + |s| + |t|];
  }

  lemma AtSplitFour(b: string, p: nat, s: string, t: string, u: string, v: string)
    requires At(b, p, s + (t + (u + v)))
    ensures At(b, p, s) && At(b, p + |s|, t) && At(b, p + |s| + |t|, u) && At(b, p + |s| + |t| + |u|, v)
  {
    AtSplit(b, p, s, t + (u + v));
    AtSplit(b, p + |s|, t, u + v);
    AtSplit(b, p + |s| + |t|, u, v);
  }

  lemma AtIndex(b: string, p: nat, s: string, i: nat)
    requires At(b, p, s) && p <= i < p + |s|
    ensures b[i] == s[i - p]
  {
    assert b[p..p + |s|][i - p] == b[i];
  }

  lemma AtWithout(b: string, p: nat, s: string, c: char)
    requires At(b, p, s) && c !in s
    ensures forall i :: p <= i < p + |s| ==> b[i] != c
  {
    forall i | p <= i < p + |s| ensures b[i] != c {
      AtIndex(b, p, s, i);
    }
  }

  lemma CancelPrefix(p: string, t: string, u: string)
    requires p + t == p + u
    ensures t == u
  {
    assert t == (p + t)[|p|..] && u == (p + u)[|p|..];
  }
}
