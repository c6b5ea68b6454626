/** Places in a sequence. */
module Slices {

  /** What is left from a position on begins with a piece. */
  lemma Begins<T>(s: seq<T>, p: nat, a: seq<T>, rest: seq<T>)
    requires p <= |s| && s[p..] == a + rest
    ensures p + |a| <= |s| && s[p + |a|..] == rest && s[p..p + |a|] == a
    ensures forall i :: 0 <= i < |a| ==> s[p + i] == a[i]
    ensures rest != [] ==> p + |a| < |s| && s[p + |a|] == rest[0]
  {
    assert s[p..][|a|..] == s[p + |a|..];
    assert s[p..][..|a|] == s[p..p + |a|];
    assert forall i :: 0 <= i < |a| ==> s[p + i] == s[p..][i];
    assert rest != [] ==> s[p + |a|..][0] == s[p + |a|];
  }

  /** Two adjoining pieces, the second up to the end. */
  lemma Adjoin<T>(s: seq<T>, p: nat, q: nat, a: seq<T>, b: seq<T>)
    requires p <= q <= |s| && a == s[p..q] && b == s[q..]
    ensures a + b == s[p..]
  {
  }

  lemma TakeMore<T>(s: seq<T>, k: nat)
    requires k < |s|
    ensures s[..k + 1] == s[..k] + [s[k]]
  {
  }

  /** An element moved from the front of one piece to the end of another. */
  lemma MoveOver<T>(u: seq<T>, s: seq<T>, k: nat)
    requires k < |s|
    ensures u + [s[k]] + s[k + 1..] == u + s[k..]
  {
  }

  lemma HeadAndTail<T>(s: seq<T>)
    requires s != []
    ensures [s[0]] + s[1..] == s
  {
  }
}
