/** The string searches that the sources take from the C++ library. */
module Strings {

  /** `std::string::find(c)`; the length stands for `npos`. */
  function Find(s: string, c: char): (i: nat)
    ensures i <= |s| && c !in s[..i] && (i < |s| ==> s[i] == c)
  {
    if s == [] || s[0] == c then 0
    else
      var i := Find(s[1..], c);
      assert s[..1 + i] == [s[0]] + s[1..][..i];
      1 + i
  }

  /** The first occurrence is where the character stands and nothing before it does. */
  lemma {:induction false} FindIs(s: string, c: char, i: nat)
    requires i < |s| && s[i] == c && c !in s[..i]
    ensures Find(s, c) == i
  {
    if i != 0 {
      assert s[0] == s[..i][0];
      assert s[1..][..i - 1] == s[..i][1..];
      FindIs(s[1..], c, i - 1);
    }
  }

  lemma {:induction false} FindNone(s: string, c: char)
    requires c !in s
    ensures Find(s, c) == |s|
  {
    if s != [] {
      assert s[0] in s && forall x :: x in s[1..] ==> x in s;
      FindNone(s[1..], c);
    }
  }

  /** The first occurrence is not after another one. */
  lemma {:induction false} FindBefore(s: string, c: char, i: nat)
    requires i < |s| && s[i] == c
    ensures Find(s, c) <= i
  {
    if i != 0 && s[0] != c {
      FindBefore(s[1..], c, i - 1);
    }
  }

  /** Cutting `a + [c] + x` at its first `c` gives back `a` and `x`. */
  lemma CutAt(a: string, c: char, x: string)
    requires c !in a
    ensures var s := a + [c] + x;
      Find(s, c) == |a| && s[..|a|] == a && s[|a| + 1..] == x
  {
    var s := a + [c] + x;
    assert s[..|a|] == a;
    FindIs(s, c, |a|);
  }
}
