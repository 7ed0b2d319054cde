/** Texts put together around a separator. */
module Texts {

  /** At the first separator a text is split in one way only. */
  lemma SplitAtFirst(a: string, b: string, c: string, d: string, separator: char)
    requires a + [separator] + b == c + [separator] + d && separator !in a && separator !in c
    ensures a == c && b == d
  {
    var s := a + [separator] + b;
    assert s[|a|] == separator && s[|c|] == separator;
    assert forall i :: 0 <= i < |a| ==> s[i] == a[i];
    assert forall i :: 0 <= i < |c| ==> s[i] == c[i];
    assert a == s[..|a|] && c == s[..|c|];
    assert b == s[|a| + 1..] && d == s[|c| + 1..];
  }

  /** And so it is at the last one. */
  lemma SplitAtLast(a: string, b: string, c: string, d: string, separator: char)
    requires a + [separator] + b == c + [separator] + d && separator !in b && separator !in d
    ensures a == c && b == d
  {
    var s := a + [separator] + b;
    assert s[|a|] == separator && s[|c|] == separator;
    assert forall i :: |a| < i < |s| ==> s[i] == b[i - |a| - 1];
    assert forall i :: |c| < i < |s| ==> s[i] == d[i - |c| - 1];
    assert a == s[..|a|] && c == s[..|c|];
    assert b == s[|a| + 1..] && d == s[|c| + 1..];
  }
}
