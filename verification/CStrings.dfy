/** C strings as string.c handles them. */
module CStrings {
  import opened Words
  import opened Search

  function IsZero(): Byte -> bool { (b: Byte) => b == 0 }

  /** A C string: the bytes before the first NUL. */
  ghost function CStr(s: seq<Byte>): seq<Byte>
  {
    s[..First(s, IsZero())]
  }

  /** strlen of a buffer that holds a NUL. */
  method StrLen(s: seq<Byte>) returns (n: nat)
    requires 0 in s
    ensures n == |CStr(s)|
  {
    n := 0;
    while s[n] != 0
      invariant n < |s| && forall k :: 0 <= k < n ==> s[k] != 0
      invariant 0 in s[n..]
      decreases |s| - n
    {
      assert s[n..] == [s[n]] + s[n + 1..];
      n := n + 1;
    }
    FirstIs(s, IsZero(), n);
  }

  /** Characters are signed: the value between -128 and 127 with this low byte. */
  lemma SignedCharacter(b: Byte)
    ensures -128 <= SChar(b) < 128 && SChar(b) % 256 == b
  {
  }

  /** Position `k` is the first where the strings differ, or where both end. */
  ghost predicate Parts(s: seq<Byte>, t: seq<Byte>, k: nat)
  {
    k < |s| && k < |t| && s[..k] == t[..k] && 0 !in s[..k] && (s[k] != t[k] || s[k] == 0)
  }

  /** strcmp: 0 exactly when the two strings are equal, else the difference of the signed characters where they part. */
  method StrCmp(s: seq<Byte>, t: seq<Byte>) returns (r: int)
    requires 0 in t && (0 in s || |s| > |CStr(t)|)
    ensures r == 0 <==> CStr(s) == CStr(t)
    ensures exists k: nat :: Parts(s, t, k) && r == SChar(s[k]) - SChar(t[k])
  {
    ghost var m, n := First(s, IsZero()), First(t, IsZero());
    FirstZero(t);
    if 0 in s { FirstZero(s); }
    var i := 0;
    while s[i] != 0
      invariant i <= m && i < |s| && i <= n && s[..i] == t[..i] && 0 !in s[..i]
      decreases m - i
    {
      if s[i] != t[i] { break; }
      assert s[..i + 1] == s[..i] + [s[i]] && t[..i + 1] == t[..i] + [t[i]];
      i := i + 1;
      if 0 in s { FirstZero(s); }
    }
    r := SChar(s[i]) - SChar(t[i]);
    assert Parts(s, t, i);
    assert |CStr(s)| == m && |CStr(t)| == n;
    assert i < m && i < n ==> CStr(s)[i] == s[i] && CStr(t)[i] == t[i];
  }

  lemma FirstZero(s: seq<Byte>)
    requires 0 in s
    ensures First(s, IsZero()) < |s| && s[First(s, IsZero())] == 0
  {
    var m := First(s, IsZero());
    var k :| 0 <= k < |s| && s[k] == 0;
    assert IsZero()(s[k]);
    assert m < |s| ==> IsZero()(s[m]);
  }
}
