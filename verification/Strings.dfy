/** `strlen`, `strncmp` and `strstr` on NUL-terminated arrays. */
module Strings {
  datatype Found = At(index: nat) | Missing

  /** `s` holds a string that ends at n. */
  ghost predicate EndsAt(s: array<char>, n: nat)
    reads s
  {
    n < s.Length && s[n] == '\0' && forall i :: 0 <= i < n ==> s[i] != '\0'
  }

  ghost predicate IsString(s: array<char>)
    reads s
  {
    exists n :: EndsAt(s, n)
  }

  /** The needle text at position i. */
  predicate Occurs(text: string, needle: string, i: int) {
    0 <= i && i + |needle| <= |text| && text[i..i + |needle|] == needle
  }

  method StrLen(s: array?<char>) returns (n: nat)
    requires s != null ==> IsString(s)
    ensures if s == null then n == 0 else EndsAt(s, n)
  {
    if s == null {
      return 0;
    }
    n := 0;
    while s[n] != '\0'
      invariant n < s.Length && forall i :: 0 <= i < n ==> s[i] != '\0'
      decreases s.Length - n
    {
      n := n + 1;
    }
  }

  predicate DiffersAt(u: string, v: string, k: nat) {
    k < |u| && k < |v| && u[..k] == v[..k] && u[k] != v[k]
  }

  /** r is how far apart the first characters that differ are. */
  ghost predicate FirstDifference(u: string, v: string, r: int) {
    exists k: nat :: DiffersAt(u, v, k) && r == u[k] as int - v[k] as int
  }

  /** At most n characters of the buffer, from a position. */
  function Ahead(s: array<char>, at: nat, n: nat): string
    requires at <= s.Length
    reads s
  {
    if at + n <= s.Length then s[at..at + n] else s[at..]
  }

  lemma AheadIs(s: array<char>, at: nat, n: nat, end: nat)
    requires at + n <= end <= s.Length
    ensures Ahead(s, at, n) == s[..end][at..at + n] && |Ahead(s, at, n)| == n
  {
  }

  /** Comparing n characters stays inside both buffers: they reach that far, or they
      differ before either ends. */
  ghost predicate Comparable(u: string, v: string, n: nat) {
    (|u| == n && |v| == n) || exists k: nat :: DiffersAt(u, v, k)
  }

  /** The source's loop, from two positions; it never reads past the first difference. */
  method StrNCmp(s1: array<char>, at1: nat, s2: array<char>, at2: nat, n: nat) returns (r: int)
    requires at1 <= s1.Length && at2 <= s2.Length && Comparable(Ahead(s1, at1, n), Ahead(s2, at2, n), n)
    ensures r == 0 <==> Ahead(s1, at1, n) == Ahead(s2, at2, n)
    ensures r != 0 ==> FirstDifference(Ahead(s1, at1, n), Ahead(s2, at2, n), r)
  {
    ghost var u, v := Ahead(s1, at1, n), Ahead(s2, at2, n);
    var k := 0;
    while k < n
      invariant 0 <= k <= n && k <= |u| && k <= |v| && u[..k] == v[..k]
    {
      assert k < |u| && k < |v| by {
        if d: nat :| DiffersAt(u, v, d) {
          assert d < k ==> u[..k][d] == v[..k][d];
        }
      }
      if s1[at1 + k] != s2[at2 + k] {
        assert DiffersAt(u, v, k);
        return s1[at1 + k] as int - s2[at2 + k] as int;
      }
      k := k + 1;
    }
    return 0;
  }

  /** The first occurrence, for any two strings. */
  ghost predicate FirstOccurrence(text: string, needle: string, r: Found) {
    match r
    case At(i) => Occurs(text, needle, i) && forall j :: 0 <= j < i ==> !Occurs(text, needle, j)
    case Missing => forall j :: !Occurs(text, needle, j)
  }

  /** `strstr`: the comparison stays in bounds because the length that remains is kept along. */
  method StrStr(haystack: array?<char>, needle: array?<char>) returns (r: Found)
    requires (haystack != null ==> IsString(haystack)) && (needle != null ==> IsString(needle))
    ensures haystack == null || needle == null ==> r == Missing
    ensures haystack != null && needle != null ==>
      forall n: nat, m: nat :: EndsAt(haystack, n) && EndsAt(needle, m) ==>
        FirstOccurrence(haystack[..n], needle[..m], r)
  {
    hide FirstDifference, Ahead, DiffersAt;
    if needle == null || haystack == null {
      return Missing;
    }
    var needleLen := StrLen(needle);
    var haystackLen := StrLen(haystack);
    ghost var n := haystackLen;
    OneEnd(haystack, n);
    OneEnd(needle, needleLen);
    if needle[0] == '\0' {
      assert haystack[..n][0..0 + |needle[..needleLen]|] == needle[..needleLen];
      return At(0);
    }
    var at := 0;
    while true
      invariant at + haystackLen == n
      invariant forall j :: 0 <= j < at ==> !Occurs(haystack[..n], needle[..needleLen], j)
      decreases haystackLen
    {
      while haystack[at] != '\0' && haystack[at] != needle[0]
        invariant at + haystackLen == n
        invariant forall j :: 0 <= j < at ==> !Occurs(haystack[..n], needle[..needleLen], j)
        decreases haystackLen
      {
        Mismatch(haystack[..n], needle[..needleLen], at);
        at := at + 1;
        haystackLen := haystackLen - 1;
      }
      if haystack[at] == '\0' {
        return Missing;
      }
      if haystackLen < needleLen {
        return Missing;
      }
      AheadIs(haystack, at, needleLen, n);
      AheadIs(needle, 0, needleLen, needleLen);
      var diff := StrNCmp(haystack, at, needle, 0, needleLen);
      if diff == 0 {
        return At(at);
      }
      at := at + 1;
      haystackLen := haystackLen - 1;
    }
  }

  lemma OneEnd(s: array<char>, n: nat)
    requires EndsAt(s, n)
    ensures forall m :: EndsAt(s, m) ==> m == n
  {
  }

  lemma Mismatch(text: string, needle: string, i: nat)
    requires i < |text| && needle != "" && text[i] != needle[0]
    ensures !Occurs(text, needle, i)
  {
  }
}
