/** The pieces of .NET's string handling that the demos rely on: decimal
    rendering of integers, `string.Join`, `char.IsWhiteSpace` with
    `string.IsNullOrWhiteSpace` and `Trim`, ordinal case-insensitive
    comparison, and character reversal. */
module Text {
  import opened Wrappers

  // ---------------------------------------------------------------------
  // Decimal rendering (`int.ToString()` in the invariant culture)

  predicate IsDigit(c: char) {
    '0' <= c <= '9'
  }

  predicate AllDigits(s: string) {
    forall i :: 0 <= i < |s| ==> IsDigit(s[i])
  }

  function DigitValue(c: char): (d: nat)
    requires IsDigit(c)
    ensures d < 10
  {
    c as int - '0' as int
  }

  function DigitChar(d: nat): (c: char)
    requires d < 10
    ensures IsDigit(c) && DigitValue(c) == d
  {
    ('0' as int + d) as char
  }

  /** The number a string of decimal digits denotes. */
  function ValueOf(s: string): nat
    requires AllDigits(s)
  {
    if s == [] then 0 else 10 * ValueOf(s[..|s| - 1]) + DigitValue(s[|s| - 1])
  }

  /** The shortest decimal rendering of `n`: digits only, no leading zero. */
  function NatToString(n: nat): (s: string)
    ensures |s| >= 1 && AllDigits(s)
    ensures |s| > 1 ==> s[0] != '0'
    ensures (n < 10) == (|s| == 1)
  {
    if n < 10 then [DigitChar(n)] else NatToString(n / 10) + [DigitChar(n % 10)]
  }

  /** A rendering neither starts nor ends with whitespace. */
  lemma NatToStringUnpadded(n: nat)
    ensures NatToString(n) != []
    ensures !IsWhiteSpace(NatToString(n)[0]) && !IsWhiteSpace(NatToString(n)[|NatToString(n)| - 1])
  {
    var s := NatToString(n);
    assert IsDigit(s[0]) && IsDigit(s[|s| - 1]);
  }

  /** Reading the rendering of `n` back gives `n`. */
  lemma {:induction false} NatToStringRoundTrip(n: nat)
    ensures ValueOf(NatToString(n)) == n
  {
    if n >= 10 {
      var s := NatToString(n);
      assert s[..|s| - 1] == NatToString(n / 10);
      NatToStringRoundTrip(n / 10);
    }
  }

  /** Distinct numbers render as distinct strings. */
  lemma NatToStringInjective(m: nat, n: nat)
    ensures NatToString(m) == NatToString(n) ==> m == n
  {
    NatToStringRoundTrip(m);
    NatToStringRoundTrip(n);
  }

  /** `int.ToString()`: a leading '-' for negative numbers. */
  function IntToString(x: int): (s: string)
    ensures |s| >= 1
    ensures (x < 0) == (s[0] == '-')
    ensures x >= 0 ==> AllDigits(s) && ValueOf(s) == x
    ensures x < 0 ==> AllDigits(s[1..]) && ValueOf(s[1..]) == -x
    ensures x >= 0 && |s| > 1 ==> s[0] != '0'
    ensures x < 0 ==> |s| >= 2 && (|s| > 2 ==> s[1] != '0')
  {
    NatToStringRoundTrip(if x < 0 then -x else x);
    if x < 0 then "-" + NatToString(-x) else NatToString(x)
  }

  // ---------------------------------------------------------------------
  // string.Join

  function TotalLength(parts: seq<string>): nat {
    if parts == [] then 0 else TotalLength(parts[..|parts| - 1]) + |parts[|parts| - 1]|
  }

  /** `string.Join(sep, parts)`: the parts in order, `sep` between neighbours. */
  function Join(sep: string, parts: seq<string>): (r: string)
    ensures parts == [] ==> r == ""
    ensures |parts| == 1 ==> r == parts[0]
    ensures |parts| > 0 ==> |r| == TotalLength(parts) + (|parts| - 1) * |sep|
  {
    if |parts| <= 1 then (if parts == [] then "" else parts[0])
    else Join(sep, parts[..|parts| - 1]) + sep + parts[|parts| - 1]
  }

  /** Joining one more part appends the separator and the part. */
  lemma JoinSnoc(sep: string, parts: seq<string>, p: string)
    requires parts != []
    ensures Join(sep, parts + [p]) == Join(sep, parts) + sep + p
  {
    assert (parts + [p])[..|parts|] == parts;
  }

  // ---------------------------------------------------------------------
  // Whitespace and Trim

  /** `char.IsWhiteSpace`: the Unicode space, line and paragraph separators,
      the controls U+0009 to U+000D, and U+0085. */
  predicate IsWhiteSpace(c: char) {
    || ('\t' <= c <= '\r')
    || c == ' '
    || c == '\U{0085}'
    || c == '\U{00A0}'
    || c == '\U{1680}'
    || ('\U{2000}' <= c <= '\U{200A}')
    || c == '\U{2028}'
    || c == '\U{2029}'
    || c == '\U{202F}'
    || c == '\U{205F}'
    || c == '\U{3000}'
  }

  predicate AllWhiteSpace(s: string) {
    forall i :: 0 <= i < |s| ==> IsWhiteSpace(s[i])
  }

  /** `string.IsNullOrWhiteSpace`: null, empty, or only whitespace. */
  predicate IsNullOrWhiteSpace(s: Option<string>) {
    s.None? || AllWhiteSpace(s.value)
  }

  /** `TrimStart()`: `s` without its leading whitespace. */
  function TrimStart(s: string): (r: string)
    ensures |r| <= |s| && r == s[|s| - |r|..]
    ensures AllWhiteSpace(s[..|s| - |r|])
    ensures r == [] || !IsWhiteSpace(r[0])
  {
    if s != [] && IsWhiteSpace(s[0]) then
      var r := TrimStart(s[1..]);
      TrimStartStep(s, r);
      r
    else s
  }

  lemma TrimStartStep(s: string, r: string)
    requires s != [] && IsWhiteSpace(s[0])
    requires |r| <= |s| - 1 && r == s[1..][|s| - 1 - |r|..] && AllWhiteSpace(s[1..][..|s| - 1 - |r|])
    ensures r == s[|s| - |r|..]
    ensures AllWhiteSpace(s[..|s| - |r|])
  {
    var cut := s[1..][..|s| - 1 - |r|];
    forall k | 0 <= k < |s| - |r|
      ensures IsWhiteSpace(s[k])
    {
      if k > 0 {
        assert s[k] == cut[k - 1];
      }
    }
  }

  /** `TrimEnd()`: `s` without its trailing whitespace. */
  function TrimEnd(s: string): (r: string)
    ensures |r| <= |s| && r == s[..|r|]
    ensures AllWhiteSpace(s[|r|..])
    ensures r == [] || !IsWhiteSpace(r[|r| - 1])
  {
    if s != [] && IsWhiteSpace(s[|s| - 1]) then
      var r := TrimEnd(s[..|s| - 1]);
      TrimEndStep(s, r);
      r
    else s
  }

  lemma TrimEndStep(s: string, r: string)
    requires s != [] && IsWhiteSpace(s[|s| - 1])
    requires |r| <= |s| - 1 && r == s[..|s| - 1][..|r|] && AllWhiteSpace(s[..|s| - 1][|r|..])
    ensures r == s[..|r|]
    ensures AllWhiteSpace(s[|r|..])
  {
    forall k | 0 <= k < |s| - |r|
      ensures IsWhiteSpace(s[|r|..][k])
    {
      if k < |s| - 1 - |r| {
        assert s[|r|..][k] == s[..|s| - 1][|r|..][k];
      }
    }
  }

  /** `Trim()`: `s` without its leading and trailing whitespace. */
  function Trim(s: string): (r: string)
  {
    TrimEnd(TrimStart(s))
  }

  /** How many leading characters `Trim` cuts off. */
  function TrimOffset(s: string): (i: nat)
    ensures i <= |s|
  {
    |s| - |TrimStart(s)|
  }

  /** What `Trim` promises: the result is a contiguous part of `s`, and all
      that is cut off on either side is whitespace. */
  lemma TrimSpec(s: string)
    ensures TrimOffset(s) + |Trim(s)| <= |s|
    ensures Trim(s) == s[TrimOffset(s)..TrimOffset(s) + |Trim(s)|]
    ensures AllWhiteSpace(s[..TrimOffset(s)])
    ensures AllWhiteSpace(s[TrimOffset(s) + |Trim(s)|..])
  {
    TrimSpecMiddle(s, TrimStart(s), Trim(s), TrimOffset(s));
  }

  /** ... and the result neither starts nor ends with whitespace, so no
      shorter cut would do. */
  lemma TrimMaximal(s: string)
    ensures Trim(s) == [] || (!IsWhiteSpace(Trim(s)[0]) && !IsWhiteSpace(Trim(s)[|Trim(s)| - 1]))
  {
    TrimSpecEnds(TrimStart(s), Trim(s));
  }

  lemma TrimSpecMiddle(s: string, t: string, r: string, i: nat)
    requires i + |t| == |s| && t == s[i..] && AllWhiteSpace(s[..i])
    requires |r| <= |t| && r == t[..|r|] && AllWhiteSpace(t[|r|..])
    ensures i + |r| <= |s|
    ensures r == s[i..i + |r|]
    ensures AllWhiteSpace(s[..i])
    ensures AllWhiteSpace(s[i + |r|..])
  {
    assert t[|r|..] == s[i + |r|..];
  }

  lemma TrimSpecEnds(t: string, r: string)
    requires t == [] || !IsWhiteSpace(t[0])
    requires |r| <= |t| && r == t[..|r|]
    ensures r == [] || !IsWhiteSpace(r[0])
  {
    if r != [] {
      assert r[0] == t[0];
    }
  }

  /** A string is blank exactly when trimming it leaves nothing. */
  lemma TrimEmptyIffBlank(s: string)
    ensures Trim(s) == [] <==> AllWhiteSpace(s)
  {
    TrimSpec(s);
    if Trim(s) == [] {
      var i := |s| - |TrimStart(s)|;
      assert s == s[..i] + s[i..];
    }
  }

  /** Surrounding whitespace is exactly what `Trim` removes. */
  lemma {:induction false} TrimSurrounded(pre: string, t: string, post: string)
    requires AllWhiteSpace(pre) && AllWhiteSpace(post)
    requires t != [] && !IsWhiteSpace(t[0]) && !IsWhiteSpace(t[|t| - 1])
    ensures Trim(pre + t + post) == t
  {
    TrimStartSurrounded(pre, t, post);
    TrimEndSkips(t, post);
  }

  lemma TrimStartSurrounded(pre: string, t: string, post: string)
    requires AllWhiteSpace(pre)
    requires t != [] && !IsWhiteSpace(t[0])
    ensures TrimStart(pre + t + post) == t + post
  {
    var rest := t + post;
    assert rest[0] == t[0];
    assert pre + t + post == pre + rest;
    TrimStartSkips(pre, rest);
  }

  lemma {:induction false} TrimStartSkips(pre: string, rest: string)
    requires AllWhiteSpace(pre)
    requires rest != [] && !IsWhiteSpace(rest[0])
    ensures TrimStart(pre + rest) == rest
  {
    if pre != [] {
      assert (pre + rest)[1..] == pre[1..] + rest;
      TrimStartSkips(pre[1..], rest);
    }
  }

  lemma {:induction false} TrimEndSkips(rest: string, post: string)
    requires AllWhiteSpace(post)
    requires rest != [] && !IsWhiteSpace(rest[|rest| - 1])
    ensures TrimEnd(rest + post) == rest
  {
    if post != [] {
      assert (rest + post)[..|rest + post| - 1] == rest + post[..|post| - 1];
      TrimEndSkips(rest, post[..|post| - 1]);
    } else {
      assert rest + post == rest;
    }
  }

  /** Trimming twice is trimming once. */
  lemma TrimIdempotent(s: string)
    ensures Trim(Trim(s)) == Trim(s)
  {
    var r := Trim(s);
    TrimMaximal(s);
    if r != [] {
      TrimSurrounded([], r, []);
      assert [] + r + [] == r;
    }
  }

  // ---------------------------------------------------------------------
  // Ordinal case-insensitive comparison and reversal

  /** The upper-case form `StringComparison.OrdinalIgnoreCase` compares by,
      for the ASCII letters. */
  function ToUpperOrdinal(c: char): (u: char)
    ensures 'a' <= c <= 'z' ==> u as int == c as int - 32
    ensures !('a' <= c <= 'z') ==> u == c
  {
    if 'a' <= c <= 'z' then (c as int - 32) as char else c
  }

  /** `a.Equals(b, StringComparison.OrdinalIgnoreCase)`. */
  predicate EqualsIgnoreCase(a: string, b: string) {
    |a| == |b| && forall i :: 0 <= i < |a| ==> ToUpperOrdinal(a[i]) == ToUpperOrdinal(b[i])
  }

  /** The comparison does not depend on the order of its arguments. */
  lemma EqualsIgnoreCaseSymmetric(a: string, b: string)
    ensures EqualsIgnoreCase(a, b) == EqualsIgnoreCase(b, a)
  {
  }

  /** `new string(s.ToCharArray().Reverse().ToArray())`. */
  function Reverse<T>(s: seq<T>): (r: seq<T>)
    ensures |r| == |s|
    ensures forall i :: 0 <= i < |s| ==> r[i] == s[|s| - 1 - i]
  {
    if s == [] then [] else Reverse(s[1..]) + [s[0]]
  }

  lemma ReverseReverse<T>(s: seq<T>)
    ensures Reverse(Reverse(s)) == s
  {
  }

  // ---------------------------------------------------------------------
  // `string.Length`, which counts UTF-16 code units

  /** A scalar value of the Basic Multilingual Plane takes one UTF-16 code
      unit; any other takes two, a surrogate pair. */
  predicate InBmp(c: char) {
    c < '\U{10000}'
  }

  function Utf16Units(c: char): (n: nat)
    ensures n == 1 <==> InBmp(c)
    ensures 1 <= n <= 2
  {
    if InBmp(c) then 1 else 2
  }

  /** `s.Length`: the UTF-16 code units of `s`. */
  function Utf16Length(s: string): (n: nat)
    ensures |s| <= n <= 2 * |s|
  {
    if s == [] then 0 else Utf16Length(s[..|s| - 1]) + Utf16Units(s[|s| - 1])
  }

  /** The code units of a concatenation are those of its parts. */
  lemma {:induction false} Utf16LengthAppend(a: string, b: string)
    ensures Utf16Length(a + b) == Utf16Length(a) + Utf16Length(b)
  {
    if b != [] {
      var init := (a + b)[..|a + b| - 1];
      assert init == a + b[..|b| - 1];
      Utf16LengthAppend(a, b[..|b| - 1]);
    } else {
      assert a + b == a;
    }
  }

  /** `Length` counts the characters exactly when every one of them lies in
      the Basic Multilingual Plane. */
  lemma {:induction false} Utf16LengthIsLength(s: string)
    ensures Utf16Length(s) == |s| <==> forall i :: 0 <= i < |s| ==> InBmp(s[i])
  {
    if s != [] {
      var init := s[..|s| - 1];
      Utf16LengthIsLength(init);
      if forall i :: 0 <= i < |s| ==> InBmp(s[i]) {
        assert forall i :: 0 <= i < |init| ==> InBmp(init[i]) by {
          forall i | 0 <= i < |init| ensures InBmp(init[i]) {
            assert init[i] == s[i];
          }
        }
      } else {
        var i :| 0 <= i < |s| && !InBmp(s[i]);
        if i == |s| - 1 {
          assert Utf16Units(s[i]) == 2;
        } else {
          assert init[i] == s[i];
        }
      }
    }
  }
}
