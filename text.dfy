/**
 * The Python string built-ins that the CI script relies on, stated over `seq<char>`:
 * substring test (`sub in s`), `str.strip()`, `str.split(' ')`, `sep.join(...)`,
 * `str(int)`, `str.lower()` and `os.path.basename`.
 */
module Text {

  /** `sub` occurs in `s` starting at index `i`. */
  predicate OccursAt(s: string, sub: string, i: int) {
    0 <= i <= |s| - |sub| && s[i..i + |sub|] == sub
  }

  /** Python's `sub in s` for strings: `sub` occurs in `s` at some index (see `ContainsAt` and
      `ContainsOccurs`). The empty string is in every string; no longer string is. */
  predicate Contains(s: string, sub: string)
    ensures |sub| == 0 ==> Contains(s, sub)
    ensures Contains(s, sub) ==> |sub| <= |s|
    decreases |s|
  {
    if |s| < |sub| then false
    else s[..|sub|] == sub || Contains(s[1..], sub)
  }

  /** An occurrence at any index is found by the left-to-right search. */
  lemma {:induction false} ContainsAt(s: string, sub: string, i: int)
    requires OccursAt(s, sub, i)
    ensures Contains(s, sub)
    decreases i
  {
    if i > 0 {
      assert s[1..][i - 1..i - 1 + |sub|] == s[i..i + |sub|];
      ContainsAt(s[1..], sub, i - 1);
    }
  }

  /** Every hit of the search is an occurrence at some index. */
  lemma {:induction false} ContainsOccurs(s: string, sub: string) returns (i: nat)
    requires Contains(s, sub)
    ensures OccursAt(s, sub, i)
    decreases |s|
  {
    if s[..|sub|] == sub {
      i := 0;
    } else {
      var j := ContainsOccurs(s[1..], sub);
      assert s[1..][j..j + |sub|] == s[j + 1..j + 1 + |sub|];
      i := j + 1;
    }
  }

  lemma ContainsSuffix(a: string, b: string)
    ensures Contains(a + b, b)
  {
    ContainsAt(a + b, b, |a|);
  }

  /** A string that lacks one of the characters of `sub` cannot contain `sub`. */
  lemma {:induction false} NotContainsMissingChar(s: string, sub: string, c: char)
    requires c in sub && c !in s
    ensures !Contains(s, sub)
    decreases |s|
  {
    if |s| >= |sub| {
      var k :| 0 <= k < |sub| && sub[k] == c;
      assert s[..|sub|][k] == s[k] != c;
      assert forall x :: x in s[1..] ==> x in s;
      NotContainsMissingChar(s[1..], sub, c);
    }
  }

  // ---------------------------------------------------------------------------
  // str.strip()

  /** The characters for which Python's `str.isspace()` holds; `str.strip()` removes exactly these. */
  predicate IsSpace(c: char) {
    c == ' ' || ('\t' <= c <= '\r') || ('\U{001C}' <= c <= '\U{001F}')
    || c == '\U{0085}' || c == '\U{00A0}' || c == '\U{1680}' || ('\U{2000}' <= c <= '\U{200A}')
    || c == '\U{2028}' || c == '\U{2029}' || c == '\U{202F}' || c == '\U{205F}' || c == '\U{3000}'
  }

  /** `s` without its leading whitespace (see `StripStartSpec`). */
  function StripStart(s: string): string
    decreases |s|
  {
    if |s| == 0 || !IsSpace(s[0]) then s else StripStart(s[1..])
  }

  /** `s` without its trailing whitespace (see `StripEndSpec`). */
  function StripEnd(s: string): string
    decreases |s|
  {
    if |s| == 0 || !IsSpace(s[|s| - 1]) then s else StripEnd(s[..|s| - 1])
  }

  /** Python's `s.strip()`: no longer than `s`, and neither starting nor ending with whitespace
      (what it removes: `StripSpec`). */
  function Strip(s: string): (r: string)
    ensures |r| <= |s|
    ensures r == [] || (!IsSpace(r[0]) && !IsSpace(r[|r| - 1]))
  {
    StripStartSpec(s);
    StripEndSpec(StripStart(s));
    StripEnd(StripStart(s))
  }

  lemma {:induction false} StripStartSpec(s: string)
    ensures |StripStart(s)| <= |s| && StripStart(s) == s[|s| - |StripStart(s)|..]
    ensures StripStart(s) == [] || !IsSpace(StripStart(s)[0])
    ensures forall k :: 0 <= k < |s| - |StripStart(s)| ==> IsSpace(s[k])
    decreases |s|
  {
    if |s| > 0 && IsSpace(s[0]) {
      StripStartSpec(s[1..]);
      assert forall k :: 1 <= k < |s| ==> s[1..][k - 1] == s[k];
    }
  }

  lemma {:induction false} StripEndSpec(s: string)
    ensures |StripEnd(s)| <= |s| && StripEnd(s) == s[..|StripEnd(s)|]
    ensures StripEnd(s) == [] || !IsSpace(StripEnd(s)[|StripEnd(s)| - 1])
    ensures forall k :: |StripEnd(s)| <= k < |s| ==> IsSpace(s[k])
    decreases |s|
  {
    if |s| > 0 && IsSpace(s[|s| - 1]) {
      StripEndSpec(s[..|s| - 1]);
    }
  }

  /** `r` is `s` less a whitespace-only prefix of length `a` and a whitespace-only suffix. */
  predicate StrippedAt(s: string, r: string, a: int) {
    OccursAt(s, r, a)
    && (forall k :: 0 <= k < a ==> IsSpace(s[k]))
    && (forall k :: a + |r| <= k < |s| ==> IsSpace(s[k]))
  }

  /** `strip()` removes exactly a whitespace prefix and a whitespace suffix. */
  lemma StripSpec(s: string)
    ensures exists a :: StrippedAt(s, Strip(s), a)
  {
    var t := StripStart(s);
    StripStartSpec(s);
    StripEndSpec(t);
    var a := |s| - |t|;
    var r := StripEnd(t);
    assert s[a..a + |r|] == r;
    assert forall k :: a + |r| <= k < |s| ==> s[k] == t[k - a];
    assert Strip(s) == r;
    assert StrippedAt(s, r, a);
  }

  // ---------------------------------------------------------------------------
  // sep.join(parts) and s.split(sep)

  /** Python's `sep.join(parts)`: the first part starts the result (where every part sits:
      `JoinPartAt`). */
  function Join(sep: string, parts: seq<string>): (r: string)
    ensures |parts| >= 1 ==> parts[0] <= r
  {
    if |parts| == 0 then ""
    else if |parts| == 1 then parts[0]
    else parts[0] + sep + Join(sep, parts[1..])
  }

  /** Python's `s.split(sep)` for a one-character separator: every occurrence of `sep` cuts,
      so adjacent, leading or trailing separators give empty pieces, and "" gives [""]. */
  function Split(s: string, sep: char): (r: seq<string>)
    ensures |r| >= 1
    decreases |s|
  {
    if |s| == 0 then [""]
    else
      var rest := Split(s[1..], sep);
      if s[0] == sep then [""] + rest
      else [[s[0]] + rest[0]] + rest[1..]
  }

  /** The pieces of `split` contain no separator, and joining them back gives the string. */
  lemma {:induction false} SplitSpec(s: string, sep: char)
    ensures forall k :: 0 <= k < |Split(s, sep)| ==> sep !in Split(s, sep)[k]
    ensures Join([sep], Split(s, sep)) == s
    decreases |s|
  {
    if |s| > 0 {
      var rest := Split(s[1..], sep);
      SplitSpec(s[1..], sep);
      if s[0] == sep {
        assert ([""] + rest)[1..] == rest;
        assert [sep] + s[1..] == s;
      } else {
        var r := [[s[0]] + rest[0]] + rest[1..];
        assert r[1..] == rest[1..];
        assert [s[0]] + s[1..] == s;
        assert |rest| >= 2 ==> Join([sep], rest) == rest[0] + [sep] + Join([sep], rest[1..]);
        assert forall k :: 1 <= k < |r| ==> r[k] == rest[k];
      }
    }
  }

  lemma {:induction false} SplitAfterSeparator(t: string, sep: char)
    ensures Split([sep] + t, sep) == [""] + Split(t, sep)
  {
    assert ([sep] + t)[1..] == t;
  }

  /** Splitting two separator-free words and a tail, each after the next separator. */
  lemma SplitTwoWords(u: string, v: string, t: string, sep: char)
    requires sep !in u && sep !in v
    ensures var pieces := Split(u + [sep] + v + [sep] + t, sep);
      |pieces| >= 3 && pieces[0] == u && pieces[1] == v
  {
    var rest := [sep] + t;
    var mid := v + rest;
    assert u + [sep] + v + [sep] + t == u + ([sep] + mid);
    SplitWord(u, [sep] + mid, sep);
    SplitAfterSeparator(mid, sep);
    SplitWord(v, rest, sep);
    SplitAfterSeparator(t, sep);
    assert u + "" == u;
    assert v + "" == v;
  }

  /** Splitting a separator-free word followed by `t` glues the word onto the first piece of `t`. */
  lemma {:induction false} SplitWord(w: string, t: string, sep: char)
    requires sep !in w
    ensures Split(w + t, sep) == [w + Split(t, sep)[0]] + Split(t, sep)[1..]
    decreases |w|
  {
    if |w| == 0 {
      assert w + t == t;
      assert w + Split(t, sep)[0] == Split(t, sep)[0];
      assert Split(t, sep) == [Split(t, sep)[0]] + Split(t, sep)[1..];
    } else {
      SplitWord(w[1..], t, sep);
      assert (w + t)[1..] == w[1..] + t;
      assert (w + t)[0] == w[0];
      assert [w[0]] + (w[1..] + Split(t, sep)[0]) == w + Split(t, sep)[0];
    }
  }

  /** `split` undoes `join` when no part contains the separator. */
  lemma {:induction false} SplitJoin(parts: seq<string>, sep: char)
    requires |parts| >= 1
    requires forall k :: 0 <= k < |parts| ==> sep !in parts[k]
    ensures Split(Join([sep], parts), sep) == parts
  {
    if |parts| == 1 {
      SplitWord(parts[0], "", sep);
      assert parts[0] + "" == parts[0];
    } else {
      var tail := Join([sep], parts[1..]);
      SplitJoin(parts[1..], sep);
      SplitAfterSeparator(tail, sep);
      SplitWord(parts[0], [sep] + tail, sep);
      assert parts[0] + [sep] + tail == parts[0] + ([sep] + tail);
      assert parts[0] + "" == parts[0];
      assert parts == [parts[0]] + parts[1..];
    }
  }

  /** Offset of part `k` inside `Join(sep, parts)`. */
  function PartOffset(sep: string, parts: seq<string>, k: nat): nat
    requires k <= |parts|
  {
    if k == 0 then 0 else PartOffset(sep, parts, k - 1) + |parts[k - 1]| + |sep|
  }

  /** Reading a joined string back: part `k` sits at `PartOffset(sep, parts, k)`. */
  lemma {:induction false} JoinPartAt(sep: string, parts: seq<string>, k: nat)
    requires k < |parts|
    ensures PartOffset(sep, parts, k) + |parts[k]| <= |Join(sep, parts)|
    ensures Join(sep, parts)[PartOffset(sep, parts, k)..PartOffset(sep, parts, k) + |parts[k]|] == parts[k]
  {
    if |parts| == 1 {
      assert Join(sep, parts)[0..|parts[0]|] == parts[0];
    } else if k == 0 {
      var rest := sep + Join(sep, parts[1..]);
      assert Join(sep, parts) == parts[0] + rest;
      assert (parts[0] + rest)[0..|parts[0]|] == parts[0];
    } else {
      var tail := parts[1..];
      var head := parts[0] + sep;
      var rest := Join(sep, tail);
      JoinPartAt(sep, tail, k - 1);
      OffsetShift(sep, parts, k - 1);
      var a := PartOffset(sep, tail, k - 1);
      var n := |parts[k]|;
      assert tail[k - 1] == parts[k];
      assert PartOffset(sep, parts, k) == |head| + a;
      assert Join(sep, parts) == head + rest;
      SliceRight(head, rest, a, a + n);
    }
  }

  /** Part `k`, unless it is the last, is followed by the separator. */
  lemma {:induction false} JoinSeparatorAt(sep: string, parts: seq<string>, k: nat)
    requires k + 1 < |parts|
    ensures PartOffset(sep, parts, k + 1) <= |Join(sep, parts)|
    ensures Join(sep, parts)[PartOffset(sep, parts, k) + |parts[k]|..PartOffset(sep, parts, k + 1)] == sep
  {
    var tail := parts[1..];
    var head := parts[0] + sep;
    var rest := Join(sep, tail);
    assert Join(sep, parts) == head + rest;
    if k == 0 {
      assert (head + rest)[|parts[0]|..|head|] == sep;
    } else {
      JoinSeparatorAt(sep, tail, k - 1);
      OffsetShift(sep, parts, k - 1);
      OffsetShift(sep, parts, k);
      assert tail[k - 1] == parts[k];
      var a := PartOffset(sep, tail, k - 1) + |parts[k]|;
      var b := PartOffset(sep, tail, k);
      assert PartOffset(sep, parts, k) + |parts[k]| == |head| + a;
      assert PartOffset(sep, parts, k + 1) == |head| + b;
      SliceRight(head, rest, a, b);
    }
  }

  /** A slice inside the right operand of a concatenation. */
  lemma SliceRight(x: string, y: string, i: nat, j: nat)
    requires i <= j <= |y|
    ensures (x + y)[|x| + i..|x| + j] == y[i..j]
  {
  }

  lemma {:induction false} OffsetShift(sep: string, parts: seq<string>, j: nat)
    requires |parts| >= 1 && j < |parts|
    ensures PartOffset(sep, parts, j + 1) == |parts[0]| + |sep| + PartOffset(sep, parts[1..], j)
  {
    if j > 0 {
      OffsetShift(sep, parts, j - 1);
    }
  }

  /** Joining two or more parts always puts a separator in the result. */
  lemma JoinHasSeparator(sep: string, parts: seq<string>)
    requires |parts| >= 2
    ensures Contains(Join(sep, parts), sep)
  {
    var s := parts[0] + sep;
    var i := |parts[0]|;
    assert (s + Join(sep, parts[1..]))[i..i + |sep|] == sep;
    ContainsAt(Join(sep, parts), sep, i);
  }

  // ---------------------------------------------------------------------------
  // str(n) for integers

  predicate IsDigit(c: char) { '0' <= c <= '9' }

  function DigitChar(d: nat): (c: char)
    requires d < 10
    ensures IsDigit(c) && c as int - '0' as int == d
  {
    ('0' as int + d) as char
  }

  /** Python's `str(n)` for a non-negative integer: decimal digits, no leading zero. */
  function NatToString(n: nat): (r: string)
    ensures |r| >= 1
    ensures forall k :: 0 <= k < |r| ==> IsDigit(r[k])
    ensures r[0] == '0' ==> n == 0
    decreases n
  {
    if n < 10 then [DigitChar(n)] else NatToString(n / 10) + [DigitChar(n % 10)]
  }

  /** The value of a string of decimal digits. */
  function ParseNat(s: string): nat
    requires forall k :: 0 <= k < |s| ==> IsDigit(s[k])
  {
    if |s| == 0 then 0
    else
      assert IsDigit(s[|s| - 1]);
      ParseNat(s[..|s| - 1]) * 10 + (s[|s| - 1] as int - '0' as int)
  }

  lemma {:induction false} NatToStringRoundTrip(n: nat)
    ensures ParseNat(NatToString(n)) == n
    decreases n
  {
    if n >= 10 {
      var s := NatToString(n / 10);
      NatToStringRoundTrip(n / 10);
      assert (s + [DigitChar(n % 10)])[..|s|] == s;
    }
  }

  /** Python's `str(i)` (and `f"{i}"`) for any integer. */
  function IntToString(i: int): (r: string)
    ensures |r| >= 1 && (r[0] == '-' <==> i < 0)
  {
    if i < 0 then "-" + NatToString(-i) else NatToString(i)
  }

  predicate IsIntText(s: string) {
    (|s| >= 1 && s[0] == '-' && forall k :: 1 <= k < |s| ==> IsDigit(s[k]))
    || (forall k :: 0 <= k < |s| ==> IsDigit(s[k]))
  }

  /** Python's `int(s)` on the strings `str` produces for integers. */
  function ParseInt(s: string): int
    requires IsIntText(s)
  {
    if |s| >= 1 && s[0] == '-' then 0 - ParseNat(s[1..]) else ParseNat(s)
  }

  lemma IntToStringRoundTrip(i: int)
    ensures IsIntText(IntToString(i)) && ParseInt(IntToString(i)) == i
  {
    if i < 0 {
      NatToStringRoundTrip(-i);
      assert ("-" + NatToString(-i))[1..] == NatToString(-i);
    } else {
      NatToStringRoundTrip(i);
    }
  }

  // ---------------------------------------------------------------------------
  // str.lower() and os.path.basename

  /** `str.lower()` on one character, for the ASCII letters. */
  function LowerChar(c: char): (r: char)
    ensures 'A' <= c <= 'Z' ==> r as int == c as int + 32
    ensures !('A' <= c <= 'Z') ==> r == c
  {
    if 'A' <= c <= 'Z' then (c as int + 32) as char else c
  }

  /** `s.lower()`, for the ASCII letters. */
  function Lower(s: string): string
  {
    seq(|s|, k requires 0 <= k < |s| => LowerChar(s[k]))
  }

  /** `s.replace(a, b)` for one-character strings `a` and `b`. */
  function ReplaceChar(s: string, a: char, b: char): string
  {
    seq(|s|, k requires 0 <= k < |s| => if s[k] == a then b else s[k])
  }

  /** Python's `os.path.basename(p)` on POSIX: what follows the last '/'. */
  function BaseName(p: string): (r: string)
    ensures '/' !in r
    ensures |r| <= |p| && p[|p| - |r|..] == r
    ensures |r| == |p| || p[|p| - |r| - 1] == '/'
    decreases |p|
  {
    if |p| == 0 || p[|p| - 1] == '/' then ""
    else
      var r := BaseName(p[..|p| - 1]) + [p[|p| - 1]];
      r
  }
}
