/**
 * The Python string built-ins the report builder relies on, on Dafny strings
 * (sequences of Unicode scalar values): `str.strip`, `str.lower` as far as the
 * status comparison needs it, `str.join`, `str(int)` and the ordering `<=`
 * that `list.sort` uses on string keys.
 */
module PyStr {
  import opened Wrappers

  // ---------------------------------------------------------------------------
  // Whitespace and strip
  // ---------------------------------------------------------------------------

  /** Python's `str.isspace` for one character: exactly the characters `str.strip()` removes. */
  predicate IsSpace(c: char) {
    || ('\t' <= c <= '\r')
    || ('\U{1C}' <= c <= '\U{1F}')
    || c == ' ' || c == '\U{85}' || c == '\U{A0}' || c == '\U{1680}'
    || ('\U{2000}' <= c <= '\U{200A}')
    || c == '\U{2028}' || c == '\U{2029}' || c == '\U{202F}' || c == '\U{205F}' || c == '\U{3000}'
  }

  /** `s.lstrip()`: the suffix of `s` left after dropping its leading whitespace. */
  function LStrip(s: string): (r: string)
    ensures |r| <= |s| && r == s[|s| - |r|..]
    ensures r == [] || !IsSpace(r[0])
    ensures forall i :: 0 <= i < |s| - |r| ==> IsSpace(s[i])
  {
    if s != [] && IsSpace(s[0]) then LStrip(s[1..]) else s
  }

  /** `s.rstrip()`: the prefix of `s` left after dropping its trailing whitespace. */
  function RStrip(s: string): (r: string)
    ensures |r| <= |s| && r == s[..|r|]
    ensures r == [] || !IsSpace(r[|r| - 1])
    ensures forall i :: |r| <= i < |s| ==> IsSpace(s[i])
  {
    if s != [] && IsSpace(s[|s| - 1]) then RStrip(s[..|s| - 1]) else s
  }

  /** `s.strip()`: whitespace removed at both ends. */
  function Strip(s: string): (r: string)
    ensures r == [] || (!IsSpace(r[0]) && !IsSpace(r[|r| - 1]))
  {
    RStrip(LStrip(s))
  }

  /**
   * Concatenation is associative. Stated once so that proofs about strings
   * built from many literal pieces need not compare them character by character.
   */
  lemma AppendAssoc(a: string, b: string, c: string)
    ensures (a + b) + c == a + (b + c)
  {
  }

  /** The empty string is the unit of concatenation. */
  lemma AppendEmpty(s: string)
    ensures s + "" == s && "" + s == s
  {
  }

  /** `s.startswith(p)`. */
  predicate StartsWith(s: string, p: string) {
    |p| <= |s| && s[..|p|] == p
  }

  /** `s.endswith(p)`. */
  predicate EndsWith(s: string, p: string) {
    |p| <= |s| && s[|s| - |p|..] == p
  }

  /** A text that opens with a non-space character, so that `lstrip` leaves it alone. */
  predicate Opens(s: string) {
    s != [] && !IsSpace(s[0])
  }

  lemma OpensWithPrefix(s: string, p: string)
    requires StartsWith(s, p) && Opens(p)
    ensures Opens(s)
  {
    assert s[0] == s[..|p|][0];
  }

  /** A suffix of a suffix is a suffix. */
  lemma EndsWithSuffix(s: string, p: string, q: string)
    requires EndsWith(s, p) && EndsWith(p, q)
    ensures EndsWith(s, q)
  {
    assert s[|s| - |q|..] == s[|s| - |p|..][|p| - |q|..];
  }

  lemma PrefixOfAppend(a: string, b: string)
    ensures StartsWith(a + b, a)
  {
    assert (a + b)[..|a|] == a;
  }

  /** A prefix of a prefix is a prefix. */
  lemma StartsWithTrans(s: string, p: string, q: string)
    requires StartsWith(s, p) && StartsWith(p, q)
    ensures StartsWith(s, q)
  {
    assert s[..|q|] == s[..|p|][..|q|];
  }

  /** Appending the same text to a string and to one of its suffixes keeps it a suffix. */
  lemma EndsWithAppend(s: string, p: string, t: string)
    requires EndsWith(s, p)
    ensures EndsWith(s + t, p + t)
  {
    assert (s + t)[|s + t| - |p + t|..] == s[|s| - |p|..] + t;
  }

  /** Dropping a final blank line: what `strip` does to a text that opens with a non-space and ends with ">\n\n". */
  lemma StripDropsFinalBlankLine(m: string)
    requires Opens(m) && EndsWith(m, ">\n\n")
    ensures Strip(m) == m[..|m| - 2]
  {
    LStripNonSpaceStart(m);
    assert m == m[..|m| - 2] + "\n\n";
    RStripAppendedSpace(m[..|m| - 2], "\n\n");
  }

  /** A string that starts with a non-space character is left alone by `lstrip`. */
  lemma LStripNonSpaceStart(s: string)
    requires s != [] && !IsSpace(s[0])
    ensures LStrip(s) == s
  {
  }

  /** `rstrip` removes exactly a run of whitespace appended after a non-space end. */
  lemma {:induction false} RStripAppendedSpace(s: string, w: string)
    requires s == [] || !IsSpace(s[|s| - 1])
    requires forall i :: 0 <= i < |w| ==> IsSpace(w[i])
    ensures RStrip(s + w) == s
  {
    if w == [] {
      assert s + w == s;
    } else {
      var u, v := s + w, w[..|w| - 1];
      assert u[|u| - 1] == w[|w| - 1];
      assert u[..|u| - 1] == s + v;
      RStripAppendedSpace(s, v);
    }
  }

  /** `rstrip` keeps everything up to any non-space character. */
  lemma RStripKeeps(s: string, k: nat)
    requires k < |s| && !IsSpace(s[k])
    ensures k < |RStrip(s)|
  {
  }

  // ---------------------------------------------------------------------------
  // Case
  // ---------------------------------------------------------------------------

  /**
   * Lower-casing of one character, on the ASCII letters A-Z. For comparing the
   * result with an all-ASCII, lower-case text this decides as Python's full
   * `str.lower` does: the only other code points whose lower case contains an
   * ASCII letter are U+0130 (which becomes two characters) and U+212A (which
   * becomes 'k').
   */
  function LowerChar(c: char): (r: char)
    ensures 'A' <= c <= 'Z' ==> 'a' <= r <= 'z' && r as int - c as int == 32
    ensures !('A' <= c <= 'Z') ==> r == c
  {
    if 'A' <= c <= 'Z' then (c as int + 32) as char else c
  }

  /** `s.lower()`, character by character; the length is unchanged. */
  function Lower(s: string): (r: string)
    ensures |r| == |s|
  {
    if s == [] then [] else Lower(s[..|s| - 1]) + [LowerChar(s[|s| - 1])]
  }

  /** `s.lower()` maps each character on its own. */
  lemma {:induction false} LowerAt(s: string, i: nat)
    requires i < |s|
    ensures Lower(s)[i] == LowerChar(s[i])
  {
    if i < |s| - 1 {
      LowerAt(s[..|s| - 1], i);
    }
  }

  // ---------------------------------------------------------------------------
  // Join
  // ---------------------------------------------------------------------------

  /** The total length of a list of strings. */
  function TotalLength(parts: seq<string>): nat {
    if parts == [] then 0 else TotalLength(parts[..|parts| - 1]) + |parts[|parts| - 1]|
  }

  /**
   * `sep.join(parts)`: the parts in order, with `sep` between neighbours, so
   * the result is as long as the parts and one separator per pair of neighbours.
   */
  function Join(sep: string, parts: seq<string>): (r: string)
    ensures parts != [] ==> |r| == TotalLength(parts) + (|parts| - 1) * |sep|
  {
    if parts == [] then []
    else if |parts| == 1 then parts[0]
    else
      var init, last := parts[..|parts| - 1], parts[|parts| - 1];
      assert (|parts| - 1) * |sep| == (|init| - 1) * |sep| + |sep|;
      Join(sep, init) + sep + last
  }

  /** The last part closes the joined string. */
  lemma JoinEndsWith(sep: string, parts: seq<string>)
    requires parts != []
    ensures EndsWith(Join(sep, parts), parts[|parts| - 1])
  {
  }

  /** Joining one more part appends the separator and that part. */
  lemma JoinSnoc(sep: string, parts: seq<string>, k: nat)
    requires 0 < k < |parts|
    ensures Join(sep, parts[..k + 1]) == Join(sep, parts[..k]) + sep + parts[k]
  {
    assert parts[..k + 1][..k] == parts[..k];
  }

  /** Concatenating one more part appends it. */
  lemma ConcatSnoc(parts: seq<string>)
    requires |parts| >= 2
    ensures Join("", parts) == Join("", parts[..|parts| - 1]) + parts[|parts| - 1]
  {
    AppendEmpty(Join("", parts[..|parts| - 1]));
  }

  /** Concatenating parts starts with the first three of them. */
  lemma ConcatStartsWithFirstThree(parts: seq<string>)
    requires |parts| >= 3
    ensures StartsWith(Join("", parts), parts[0] + parts[1] + parts[2])
  {
    var q := parts[..3];
    assert q[..2][..1] == [parts[0]];
    ConcatSnoc(q[..2]);
    ConcatSnoc(q);
    assert Join("", q) == parts[0] + parts[1] + parts[2];
    JoinPrefix("", parts, 3);
  }

  /** Concatenating parts ends with the last three of them. */
  lemma ConcatEndsWithLastThree(parts: seq<string>)
    requires |parts| >= 3
    ensures EndsWith(Join("", parts), parts[|parts| - 3] + parts[|parts| - 2] + parts[|parts| - 1])
  {
    var n := |parts|;
    var p1, p2 := parts[..n - 1], parts[..n - 2];
    assert p1[..n - 2] == p2;
    JoinEndsWith("", p2);
    ConcatSnoc(p1);
    EndsWithAppend(Join("", p2), parts[n - 3], parts[n - 2]);
    ConcatSnoc(parts);
    EndsWithAppend(Join("", p1), parts[n - 3] + parts[n - 2], parts[n - 1]);
  }

  /** Joining the first `k` parts gives a prefix of joining them all. */
  lemma {:induction false} JoinPrefix(sep: string, parts: seq<string>, k: nat)
    requires 0 < k <= |parts|
    ensures StartsWith(Join(sep, parts), Join(sep, parts[..k]))
  {
    if k < |parts| {
      var init, last := parts[..|parts| - 1], parts[|parts| - 1];
      JoinPrefix(sep, init, k);
      assert init[..k] == parts[..k];
      AppendAssoc(Join(sep, init), sep, last);
      PrefixOfAppend(Join(sep, init), sep + last);
      StartsWithTrans(Join(sep, parts), Join(sep, init), Join(sep, parts[..k]));
    } else {
      assert parts[..k] == parts;
    }
  }

  /** The first part opens the joined string. */
  lemma {:induction false} JoinStartsWith(sep: string, parts: seq<string>)
    requires parts != []
    ensures StartsWith(Join(sep, parts), parts[0])
  {
    if |parts| > 1 {
      var init := parts[..|parts| - 1];
      JoinStartsWith(sep, init);
      assert init[0] == parts[0];
    }
  }

  // ---------------------------------------------------------------------------
  // Decimal rendering of integers, with its inverse
  // ---------------------------------------------------------------------------

  predicate IsDigit(c: char) { '0' <= c <= '9' }

  function DigitChar(d: nat): (c: char)
    requires d < 10
    ensures IsDigit(c) && c as int - '0' as int == d
  {
    ('0' as int + d) as char
  }

  /** The decimal digits of `n`, most significant first, without leading zeros. */
  function NatToDecimal(n: nat): (r: string)
    ensures r != []
    ensures forall i :: 0 <= i < |r| ==> IsDigit(r[i])
    ensures |r| > 1 ==> r[0] != '0'
  {
    if n < 10 then [DigitChar(n)] else NatToDecimal(n / 10) + [DigitChar(n % 10)]
  }

  /** `str(n)` for a Python int: a minus sign before the digits of a negative number. */
  function IntToDecimal(n: int): (r: string)
    ensures r != [] && (r[0] == '-' <==> n < 0)
  {
    if n < 0 then "-" + NatToDecimal(-n) else NatToDecimal(n)
  }

  /** The number a string of decimal digits denotes. */
  function DigitsValue(s: string): nat
    requires forall i :: 0 <= i < |s| ==> IsDigit(s[i])
  {
    if s == [] then 0
    else
      assert IsDigit(s[|s| - 1]);
      DigitsValue(s[..|s| - 1]) * 10 + (s[|s| - 1] as int - '0' as int)
  }

  /** `int(s)` on the strings `str` produces; None on anything else. */
  function ParseInt(s: string): (r: Option<int>)
  {
    if s != [] && s[0] == '-' then
      if |s| > 1 && forall i :: 1 <= i < |s| ==> IsDigit(s[i]) then Some(-(DigitsValue(s[1..]) as int)) else None
    else if s != [] && forall i :: 0 <= i < |s| ==> IsDigit(s[i]) then Some(DigitsValue(s))
    else None
  }

  lemma {:induction false} NatToDecimalValue(n: nat)
    ensures DigitsValue(NatToDecimal(n)) == n
  {
    if n >= 10 {
      NatToDecimalValue(n / 10);
      var r := NatToDecimal(n);
      assert r[..|r| - 1] == NatToDecimal(n / 10);
    }
  }

  /** Reading back the decimal text of an integer gives the integer. */
  lemma IntToDecimalRoundTrip(n: int)
    ensures ParseInt(IntToDecimal(n)) == Some(n)
  {
    if n < 0 {
      var d := NatToDecimal(-n);
      NatToDecimalValue(-n);
      assert IntToDecimal(n) == "-" + d;
      assert ("-" + d)[1..] == d;
      assert forall i :: 1 <= i < |"-" + d| ==> ("-" + d)[i] == d[i - 1];
    } else {
      NatToDecimalValue(n);
    }
  }

  /** Distinct integers have distinct decimal texts. */
  lemma IntToDecimalInjective(m: int, n: int)
    requires m != n
    ensures IntToDecimal(m) != IntToDecimal(n)
  {
    IntToDecimalRoundTrip(m);
    IntToDecimalRoundTrip(n);
  }

  // ---------------------------------------------------------------------------
  // String order
  // ---------------------------------------------------------------------------

  /** Python's `a <= b` on strings: lexicographic by code point, a prefix first. */
  predicate LexLe(a: string, b: string)
    ensures StartsWith(b, a) ==> LexLe(a, b)
  {
    a == [] || (b != [] && (a[0] < b[0] || (a[0] == b[0] && LexLe(a[1..], b[1..]))))
  }

  lemma {:induction false} LexLeReflexive(a: string)
    ensures LexLe(a, a)
  {
    if a != [] { LexLeReflexive(a[1..]); }
  }

  lemma {:induction false} LexLeTotal(a: string, b: string)
    ensures LexLe(a, b) || LexLe(b, a)
  {
    if a != [] && b != [] && a[0] == b[0] { LexLeTotal(a[1..], b[1..]); }
  }

  lemma {:induction false} LexLeAntisymmetric(a: string, b: string)
    requires LexLe(a, b) && LexLe(b, a)
    ensures a == b
  {
    if a != [] && b != [] {
      LexLeAntisymmetric(a[1..], b[1..]);
      assert a == [a[0]] + a[1..] && b == [b[0]] + b[1..];
    }
  }

  lemma {:induction false} LexLeTransitive(a: string, b: string, c: string)
    requires LexLe(a, b) && LexLe(b, c)
    ensures LexLe(a, c)
  {
    if a != [] && a[0] == b[0] && b[0] == c[0] { LexLeTransitive(a[1..], b[1..], c[1..]); }
  }
}
