/** The Python string operations the Markdown renderer relies on: `str.isspace`,
    `str.strip()` without arguments, `str.join`, and `str(n)` for a
    non-negative integer. */
module PyText {

  /** `c.isspace()`: the characters Python treats as whitespace (bidirectional
      class WS, B or S, or general category Zs). */
  predicate IsSpace(c: char) {
    var n := c as int;
    || 0x09 <= n <= 0x0D
    || 0x1C <= n <= 0x20
    || n == 0x85 || n == 0xA0 || n == 0x1680
    || 0x2000 <= n <= 0x200A
    || n == 0x2028 || n == 0x2029 || n == 0x202F || n == 0x205F || n == 0x3000
  }

  /** Every character of `s` is whitespace (vacuously so for the empty string). */
  predicate AllSpace(s: string) {
    forall k :: 0 <= k < |s| ==> IsSpace(s[k])
  }

  /** Leading whitespace removed: a suffix of `s` whose removed part is all
      whitespace and which does not itself start with whitespace. */
  function StripLeft(s: string): (r: string)
    ensures |r| <= |s| && r == s[|s| - |r|..]
    ensures AllSpace(s[..|s| - |r|])
    ensures r != [] ==> !IsSpace(r[0])
  {
    if s != [] && IsSpace(s[0]) then
      var r := StripLeft(s[1..]);
      assert s[1..][..|s| - 1 - |r|] == s[1..|s| - |r|];
      r
    else s
  }

  /** Trailing whitespace removed: a prefix of `s` whose removed part is all
      whitespace and which does not itself end with whitespace. */
  function StripRight(s: string): (r: string)
    ensures |r| <= |s| && r == s[..|r|]
    ensures AllSpace(s[|r|..])
    ensures r != [] ==> !IsSpace(r[|r| - 1])
  {
    if s != [] && IsSpace(s[|s| - 1]) then
      var r := StripRight(s[..|s| - 1]);
      assert s[..|s| - 1][|r|..] == s[|r|..|s| - 1];
      r
    else s
  }

  /** `s.strip()`: the slice `s[i..j]` left after removing whitespace at both
      ends; it is empty exactly when `s` is all whitespace, and otherwise starts
      and ends with a non-whitespace character. */
  function Strip(s: string): (r: string)
    ensures exists i, j :: 0 <= i <= j <= |s| && r == s[i..j] && AllSpace(s[..i]) && AllSpace(s[j..])
    ensures r == [] <==> AllSpace(s)
    ensures r != [] ==> !IsSpace(r[0]) && !IsSpace(r[|r| - 1])
  {
    StripBothEnds(s);
    StripRight(StripLeft(s))
  }

  /** Removing leading, then trailing whitespace leaves a slice with only
      whitespace on either side, empty exactly for an all-whitespace string. */
  lemma StripBothEnds(s: string)
    ensures var r := StripRight(StripLeft(s));
            && (exists i, j :: 0 <= i <= j <= |s| && r == s[i..j] && AllSpace(s[..i]) && AllSpace(s[j..]))
            && (r == [] <==> AllSpace(s))
            && (r != [] ==> !IsSpace(r[0]) && !IsSpace(r[|r| - 1]))
  {
    var left := StripLeft(s);
    var r := StripRight(left);
    var i := |s| - |left|;
    var j := i + |r|;
    assert r == s[i..j];
    assert s[j..] == left[|r|..];
    assert AllSpace(s[..i]) && AllSpace(s[j..]);
    if r == [] {
      WhitespaceSplit(s, i);
    } else {
      assert r[0] == left[0];
    }
  }

  /** A string whose two sides of a split are all whitespace is all whitespace. */
  lemma WhitespaceSplit(s: string, i: nat)
    requires i <= |s| && AllSpace(s[..i]) && AllSpace(s[i..])
    ensures AllSpace(s)
  {
    forall k | 0 <= k < |s| ensures IsSpace(s[k]) {
      if k < i { assert s[k] == s[..i][k]; } else { assert s[k] == s[i..][k - i]; }
    }
  }

  /** Stripping twice removes nothing more. */
  lemma StripIdempotent(s: string)
    ensures Strip(Strip(s)) == Strip(s)
  {
    var r := Strip(s);
    if r != [] {
      assert StripLeft(r) == r;
      assert StripRight(r) == r;
    }
  }

  /** `sep.join(parts)`. */
  function Join(sep: string, parts: seq<string>): string {
    if parts == [] then ""
    else if |parts| == 1 then parts[0]
    else Join(sep, parts[..|parts| - 1]) + sep + parts[|parts| - 1]
  }

  /** `"".join(parts)`. */
  function Concat(parts: seq<string>): string {
    Join("", parts)
  }

  /** Joining one more part appends the separator and the part; a single part
      is returned unchanged. */
  lemma JoinSnoc(sep: string, parts: seq<string>, last: string)
    ensures Join(sep, parts + [last]) == if parts == [] then last else Join(sep, parts) + sep + last
  {
    assert (parts + [last])[..|parts|] == parts;
  }

  /** Joining two non-empty lists of parts puts one separator between their
      joins. */
  lemma {:induction false} JoinAppend(sep: string, a: seq<string>, b: seq<string>)
    requires a != [] && b != []
    ensures Join(sep, a + b) == Join(sep, a) + sep + Join(sep, b)
    decreases |b|
  {
    var b' := b[..|b| - 1];
    assert b == b' + [b[|b| - 1]];
    if b' != [] {
      JoinAppend(sep, a, b');
    }
    JoinAppendLast(sep, a, b', b[|b| - 1]);
  }

  /** The step of `JoinAppend`: one more part at the end of `b`. */
  lemma JoinAppendLast(sep: string, a: seq<string>, b: seq<string>, x: string)
    requires a != []
    requires b != [] ==> Join(sep, a + b) == Join(sep, a) + sep + Join(sep, b)
    ensures Join(sep, a + (b + [x])) == Join(sep, a) + sep + Join(sep, b + [x])
  {
    assert a + (b + [x]) == (a + b) + [x];
    JoinSnoc(sep, a + b, x);
    JoinSnoc(sep, b, x);
    if b == [] {
      assert a + b == a;
    }
  }

  /** Concatenation distributes over appending lists of pieces: the written
      content is the in-order concatenation of the pieces. */
  lemma {:induction false} ConcatAppend(a: seq<string>, b: seq<string>)
    ensures Concat(a + b) == Concat(a) + Concat(b)
    decreases |b|
  {
    if b == [] {
      assert a + b == a;
    } else {
      var b' := b[..|b| - 1];
      var x := b[|b| - 1];
      assert a + b == (a + b') + [x];
      assert b == b' + [x];
      ConcatAppend(a, b');
      JoinSnoc("", a + b', x);
      JoinSnoc("", b', x);
      if a + b' == [] {
        assert a == [] && b' == [];
      } else if b' == [] {
        assert a + b' == a;
      }
    }
  }

  /** `"".join` of four parts. */
  lemma ConcatFour(a: string, b: string, c: string, d: string)
    ensures Concat([a, b, c, d]) == a + b + c + d
  {
    assert [a, b, c, d][..3] == [a, b, c];
    assert [a, b, c][..2] == [a, b];
    assert [a, b][..1] == [a];
    assert Join("", [a, b]) == a + b by { assert a + "" == a; }
    assert Join("", [a, b, c]) == a + b + c by { assert a + b + "" == a + b; }
    assert Join("", [a, b, c, d]) == a + b + c + d by { assert a + b + c + "" == a + b + c; }
  }

  function DigitChar(d: nat): char
    requires d < 10
  {
    "0123456789"[d]
  }

  predicate IsDigit(c: char) {
    '0' <= c <= '9'
  }

  function DigitValue(c: char): nat
    requires IsDigit(c)
  {
    c as int - '0' as int
  }

  /** `str(n)` for `n >= 0`: decimal digits, most significant first, without
      leading zeros. */
  function DecimalString(n: nat): (r: string)
    ensures r != []
    ensures forall k :: 0 <= k < |r| ==> IsDigit(r[k])
    ensures r[0] == '0' ==> n == 0 && r == "0"
  {
    if n < 10 then [DigitChar(n)] else DecimalString(n / 10) + [DigitChar(n % 10)]
  }

  /** The number a string of decimal digits denotes. */
  function DecimalValue(s: string): nat
    requires forall k :: 0 <= k < |s| ==> IsDigit(s[k])
  {
    if s == [] then 0 else DecimalValue(s[..|s| - 1]) * 10 + DigitValue(s[|s| - 1])
  }

  /** Reading back the decimal string gives the number. */
  lemma {:induction false} DecimalRoundTrip(n: nat)
    ensures DecimalValue(DecimalString(n)) == n
  {
    if n >= 10 {
      DecimalRoundTrip(n / 10);
      var s := DecimalString(n);
      assert s[..|s| - 1] == DecimalString(n / 10);
    }
  }
}
