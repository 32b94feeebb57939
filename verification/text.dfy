/** The string operations the tracker relies on: Python's `str.strip`,
    substring search, decimal digits, `int()` / `float()` on text, and the
    `{n:02d}` format. */
module Text {
  import opened Common

  /** The ASCII characters for which Python's `str.isspace` holds. */
  predicate IsSpace(c: char) {
    c == ' ' || c == '\t' || c == '\n' || c == '\r' || c == '\U{000B}' || c == '\U{000C}'
    || c == '\U{001C}' || c == '\U{001D}' || c == '\U{001E}' || c == '\U{001F}'
  }

  function StripLeft(s: string): (r: string)
    ensures |r| <= |s| && r == s[|s| - |r|..]
    ensures r == [] || !IsSpace(r[0])
    ensures forall i :: 0 <= i < |s| - |r| ==> IsSpace(s[i])
  {
    if |s| > 0 && IsSpace(s[0]) then
      var r := StripLeft(s[1..]);
      assert r == s[|s| - |r|..] by {
        assert s[1..][|s| - 1 - |r|..] == s[|s| - |r|..];
      }
      r
    else s
  }

  function StripRight(s: string): (r: string)
    ensures |r| <= |s| && r == s[..|r|]
    ensures r == [] || !IsSpace(r[|r| - 1])
    ensures forall i :: |r| <= i < |s| ==> IsSpace(s[i])
  {
    if |s| > 0 && IsSpace(s[|s| - 1]) then
      var r := StripRight(s[..|s| - 1]);
      assert r == s[..|r|] by {
        assert s[..|s| - 1][..|r|] == s[..|r|];
      }
      r
    else s
  }

  /** Python's `s.strip()`: the longest infix with no surrounding white space. */
  function Strip(s: string): (r: string)
    ensures |r| <= |s|
    ensures r == [] || (!IsSpace(r[0]) && !IsSpace(r[|r| - 1]))
  {
    StripRight(StripLeft(s))
  }

  predicate IsBlank(s: string) {
    forall i :: 0 <= i < |s| ==> IsSpace(s[i])
  }

  /** `s.strip()` is falsy exactly when `s` is empty or only white space. */
  lemma StripEmptyIffBlank(s: string)
    ensures Strip(s) == [] <==> IsBlank(s)
  {
    var l := StripLeft(s);
    if Strip(s) != [] {
      var r := Strip(s);
      assert l[0] == r[0] && !IsSpace(l[0]);
      assert s[|s| - |l|] == l[0];
    }
  }

  /** The result of `strip` has no white space at either end, so stripping again changes nothing. */
  lemma StripIdempotent(s: string)
    ensures Strip(Strip(s)) == Strip(s)
  {
    var r := Strip(s);
    if r != [] {
      assert StripLeft(s)[0] == r[0];
    }
  }

  /** `p` occurs in `s` at some position. */
  ghost predicate Occurs(p: string, s: string) {
    exists i :: OccursAt(p, s, i)
  }

  ghost predicate OccursAt(p: string, s: string, i: int) {
    0 <= i <= |s| - |p| && s[i..i + |p|] == p
  }

  /** Python's `p in s` for strings. */
  function Contains(s: string, p: string): (b: bool)
    ensures b <==> Occurs(p, s)
    decreases |s|
  {
    if |s| < |p| then false
    else if s[..|p|] == p then (assert OccursAt(p, s, 0); true)
    else
      var b := Contains(s[1..], p);
      assert b ==> Occurs(p, s) by {
        if b {
          var i :| OccursAt(p, s[1..], i);
          assert s[i + 1..i + 1 + |p|] == p;
          assert OccursAt(p, s, i + 1);
        }
      }
      assert Occurs(p, s) ==> b by {
        if Occurs(p, s) {
          var i :| OccursAt(p, s, i);
          assert i != 0;
          assert s[1..][i - 1..i - 1 + |p|] == p;
          assert OccursAt(p, s[1..], i - 1);
        }
      }
      b
  }

  /** Python's `s.split(sep)` for a one-character separator: the pieces
      between the separators, always at least one of them. */
  function Split(s: string, sep: char): (parts: seq<string>)
    ensures |parts| >= 1
    ensures forall i :: 0 <= i < |parts| ==> sep !in parts[i]
  {
    if s == [] then [""]
    else
      var rest := Split(s[1..], sep);
      if s[0] == sep then [""] + rest
      else [[s[0]] + rest[0]] + rest[1..]
  }

  /** `sep.join(parts)`. */
  function Join(parts: seq<string>, sep: char): string
    requires |parts| >= 1
  {
    if |parts| == 1 then parts[0] else parts[0] + [sep] + Join(parts[1..], sep)
  }

  /** Joining the pieces of a split gives the text back. */
  lemma {:induction false} JoinSplit(s: string, sep: char)
    ensures Join(Split(s, sep), sep) == s
  {
    if s != [] {
      JoinSplit(s[1..], sep);
      var rest := Split(s[1..], sep);
      if s[0] != sep {
        if |rest| == 1 {
          assert Join(Split(s, sep), sep) == [s[0]] + rest[0];
        } else {
          assert Split(s, sep)[1..] == rest[1..];
          assert Join(rest, sep) == rest[0] + [sep] + Join(rest[1..], sep);
        }
      }
    }
  }

  /** Splitting a join of separator-free pieces gives the pieces back. */
  lemma {:induction false} SplitJoin(parts: seq<string>, sep: char)
    requires |parts| >= 1
    requires forall i :: 0 <= i < |parts| ==> sep !in parts[i]
    ensures Split(Join(parts, sep), sep) == parts
  {
    if |parts| == 1 {
      SplitPiece(parts[0], [], sep);
    } else {
      SplitJoin(parts[1..], sep);
      SplitPiece(parts[0], Join(parts[1..], sep), sep);
      assert Join(parts, sep) == parts[0] + ([sep] + Join(parts[1..], sep));
    }
  }

  /** Three separator-free pieces joined by the separator split back into
      them. */
  lemma SplitThree(a: string, b: string, c: string, sep: char)
    requires sep !in a && sep !in b && sep !in c
    ensures Split(a + [sep] + b + [sep] + c, sep) == [a, b, c]
  {
    var parts := [a, b, c];
    assert Join(parts[1..], sep) == b + [sep] + c by {
      assert Join(parts[2..], sep) == c;
    }
    SplitJoin(parts, sep);
    assert a + [sep] + b + [sep] + c == a + [sep] + (b + [sep] + c);
  }

  /** A separator-free piece in front of `[sep] + t` (or of nothing) becomes
      the first piece of the split. */
  lemma {:induction false} SplitPiece(p: string, t: string, sep: char)
    requires sep !in p
    ensures Split(p, sep) == [p]
    ensures Split(p + [sep] + t, sep) == [p] + Split(t, sep)
  {
    if p == [] {
      assert ([sep] + t)[1..] == t;
    } else {
      SplitPiece(p[1..], t, sep);
      assert (p + [sep] + t)[1..] == p[1..] + [sep] + t;
      assert [p[0]] + p[1..] == p;
    }
  }

  predicate IsDigit(c: char) {
    '0' <= c <= '9'
  }

  predicate AllDigits(s: string) {
    forall i :: 0 <= i < |s| ==> IsDigit(s[i])
  }

  function DigitValue(c: char): (v: nat)
    requires IsDigit(c)
    ensures v < 10
  {
    (c as int - '0' as int) as nat
  }

  function DigitChar(v: nat): (c: char)
    requires v < 10
    ensures IsDigit(c) && DigitValue(c) == v
  {
    (v + '0' as int) as char
  }

  /** The number a string of decimal digits denotes. */
  function DigitsValue(s: string): nat
    requires AllDigits(s)
  {
    if s == [] then 0 else DigitsValue(s[..|s| - 1]) * 10 + DigitValue(s[|s| - 1])
  }

  /** Python's `str(n)` for a natural number. */
  function NatToString(n: nat): (r: string)
  {
    if n < 10 then [DigitChar(n)] else NatToString(n / 10) + [DigitChar(n % 10)]
  }

  /** `str(n)` is a non-empty digit string that reads back as `n`, with no
      leading zero unless it is "0" itself. */
  lemma {:induction false} NatToStringDigits(n: nat)
    ensures var r := NatToString(n);
      |r| >= 1 && AllDigits(r) && DigitsValue(r) == n && (n >= 10 ==> r[0] != '0') && (n < 10 <==> |r| == 1)
  {
    if n >= 10 {
      NatToStringDigits(n / 10);
      var r := NatToString(n);
      assert r[..|r| - 1] == NatToString(n / 10);
    }
  }

  /** A leading zero does not change the value of a digit string. */
  lemma {:induction false} LeadingZero(s: string)
    requires AllDigits(s)
    ensures AllDigits("0" + s) && DigitsValue("0" + s) == DigitsValue(s)
  {
    if s != [] {
      LeadingZero(s[..|s| - 1]);
      assert ("0" + s)[..|s|] == "0" + s[..|s| - 1];
    }
  }

  /** `int(s)` on a string, restricted to optional white space, an optional
      sign and at least one ASCII decimal digit (no underscores between
      digits). */
  function ParseInt(s: string): (r: Option<int>)
    ensures IsBlank(s) ==> r.None?
  {
    StripEmptyIffBlank(s);
    ParseSignedInt(Strip(s))
  }

  /** Only a text whose stripped form starts with '-' reads as a negative
      number. */
  lemma NegativeNeedsMinus(s: string)
    ensures ParseInt(s).Some? && ParseInt(s).value < 0 ==> Strip(s) != [] && Strip(s)[0] == '-'
  {
    var t := Strip(s);
    if |t| > 0 && t[0] == '+' && |t| > 1 && AllDigits(t[1..]) {
      assert ParseInt(s) == Some(DigitsValue(t[1..]));
    }
  }

  /** An optional sign followed by at least one decimal digit. */
  function ParseSignedInt(t: string): Option<int>
  {
    if |t| > 0 && (t[0] == '-' || t[0] == '+') then
      if |t| > 1 && AllDigits(t[1..]) then
        var v: int := DigitsValue(t[1..]);
        Some(if t[0] == '-' then -v else v)
      else None
    else if |t| > 0 && AllDigits(t) then Some(DigitsValue(t))
    else None
  }

  /** The value of the decimal literal `ip.fp`. */
  function DecimalValue(ip: string, fp: string): real
    requires AllDigits(ip) && AllDigits(fp)
  {
    DigitsValue(ip) as real + Shift(DigitsValue(fp), |fp|)
  }

  /** `n / 10^k`, one decimal place at a time. */
  function Shift(n: nat, k: nat): real {
    if k == 0 then n as real else Shift(n, k - 1) / 10.0
  }

  function Pow10(k: nat): (r: nat)
    ensures r >= 1
  {
    if k == 0 then 1 else 10 * Pow10(k - 1)
  }

  /** Position of the first '.' in `s`, or `|s|` when there is none. */
  function DotIndex(s: string): (k: nat)
    ensures k <= |s|
    ensures k < |s| ==> s[k] == '.'
    ensures forall i :: 0 <= i < k ==> s[i] != '.'
  {
    if s == [] then 0 else if s[0] == '.' then 0 else 1 + DotIndex(s[1..])
  }

  /** An unsigned decimal literal: digits, optionally a '.' and more digits,
      with at least one digit in all. */
  function ParseUnsignedDecimal(t: string): Option<real>
  {
    var k := DotIndex(t);
    var ip := t[..k];
    var fp := if k < |t| then t[k + 1..] else "";
    if AllDigits(ip) && AllDigits(fp) && |ip| + |fp| > 0 then Some(DecimalValue(ip, fp)) else None
  }

  /** Python's `float(s)` on the decimal literals it accepts: optional white
      space, an optional sign, digits with an optional fractional part. */
  function ParseFloat(s: string): (r: Option<real>)
    ensures IsBlank(s) ==> r.None?
  {
    StripEmptyIffBlank(s);
    ParseSignedDecimal(Strip(s))
  }

  /** An optional sign followed by an unsigned decimal literal. */
  function ParseSignedDecimal(t: string): Option<real>
  {
    if |t| > 0 && (t[0] == '-' || t[0] == '+') then
      match ParseUnsignedDecimal(t[1..])
      case None => None
      case Some(v) => Some(if t[0] == '-' then -v else v)
    else ParseUnsignedDecimal(t)
  }

  /** Python's `int(x)` on a float: truncation toward zero. */
  function Truncate(x: real): (n: int)
    ensures 0.0 <= x ==> n as real <= x < n as real + 1.0
    ensures x < 0.0 ==> n as real - 1.0 < x <= n as real
  {
    if x >= 0.0 then x.Floor else -((-x).Floor)
  }

  /** Python's `f"{n:02d}"`: zero-padded to two characters; a negative number
      keeps its sign and is not padded further. */
  function Pad2(n: int): (r: string)
  {
    if n < 0 then "-" + NatToString(-n)
    else if n < 10 then "0" + NatToString(n)
    else NatToString(n)
  }

  /** A string with no white space at either end is its own `strip()`. */
  lemma StripTrimmed(s: string)
    requires |s| > 0 && !IsSpace(s[0]) && !IsSpace(s[|s| - 1])
    ensures Strip(s) == s
  {
    assert StripLeft(s) == s;
  }

  /** A character that is not a digit does not occur in a digit string. */
  lemma DigitsExclude(s: string, c: char)
    requires AllDigits(s) && !IsDigit(c)
    ensures c !in s
  {
    forall i | 0 <= i < |s|
      ensures s[i] != c
    {
      assert IsDigit(s[i]);
    }
  }

  /** Reading a string of digits through `int()` gives its value back. */
  lemma DigitsParse(d: string)
    requires |d| > 0 && AllDigits(d)
    ensures ParseInt(d) == Some(DigitsValue(d))
  {
    StripTrimmed(d);
  }

  /** Reading a minus sign and a string of digits through `int()` gives the negated value. */
  lemma NegativeDigitsParse(d: string)
    requires |d| > 0 && AllDigits(d)
    ensures ParseInt("-" + d) == Some(-(DigitsValue(d) as int))
  {
    var r := "-" + d;
    assert r[1..] == d && r[|r| - 1] == d[|d| - 1];
    StripTrimmed(r);
  }

  /** `int(f"{n:02d}") == n`, and the padded text is at least two characters long. */
  lemma Pad2ParsesBack(n: int)
    ensures |Pad2(n)| >= 2
    ensures ParseInt(Pad2(n)) == Some(n)
  {
    var r := Pad2(n);
    if n < 0 {
      NatToStringDigits(-n);
      NegativeDigitsParse(NatToString(-n));
    } else if n < 10 {
      NatToStringDigits(n);
      LeadingZero(NatToString(n));
      DigitsParse(r);
    } else {
      NatToStringDigits(n);
      DigitsParse(r);
    }
  }
}
