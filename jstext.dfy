/**
 * The ECMAScript string built-ins the header parser relies on: `\s`, `String.prototype.trim`,
 * `String.prototype.split(",")` and the global `parseInt` without a radix, restricted to ASCII text.
 */
module JsText {
  import opened Base

  /** The ASCII members of ECMAScript's WhiteSpace and LineTerminator classes (what `\s` and `trim` strip). */
  predicate IsSpace(c: char) {
    c == ' ' || c == '\t' || c == '\n' || c == '\r' || c as int == 0x0B || c as int == 0x0C
  }

  /** Removes leading white space. */
  function TrimStart(s: string): (r: string)
    ensures |r| <= |s| && r == s[|s| - |r|..]
    ensures r == [] || !IsSpace(r[0])
    ensures forall i :: 0 <= i < |s| - |r| ==> IsSpace(s[i])
  {
    if |s| > 0 && IsSpace(s[0]) then
      var r := TrimStart(s[1..]);
      assert s[1..][|s| - 1 - |r|..] == s[|s| - |r|..];
      assert forall i :: 1 <= i < |s| - |r| ==> s[i] == s[1..][i - 1];
      r
    else s
  }

  /** Removes trailing white space. */
  function TrimEnd(s: string): (r: string)
    ensures |r| <= |s| && r == s[..|r|]
    ensures r == [] || !IsSpace(r[|r| - 1])
    ensures forall i :: |r| <= i < |s| ==> IsSpace(s[i])
  {
    if |s| > 0 && IsSpace(s[|s| - 1]) then TrimEnd(s[..|s| - 1]) else s
  }

  /** `s.trim()`: the text between the leading and the trailing white space. */
  function Trim(s: string): (r: string)
    ensures r == [] || (!IsSpace(r[0]) && !IsSpace(r[|r| - 1]))
    ensures exists a :: TrimmedAt(s, r, a)
  {
    var t := TrimStart(s);
    var r := TrimEnd(t);
    assert TrimmedAt(s, r, |s| - |t|);
    r
  }

  /** `r` stands at `a` in `s`, and everything of `s` before and after it is white space. */
  predicate TrimmedAt(s: string, r: string, a: nat) {
    a + |r| <= |s| && r == s[a..a + |r|] &&
    (forall i :: 0 <= i < a ==> IsSpace(s[i])) &&
    (forall i :: a + |r| <= i < |s| ==> IsSpace(s[i]))
  }

  /** The pieces joined back with commas: the inverse of `SplitComma`. */
  function JoinComma(pieces: seq<string>): string
    requires |pieces| >= 1
  {
    if |pieces| == 1 then pieces[0] else pieces[0] + [','] + JoinComma(pieces[1..])
  }

  /** `s.split(",")`: every maximal comma-free piece, empty pieces included, so it is never empty. */
  function SplitComma(s: string): (r: seq<string>)
    ensures |r| >= 1
    ensures forall i :: 0 <= i < |r| ==> ',' !in r[i]
    ensures JoinComma(r) == s
  {
    if s == [] then [[]]
    else
      var rest := SplitComma(s[1..]);
      if s[0] == ',' then
        [[]] + rest
      else
        assert JoinComma([[s[0]] + rest[0]] + rest[1..]) == s by {
          if |rest| > 1 {
            assert ([[s[0]] + rest[0]] + rest[1..])[1..] == rest[1..];
          }
        }
        [[s[0]] + rest[0]] + rest[1..]
  }

  /** The value of a digit character in radix up to 36, or 36 for a character that is no digit. */
  function DigitValue(c: char): (d: nat)
    ensures d <= 36
  {
    if '0' <= c <= '9' then c as int - '0' as int
    else if 'a' <= c <= 'z' then c as int - 'a' as int + 10
    else if 'A' <= c <= 'Z' then c as int - 'A' as int + 10
    else 36
  }

  /** The length of the longest prefix of `s` made of digits of the radix. */
  function DigitRun(s: string, radix: nat): (n: nat)
    ensures n <= |s|
    ensures forall i :: 0 <= i < n ==> DigitValue(s[i]) < radix
    ensures n < |s| ==> DigitValue(s[n]) >= radix
  {
    if |s| > 0 && DigitValue(s[0]) < radix then
      var n := 1 + DigitRun(s[1..], radix);
      assert forall i :: 1 <= i < n ==> s[i] == s[1..][i - 1];
      n
    else 0
  }

  /** The number the digits of `d` denote in the radix, most significant digit first. */
  function DigitsValue(d: string, radix: nat): nat {
    if |d| == 0 then 0 else DigitsValue(d[..|d| - 1], radix) * radix + DigitValue(d[|d| - 1])
  }

  /**
   * `parseInt(s)` with no radix: skip leading white space, take one optional sign, read hexadecimal
   * after `0x`/`0X` and decimal otherwise, use the longest digit prefix and ignore what follows;
   * `None` stands for NaN (no digit at all).
   */
  function ParseInt(s: string): (r: Option<int>)
    ensures TrimStart(s) == [] ==> r == None
    ensures r.Some? && r.value < 0 ==> |TrimStart(s)| > 0 && TrimStart(s)[0] == '-'
  {
    ParseSigned(TrimStart(s))
  }

  /** One optional sign, then the magnitude. */
  function ParseSigned(t: string): Option<int> {
    if |t| > 0 && t[0] == '-' then
      match ParseMagnitude(t[1..])
      case None => None
      case Some(v) => Some(-v)
    else if |t| > 0 && t[0] == '+' then ParseMagnitude(t[1..])
    else ParseMagnitude(t)
  }

  /** Hexadecimal after `0x`/`0X`, decimal otherwise: the value of the longest digit prefix. */
  function ParseMagnitude(u: string): Option<int> {
    var hex := |u| >= 2 && u[0] == '0' && (u[1] == 'x' || u[1] == 'X');
    var radix := if hex then 16 else 10;
    var body := if hex then u[2..] else u;
    var n := DigitRun(body, radix);
    if n == 0 then None else Some(DigitsValue(body[..n], radix))
  }

  /** The decimal digit character of `d`. */
  function DigitChar(d: nat): (c: char)
    requires d < 10
    ensures DigitValue(c) == d
  {
    ('0' as int + d) as char
  }

  /** Python's `str(n)` for a natural number: decimal, no sign, no leading zeros. */
  function Decimal(n: nat): (s: string)
    ensures |s| >= 1
    ensures forall i :: 0 <= i < |s| ==> '0' <= s[i] <= '9'
    ensures DigitsValue(s, 10) == n
    ensures s[0] == '0' ==> s == "0"
  {
    if n < 10 then
      assert [DigitChar(n)][..0] == [];
      [DigitChar(n)]
    else
      var s := Decimal(n / 10) + [DigitChar(n % 10)];
      assert s[..|s| - 1] == Decimal(n / 10);
      s
  }

  lemma {:induction false} DigitRunOfDigits(s: string)
    requires forall i :: 0 <= i < |s| ==> '0' <= s[i] <= '9'
    ensures DigitRun(s, 10) == |s|
  {
    if |s| > 0 {
      DigitRunOfDigits(s[1..]);
    }
  }

  /** `parseInt` reads back every number `Decimal` renders, also after leading blanks. */
  lemma ParseDecimal(n: nat, blanks: string)
    requires forall i :: 0 <= i < |blanks| ==> IsSpace(blanks[i])
    ensures ParseInt(blanks + Decimal(n)) == Some(n)
  {
    ParseDigitString(blanks, Decimal(n));
  }

  /** A run of decimal digits after blanks reads as the number it denotes. */
  lemma ParseDigitString(blanks: string, d: string)
    requires forall i :: 0 <= i < |blanks| ==> IsSpace(blanks[i])
    requires |d| >= 1 && forall i :: 0 <= i < |d| ==> '0' <= d[i] <= '9'
    ensures ParseInt(blanks + d) == Some(DigitsValue(d, 10) as int)
  {
    TrimStartBlanks(blanks, d);
    ParseDigits(blanks + d, d);
  }

  /** A blank-prefixed decimal trims to the decimal, which `parseInt` reads back. */
  lemma ParseTrimmedDecimal(n: nat, blanks: string)
    requires forall i :: 0 <= i < |blanks| ==> IsSpace(blanks[i])
    ensures ParseInt(Trim(blanks + Decimal(n))) == Some(n)
  {
    var d := Decimal(n);
    TrimBlanks(blanks, d);
    ParseDecimal(n, "");
    assert "" + d == d;
  }

  lemma ParseDigits(s: string, d: string)
    requires TrimStart(s) == d
    requires |d| >= 1 && forall i :: 0 <= i < |d| ==> '0' <= d[i] <= '9'
    ensures ParseInt(s) == Some(DigitsValue(d, 10) as int)
  {
    assert ParseSigned(d) == ParseMagnitude(d);
    MagnitudeOfDigits(d);
  }

  lemma MagnitudeOfDigits(d: string)
    requires |d| >= 1 && forall i :: 0 <= i < |d| ==> '0' <= d[i] <= '9'
    ensures ParseMagnitude(d) == Some(DigitsValue(d, 10) as int)
  {
    assert !(|d| >= 2 && d[0] == '0' && (d[1] == 'x' || d[1] == 'X')) by {
      if |d| >= 2 { assert '0' <= d[1] <= '9'; }
    }
    DigitRunOfDigits(d);
    assert d[..|d|] == d;
  }

  lemma {:induction false} TrimStartBlanks(blanks: string, s: string)
    requires forall i :: 0 <= i < |blanks| ==> IsSpace(blanks[i])
    requires s == [] || !IsSpace(s[0])
    ensures TrimStart(blanks + s) == s
  {
    if |blanks| > 0 {
      assert (blanks + s)[1..] == blanks[1..] + s;
      TrimStartBlanks(blanks[1..], s);
    } else {
      assert blanks + s == s;
    }
  }

  /** A string with no white space at either end is its own `trim()`. */
  lemma TrimBlanks(blanks: string, s: string)
    requires forall i :: 0 <= i < |blanks| ==> IsSpace(blanks[i])
    requires |s| >= 1 && !IsSpace(s[0]) && !IsSpace(s[|s| - 1])
    ensures Trim(blanks + s) == s
  {
    TrimStartBlanks(blanks, s);
  }

  /** Text that starts with neither a blank, a sign nor a decimal digit is NaN. */
  lemma ParseNoDigit(s: string)
    requires |s| >= 1 && !IsSpace(s[0]) && s[0] != '-' && s[0] != '+' && DigitValue(s[0]) >= 10
    ensures ParseInt(s) == None
  {
    assert "" + s == s;
    TrimStartBlanks("", s);
    assert ParseSigned(s) == ParseMagnitude(s);
    assert s[0] != '0';
    assert DigitRun(s, 10) == 0;
  }

  /** `parseInt("")` is NaN, so an empty piece left by a trailing comma is dropped. */
  lemma ParseEmpty()
    ensures ParseInt("") == None
  {
  }

  /** A comma-free string splits into itself alone. */
  lemma {:induction false} SplitCommaFree(s: string)
    requires ',' !in s
    ensures SplitComma(s) == [s]
  {
    if s != [] {
      SplitCommaFree(s[1..]);
      assert [s[0]] + s[1..] == s;
    }
  }

  /** Splitting after a comma-free first piece yields that piece, then the split of the rest. */
  lemma {:induction false} SplitCommaPrefix(p: string, rest: string)
    requires ',' !in p
    ensures SplitComma(p + [','] + rest) == [p] + SplitComma(rest)
  {
    if p == [] {
      assert p + [','] + rest == [','] + rest;
      assert ([','] + rest)[1..] == rest;
    } else {
      assert (p + [','] + rest)[1..] == p[1..] + [','] + rest;
      SplitCommaPrefix(p[1..], rest);
      assert [p[0]] + p[1..] == p;
    }
  }

  /** Joining two runs of pieces is joining each and putting a comma between them. */
  lemma {:induction false} JoinCommaConcat(p: seq<string>, q: seq<string>)
    requires |p| >= 1 && |q| >= 1
    ensures JoinComma(p + q) == JoinComma(p) + [','] + JoinComma(q)
  {
    if |p| > 1 {
      assert (p + q)[1..] == p[1..] + q;
      JoinCommaConcat(p[1..], q);
    } else {
      assert (p + q)[1..] == q;
    }
  }

  /** `split(",")` of two texts joined by a comma gives the pieces of the first, then those of the second. */
  lemma SplitCommaConcat(a: string, b: string)
    ensures SplitComma(a + [','] + b) == SplitComma(a) + SplitComma(b)
  {
    var p, q := SplitComma(a), SplitComma(b);
    JoinCommaConcat(p, q);
    SplitJoin(p + q);
  }

  /** `split(",")` undoes `JoinComma` on comma-free pieces. */
  lemma {:induction false} SplitJoin(pieces: seq<string>)
    requires |pieces| >= 1
    requires forall i :: 0 <= i < |pieces| ==> ',' !in pieces[i]
    ensures SplitComma(JoinComma(pieces)) == pieces
  {
    if |pieces| == 1 {
      SplitCommaFree(pieces[0]);
    } else {
      SplitCommaPrefix(pieces[0], JoinComma(pieces[1..]));
      SplitJoin(pieces[1..]);
    }
  }
}
