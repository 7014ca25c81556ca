/**
 JavaScript's global `parseInt(string)` called without a radix, over
 mathematical integers: leading white space skipped, an optional sign, a
 `0x`/`0X` prefix switching to base 16, then the longest run of digits of the
 base. No digit at all gives `NaN`, modelled as `None`.
 */
module JsNumber {
  import opened Wrappers
  import opened JsText

  /** The value of a digit character in bases up to 36 (`0`-`9`, then `a`-`z`
      or `A`-`Z` for 10-35); 36 for every other character. */
  function DigitValue(c: char): (d: nat)
    ensures d <= 36
  {
    if '0' <= c <= '9' then c as int - '0' as int
    else if 'a' <= c <= 'z' then c as int - 'a' as int + 10
    else if 'A' <= c <= 'Z' then c as int - 'A' as int + 10
    else 36
  }

  predicate IsDigitIn(c: char, radix: nat) {
    DigitValue(c) < radix
  }

  predicate AllDigitsIn(s: string, radix: nat) {
    forall i :: 0 <= i < |s| ==> IsDigitIn(s[i], radix)
  }

  /** The longest prefix of `s` made of digits of `radix`. */
  function DigitPrefix(s: string, radix: nat): (p: string)
    ensures |p| <= |s| && p == s[..|p|]
    ensures AllDigitsIn(p, radix)
    ensures |p| == |s| || !IsDigitIn(s[|p|], radix)
  {
    if |s| > 0 && IsDigitIn(s[0], radix) then
      var p := [s[0]] + DigitPrefix(s[1..], radix);
      assert s[..|p|] == [s[0]] + s[1..][..|p| - 1];
      p
    else []
  }

  /** The number a digit string denotes in `radix`, most significant first. */
  function DigitsValue(s: string, radix: nat): nat {
    if |s| == 0 then 0
    else DigitsValue(s[..|s| - 1], radix) * radix + DigitValue(s[|s| - 1])
  }

  /** `parseInt(s)`: `Some(n)` for a number, `None` for `NaN`. The sign of a
      zero is not kept: `-0` and `0` are both `Some(0)`. */
  function ParseInt(s: string): Option<int> {
    var digits := ParseDigits(s);
    if |digits| == 0 then None
    else Some(ParseSign(s) * DigitsValue(digits, ParseRadix(s)))
  }

  /** The text after leading white space and an optional sign. */
  function Unsigned(s: string): string {
    var t := TrimStart(s);
    if |t| > 0 && (t[0] == '+' || t[0] == '-') then t[1..] else t
  }

  /** -1 when the first non-blank character is `-`, else 1. */
  function ParseSign(s: string): int {
    var t := TrimStart(s);
    if |t| > 0 && t[0] == '-' then -1 else 1
  }

  predicate HasHexPrefix(u: string) {
    |u| >= 2 && u[0] == '0' && (u[1] == 'x' || u[1] == 'X')
  }

  function ParseRadix(s: string): nat {
    if HasHexPrefix(Unsigned(s)) then 16 else 10
  }

  /** The digits `parseInt` reads: after the sign and any `0x` prefix, the
      longest run of digits of the radix. */
  function ParseDigits(s: string): string {
    var u := Unsigned(s);
    DigitPrefix(if HasHexPrefix(u) then u[2..] else u, ParseRadix(s))
  }

  // ---------------------------------------------------------------------------
  // Decimal rendering, the partner of ParseInt
  // ---------------------------------------------------------------------------

  function DecimalDigit(d: nat): char
    requires d < 10
  {
    ('0' as int + d) as char
  }

  /** The decimal numeral of `n`, without leading zeros. */
  function Decimal(n: nat): (s: string)
    ensures |s| >= 1 && AllDigitsIn(s, 10)
    ensures n > 0 ==> s[0] != '0'
  {
    if n < 10 then [DecimalDigit(n)] else Decimal(n / 10) + [DecimalDigit(n % 10)]
  }

  /** The decimal numeral of an integer, with `-` for negatives. */
  function ShowInt(n: int): string {
    if n < 0 then "-" + Decimal(-n) else Decimal(n)
  }

  /** A decimal numeral denotes the number it was made from. */
  lemma {:induction false} DecimalValue(n: nat)
    ensures DigitsValue(Decimal(n), 10) == n
  {
    if n >= 10 {
      DecimalValue(n / 10);
      var s := Decimal(n);
      assert s[..|s| - 1] == Decimal(n / 10);
    }
  }

  /** `parseInt` reads back every integer from its decimal numeral. */
  lemma ParseIntShowInt(n: int)
    ensures ParseInt(ShowInt(n)) == Some(n)
  {
    assert [] + ShowInt(n) + [] == ShowInt(n);
    ParseIntSurroundings([], n, []);
  }

  /** Leading white space and text after the digits do not change what
      `parseInt` reads, unless that text continues the digits or turns a
      leading `0` into a `0x` prefix. */
  lemma ParseIntSurroundings(w: string, n: int, rest: string)
    requires AllWhitespace(w)
    requires rest == [] || !IsDigitIn(rest[0], 10)
    requires n == 0 ==> rest == [] || (rest[0] != 'x' && rest[0] != 'X')
    ensures ParseInt(w + ShowInt(n) + rest) == Some(n)
  {
    var m: nat := if n < 0 then -n else n;
    var d := Decimal(m);
    var s := w + ShowInt(n) + rest;
    SignAndDigits(w, n, rest);
    assert ParseRadix(s) == 10 by {
      NoHexPrefix(m, rest);
    }
    assert ParseDigits(s) == d by {
      NoHexPrefix(m, rest);
      DigitPrefixAppend(d, rest, 10);
    }
    assert DigitsValue(d, 10) == m by {
      DecimalValue(m);
    }
    assert ParseSign(s) * m == n;
  }

  /** After blanks, the numeral of `n` and more text, the sign is that of `n`
      and the unsigned part is the numeral of its magnitude followed by the text. */
  lemma SignAndDigits(w: string, n: int, rest: string)
    requires AllWhitespace(w)
    ensures var s := w + ShowInt(n) + rest;
      && Unsigned(s) == Decimal(if n < 0 then -n else n) + rest
      && ParseSign(s) == (if n < 0 then -1 else 1)
  {
    if n < 0 {
      SignedNumeral(w, Decimal(-n), rest);
    } else {
      UnsignedNumeral(w, Decimal(n), rest);
    }
  }

  /** Blanks, `-` and digits: the sign is negative and the digits follow it. */
  lemma SignedNumeral(w: string, d: string, rest: string)
    requires AllWhitespace(w)
    ensures var s := w + ("-" + d) + rest;
      Unsigned(s) == d + rest && ParseSign(s) == -1
  {
    var u := "-" + (d + rest);
    assert w + ("-" + d) + rest == w + u;
    TrimStartAfter(w, u);
    assert u[1..] == d + rest;
  }

  /** Blanks and digits: the sign is positive and the digits are unsigned. */
  lemma UnsignedNumeral(w: string, d: string, rest: string)
    requires AllWhitespace(w)
    requires |d| >= 1 && IsDigitIn(d[0], 10)
    ensures var s := w + d + rest;
      Unsigned(s) == d + rest && ParseSign(s) == 1
  {
    var u := d + rest;
    assert w + d + rest == w + u;
    assert u[0] == d[0];
    DigitNotWhitespace(d[0]);
    TrimStartAfter(w, u);
  }

  /** Trimming the start of blanks followed by text that starts with a
      non-blank leaves that text. */
  lemma TrimStartAfter(w: string, u: string)
    requires AllWhitespace(w)
    requires u != [] && !IsWhitespace(u[0])
    ensures TrimStart(w + u) == u
  {
    var s := w + u;
    assert s[..|w|] == w && s[|w|..] == u;
    TrimStartAt(s, |w|);
  }

  /** No decimal digit is white space. */
  lemma DigitNotWhitespace(c: char)
    requires IsDigitIn(c, 10)
    ensures !IsWhitespace(c) && c != '-' && c != '+'
  {
  }

  /** A numeral followed by text that is neither a digit nor, after `0`, an
      `x`, has no `0x` prefix. */
  lemma NoHexPrefix(m: nat, rest: string)
    requires rest == [] || !IsDigitIn(rest[0], 10)
    requires m == 0 ==> rest == [] || (rest[0] != 'x' && rest[0] != 'X')
    ensures !HasHexPrefix(Decimal(m) + rest)
  {
    var d := Decimal(m);
    if |d| >= 2 {
      assert (d + rest)[1] == d[1];
      assert IsDigitIn(d[1], 10);
    } else if m != 0 {
      assert (d + rest)[0] == d[0];
    } else {
      assert d == "0";
    }
  }

  /** The digit prefix stops where the digits stop. */
  lemma {:induction false} DigitPrefixAppend(d: string, rest: string, radix: nat)
    requires AllDigitsIn(d, radix)
    requires rest == [] || !IsDigitIn(rest[0], radix)
    ensures DigitPrefix(d + rest, radix) == d
  {
    if |d| > 0 {
      assert (d + rest)[1..] == d[1..] + rest;
      DigitPrefixAppend(d[1..], rest, radix);
    } else {
      assert d + rest == rest;
    }
  }

  // ---------------------------------------------------------------------------
  // The shape of the text parseInt reads
  // ---------------------------------------------------------------------------

  /** The base a prefix selects: `0x` or `0X` for 16, nothing for 10. */
  function PrefixRadix(pre: string): nat {
    if pre == [] then 10 else 16
  }

  /** The number a sign and a digit run denote in the base of the prefix. */
  function FrameValue(sg: string, pre: string, d: string): int {
    (if sg == "-" then -1 else 1) * DigitsValue(d, PrefixRadix(pre))
  }

  /** `s` is leading white space `w`, an optional sign `sg`, an optional hex
      prefix `pre`, a non-empty run `d` of digits of the base `pre` selects,
      and a `rest` that does not continue the run. Without a prefix, the text
      after the sign must not itself start with `0x`. */
  predicate IntFrame(s: string, w: string, sg: string, pre: string, d: string, rest: string) {
    && s == w + sg + pre + d + rest
    && AllWhitespace(w)
    && (sg == [] || sg == "+" || sg == "-")
    && (pre == [] || pre == "0x" || pre == "0X")
    && |d| >= 1 && AllDigitsIn(d, PrefixRadix(pre))
    && (rest == [] || !IsDigitIn(rest[0], PrefixRadix(pre)))
    && (pre == [] ==> !HasHexPrefix(d + rest))
  }

  /** `parseInt(s)` is the number `n` exactly when `s` has the shape of
      white space, sign, prefix and digits denoting `n`; it is `NaN` exactly
      when `s` has no such shape. */
  lemma ParseIntIff(s: string, n: int)
    ensures ParseInt(s) == Some(n) <==>
      exists w, sg, pre, d, rest :: IntFrame(s, w, sg, pre, d, rest) && n == FrameValue(sg, pre, d)
    ensures ParseInt(s).None? <==> !exists w, sg, pre, d, rest :: IntFrame(s, w, sg, pre, d, rest)
  {
    if ParseInt(s).Some? {
      ParseIntFramed(s);
    }
    forall w, sg, pre, d, rest | IntFrame(s, w, sg, pre, d, rest)
      ensures ParseInt(s) == Some(FrameValue(sg, pre, d))
    {
      FramedParseInt(s, w, sg, pre, d, rest);
    }
  }

  /** A number read by `parseInt` comes from a frame of the text. */
  lemma ParseIntFramed(s: string)
    requires ParseInt(s).Some?
    ensures exists w, sg, pre, d, rest ::
      IntFrame(s, w, sg, pre, d, rest) && ParseInt(s) == Some(FrameValue(sg, pre, d))
  {
    var t := TrimStart(s);
    var w := s[..|s| - |t|];
    assert s == w + t;
    var sg := SignOf(s);
    var u := Unsigned(s);
    var pre, v := HexSplit(u);
    assert ParseRadix(s) == PrefixRadix(pre);
    var d, rest := DigitSplit(v, PrefixRadix(pre));
    assert ParseDigits(s) == d;
    FrameOf(s, w, t, sg, u, pre, v, d, rest);
    FrameValueIs(s, sg, pre, d);
  }

  /** With the sign, radix and digits of a text known, its frame value is
      what `parseInt` reads. */
  lemma FrameValueIs(s: string, sg: string, pre: string, d: string)
    requires ParseDigits(s) == d && |d| >= 1
    requires ParseRadix(s) == PrefixRadix(pre)
    requires ParseSign(s) == (if sg == "-" then -1 else 1)
    ensures ParseInt(s) == Some(FrameValue(sg, pre, d))
  {
  }

  /** The text after the sign, cut into the hex prefix `parseInt` strips, if
      any, and what follows it. */
  lemma HexSplit(u: string) returns (pre: string, v: string)
    ensures u == pre + v && (pre == [] || pre == "0x" || pre == "0X")
    ensures pre == [] <==> !HasHexPrefix(u)
    ensures v == if HasHexPrefix(u) then u[2..] else u
  {
    if HasHexPrefix(u) {
      pre, v := u[..2], u[2..];
      assert pre == [u[0], u[1]];
    } else {
      pre, v := [], u;
    }
  }

  /** A text cut after its longest run of digits of `radix`. */
  lemma DigitSplit(v: string, radix: nat) returns (d: string, rest: string)
    ensures d == DigitPrefix(v, radix) && v == d + rest
    ensures rest == [] || !IsDigitIn(rest[0], radix)
  {
    d := DigitPrefix(v, radix);
    rest := v[|d|..];
    if rest != [] {
      assert rest[0] == v[|d|];
    }
  }

  /** The sign `parseInt` reads: the first character after the white space,
      when it is `+` or `-`. */
  function SignOf(s: string): (sg: string)
    ensures TrimStart(s) == sg + Unsigned(s)
    ensures sg == [] || sg == "+" || sg == "-"
    ensures ParseSign(s) == (if sg == "-" then -1 else 1)
  {
    var t := TrimStart(s);
    if |t| > 0 && (t[0] == '+' || t[0] == '-') then
      assert t == t[..1] + t[1..];
      t[..1]
    else []
  }

  /** The pieces of a text, put together, are a frame. */
  lemma FrameOf(s: string, w: string, t: string, sg: string, u: string,
                pre: string, v: string, d: string, rest: string)
    requires s == w + t && AllWhitespace(w)
    requires t == sg + u && (sg == [] || sg == "+" || sg == "-")
    requires u == pre + v && (pre == [] || pre == "0x" || pre == "0X")
    requires pre == [] ==> !HasHexPrefix(u)
    requires v == d + rest && |d| >= 1 && AllDigitsIn(d, PrefixRadix(pre))
    requires rest == [] || !IsDigitIn(rest[0], PrefixRadix(pre))
    ensures IntFrame(s, w, sg, pre, d, rest)
  {
    assert w + sg + pre + d + rest == w + (sg + (pre + (d + rest)));
  }

  /** The frame of a text fixes what `parseInt` reads. */
  lemma FramedParseInt(s: string, w: string, sg: string, pre: string, d: string, rest: string)
    requires IntFrame(s, w, sg, pre, d, rest)
    ensures ParseInt(s) == Some(FrameValue(sg, pre, d))
  {
    FrameUnsigned(s, w, sg, pre, d, rest);
    PrefixRead(pre, d + rest);
    assert ParseRadix(s) == PrefixRadix(pre);
    DigitPrefixAppend(d, rest, PrefixRadix(pre));
    assert ParseDigits(s) == d;
  }

  /** A prefix `0x`/`0X`, or none in front of text that does not start with
      one, is what `parseInt` recognises and strips. */
  lemma PrefixRead(pre: string, v: string)
    requires pre == [] || pre == "0x" || pre == "0X"
    requires pre == [] ==> !HasHexPrefix(v)
    ensures HasHexPrefix(pre + v) <==> pre != []
    ensures (if HasHexPrefix(pre + v) then (pre + v)[2..] else pre + v) == v
  {
    if pre != [] {
      assert (pre + v)[0] == '0' && (pre + v)[1] == pre[1];
      assert (pre + v)[2..] == v;
    } else {
      assert pre + v == v;
    }
  }

  /** After the white space of a frame come its sign and then its unsigned part. */
  lemma FrameUnsigned(s: string, w: string, sg: string, pre: string, d: string, rest: string)
    requires IntFrame(s, w, sg, pre, d, rest)
    ensures Unsigned(s) == pre + (d + rest)
    ensures ParseSign(s) == (if sg == "-" then -1 else 1)
  {
    var u := pre + (d + rest);
    var t := sg + u;
    assert u[0] != '+' && u[0] != '-' && !IsWhitespace(u[0]) by {
      if pre != [] {
        assert u[0] == '0';
      } else {
        assert u[0] == d[0] && IsDigitIn(d[0], PrefixRadix(pre));
      }
    }
    assert t[0] == (if sg == [] then u[0] else sg[0]);
    assert s == w + t by {
      assert w + sg + pre + d + rest == w + (sg + (pre + (d + rest)));
    }
    TrimStartAfter(w, t);
    if sg != [] {
      assert t[1..] == u;
    }
  }

  /** A hexadecimal example: `parseInt("0x1A")` is 26. */
  lemma ParseIntHex()
    ensures ParseInt("0x1A") == Some(26)
  {
    TrimStartAt("0x1A", 0);
    assert Unsigned("0x1A") == "0x1A";
    assert DigitPrefix("1A", 16) == "1A";
    assert "1A"[..1] == "1";
    assert DigitsValue("1", 16) == 1;
    assert DigitsValue("1A", 16) == 26;
  }

  /** Text without a leading digit is `NaN`: `parseInt("")`, `parseInt("0x")`
      and `parseInt("- 5")`. */
  lemma ParseIntNaN()
    ensures ParseInt("") == None
    ensures ParseInt("0x") == None
    ensures ParseInt("- 5") == None
  {
    HexPrefixAlone();
    SpaceAfterSign();
  }

  /** A `0x` prefix with no hexadecimal digit after it reads no digit. */
  lemma HexPrefixAlone()
    ensures ParseDigits("0x") == []
  {
    var s := "0x";
    assert s[..0] == [] && !IsWhitespace(s[0]);
    TrimStartAt(s, 0);
    assert Unsigned(s) == s;
    assert HasHexPrefix(s) && s[2..] == [];
  }

  /** White space between the sign and the digits stops the digits. */
  lemma SpaceAfterSign()
    ensures ParseDigits("- 5") == []
  {
    var s := "- 5";
    assert s[..0] == [] && !IsWhitespace(s[0]);
    TrimStartAt(s, 0);
    assert Unsigned(s) == s[1..] == " 5";
    assert !HasHexPrefix(" 5");
    assert !IsDigitIn(' ', 10);
  }
}
