/** The JavaScript string operations the store relies on: `split`, `startsWith`, substring
    search, `parseInt(s, 10)`, integer-to-string conversion, and UTF-8 encoding of text that
    is written to a file. */
module Text {

  newtype byte = b: int | 0 <= b < 256

  predicate StartsWith(s: string, prefix: string) {
    |prefix| <= |s| && s[..|prefix|] == prefix
  }

  /** `sub` occurs somewhere in `s`. */
  predicate Contains(s: string, sub: string) {
    exists i | 0 <= i <= |s| - |sub| :: OccursAt(s, sub, i)
  }

  predicate OccursAt(s: string, sub: string, i: int) {
    0 <= i <= |s| - |sub| && s[i..i + |sub|] == sub
  }

  /** `parts` joined with `sep` between consecutive parts (Array.prototype.join). */
  function JoinWith(parts: seq<string>, sep: char): string {
    if |parts| == 0 then ""
    else if |parts| == 1 then parts[0]
    else parts[0] + [sep] + JoinWith(parts[1..], sep)
  }

  /** String.prototype.split with a one-character separator: always at least one piece, no
      piece holds the separator, and joining the pieces gives back the string. */
  function Split(s: string, sep: char): (parts: seq<string>)
    ensures |parts| >= 1
    ensures forall i | 0 <= i < |parts| :: sep !in parts[i]
    ensures JoinWith(parts, sep) == s
  {
    if s == [] then [""]
    else
      var rest := Split(s[1..], sep);
      if s[0] == sep then
        assert JoinWith([""] + rest, sep) == [sep] + JoinWith(rest, sep);
        [""] + rest
      else
        var parts := [[s[0]] + rest[0]] + rest[1..];
        assert |rest| > 1 ==> JoinWith(rest, sep) == rest[0] + [sep] + JoinWith(rest[1..], sep);
        assert |rest| > 1 ==> JoinWith(parts, sep) == parts[0] + [sep] + JoinWith(rest[1..], sep);
        assert s == [s[0]] + s[1..];
        parts
  }

  lemma {:induction false} SplitWithoutSeparator(s: string, sep: char)
    requires sep !in s
    ensures Split(s, sep) == [s]
  {
    if s != [] {
      SplitWithoutSeparator(s[1..], sep);
      assert s == [s[0]] + s[1..];
    }
  }

  /** Splitting at a separator splits the two sides independently. */
  lemma {:induction false} SplitAround(a: string, sep: char, b: string)
    ensures Split(a + [sep] + b, sep) == Split(a, sep) + Split(b, sep)
  {
    var s := a + [sep] + b;
    if a == [] {
      assert s[1..] == b;
    } else {
      assert s[1..] == a[1..] + [sep] + b;
      SplitAround(a[1..], sep, b);
    }
  }

  // ----- digits and numbers -----

  predicate IsDigit(c: char) {
    '0' <= c <= '9'
  }

  function DigitChar(d: int): (c: char)
    requires 0 <= d < 10
    ensures IsDigit(c) && c as int - '0' as int == d
  {
    ('0' as int + d) as char
  }

  /** The decimal digits of `n`, most significant first, without leading zeros. */
  function NatToString(n: nat): (s: string)
    ensures |s| >= 1
    ensures forall i | 0 <= i < |s| :: IsDigit(s[i])
    decreases n
  {
    if n < 10 then [DigitChar(n)] else NatToString(n / 10) + [DigitChar(n % 10)]
  }

  /** How JavaScript prints an integral Number below 1e21 (`${n}`). */
  function IntToString(n: int): string {
    if n < 0 then "-" + NatToString(-n) else NatToString(n)
  }

  /** The value of a string of decimal digits. */
  function DigitsValue(s: string): nat
    requires forall i | 0 <= i < |s| :: IsDigit(s[i])
  {
    if s == [] then 0 else DigitsValue(s[..|s| - 1]) * 10 + DigitValue(s[|s| - 1])
  }

  function DigitValue(c: char): (d: nat)
    requires IsDigit(c)
    ensures d < 10
  {
    c as int - '0' as int
  }

  lemma {:induction false} NatToStringValue(n: nat)
    ensures DigitsValue(NatToString(n)) == n
    decreases n
  {
    if n >= 10 {
      var s := NatToString(n);
      assert s[..|s| - 1] == NatToString(n / 10);
      NatToStringValue(n / 10);
    }
  }

  /** A JavaScript Number as far as the store uses one: NaN or an integer. */
  datatype JsNumber = NaN | Finite(value: int) {
    /** The `<` operator: every comparison with NaN is false. */
    predicate LessThan(bound: int) {
      Finite? && value < bound
    }
  }

  /** The characters `parseInt` skips at the start (WhiteSpace and LineTerminator). */
  predicate IsJsWhiteSpace(c: char) {
    || c == '\t' || c == '\n' || c == '\U{000B}' || c == '\U{000C}' || c == '\r' || c == ' '
    || c == '\U{00A0}' || c == '\U{1680}' || ('\U{2000}' <= c <= '\U{200A}')
    || c == '\U{2028}' || c == '\U{2029}' || c == '\U{202F}' || c == '\U{205F}'
    || c == '\U{3000}' || c == '\U{FEFF}'
  }

  function TrimStart(s: string): (r: string)
    ensures |r| <= |s| && r == s[|s| - |r|..]
    ensures r == [] || !IsJsWhiteSpace(r[0])
  {
    if s != [] && IsJsWhiteSpace(s[0]) then TrimStart(s[1..]) else s
  }

  /** The longest prefix of `s` made of decimal digits. */
  function LeadingDigits(s: string): (r: string)
    ensures StartsWith(s, r)
    ensures forall i | 0 <= i < |r| :: IsDigit(r[i])
    ensures |r| < |s| ==> !IsDigit(s[|r|])
  {
    if s != [] && IsDigit(s[0]) then [s[0]] + LeadingDigits(s[1..]) else ""
  }

  /** parseInt(s, 10): skip leading white space, take an optional sign, then the longest run
      of decimal digits; NaN when there is none. */
  function ParseInt(s: string): (r: JsNumber)
    ensures var t := TrimStart(s);
      r.Finite? <==> (t != [] && IsDigit(t[0])) || (|t| > 1 && (t[0] == '-' || t[0] == '+') && IsDigit(t[1]))
    ensures r.Finite? && r.value < 0 ==> TrimStart(s)[0] == '-'
  {
    var t := TrimStart(s);
    if t != [] && t[0] == '-' then Negate(ParseDigits(t[1..]))
    else if t != [] && t[0] == '+' then ParseDigits(t[1..])
    else ParseDigits(t)
  }

  /** The value of the digits at the start of `s`, or NaN when there are none. */
  function ParseDigits(s: string): (r: JsNumber)
    ensures r.Finite? <==> s != [] && IsDigit(s[0])
    ensures r.Finite? ==> r.value >= 0
  {
    var digits := LeadingDigits(s);
    if digits == [] then NaN else Finite(DigitsValue(digits))
  }

  function Negate(x: JsNumber): JsNumber {
    if x.NaN? then NaN else Finite(-x.value)
  }

  lemma {:induction false} AllDigitsLeading(s: string)
    requires forall i | 0 <= i < |s| :: IsDigit(s[i])
    ensures LeadingDigits(s) == s
  {
    if s != [] {
      AllDigitsLeading(s[1..]);
    }
  }

  /** The digits at the start of a run of digits are all of it. */
  lemma ParseDigitsOfDigits(digits: string)
    requires digits != [] && forall i | 0 <= i < |digits| :: IsDigit(digits[i])
    ensures ParseDigits(digits) == Finite(DigitsValue(digits))
  {
    AllDigitsLeading(digits);
  }

  /** parseInt of a run of digits. */
  lemma ParseIntOfDigits(digits: string)
    requires digits != [] && forall i | 0 <= i < |digits| :: IsDigit(digits[i])
    ensures ParseInt(digits) == Finite(DigitsValue(digits))
  {
    NoWhiteSpaceFirst(digits);
    ParseDigitsOfDigits(digits);
  }

  /** parseInt of a run of digits after a minus sign. */
  lemma ParseIntOfNegativeDigits(digits: string)
    requires digits != [] && forall i | 0 <= i < |digits| :: IsDigit(digits[i])
    ensures ParseInt(['-'] + digits) == Finite(-(DigitsValue(digits) as int))
  {
    var s := ['-'] + digits;
    NoWhiteSpaceFirst(s);
    assert s[1..] == digits;
    ParseDigitsOfDigits(digits);
  }

  /** parseInt skips nothing of a string that starts with a sign or a digit. */
  lemma NoWhiteSpaceFirst(s: string)
    requires s != [] && (s[0] == '-' || IsDigit(s[0]))
    ensures TrimStart(s) == s
  {
    assert !IsJsWhiteSpace(s[0]);
  }

  /** parseInt reads back every integer that JavaScript prints. */
  lemma ParseIntOfIntToString(n: int)
    ensures ParseInt(IntToString(n)) == Finite(n)
  {
    var m: nat := if n < 0 then -n else n;
    NatToStringValue(m);
    if n < 0 {
      ParseIntOfNegativeDigits(NatToString(m));
    } else {
      ParseIntOfDigits(NatToString(m));
    }
  }

  /** A string that parseInt does not read as a number. */
  lemma ParseIntOfNonNumeric(s: string)
    requires s != [] && !IsJsWhiteSpace(s[0]) && !IsDigit(s[0]) && s[0] != '-' && s[0] != '+'
    ensures ParseInt(s) == NaN
  {
    assert TrimStart(s) == s;
  }

  // ----- regular expressions -----

  /** The characters that have a meaning of their own in a JavaScript regular expression. */
  predicate IsRegexSyntax(c: char) {
    c in "\\^$.|?*+()[]{}"
  }

  /** A string that `new RegExp` reads as itself: a pattern `${s}_*` then matches exactly the
      strings that contain `s`, since `_*` also matches no underscore at all. */
  predicate RegexSafe(s: string) {
    forall i | 0 <= i < |s| :: !IsRegexSyntax(s[i])
  }

  // ----- UTF-8 -----

  /** The bytes of one Unicode scalar value in UTF-8. */
  function EncodeChar(c: char): (r: seq<byte>)
    ensures 1 <= |r| <= 4
  {
    var v := c as int;
    if v < 0x80 then [v as byte]
    else if v < 0x800 then [(0xC0 + v / 0x40) as byte, (0x80 + v % 0x40) as byte]
    else if v < 0x10000 then
      [(0xE0 + v / 0x1000) as byte, (0x80 + v / 0x40 % 0x40) as byte, (0x80 + v % 0x40) as byte]
    else
      [(0xF0 + v / 0x40000) as byte, (0x80 + v / 0x1000 % 0x40) as byte,
       (0x80 + v / 0x40 % 0x40) as byte, (0x80 + v % 0x40) as byte]
  }

  /** The number of bytes of the UTF-8 sequence that starts with `lead`. */
  function SequenceLength(lead: byte): nat {
    if lead < 0x80 then 1 else if lead < 0xE0 then 2 else if lead < 0xF0 then 3 else 4
  }

  /** The scalar value a UTF-8 sequence of one to four bytes carries. */
  function ScalarValue(r: seq<byte>): int
    requires 1 <= |r| <= 4
  {
    if |r| == 1 then r[0] as int
    else if |r| == 2 then (r[0] as int - 0xC0) * 0x40 + (r[1] as int - 0x80)
    else if |r| == 3 then
      (r[0] as int - 0xE0) * 0x1000 + (r[1] as int - 0x80) * 0x40 + (r[2] as int - 0x80)
    else
      (r[0] as int - 0xF0) * 0x40000 + (r[1] as int - 0x80) * 0x1000
      + (r[2] as int - 0x80) * 0x40 + (r[3] as int - 0x80)
  }

  /** The bytes of a character say how many of them there are and which character it is. */
  lemma EncodeCharDecodes(c: char)
    ensures |EncodeChar(c)| == SequenceLength(EncodeChar(c)[0])
    ensures ScalarValue(EncodeChar(c)) == c as int
  {
    var v := c as int;
    if 0x80 <= v < 0x800 {
      assert v == v / 0x40 * 0x40 + v % 0x40;
    } else if 0x800 <= v < 0x10000 {
      assert v / 0x40 == v / 0x1000 * 0x40 + v / 0x40 % 0x40;
      assert v == v / 0x40 * 0x40 + v % 0x40;
    } else if 0x10000 <= v {
      assert v / 0x1000 == v / 0x40000 * 0x40 + v / 0x1000 % 0x40;
      assert v / 0x40 == v / 0x1000 * 0x40 + v / 0x40 % 0x40;
      assert v == v / 0x40 * 0x40 + v % 0x40;
    }
  }

  /** What fs.writeFile stores for a string: its UTF-8 encoding. */
  function Utf8Encode(s: string): (r: seq<byte>)
    ensures |s| <= |r| <= 4 * |s|
    ensures s == [] <==> r == []
  {
    if s == [] then [] else EncodeChar(s[0]) + Utf8Encode(s[1..])
  }

  /** UTF-8 loses nothing: two texts with the same encoding are the same text. */
  lemma {:induction false} Utf8EncodeInjective(a: string, b: string)
    ensures Utf8Encode(a) == Utf8Encode(b) ==> a == b
    decreases |a|
  {
    if Utf8Encode(a) == Utf8Encode(b) && a != [] {
      var u := Utf8Encode(a);
      var ea, eb := EncodeChar(a[0]), EncodeChar(b[0]);
      assert u == ea + Utf8Encode(a[1..]);
      assert u == eb + Utf8Encode(b[1..]);
      EncodeCharDecodes(a[0]);
      EncodeCharDecodes(b[0]);
      assert ea[0] == u[0] == eb[0];
      assert ea == u[..|ea|] == eb;
      assert Utf8Encode(a[1..]) == u[|ea|..] == Utf8Encode(b[1..]);
      Utf8EncodeInjective(a[1..], b[1..]);
      assert a == [a[0]] + a[1..] && b == [b[0]] + b[1..];
    }
  }
}
