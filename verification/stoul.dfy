/**
  The bound parser of the rule loader: `std::stoul(text, nullptr, 16)` followed by a cast to
  RE::FormID. It follows the C standard's `strtoul` with base 16, with a 32-bit
  `unsigned long` as on the plugin's platform (Windows):
  - leading white space is skipped;
  - one optional `+` or `-` sign is accepted;
  - a `0x` or `0X` prefix is skipped when a hexadecimal digit follows it, as the C standard
    reads it; the Windows runtime may instead consume the prefix whatever follows, so that
    `"0x"` alone would be refused there, while here it reads as the `0` of the prefix;
  - the longest run of hexadecimal digits is converted and the rest of the text is ignored;
  - no digit at all throws `std::invalid_argument` (here: None);
  - a magnitude above 2^32 - 1 throws `std::out_of_range` (here: None);
  - a `-` sign negates the magnitude modulo 2^32.
 */
module Stoul {
  import opened Common

  /** The characters `isspace` accepts in the "C" locale. */
  predicate IsSpace(c: char) {
    c == ' ' || c == '\t' || c == '\n' || c == '\r' || c == '\U{000B}' || c == '\U{000C}'
  }

  predicate IsHexDigit(c: char) {
    ('0' <= c <= '9') || ('a' <= c <= 'f') || ('A' <= c <= 'F')
  }

  /** Value of a hexadecimal digit (0 for any other character, which is never converted). */
  function HexValue(c: char): (v: nat)
    ensures v < 16
  {
    if '0' <= c <= '9' then c as int - '0' as int
    else if 'a' <= c <= 'f' then c as int - 'a' as int + 10
    else if 'A' <= c <= 'F' then c as int - 'A' as int + 10
    else 0
  }

  /** Upper-case digit for a value below 16, the way rule files write bounds ("0x8FF"). */
  function HexChar(v: nat): (c: char)
    requires v < 16
    ensures IsHexDigit(c) && HexValue(c) == v
  {
    if v < 10 then ('0' as int + v) as char else ('A' as int + v - 10) as char
  }

  predicate AllHexDigits(ds: seq<char>) {
    forall i :: 0 <= i < |ds| ==> IsHexDigit(ds[i])
  }

  /** Number of leading white-space characters. */
  function LeadingSpaces(s: string): (n: nat)
    ensures n <= |s|
    ensures forall i :: 0 <= i < n ==> IsSpace(s[i])
    ensures n < |s| ==> !IsSpace(s[n])
  {
    if |s| > 0 && IsSpace(s[0]) then 1 + LeadingSpaces(s[1..]) else 0
  }

  /** Length of the longest prefix made of hexadecimal digits. */
  function HexRun(s: string): (n: nat)
    ensures n <= |s|
    ensures forall i :: 0 <= i < n ==> IsHexDigit(s[i])
    ensures n < |s| ==> !IsHexDigit(s[n])
  {
    if |s| > 0 && IsHexDigit(s[0]) then 1 + HexRun(s[1..]) else 0
  }

  /** Value of a digit string, most significant digit first. */
  function DigitsValue(ds: seq<char>): nat {
    if |ds| == 0 then 0 else 16 * DigitsValue(ds[..|ds| - 1]) + HexValue(ds[|ds| - 1])
  }

  /** True when `c` may stand as the sign of a number. */
  predicate IsSign(c: char) {
    c == '+' || c == '-'
  }

  /** Where the number proper starts: after the white space and one optional sign. */
  function SignEnd(s: string): (k: nat)
    ensures LeadingSpaces(s) <= k <= |s|
  {
    var sp := LeadingSpaces(s);
    if sp < |s| && IsSign(s[sp]) then sp + 1 else sp
  }

  /** Length of the `0x` prefix at the start of the number: skipped only when a digit follows. */
  function PrefixLength(rest: string): (n: nat)
    ensures n <= |rest|
  {
    if |rest| >= 3 && rest[0] == '0' && (rest[1] == 'x' || rest[1] == 'X') && IsHexDigit(rest[2]) then 2 else 0
  }

  /** Where `strtoul` starts reading digits: after the sign and the prefix. */
  function DigitStart(s: string): (k: nat)
    ensures SignEnd(s) <= k <= |s|
  {
    SignEnd(s) + PrefixLength(s[SignEnd(s)..])
  }

  /** The text that `strtoul` reads its digits from. */
  function DigitText(s: string): string {
    s[DigitStart(s)..]
  }

  /** True when the number carries a minus sign. */
  predicate Negated(s: string) {
    var sp := LeadingSpaces(s);
    sp < |s| && s[sp] == '-'
  }

  /** Conversion of the digit text: the leading digit run, refused when empty or too wide. */
  function ConvertDigits(digits: string, negative: bool): Option<u32> {
    var n := HexRun(digits);
    if n == 0 then None
    else
      var magnitude := DigitsValue(digits[..n]);
      if magnitude >= U32Modulus then None
      else if negative then Some((U32Modulus - magnitude) % U32Modulus)
      else Some(magnitude)
  }

  predicate AllSpaces(ws: string) {
    forall i :: 0 <= i < |ws| ==> IsSpace(ws[i])
  }

  /** The sign a number may be written with: none, `+` or `-`. */
  predicate IsSignText(sign: string) {
    sign == "" || sign == "+" || sign == "-"
  }

  /** The prefix a base-16 number may be written with: none, `0x` or `0X`. */
  predicate IsPrefixText(prefix: string) {
    prefix == "" || prefix == "0x" || prefix == "0X"
  }

  /**
    `ws + sign + prefix + ds + tail` is a base-16 number with digit run `ds`: blanks, an
    optional sign, an optional prefix, the digits, and text that does not continue them.
    Written without a prefix, the run is never the `0` of a `0x` that a digit follows, since
    such a prefix is always skipped.
   */
  predicate NumberParts(ws: string, sign: string, prefix: string, ds: string, tail: string) {
    && AllSpaces(ws)
    && IsSignText(sign)
    && IsPrefixText(prefix)
    && |ds| > 0 && AllHexDigits(ds)
    && (|tail| == 0 || !IsHexDigit(tail[0]))
    && (prefix == "" ==> !(ds == "0" && |tail| >= 2 && (tail[0] == 'x' || tail[0] == 'X') && IsHexDigit(tail[1])))
  }

  /** The number a sign and a digit run stand for: negated modulo 2^32 under a minus sign. */
  function NumberValue(sign: string, ds: string): nat {
    if sign == "-" then (U32Modulus - DigitsValue(ds)) % U32Modulus else DigitsValue(ds)
  }

  /**
    `static_cast<RE::FormID>(std::stoul(s, nullptr, 16))`, with the two throws as None.
    `NumberRead` states what it gives for every text written as a number.
   */
  function Stoul16(s: string): (r: Option<u32>)
  {
    ConvertDigits(DigitText(s), Negated(s))
  }

  /** Digits of `n` in upper-case hexadecimal, without leading zeros. */
  function HexDigits(n: nat): (ds: seq<char>)
    ensures |ds| > 0 && AllHexDigits(ds)
  {
    if n < 16 then [HexChar(n)] else HexDigits(n / 16) + [HexChar(n % 16)]
  }

  /** How a rule file writes a bound: `0x` followed by the hexadecimal digits. */
  function FormatHex(n: nat): string {
    "0x" + HexDigits(n)
  }

  lemma {:induction false} DigitsValueOfHexDigits(n: nat)
    ensures DigitsValue(HexDigits(n)) == n
    decreases n
  {
    if n >= 16 {
      var ds := HexDigits(n);
      assert ds[..|ds| - 1] == HexDigits(n / 16);
      DigitsValueOfHexDigits(n / 16);
    }
  }

  /** A digit string followed by a non-digit (or nothing) is read exactly up to its end. */
  lemma {:induction false} HexRunStopsAfterDigits(ds: string, tail: string)
    requires AllHexDigits(ds)
    requires |tail| == 0 || !IsHexDigit(tail[0])
    ensures HexRun(ds + tail) == |ds|
    decreases |ds|
  {
    if |ds| > 0 {
      assert (ds + tail)[1..] == ds[1..] + tail;
      HexRunStopsAfterDigits(ds[1..], tail);
    } else {
      assert ds + tail == tail;
    }
  }

  /** Leading white space is skipped up to the first other character. */
  lemma {:induction false} SpacesSkipped(ws: string, rest: string)
    requires AllSpaces(ws)
    requires |rest| > 0 && !IsSpace(rest[0])
    ensures LeadingSpaces(ws + rest) == |ws|
    decreases |ws|
  {
    if |ws| > 0 {
      assert (ws + rest)[1..] == ws[1..] + rest;
      SpacesSkipped(ws[1..], rest);
    } else {
      assert ws + rest == rest;
    }
  }

  /** Blanks and a sign are skipped: the number proper starts right behind them. */
  lemma SignSkipped(ws: string, sign: string, rest: string)
    requires AllSpaces(ws) && IsSignText(sign)
    requires |rest| > 0 && !IsSpace(rest[0]) && !IsSign(rest[0])
    ensures var s := ws + (sign + rest);
      SignEnd(s) == |ws| + |sign| && s[SignEnd(s)..] == rest && (Negated(s) <==> sign == "-")
  {
    var body := sign + rest;
    assert body[0] == if sign != "" then sign[0] else rest[0];
    SpacesSkipped(ws, body);
    var s := ws + body;
    assert s[|ws|] == body[0];
    assert s[|ws| + |sign|..] == rest;
  }

  /** A written prefix is skipped, and no prefix is found where none is written. */
  lemma PrefixSkipped(prefix: string, ds: string, tail: string)
    requires IsPrefixText(prefix) && |ds| > 0 && AllHexDigits(ds)
    requires |tail| == 0 || !IsHexDigit(tail[0])
    requires prefix == "" ==> !(ds == "0" && |tail| >= 2 && (tail[0] == 'x' || tail[0] == 'X') && IsHexDigit(tail[1]))
    ensures PrefixLength(prefix + (ds + tail)) == |prefix|
  {
    var rest := prefix + (ds + tail);
    if prefix != "" {
      assert rest[0] == '0' && rest[1] == prefix[1] && rest[2] == ds[0];
    } else if |ds| >= 2 {
      assert rest[1] == ds[1];
    } else if |tail| >= 2 {
      assert rest[0] == ds[0] && rest[1] == tail[0] && rest[2] == tail[1];
    }
  }

  /** In a text made of the parts of a number, the digits are read from the start of the run. */
  lemma DigitTextOfNumber(s: string, ws: string, sign: string, prefix: string, ds: string, tail: string)
    requires NumberParts(ws, sign, prefix, ds, tail)
    requires s == ws + (sign + (prefix + (ds + tail)))
    ensures DigitText(s) == ds + tail
    ensures Negated(s) <==> sign == "-"
  {
    var rest := prefix + (ds + tail);
    assert rest[0] == if prefix != "" then '0' else ds[0];
    SignSkipped(ws, sign, rest);
    PrefixSkipped(prefix, ds, tail);
    var k := SignEnd(s);
    assert DigitStart(s) == k + |prefix|;
    assert s[k + |prefix|..] == rest[|prefix|..] == ds + tail;
  }

  /**
    The text of a number reads as its value, or is refused (std::out_of_range) when the digit
    run needs more than 32 bits.
   */
  lemma NumberRead(s: string, ws: string, sign: string, prefix: string, ds: string, tail: string)
    requires NumberParts(ws, sign, prefix, ds, tail)
    requires s == ws + (sign + (prefix + (ds + tail)))
    ensures DigitsValue(ds) >= U32Modulus ==> Stoul16(s).None?
    ensures DigitsValue(ds) < U32Modulus ==> Stoul16(s) == Some(NumberValue(sign, ds))
  {
    DigitTextOfNumber(s, ws, sign, prefix, ds, tail);
    assert Stoul16(s) == ConvertDigits(ds + tail, sign == "-");
    ReadsDigitRun(ds, tail, sign == "-");
  }

  /** When the digit text is a digit run followed by a non-digit, exactly that run is converted. */
  lemma ReadsDigitRun(ds: string, tail: string, negative: bool)
    requires |ds| > 0 && AllHexDigits(ds)
    requires |tail| == 0 || !IsHexDigit(tail[0])
    ensures DigitsValue(ds) >= U32Modulus ==> ConvertDigits(ds + tail, negative).None?
    ensures DigitsValue(ds) < U32Modulus && !negative ==> ConvertDigits(ds + tail, negative) == Some(DigitsValue(ds))
    ensures DigitsValue(ds) < U32Modulus && negative ==>
      ConvertDigits(ds + tail, negative) == Some((U32Modulus - DigitsValue(ds)) % U32Modulus)
  {
    HexRunStopsAfterDigits(ds, tail);
    var digits := ds + tail;
    assert digits[..HexRun(digits)] == ds;
    assert ConvertDigits(digits, negative) ==
      if DigitsValue(ds) >= U32Modulus then None
      else if negative then Some((U32Modulus - DigitsValue(ds)) % U32Modulus)
      else Some(DigitsValue(ds));
  }

  /**
    A `0x` prefix, a run of digits and any text that does not start with a digit: the number
    read is the run's value, when it fits in 32 bits.
   */
  lemma PrefixedDigitsRead(ds: string, tail: string)
    requires |ds| > 0 && AllHexDigits(ds) && DigitsValue(ds) < U32Modulus
    requires |tail| == 0 || !IsHexDigit(tail[0])
    ensures Stoul16("0x" + ds + tail) == Some(DigitsValue(ds))
  {
    var rest := ds + tail;
    assert "0x" + ds + tail == "0x" + rest;
    assert "" + ("" + ("0x" + rest)) == "0x" + rest;
    NumberRead("0x" + ds + tail, "", "", "0x", ds, tail);
  }

  /** With a minus sign in front, the same digits are read negated modulo 2^32. */
  lemma NegatedDigitsRead(ds: string, tail: string)
    requires |ds| > 0 && AllHexDigits(ds) && DigitsValue(ds) < U32Modulus
    requires |tail| == 0 || !IsHexDigit(tail[0])
    ensures Stoul16("-0x" + ds + tail) == Some((U32Modulus - DigitsValue(ds)) % U32Modulus)
  {
    var s := "-0x" + ds + tail;
    MinusPrefixParts(ds + tail);
    assert s == "" + ("-" + ("0x" + (ds + tail)));
    assert NumberParts("", "-", "0x", ds, tail);
    NumberRead(s, "", "-", "0x", ds, tail);
    assert NumberValue("-", ds) == (U32Modulus - DigitsValue(ds)) % U32Modulus;
  }

  /** `-0x` followed by a text, cut into the parts of a number. */
  lemma MinusPrefixParts(rest: string)
    ensures "-0x" + rest == "" + ("-" + ("0x" + rest))
  {
    assert "-0x" == "-" + "0x";
  }

  /**
    Round trip: a bound written as `FormatHex(n)` is read back as `n`, whatever non-digit
    text follows it (stoul stops at the first character that is not a digit).
   */
  lemma FormatHexRoundTrip(n: u32, tail: string)
    requires |tail| == 0 || !IsHexDigit(tail[0])
    ensures Stoul16(FormatHex(n) + tail) == Some(n)
  {
    DigitsValueOfHexDigits(n);
    PrefixedDigitsRead(HexDigits(n), tail);
  }

  /** A text without a single hexadecimal digit is refused (std::invalid_argument). */
  lemma NoDigitsRefused(s: string)
    requires forall i :: 0 <= i < |s| ==> !IsHexDigit(s[i])
    ensures Stoul16(s).None?
  {
    var t := DigitText(s);
    assert |t| > 0 ==> t[0] == s[DigitStart(s)];
  }

  /** A prefixed digit string whose value needs more than 32 bits is refused (std::out_of_range). */
  lemma OverflowRefused(ds: string)
    requires |ds| > 0 && AllHexDigits(ds)
    requires DigitsValue(ds) >= U32Modulus
    ensures Stoul16("0x" + ds).None?
  {
    assert ds + "" == ds;
    assert "" + ("" + ("0x" + ds)) == "0x" + ds;
    NumberRead("0x" + ds, "", "", "0x", ds, "");
  }
}
