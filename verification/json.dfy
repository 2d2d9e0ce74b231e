/** The parts of JSON text output that the telemetry packets need: decimal
    integers, and strings escaped the way the default serializer escapes them
    (ASCII-only output, `\uXXXX` for anything outside the printable range),
    objects with the default `, ` and `: ` separators. */
module Json {

  predicate IsDigit(c: char) {
    '0' <= c <= '9'
  }

  /** Characters the serializer may write unescaped inside a string. */
  predicate IsPrintableAscii(c: char) {
    ' ' <= c <= '~'
  }

  /** Text the serializer may emit: printable ASCII only. */
  predicate Printable(s: string) {
    s == [] || (IsPrintableAscii(s[0]) && Printable(s[1..]))
  }

  lemma {:induction false} PrintableConcat(a: string, b: string)
    requires Printable(a) && Printable(b)
    ensures Printable(a + b)
  {
    if a == [] {
      assert a + b == b;
    } else {
      PrintableConcat(a[1..], b);
      assert (a + b)[1..] == a[1..] + b;
      assert (a + b)[0] == a[0];
    }
  }

  /** Printable text never holds a newline, the frame delimiter. */
  lemma {:induction false} PrintableHasNoNewline(s: string)
    requires Printable(s)
    ensures forall k :: 0 <= k < |s| ==> s[k] != '\n'
  {
    if s != [] {
      PrintableHasNoNewline(s[1..]);
      assert forall k :: 1 <= k < |s| ==> s[k] == s[1..][k - 1];
    }
  }

  lemma {:induction false} PrintableAt(s: string)
    requires forall i :: 0 <= i < |s| ==> IsPrintableAscii(s[i])
    ensures Printable(s)
  {
    if s != [] {
      PrintableAt(s[1..]);
    }
  }

  function DigitChar(d: nat): (c: char)
    requires d < 10
    ensures IsDigit(c) && c as int - '0' as int == d
  {
    ('0' as int + d) as char
  }

  /** The number a string of decimal digits denotes. */
  function DigitsValue(s: string): int
    requires forall i :: 0 <= i < |s| ==> IsDigit(s[i])
  {
    if s == [] then 0
    else 10 * DigitsValue(s[..|s| - 1]) + (s[|s| - 1] as int - '0' as int)
  }

  /** Decimal digits of n. */
  function NatToString(n: nat): string {
    if n < 10 then [DigitChar(n)] else NatToString(n / 10) + [DigitChar(n % 10)]
  }

  /** The digits denote n, and there is no leading zero. */
  lemma {:induction false} NatToStringDigits(n: nat)
    ensures var s := NatToString(n);
      1 <= |s| && (forall i :: 0 <= i < |s| ==> IsDigit(s[i])) &&
      DigitsValue(s) == n && (|s| > 1 ==> s[0] != '0')
  {
    if n >= 10 {
      NatToStringDigits(n / 10);
      var s := NatToString(n);
      assert s[..|s| - 1] == NatToString(n / 10);
    }
  }

  /** Decimal text of an integer, with a leading minus when negative. */
  function IntToString(i: int): string {
    if i < 0 then "-" + NatToString(-i) else NatToString(i)
  }

  /** The text is a minus exactly for negative numbers, followed by the
      digits of the magnitude. */
  lemma IntToStringDigits(i: int)
    ensures var s := IntToString(i);
      1 <= |s| && (s[0] == '-') == (i < 0) &&
      var digits := if i < 0 then s[1..] else s;
      (forall k :: 0 <= k < |digits| ==> IsDigit(digits[k])) &&
      DigitsValue(digits) == if i < 0 then -i else i
  {
    if i < 0 {
      NatToStringDigits(-i);
      assert IntToString(i)[1..] == NatToString(-i);
    } else {
      NatToStringDigits(i);
    }
  }

  lemma IntToStringPrintable(i: int)
    ensures Printable(IntToString(i))
  {
    IntToStringDigits(i);
    PrintableAt(IntToString(i));
  }

  function HexDigit(d: nat): (c: char)
    requires d < 16
    ensures IsPrintableAscii(c)
    ensures d < 10 ==> IsDigit(c)
    ensures 10 <= d ==> 'a' <= c <= 'f'
  {
    if d < 10 then DigitChar(d) else ('a' as int + (d - 10)) as char
  }

  /** Four lower-case hexadecimal digits of a 16-bit code unit. */
  function Hex4(n: nat): (s: string)
    requires n < 0x1_0000
    ensures |s| == 4
    ensures forall k :: 0 <= k < 4 ==> IsPrintableAscii(s[k])
  {
    [HexDigit(n / 0x1000), HexDigit(n / 0x100 % 16), HexDigit(n / 16 % 16), HexDigit(n % 16)]
  }

  /** `\u` and the four hexadecimal digits of a 16-bit code unit. */
  function UnicodeEscape(n: nat): (s: string)
    requires n < 0x1_0000
    ensures |s| == 6 && s[0] == '\\' && s[1] == 'u'
    ensures forall k :: 0 <= k < 6 ==> IsPrintableAscii(s[k])
  {
    "\\u" + Hex4(n)
  }

  /** Characters the serializer writes as a two-character escape. */
  predicate HasShortEscape(c: char) {
    c == '\\' || c == '"' || c == '\n' || c == '\r' || c == '\t' || c == '\U{8}' || c == '\U{C}'
  }

  /** The escape of one character inside a JSON string: a short escape, the
      character itself when printable, `\uXXXX` inside the basic plane and
      a UTF-16 surrogate pair outside it. */
  function EscapeChar(c: char): (s: string)
    ensures IsPrintableAscii(c) && !HasShortEscape(c) ==> s == [c]
    ensures HasShortEscape(c) ==> |s| == 2 && s[0] == '\\'
    ensures !IsPrintableAscii(c) && !HasShortEscape(c) && c as int < 0x1_0000 ==>
      |s| == 6 && s[..2] == "\\u"
    ensures 0x1_0000 <= c as int ==> |s| == 12 && s[..2] == "\\u" && s[6..8] == "\\u"
  {
    if c == '\\' then "\\\\"
    else if c == '"' then "\\\""
    else if c == '\n' then "\\n"
    else if c == '\r' then "\\r"
    else if c == '\t' then "\\t"
    else if c == '\U{8}' then "\\b"
    else if c == '\U{C}' then "\\f"
    else if IsPrintableAscii(c) then [c]
    else if c as int < 0x1_0000 then UnicodeEscape(c as int)
    else
      // outside the basic plane: a UTF-16 surrogate pair
      var v := c as int - 0x1_0000;
      UnicodeEscape(0xD800 + v / 0x400) + UnicodeEscape(0xDC00 + v % 0x400)
  }

  lemma EscapeCharPrintable(c: char)
    ensures Printable(EscapeChar(c))
  {
    var s := EscapeChar(c);
    if 0x1_0000 <= c as int && !IsPrintableAscii(c) && !HasShortEscape(c) {
      var v := c as int - 0x1_0000;
      var hi, lo := UnicodeEscape(0xD800 + v / 0x400), UnicodeEscape(0xDC00 + v % 0x400);
      assert s == hi + lo;
      assert forall k :: 0 <= k < 6 ==> s[k] == hi[k] && s[k + 6] == lo[k];
    }
    PrintableAt(s);
  }

  /** The pieces joined end to end. */
  function Flatten(parts: seq<string>): string {
    if parts == [] then [] else parts[0] + Flatten(parts[1..])
  }

  lemma {:induction false} FlattenPrintable(parts: seq<string>)
    requires forall i :: 0 <= i < |parts| ==> Printable(parts[i])
    ensures Printable(Flatten(parts))
  {
    if parts != [] {
      FlattenPrintable(parts[1..]);
      PrintableConcat(parts[0], Flatten(parts[1..]));
    }
  }

  lemma {:induction false} FlattenSingletons(s: string, parts: seq<string>)
    requires |parts| == |s|
    requires forall i :: 0 <= i < |s| ==> parts[i] == [s[i]]
    ensures Flatten(parts) == s
  {
    if s != [] {
      FlattenSingletons(s[1..], parts[1..]);
      assert s == [s[0]] + s[1..];
    }
  }

  /** The escape of each character, in order. */
  function Escapes(s: string): (parts: seq<string>)
    ensures |parts| == |s|
    ensures forall i :: 0 <= i < |s| ==> parts[i] == EscapeChar(s[i])
  {
    seq(|s|, i requires 0 <= i < |s| => EscapeChar(s[i]))
  }

  /** The body of a JSON string literal: every character escaped. */
  function Escape(s: string): string {
    Flatten(Escapes(s))
  }

  /** Whatever the input, the escaped text is printable ASCII. */
  lemma EscapePrintable(s: string)
    ensures Printable(Escape(s))
  {
    forall i | 0 <= i < |s|
      ensures Printable(Escapes(s)[i])
    {
      EscapeCharPrintable(s[i]);
    }
    FlattenPrintable(Escapes(s));
  }

  /** Text that needs no escaping is written as is. */
  lemma EscapePlain(s: string)
    requires forall i :: 0 <= i < |s| ==> IsPrintableAscii(s[i]) && !HasShortEscape(s[i])
    ensures Escape(s) == s
  {
    FlattenSingletons(s, Escapes(s));
  }

  /** A JSON string literal. */
  function Quote(s: string): string {
    "\"" + Escape(s) + "\""
  }

  lemma QuotePrintable(s: string)
    ensures Printable(Quote(s))
  {
    EscapePrintable(s);
    PrintableConcat("\"", Escape(s));
    PrintableConcat("\"" + Escape(s), "\"");
  }

  /** One member of an object: the quoted key, `: ` and the value. */
  function Member(m: (string, string)): string {
    Quote(m.0) + ": " + m.1
  }

  /** The members of an object, each `"key": value`, joined by `, `; every
      value is already JSON text. */
  function Members(ms: seq<(string, string)>): string {
    if ms == [] then ""
    else if |ms| == 1 then Member(ms[0])
    else Members(ms[..|ms| - 1]) + ", " + Member(ms[|ms| - 1])
  }

  /** A JSON object with the given members in the given order. */
  function Object(ms: seq<(string, string)>): string {
    "{" + Members(ms) + "}"
  }

  lemma MemberPrintable(m: (string, string))
    requires Printable(m.1)
    ensures Printable(Member(m))
  {
    QuotePrintable(m.0);
    PrintableConcat(Quote(m.0), ": ");
    PrintableConcat(Quote(m.0) + ": ", m.1);
  }

  lemma {:induction false} MembersPrintable(ms: seq<(string, string)>)
    requires forall i :: 0 <= i < |ms| ==> Printable(ms[i].1)
    ensures Printable(Members(ms))
  {
    if ms != [] {
      var n := |ms| - 1;
      MemberPrintable(ms[n]);
      if n > 0 {
        MembersPrintable(ms[..n]);
        PrintableConcat(Members(ms[..n]), ", ");
        PrintableConcat(Members(ms[..n]) + ", ", Member(ms[n]));
      }
    }
  }

  /** An object whose values are printable is printable, so it holds no newline. */
  lemma ObjectPrintable(ms: seq<(string, string)>)
    requires forall i :: 0 <= i < |ms| ==> Printable(ms[i].1)
    ensures Printable(Object(ms))
  {
    MembersPrintable(ms);
    PrintableConcat("{", Members(ms));
    PrintableConcat("{" + Members(ms), "}");
  }

  function BoolText(b: bool): string {
    if b then "true" else "false"
  }

  lemma BoolTextPrintable(b: bool)
    ensures Printable(BoolText(b))
  {
    PrintableAt(BoolText(b));
  }
}
