/**
 * JSON.stringify and JSON.parse restricted to the cells of the model:
 * null, whole numbers and strings.
 */
module Json {
  import opened Wrappers
  import opened Values
  import opened Hex

  predicate IsDigit(c: char) { '0' <= c <= '9' }

  function DigitChar(d: nat): (c: char)
    requires d < 10
    ensures IsDigit(c)
  {
    ('0' as int + d) as char
  }

  function DigitValue(c: char): (d: nat)
    requires IsDigit(c)
    ensures d < 10 && DigitChar(d) == c
  {
    c as int - '0' as int
  }

  predicate AllDigits(s: string) {
    forall i :: 0 <= i < |s| ==> IsDigit(s[i])
  }

  /** Decimal digits of n, most significant first, without leading zeros. */
  function Digits(n: nat): (s: string)
    ensures |s| >= 1 && AllDigits(s)
    ensures s[0] == '0' ==> n == 0 && |s| == 1
    decreases n
  {
    if n < 10 then [DigitChar(n)] else Digits(n / 10) + [DigitChar(n % 10)]
  }

  /** The number a string of decimal digits denotes. */
  function DigitsValue(s: string): nat
    requires AllDigits(s)
    decreases |s|
  {
    if |s| == 0 then 0 else DigitsValue(s[..|s| - 1]) * 10 + DigitValue(s[|s| - 1])
  }

  lemma {:induction false} DigitsValueOfDigits(n: nat)
    ensures DigitsValue(Digits(n)) == n
    decreases n
  {
    if n >= 10 {
      var s := Digits(n);
      assert s[..|s| - 1] == Digits(n / 10);
      DigitsValueOfDigits(n / 10);
    }
  }

  /** JSON.stringify of a whole number. */
  function NumberText(n: int): string {
    if n < 0 then "-" + Digits(-n) else Digits(n)
  }

  /** A JSON number token without fraction or exponent: no leading zeros. */
  function ParseNatural(s: string): Option<nat> {
    if |s| > 0 && AllDigits(s) && (s[0] != '0' || |s| == 1) then Some(DigitsValue(s)) else None
  }

  function ParseNumber(s: string): Option<int> {
    var negative := |s| > 0 && s[0] == '-';
    match ParseNatural(if negative then s[1..] else s)
    case Some(m) => Some(if negative then 0 - m else m)
    case None => None
  }

  /** How JSON.stringify writes one character inside a string literal. */
  function EscapeChar(c: char): string {
    if c == '"' then "\\\""
    else if c == '\\' then "\\\\"
    else if c as int == 8 then "\\b"
    else if c as int == 9 then "\\t"
    else if c as int == 10 then "\\n"
    else if c as int == 12 then "\\f"
    else if c as int == 13 then "\\r"
    else if (c as int) < 0x20 then ['\\', 'u', '0', '0', LowerDigit(c as int / 16), LowerDigit(c as int % 16)]
    else [c]
  }

  function Escape(s: string): string
    decreases |s|
  {
    if |s| == 0 then "" else EscapeChar(s[0]) + Escape(s[1..])
  }

  /** The character a one-letter escape stands for. */
  function SimpleEscape(e: char): Option<char> {
    if e == '"' then Some('"')
    else if e == '\\' then Some('\\')
    else if e == '/' then Some('/')
    else if e == 'b' then Some(8 as char)
    else if e == 't' then Some(9 as char)
    else if e == 'n' then Some(10 as char)
    else if e == 'f' then Some(12 as char)
    else if e == 'r' then Some(13 as char)
    else None
  }

  function Prepend(c: char, rest: Option<string>): Option<string> {
    match rest
    case Some(t) => Some([c] + t)
    case None => None
  }

  /**
   * The characters of a JSON string literal between its quotes. A bare
   * quote or control character is an error; a \u escape naming a UTF-16
   * surrogate is refused as well (surrogate pairs are not modelled).
   */
  function Unescape(t: string): Option<string>
    decreases |t|
  {
    if |t| == 0 then Some("")
    else if t[0] == '"' || (t[0] as int) < 0x20 then None
    else if t[0] != '\\' then Prepend(t[0], Unescape(t[1..]))
    else if |t| < 2 then None
    else if t[1] == 'u' then
      if |t| < 6 || !(IsHexDigit(t[2]) && IsHexDigit(t[3]) && IsHexDigit(t[4]) && IsHexDigit(t[5])) then None
      else
        var code := HexValue(t[2]) * 4096 + HexValue(t[3]) * 256 + HexValue(t[4]) * 16 + HexValue(t[5]);
        if 0xD800 <= code < 0xE000 then None else Prepend(code as char, Unescape(t[6..]))
    else
      match SimpleEscape(t[1])
      case Some(c) => Prepend(c, Unescape(t[2..]))
      case None => None
  }

  /** JSON.stringify of a cell; NULL becomes the literal null. */
  function Stringify(c: Option<Value>): string {
    match c
    case None => "null"
    case Some(Num(n)) => NumberText(n)
    case Some(Text(s)) => "\"" + Escape(s) + "\""
  }

  /** JSON.parse of a single null, number or string token; None is a SyntaxError. */
  function Parse(s: string): Option<Option<Value>> {
    if s == "null" then Some(None)
    else if |s| >= 2 && s[0] == '"' && s[|s| - 1] == '"' then
      match Unescape(s[1..|s| - 1])
      case Some(t) => Some(Some(Text(t)))
      case None => None
    else
      match ParseNumber(s)
      case Some(n) => Some(Some(Num(n)))
      case None => None
  }

  lemma UnescapeStep(c: char, rest: string)
    ensures Unescape(EscapeChar(c) + rest) == Prepend(c, Unescape(rest))
  {
    if c == '"' || c == '\\' || c as int in {8, 9, 10, 12, 13} {
      UnescapeShort(c, rest);
    } else if (c as int) < 0x20 {
      UnescapeControl(c, rest);
    } else {
      var t := EscapeChar(c) + rest;
      assert t[1..] == rest;
    }
  }

  /** A quote, a backslash or a control character with a one-letter escape. */
  lemma UnescapeShort(c: char, rest: string)
    requires c == '"' || c == '\\' || c as int in {8, 9, 10, 12, 13}
    ensures Unescape(EscapeChar(c) + rest) == Prepend(c, Unescape(rest))
  {
    var e := EscapeChar(c);
    assert |e| == 2 && e[0] == '\\' && SimpleEscape(e[1]) == Some(c);
    var t := e + rest;
    assert t[2..] == rest;
  }

  /** Any other control character, written as a \u00XX escape. */
  lemma UnescapeControl(c: char, rest: string)
    requires (c as int) < 0x20 && !(c as int in {8, 9, 10, 12, 13})
    ensures Unescape(EscapeChar(c) + rest) == Prepend(c, Unescape(rest))
  {
    var hi, lo := LowerDigit(c as int / 16), LowerDigit(c as int % 16);
    var e := EscapeChar(c);
    assert e == ['\\', 'u', '0', '0', hi, lo];
    var t := e + rest;
    assert t[..6] == e && t[6..] == rest;
    var code := HexValue('0') * 4096 + HexValue('0') * 256 + HexValue(hi) * 16 + HexValue(lo);
    assert code == c as int;
  }

  lemma {:induction false} UnescapeEscape(s: string)
    ensures Unescape(Escape(s)) == Some(s)
    decreases |s|
  {
    if |s| > 0 {
      UnescapeStep(s[0], Escape(s[1..]));
      UnescapeEscape(s[1..]);
      assert [s[0]] + s[1..] == s;
    }
  }

  lemma ParseNaturalDigits(m: nat)
    ensures ParseNatural(Digits(m)) == Some(m)
  {
    DigitsValueOfDigits(m);
  }

  lemma ParseNumberText(n: int)
    ensures ParseNumber(NumberText(n)) == Some(n)
  {
    var s := NumberText(n);
    if n < 0 {
      assert s[0] == '-' && s[1..] == Digits(-n);
      ParseNaturalDigits(-n);
    } else {
      assert IsDigit(s[0]);
      ParseNaturalDigits(n);
    }
  }

  /** JSON.parse undoes JSON.stringify on every cell of the model. */
  lemma ParseStringify(c: Option<Value>)
    ensures Parse(Stringify(c)) == Some(c)
  {
    match c
    case None =>
    case Some(Num(n)) =>
      ParseNumberText(n);
      var s := NumberText(n);
      assert s[0] == '-' || IsDigit(s[0]);
      assert s != "null";
    case Some(Text(t)) =>
      var s := Stringify(c);
      assert s[1..|s| - 1] == Escape(t);
      UnescapeEscape(t);
  }
}
