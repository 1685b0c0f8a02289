/**
 * encodeURIComponent and decodeURIComponent (ECMA-262, over the URI
 * syntax of RFC 3986): every character outside the unreserved set is
 * written as the %HH escapes of its UTF-8 octets (section 2.1 of RFC 3986).
 */
module PercentEncoding {
  import opened Wrappers
  import opened Hex

  /** The characters encodeURIComponent leaves as they are. */
  predicate Unreserved(c: char) {
    ('A' <= c <= 'Z') || ('a' <= c <= 'z') || ('0' <= c <= '9')
    || c == '-' || c == '_' || c == '.' || c == '!' || c == '~'
    || c == '*' || c == '\'' || c == '(' || c == ')'
  }

  /** The characters every encoded text is made of: ASCII, never the cursor separator. */
  predicate SafeChar(c: char) {
    (c as int) < 128 && c != '/'
  }

  predicate AllSafe(s: string) {
    forall i :: 0 <= i < |s| ==> SafeChar(s[i])
  }

  /** One octet as %HH. */
  function Pct(b: nat): (s: string)
    requires b < 256
    ensures |s| == 3 && AllSafe(s)
  {
    ['%', UpperDigit(b / 16), UpperDigit(b % 16)]
  }

  /** One character: itself if unreserved, else the escapes of its UTF-8 octets. */
  function EncodeChar(c: char): (s: string)
    ensures AllSafe(s)
  {
    var cp := c as int;
    if Unreserved(c) then [c]
    else if cp < 0x80 then Pct(cp)
    else if cp < 0x800 then Pct(0xC0 + cp / 64) + Pct(0x80 + cp % 64)
    else if cp < 0x10000 then Pct(0xE0 + cp / 4096) + Pct(0x80 + (cp / 64) % 64) + Pct(0x80 + cp % 64)
    else Pct(0xF0 + cp / 262144) + Pct(0x80 + (cp / 4096) % 64) + Pct(0x80 + (cp / 64) % 64) + Pct(0x80 + cp % 64)
  }

  /** encodeURIComponent. */
  function EncodeURIComponent(s: string): (r: string)
    ensures AllSafe(r)
    decreases |s|
  {
    if |s| == 0 then "" else EncodeChar(s[0]) + EncodeURIComponent(s[1..])
  }

  /** The octet written as %HH at position i, if there is one. */
  function OctetAt(s: string, i: nat): (r: Option<nat>)
    ensures r.Some? ==> i + 3 <= |s| && r.value < 256
  {
    if i + 3 <= |s| && s[i] == '%' && IsHexDigit(s[i + 1]) && IsHexDigit(s[i + 2])
    then Some(HexValue(s[i + 1]) * 16 + HexValue(s[i + 2]))
    else None
  }

  /** How many octets a leading octet announces; 0 if it cannot lead. */
  function SequenceLength(b: nat): nat {
    if b < 0x80 then 1
    else if 0xC0 <= b < 0xE0 then 2
    else if 0xE0 <= b < 0xF0 then 3
    else if 0xF0 <= b < 0xF8 then 4
    else 0
  }

  predicate IsContinuation(o: Option<nat>) {
    o.Some? && 0x80 <= o.value < 0xC0
  }

  /**
   * The character of the escape sequence that starts s (s[0] == '%') and
   * how many characters it spans; None where decodeURIComponent throws a
   * URIError: a bad escape, a bad leading or continuation octet, an
   * overlong form, a surrogate or a code point above U+10FFFF.
   */
  function DecodeEscape(s: string): (r: Option<(char, nat)>)
    ensures r.Some? ==> 3 <= r.value.1 <= |s|
  {
    var b0 := OctetAt(s, 0);
    if b0.None? then None
    else
      var n := SequenceLength(b0.value);
      if n == 0 then None
      else if n == 1 then Some((b0.value as char, 3))
      else if n == 2 then
        var b1 := OctetAt(s, 3);
        if !IsContinuation(b1) then None
        else
          var cp := (b0.value - 0xC0) * 64 + (b1.value - 0x80);
          if cp < 0x80 then None else Some((cp as char, 6))
      else if n == 3 then
        var b1, b2 := OctetAt(s, 3), OctetAt(s, 6);
        if !IsContinuation(b1) || !IsContinuation(b2) then None
        else
          var cp := (b0.value - 0xE0) * 4096 + (b1.value - 0x80) * 64 + (b2.value - 0x80);
          if cp < 0x800 || (0xD800 <= cp < 0xE000) then None else Some((cp as char, 9))
      else
        var b1, b2, b3 := OctetAt(s, 3), OctetAt(s, 6), OctetAt(s, 9);
        if !IsContinuation(b1) || !IsContinuation(b2) || !IsContinuation(b3) then None
        else
          var cp := (b0.value - 0xF0) * 262144 + (b1.value - 0x80) * 4096 + (b2.value - 0x80) * 64 + (b3.value - 0x80);
          if cp < 0x10000 || cp > 0x10FFFF then None else Some((cp as char, 12))
  }

  function Prepend(c: char, rest: Option<string>): Option<string> {
    match rest
    case Some(t) => Some([c] + t)
    case None => None
  }

  /** decodeURIComponent; None is a URIError. */
  function DecodeURIComponent(s: string): Option<string>
    decreases |s|
  {
    if |s| == 0 then Some("")
    else if s[0] != '%' then Prepend(s[0], DecodeURIComponent(s[1..]))
    else
      match DecodeEscape(s)
      case None => None
      case Some((c, k)) => Prepend(c, DecodeURIComponent(s[k..]))
  }

  lemma PctOctet(b: nat, rest: string)
    requires b < 256
    ensures OctetAt(Pct(b) + rest, 0) == Some(b)
  {
  }

  lemma OctetAfter(prefix: string, b: nat, rest: string)
    requires b < 256
    ensures OctetAt(prefix + (Pct(b) + rest), |prefix|) == Some(b)
  {
    var s := prefix + (Pct(b) + rest);
    assert s[|prefix|..|prefix| + 3] == Pct(b);
  }

  lemma SplitThree(cp: nat)
    ensures (cp / 4096) * 4096 + ((cp / 64) % 64) * 64 + cp % 64 == cp
  {
    var q := cp / 64;
    assert cp == q * 64 + cp % 64;
    assert q == (q / 64) * 64 + q % 64;
    assert cp / 4096 == q / 64;
  }

  lemma SplitFour(cp: nat)
    ensures (cp / 262144) * 262144 + ((cp / 4096) % 64) * 4096 + ((cp / 64) % 64) * 64 + cp % 64 == cp
  {
    var q := cp / 64;
    var p := q / 64;
    assert cp == q * 64 + cp % 64;
    assert q == p * 64 + q % 64;
    assert p == (p / 64) * 64 + p % 64;
    assert cp / 4096 == p;
    assert cp / 262144 == p / 64;
  }

  /** The arithmetic core of a three-octet sequence: the octets' payloads rebuild cp. */
  lemma ThreeOctetPayload(cp: nat, x: nat, y: nat, z: nat)
    requires 0x800 <= cp < 0x10000
    requires x == cp / 4096 && y == (cp / 64) % 64 && z == cp % 64
    ensures x < 16 && y < 64 && z < 64 && x * 4096 + y * 64 + z == cp
  {
    SplitThree(cp);
  }

  lemma FourOctetPayload(cp: nat, w: nat, x: nat, y: nat, z: nat)
    requires 0x10000 <= cp <= 0x10FFFF
    requires w == cp / 262144 && x == (cp / 4096) % 64 && y == (cp / 64) % 64 && z == cp % 64
    ensures w < 5 && x < 64 && y < 64 && z < 64
    ensures w * 262144 + x * 4096 + y * 64 + z == cp
  {
    SplitFour(cp);
  }

  /** Where the octets of three consecutive escapes sit. */
  lemma ThreeOctetsAt(b0: nat, b1: nat, b2: nat, rest: string)
    requires b0 < 256 && b1 < 256 && b2 < 256
    ensures var s := Pct(b0) + (Pct(b1) + (Pct(b2) + rest));
      OctetAt(s, 0) == Some(b0) && OctetAt(s, 3) == Some(b1) && OctetAt(s, 6) == Some(b2)
  {
    var s := Pct(b0) + (Pct(b1) + (Pct(b2) + rest));
    PctOctet(b0, Pct(b1) + (Pct(b2) + rest));
    OctetAfter(Pct(b0), b1, Pct(b2) + rest);
    assert s == (Pct(b0) + Pct(b1)) + (Pct(b2) + rest);
    OctetAfter(Pct(b0) + Pct(b1), b2, rest);
  }

  /** Where the octets of four consecutive escapes sit. */
  lemma FourOctetsAt(b0: nat, b1: nat, b2: nat, b3: nat, rest: string)
    requires b0 < 256 && b1 < 256 && b2 < 256 && b3 < 256
    ensures var s := Pct(b0) + (Pct(b1) + (Pct(b2) + (Pct(b3) + rest)));
      OctetAt(s, 0) == Some(b0) && OctetAt(s, 3) == Some(b1) && OctetAt(s, 6) == Some(b2) && OctetAt(s, 9) == Some(b3)
  {
    var s := Pct(b0) + (Pct(b1) + (Pct(b2) + (Pct(b3) + rest)));
    ThreeOctetsAt(b0, b1, b2, Pct(b3) + rest);
    assert s == (Pct(b0) + Pct(b1) + Pct(b2)) + (Pct(b3) + rest);
    OctetAfter(Pct(b0) + Pct(b1) + Pct(b2), b3, rest);
  }

  /** A well-formed three-octet sequence decodes to the code point it carries. */
  lemma DecodeThreeEscape(s: string, b0: nat, b1: nat, b2: nat, c: char)
    requires OctetAt(s, 0) == Some(b0) && OctetAt(s, 3) == Some(b1) && OctetAt(s, 6) == Some(b2)
    requires 0xE0 <= b0 < 0xF0 && 0x80 <= b1 < 0xC0 && 0x80 <= b2 < 0xC0
    requires (b0 - 0xE0) * 4096 + (b1 - 0x80) * 64 + (b2 - 0x80) == c as int
    requires 0x800 <= c as int < 0x10000 && !(0xD800 <= c as int < 0xE000)
    ensures DecodeEscape(s) == Some((c, 9))
  {
  }

  /** A well-formed four-octet sequence decodes to the code point it carries. */
  lemma DecodeFourEscape(s: string, b0: nat, b1: nat, b2: nat, b3: nat, c: char)
    requires OctetAt(s, 0) == Some(b0) && OctetAt(s, 3) == Some(b1) && OctetAt(s, 6) == Some(b2) && OctetAt(s, 9) == Some(b3)
    requires 0xF0 <= b0 < 0xF8 && 0x80 <= b1 < 0xC0 && 0x80 <= b2 < 0xC0 && 0x80 <= b3 < 0xC0
    requires (b0 - 0xF0) * 262144 + (b1 - 0x80) * 4096 + (b2 - 0x80) * 64 + (b3 - 0x80) == c as int
    requires 0x10000 <= c as int
    ensures DecodeEscape(s) == Some((c, 12))
  {
  }

  lemma DecodeAtEscape(s: string, c: char, k: nat)
    requires |s| > 0 && s[0] == '%' && DecodeEscape(s) == Some((c, k))
    ensures DecodeURIComponent(s) == Prepend(c, DecodeURIComponent(s[k..]))
  {
  }

  /** Three escapes of three characters each, followed by the rest. */
  lemma ThreeEscapes(p0: string, p1: string, p2: string, rest: string)
    requires |p0| == 3 && |p1| == 3 && |p2| == 3
    ensures p0 + p1 + p2 + rest == p0 + (p1 + (p2 + rest))
    ensures (p0 + p1 + p2 + rest)[9..] == rest
  {
  }

  /** Four escapes of three characters each, followed by the rest. */
  lemma FourEscapes(p0: string, p1: string, p2: string, p3: string, rest: string)
    requires |p0| == 3 && |p1| == 3 && |p2| == 3 && |p3| == 3
    ensures p0 + p1 + p2 + p3 + rest == p0 + (p1 + (p2 + (p3 + rest)))
    ensures (p0 + p1 + p2 + p3 + rest)[12..] == rest
  {
  }

  /** A well-formed two-octet sequence decodes to the code point it carries. */
  lemma DecodeTwoEscape(s: string, b0: nat, b1: nat, c: char)
    requires OctetAt(s, 0) == Some(b0) && OctetAt(s, 3) == Some(b1)
    requires 0xC0 <= b0 < 0xE0 && 0x80 <= b1 < 0xC0
    requires (b0 - 0xC0) * 64 + (b1 - 0x80) == c as int
    requires 0x80 <= c as int
    ensures DecodeEscape(s) == Some((c, 6))
  {
  }

  /** The escapes encodeURIComponent writes for a character of two UTF-8 octets, as payloads. */
  lemma EncodeCharTwo(c: char) returns (x: nat, y: nat)
    requires !Unreserved(c) && 0x80 <= c as int < 0x800
    ensures x < 32 && y < 64 && x * 64 + y == c as int
    ensures EncodeChar(c) == Pct(0xC0 + x) + Pct(0x80 + y)
  {
    var cp := c as int;
    x, y := cp / 64, cp % 64;
  }

  lemma DecodeTwoAfter(c: char, x: nat, y: nat, rest: string)
    requires 0x80 <= c as int && x < 32 && y < 64 && x * 64 + y == c as int
    ensures DecodeURIComponent(Pct(0xC0 + x) + Pct(0x80 + y) + rest) == Prepend(c, DecodeURIComponent(rest))
  {
    var b0, b1 := 0xC0 + x, 0x80 + y;
    var s := Pct(b0) + Pct(b1) + rest;
    assert s == Pct(b0) + (Pct(b1) + rest);
    PctOctet(b0, Pct(b1) + rest);
    OctetAfter(Pct(b0), b1, rest);
    DecodeTwoEscape(s, b0, b1, c);
    assert s[6..] == rest;
    DecodeAtEscape(s, c, 6);
  }

  lemma DecodeEncodedTwo(c: char, rest: string)
    requires !Unreserved(c) && 0x80 <= c as int < 0x800
    ensures DecodeURIComponent(EncodeChar(c) + rest) == Prepend(c, DecodeURIComponent(rest))
  {
    var x, y := EncodeCharTwo(c);
    DecodeTwoAfter(c, x, y, rest);
  }

  /** The escapes encodeURIComponent writes for a character of three UTF-8 octets, as payloads. */
  lemma EncodeCharThree(c: char) returns (x: nat, y: nat, z: nat)
    requires !Unreserved(c) && 0x800 <= c as int < 0x10000
    ensures x < 16 && y < 64 && z < 64 && x * 4096 + y * 64 + z == c as int
    ensures EncodeChar(c) == Pct(0xE0 + x) + Pct(0x80 + y) + Pct(0x80 + z)
  {
    var cp := c as int;
    x, y, z := cp / 4096, (cp / 64) % 64, cp % 64;
    ThreeOctetPayload(cp, x, y, z);
  }

  lemma DecodeThreeAfter(c: char, x: nat, y: nat, z: nat, rest: string)
    requires 0x800 <= c as int < 0x10000 && x < 16 && y < 64 && z < 64 && x * 4096 + y * 64 + z == c as int
    ensures DecodeURIComponent(Pct(0xE0 + x) + Pct(0x80 + y) + Pct(0x80 + z) + rest) == Prepend(c, DecodeURIComponent(rest))
  {
    var b0, b1, b2 := 0xE0 + x, 0x80 + y, 0x80 + z;
    var s := Pct(b0) + Pct(b1) + Pct(b2) + rest;
    ThreeEscapes(Pct(b0), Pct(b1), Pct(b2), rest);
    ThreeOctetsAt(b0, b1, b2, rest);
    DecodeThreeEscape(s, b0, b1, b2, c);
    DecodeAtEscape(s, c, 9);
  }

  lemma DecodeEncodedThree(c: char, rest: string)
    requires !Unreserved(c) && 0x800 <= c as int < 0x10000
    ensures DecodeURIComponent(EncodeChar(c) + rest) == Prepend(c, DecodeURIComponent(rest))
  {
    var x, y, z := EncodeCharThree(c);
    DecodeThreeAfter(c, x, y, z, rest);
  }

  /** The escapes encodeURIComponent writes for a character of four UTF-8 octets, as payloads. */
  lemma EncodeCharFour(c: char) returns (w: nat, x: nat, y: nat, z: nat)
    requires !Unreserved(c) && 0x10000 <= c as int
    ensures w < 5 && x < 64 && y < 64 && z < 64 && w * 262144 + x * 4096 + y * 64 + z == c as int
    ensures EncodeChar(c) == Pct(0xF0 + w) + Pct(0x80 + x) + Pct(0x80 + y) + Pct(0x80 + z)
  {
    var cp := c as int;
    w, x, y, z := cp / 262144, (cp / 4096) % 64, (cp / 64) % 64, cp % 64;
    FourOctetPayload(cp, w, x, y, z);
    EncodeCharFourOctets(c);
  }

  lemma EncodeCharFourOctets(c: char)
    requires !Unreserved(c) && 0x10000 <= c as int
    ensures var cp := c as int;
      EncodeChar(c) == Pct(0xF0 + cp / 262144) + Pct(0x80 + (cp / 4096) % 64) + Pct(0x80 + (cp / 64) % 64) + Pct(0x80 + cp % 64)
  {
  }

  lemma DecodeFourAfter(c: char, w: nat, x: nat, y: nat, z: nat, rest: string)
    requires 0x10000 <= c as int && w < 5 && x < 64 && y < 64 && z < 64
    requires w * 262144 + x * 4096 + y * 64 + z == c as int
    ensures DecodeURIComponent(Pct(0xF0 + w) + Pct(0x80 + x) + Pct(0x80 + y) + Pct(0x80 + z) + rest)
         == Prepend(c, DecodeURIComponent(rest))
  {
    var b0, b1, b2, b3 := 0xF0 + w, 0x80 + x, 0x80 + y, 0x80 + z;
    var s := Pct(b0) + Pct(b1) + Pct(b2) + Pct(b3) + rest;
    FourEscapes(Pct(b0), Pct(b1), Pct(b2), Pct(b3), rest);
    FourOctetsAt(b0, b1, b2, b3, rest);
    DecodeFourEscape(s, b0, b1, b2, b3, c);
    DecodeAtEscape(s, c, 12);
  }

  lemma DecodeEncodedFour(c: char, rest: string)
    requires !Unreserved(c) && 0x10000 <= c as int
    ensures DecodeURIComponent(EncodeChar(c) + rest) == Prepend(c, DecodeURIComponent(rest))
  {
    var w, x, y, z := EncodeCharFour(c);
    DecodeFourAfter(c, w, x, y, z, rest);
  }

  lemma DecodeEncodedChar(c: char, rest: string)
    ensures DecodeURIComponent(EncodeChar(c) + rest) == Prepend(c, DecodeURIComponent(rest))
  {
    var cp := c as int;
    var s := EncodeChar(c) + rest;
    if Unreserved(c) {
      assert s[1..] == rest;
    } else if cp < 0x80 {
      PctOctet(cp, rest);
      assert s[3..] == rest;
      DecodeAtEscape(s, c, 3);
    } else if cp < 0x800 {
      DecodeEncodedTwo(c, rest);
    } else if cp < 0x10000 {
      DecodeEncodedThree(c, rest);
    } else {
      DecodeEncodedFour(c, rest);
    }
  }

  /** decodeURIComponent undoes encodeURIComponent on every text. */
  lemma {:induction false} DecodeEncode(s: string)
    ensures DecodeURIComponent(EncodeURIComponent(s)) == Some(s)
    decreases |s|
  {
    if |s| > 0 {
      DecodeEncodedChar(s[0], EncodeURIComponent(s[1..]));
      DecodeEncode(s[1..]);
      assert [s[0]] + s[1..] == s;
    }
  }
}
