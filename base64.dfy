/**
 * Base 64 encoding as in section 4 of RFC 4648, over texts whose
 * characters are octets (code points below 256), as the base-64 package
 * the source uses treats them.
 */
module Base64 {
  import opened Wrappers

  /** The 64-character alphabet of section 4 of RFC 4648. */
  function Alphabet(i: nat): (c: char)
    requires i < 64
    ensures c != '='
  {
    if i < 26 then ('A' as int + i) as char
    else if i < 52 then ('a' as int + i - 26) as char
    else if i < 62 then ('0' as int + i - 52) as char
    else if i == 62 then '+'
    else '/'
  }

  /** The index of an alphabet character; None for any other character. */
  function AlphabetIndex(c: char): (r: Option<nat>)
    ensures r.Some? ==> r.value < 64 && Alphabet(r.value) == c
  {
    if 'A' <= c <= 'Z' then Some(c as int - 'A' as int)
    else if 'a' <= c <= 'z' then Some(c as int - 'a' as int + 26)
    else if '0' <= c <= '9' then Some(c as int - '0' as int + 52)
    else if c == '+' then Some(62)
    else if c == '/' then Some(63)
    else None
  }

  lemma AlphabetIndexOf(i: nat)
    requires i < 64
    ensures AlphabetIndex(Alphabet(i)) == Some(i)
  {
  }

  predicate IsLatin1(s: string) {
    forall i :: 0 <= i < |s| ==> (s[i] as int) < 256
  }

  /** Three octets as four characters. */
  function EncodeGroup(b0: nat, b1: nat, b2: nat): (r: string)
    requires b0 < 256 && b1 < 256 && b2 < 256
    ensures |r| == 4 && r[3] != '='
  {
    [Alphabet(b0 / 4), Alphabet((b0 % 4) * 16 + b1 / 16), Alphabet((b1 % 16) * 4 + b2 / 64), Alphabet(b2 % 64)]
  }

  /** A final single octet as two characters and two padding characters. */
  function EncodeFinalOne(b0: nat): (r: string)
    requires b0 < 256
    ensures |r| == 4
  {
    [Alphabet(b0 / 4), Alphabet((b0 % 4) * 16), '=', '=']
  }

  /** Two final octets as three characters and one padding character. */
  function EncodeFinalTwo(b0: nat, b1: nat): (r: string)
    requires b0 < 256 && b1 < 256
    ensures |r| == 4
  {
    [Alphabet(b0 / 4), Alphabet((b0 % 4) * 16 + b1 / 16), Alphabet((b1 % 16) * 4), '=']
  }

  function EncodeLatin1(s: string): (r: string)
    requires IsLatin1(s)
    ensures |r| % 4 == 0 && (|s| > 0 ==> |r| >= 4) && (|s| == 0 ==> r == "")
    decreases |s|
  {
    if |s| == 0 then ""
    else if |s| == 1 then EncodeFinalOne(s[0] as int)
    else if |s| == 2 then EncodeFinalTwo(s[0] as int, s[1] as int)
    else
      assert IsLatin1(s[3..]) by {
        forall i | 0 <= i < |s| - 3 ensures s[3..][i] as int < 256 {
          assert s[3..][i] == s[i + 3];
        }
      }
      var rest := EncodeLatin1(s[3..]);
      var r := EncodeGroup(s[0] as int, s[1] as int, s[2] as int) + rest;
      assert |r| == 4 + |rest| && (4 + |rest|) % 4 == |rest| % 4;
      r
  }

  /** base64.encode; None where it throws (a character above U+00FF). */
  function Encode(s: string): Option<string> {
    if IsLatin1(s) then Some(EncodeLatin1(s)) else None
  }

  /** Four alphabet characters as three octets. */
  function DecodeGroup(c0: char, c1: char, c2: char, c3: char): Option<string> {
    var i0, i1, i2, i3 := AlphabetIndex(c0), AlphabetIndex(c1), AlphabetIndex(c2), AlphabetIndex(c3);
    if i0.None? || i1.None? || i2.None? || i3.None? then None
    else Some([(i0.value * 4 + i1.value / 16) as char,
               ((i1.value % 16) * 16 + i2.value / 4) as char,
               ((i2.value % 4) * 64 + i3.value) as char])
  }

  /** The final group, which may end in one or two padding characters. */
  function DecodeLastGroup(c0: char, c1: char, c2: char, c3: char): Option<string> {
    var i0, i1, i2 := AlphabetIndex(c0), AlphabetIndex(c1), AlphabetIndex(c2);
    if c2 == '=' && c3 == '=' then
      if i0.None? || i1.None? then None
      else Some([(i0.value * 4 + i1.value / 16) as char])
    else if c3 == '=' then
      if i0.None? || i1.None? || i2.None? then None
      else Some([(i0.value * 4 + i1.value / 16) as char, ((i1.value % 16) * 16 + i2.value / 4) as char])
    else DecodeGroup(c0, c1, c2, c3)
  }

  /** base64.decode of a padded text; None where decoding fails. */
  function Decode(s: string): Option<string>
    decreases |s|
  {
    if |s| == 0 then Some("")
    else if |s| < 4 then None
    else if |s| == 4 then DecodeLastGroup(s[0], s[1], s[2], s[3])
    else
      match DecodeGroup(s[0], s[1], s[2], s[3])
      case None => None
      case Some(g) =>
        match Decode(s[4..])
        case None => None
        case Some(t) => Some(g + t)
  }

  /** Like the `base-64` package, decoding ignores the unused low bits of a final group. */
  lemma DecodeIgnoresUnusedBits()
    ensures Decode("QR==") == Decode("QQ==") == Some("A")
  {
    assert AlphabetIndex('Q') == Some(16) && AlphabetIndex('R') == Some(17);
  }

  lemma DivMod16(a: nat, t: nat)
    requires t < 16
    ensures (a * 16 + t) / 16 == a && (a * 16 + t) % 16 == t
  {
  }

  lemma DivMod4(a: nat, t: nat)
    requires t < 4
    ensures (a * 4 + t) / 4 == a && (a * 4 + t) % 4 == t
  {
  }

  /** The six-bit slices of three octets put back together give the octets. */
  lemma Sextets(b0: nat, b1: nat, b2: nat, i0: nat, i1: nat, i2: nat, i3: nat)
    requires b0 < 256 && b1 < 256 && b2 < 256
    requires i0 == b0 / 4 && i1 == (b0 % 4) * 16 + b1 / 16 && i2 == (b1 % 16) * 4 + b2 / 64 && i3 == b2 % 64
    ensures i0 < 64 && i1 < 64 && i2 < 64 && i3 < 64
    ensures i0 * 4 + i1 / 16 == b0 && (i1 % 16) * 16 + i2 / 4 == b1 && (i2 % 4) * 64 + i3 == b2
  {
    DivMod16(b0 % 4, b1 / 16);
    DivMod4(b1 % 16, b2 / 64);
  }

  lemma DecodeEncodeGroup(b0: nat, b1: nat, b2: nat)
    requires b0 < 256 && b1 < 256 && b2 < 256
    ensures var g := EncodeGroup(b0, b1, b2);
      DecodeGroup(g[0], g[1], g[2], g[3]) == Some([b0 as char, b1 as char, b2 as char])
  {
    var i0, i1, i2, i3 := b0 / 4, (b0 % 4) * 16 + b1 / 16, (b1 % 16) * 4 + b2 / 64, b2 % 64;
    Sextets(b0, b1, b2, i0, i1, i2, i3);
    AlphabetIndexOf(i0);
    AlphabetIndexOf(i1);
    AlphabetIndexOf(i2);
    AlphabetIndexOf(i3);
  }

  lemma DecodeEncodeOne(s: string)
    requires IsLatin1(s) && |s| == 1
    ensures Decode(EncodeLatin1(s)) == Some(s)
  {
    var b0 := s[0] as int;
    var i0, i1 := b0 / 4, (b0 % 4) * 16;
    Sextets(b0, 0, 0, i0, i1, 0, 0);
    AlphabetIndexOf(i0);
    AlphabetIndexOf(i1);
    var e := EncodeLatin1(s);
    assert e == [Alphabet(i0), Alphabet(i1), '=', '='];
    assert DecodeLastGroup(e[0], e[1], e[2], e[3]) == Some([b0 as char]);
    assert s == [b0 as char];
  }

  lemma DecodeEncodeTwo(s: string)
    requires IsLatin1(s) && |s| == 2
    ensures Decode(EncodeLatin1(s)) == Some(s)
  {
    var b0, b1 := s[0] as int, s[1] as int;
    var i0, i1, i2 := b0 / 4, (b0 % 4) * 16 + b1 / 16, (b1 % 16) * 4;
    Sextets(b0, b1, 0, i0, i1, i2, 0);
    AlphabetIndexOf(i0);
    AlphabetIndexOf(i1);
    AlphabetIndexOf(i2);
    var e := EncodeLatin1(s);
    assert e == [Alphabet(i0), Alphabet(i1), Alphabet(i2), '='];
    assert DecodeLastGroup(e[0], e[1], e[2], e[3]) == Some([b0 as char, b1 as char]);
    assert s == [b0 as char, b1 as char];
  }

  lemma DecodeGroupThenRest(e: string, g: string, t: string)
    requires |e| > 4 && DecodeGroup(e[0], e[1], e[2], e[3]) == Some(g) && Decode(e[4..]) == Some(t)
    ensures Decode(e) == Some(g + t)
  {
  }

  lemma EncodeHeadShape(s: string)
    requires IsLatin1(s) && |s| >= 3
    ensures EncodeLatin1(s) == EncodeGroup(s[0] as int, s[1] as int, s[2] as int) + EncodeLatin1(s[3..])
  {
  }

  lemma DecodeGroupPrefix(g: string, rest: string, b0: nat, b1: nat, b2: nat)
    requires b0 < 256 && b1 < 256 && b2 < 256 && g == EncodeGroup(b0, b1, b2)
    ensures var e := g + rest; DecodeGroup(e[0], e[1], e[2], e[3]) == Some([b0 as char, b1 as char, b2 as char])
  {
    DecodeEncodeGroup(b0, b1, b2);
  }

  /** The first group of an encoding decodes to the first three characters. */
  lemma DecodeHead(s: string)
    requires IsLatin1(s) && |s| >= 3
    ensures var e := EncodeLatin1(s);
      e == EncodeGroup(s[0] as int, s[1] as int, s[2] as int) + EncodeLatin1(s[3..])
      && DecodeGroup(e[0], e[1], e[2], e[3]) == Some(s[..3])
  {
    var b0, b1, b2 := s[0] as int, s[1] as int, s[2] as int;
    EncodeHeadShape(s);
    DecodeGroupPrefix(EncodeGroup(b0, b1, b2), EncodeLatin1(s[3..]), b0, b1, b2);
    assert s[..3] == [b0 as char, b1 as char, b2 as char];
  }

  /** Decoding undoes encoding on every octet text. */
  lemma {:induction false} DecodeEncode(s: string)
    requires IsLatin1(s)
    ensures Decode(EncodeLatin1(s)) == Some(s)
    decreases |s|
  {
    if |s| == 1 {
      DecodeEncodeOne(s);
    } else if |s| == 2 {
      DecodeEncodeTwo(s);
    } else if |s| >= 3 {
      var e := EncodeLatin1(s);
      DecodeHead(s);
      if |s| == 3 {
        assert s[..3] == s;
        assert |e| == 4;
      } else {
        var rest := EncodeLatin1(s[3..]);
        assert e[4..] == rest;
        DecodeEncode(s[3..]);
        DecodeGroupThenRest(e, s[..3], s[3..]);
        assert s == s[..3] + s[3..];
      }
    }
  }
}
