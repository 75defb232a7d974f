/** URL encoding and decoding of src/string_util.cpp (percent-encoding, section 2.1 of RFC 3986). */
module PercentCoding {
  import opened Bytes

  /** The bytes left as they are; the slash only in paths, not when signing. */
  predicate Plain(c: Byte, keepSlash: bool) {
    || (c == SLASH && keepSlash)
    || c == 0x2E || c == 0x2D || c == 0x5F || c == 0x7E
    || IsLower(c) || IsUpper(c) || IsDigit(c)
  }

  function HexDigit(d: Byte): Byte
    requires d < 16
  {
    if d < 10 then 0x30 + d else 0x37 + d
  }

  /** The unreserved characters of RFC 3986 (section 2.3) stay, and in paths the slash. */
  lemma PlainIs(c: Byte, keepSlash: bool)
    ensures Plain(c, keepSlash)
      <==> (Code('A') <= c <= Code('Z') || Code('a') <= c <= Code('z') || Code('0') <= c <= Code('9')
        || c == Code('-') || c == Code('.') || c == Code('_') || c == Code('~') || (keepSlash && c == Code('/')))
  {
    RangesAre();
    hide Code;
  }

  /** Hexadecimal digits are in upper case. */
  lemma HexDigitIs(d: Byte)
    requires d < 16
    ensures d < 10 ==> HexDigit(d) == Code('0') + d
    ensures 10 <= d ==> HexDigit(d) == Code('A') + (d - 10)
  {
    RangesAre();
    hide Code;
  }

  function EncodeByte(c: Byte, keepSlash: bool): Text {
    if Plain(c, keepSlash) then [c] else [PERCENT, HexDigit(c / 16), HexDigit(c % 16)]
  }

  function Encode(s: Text, keepSlash: bool): Text {
    if s == [] then [] else Encode(s[..|s| - 1], keepSlash) + EncodeByte(s[|s| - 1], keepSlash)
  }

  /** urlEncode and, without keepSlash, urlEncodeForSign. */
  method UrlEncode(s: Text, keepSlash: bool) returns (result: Text)
    ensures result == Encode(s, keepSlash)
  {
    result := [];
    for i := 0 to |s|
      invariant result == Encode(s[..i], keepSlash)
    {
      var c := s[i];
      assert s[..i + 1][..i] == s[..i];
      if Plain(c, keepSlash) {
        result := result + [c];
      } else {
        result := result + [PERCENT, HexDigit(c / 16), HexDigit(c % 16)];
      }
    }
    assert s[..|s|] == s;
  }

  /** Anything but a hexadecimal digit counts as zero. */
  function HexValue(c: Byte): Byte {
    if IsDigit(c) then c - 0x30
    else if 0x41 <= c <= 0x46 then c - 0x41 + 0x0A
    else if 0x61 <= c <= 0x66 then c - 0x61 + 0x0A
    else 0
  }

  /** A percent sign too close to the end drops the rest. */
  function Decode(s: Text): Text {
    if s == [] then []
    else if s[0] != PERCENT then [s[0]] + Decode(s[1..])
    else if |s| < 3 then []
    else [HexValue(s[1]) * 16 + HexValue(s[2])] + Decode(s[3..])
  }

  /** What one step of decoding at position i leaves to do. */
  lemma DecodeStep(s: Text, i: nat)
    requires i < |s|
    ensures s[i] != PERCENT ==> Decode(s[i..]) == [s[i]] + Decode(s[i + 1..])
    ensures s[i] == PERCENT && |s| <= i + 2 ==> Decode(s[i..]) == []
    ensures s[i] == PERCENT && i + 2 < |s| ==>
      Decode(s[i..]) == [HexValue(s[i + 1]) * 16 + HexValue(s[i + 2])] + Decode(s[i + 3..])
  {
    hide HexValue;
    var t := s[i..];
    assert t[0] == s[i];
    if s[i] != PERCENT {
      assert t[1..] == s[i + 1..];
    } else if i + 2 < |s| {
      assert t[1] == s[i + 1] && t[2] == s[i + 2] && t[3..] == s[i + 3..];
    }
  }

  lemma DecodeNone(s: Text)
    ensures Decode(s[|s|..]) == [] && s[0..] == s
  {
  }

  method UrlDecode(s: Text) returns (result: Text)
    ensures result == Decode(s)
  {
    hide HexValue, Decode;
    DecodeNone(s);
    result := [];
    var i := 0;
    while i < |s|
      invariant i <= |s|
      invariant result + Decode(s[i..]) == Decode(s)
    {
      DecodeStep(s, i);
      if s[i] != PERCENT {
        result := result + [s[i]];
      } else {
        i := i + 1;
        if |s| <= i {
          break;
        }
        var ch := HexValue(s[i]);
        i := i + 1;
        if |s| <= i {
          break;
        }
        ch := ch * 16;
        ch := ch + HexValue(s[i]);
        result := result + [ch];
      }
      i := i + 1;
    }
  }

  lemma HexRoundTrip(c: Byte)
    ensures HexValue(HexDigit(c / 16)) * 16 + HexValue(HexDigit(c % 16)) == c
  {
  }

  lemma {:induction false} DecodeAfterPlain(s: Text, c: Byte, t: Text, keepSlash: bool)
    requires s == EncodeByte(c, keepSlash) + t
    ensures Decode(s) == [c] + Decode(t)
  {
    HexRoundTrip(c);
    if Plain(c, keepSlash) {
      assert s[1..] == t;
    } else {
      assert s[3..] == t;
    }
  }

  lemma {:induction false} EncodeConcat(a: Text, b: Text, keepSlash: bool)
    ensures Encode(a + b, keepSlash) == Encode(a, keepSlash) + Encode(b, keepSlash)
  {
    hide EncodeByte;
    if b == [] {
      assert a + b == a;
    } else {
      var n := |b| - 1;
      assert (a + b)[..|a| + n] == a + b[..n];
      EncodeConcat(a, b[..n], keepSlash);
    }
  }

  /** The text of one byte: itself if it is plain, else a percent sign and two digits. */
  ghost predicate IsTextOf(text: Text, c: Byte, keepSlash: bool) {
    if Plain(c, keepSlash) then text == [c]
    else |text| == 3 && text[0] == Code('%') && text[1] == HexDigit(c / 16) && text[2] == HexDigit(c % 16)
  }

  lemma OneText(c: Byte, keepSlash: bool)
    ensures Encode([c], keepSlash) == EncodeByte(c, keepSlash) && IsTextOf(EncodeByte(c, keepSlash), c, keepSlash)
  {
    CodesAre();
    assert [c][..0] == [];
    assert Encode([], keepSlash) == [];
  }

  /** Byte i of the input is encoded behind the encoding of the bytes before it. */
  lemma EncodedAt(s: Text, i: nat, keepSlash: bool)
    requires i < |s|
    ensures
      var before, after := Encode(s[..i], keepSlash), Encode(s[i + 1..], keepSlash);
      exists text :: IsTextOf(text, s[i], keepSlash) && Encode(s, keepSlash) == before + text + after
  {
    var before, after := Encode(s[..i], keepSlash), Encode(s[i + 1..], keepSlash);
    assert s == s[..i] + [s[i]] + s[i + 1..];
    OneText(s[i], keepSlash);
    hide Encode, EncodeByte, IsTextOf;
    EncodeConcat(s[..i] + [s[i]], s[i + 1..], keepSlash);
    EncodeConcat(s[..i], [s[i]], keepSlash);
  }

  /** A hexadecimal digit in any case has its value, and any other character counts as zero. */
  lemma HexValueIs(c: Byte)
    ensures Code('0') <= c <= Code('9') ==> Code('0') + HexValue(c) == c
    ensures Code('A') <= c <= Code('F') ==> Code('A') + HexValue(c) == c + 10
    ensures Code('a') <= c <= Code('f') ==> Code('a') + HexValue(c) == c + 10
    ensures !(Code('0') <= c <= Code('9') || Code('A') <= c <= Code('F') || Code('a') <= c <= Code('f')) ==>
      HexValue(c) == 0
  {
    RangesAre();
    hide Code;
  }

  /** Decoding inverts encoding for every byte string. */
  lemma {:induction false} DecodeEncode(s: Text, keepSlash: bool)
    ensures Decode(Encode(s, keepSlash)) == s
  {
    if s != [] {
      DecodeEncode(s[1..], keepSlash);
      assert s == [s[0]] + s[1..];
      EncodeConcat([s[0]], s[1..], keepSlash);
      assert [s[0]][..0] == [];
      assert Encode([s[0]], keepSlash) == EncodeByte(s[0], keepSlash);
      DecodeAfterPlain(Encode(s, keepSlash), s[0], Encode(s[1..], keepSlash), keepSlash);
    }
  }
}
