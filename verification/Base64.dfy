/** s3fs_base64 and s3fs_decode64 of src/string_util.cpp (base64, section 4 of RFC 4648). */
module Base64 {
  import opened Bytes
  import opened Fields
  import opened Ints
  import opened Wrappers

  /** The 65 characters of the table; 64 is the padding. */
  function Letter(v: Byte): Byte
    requires v <= 64
  {
    if v < 26 then 0x41 + v
    else if v < 52 then 0x61 + (v - 26)
    else if v < 62 then 0x30 + (v - 52)
    else if v == 62 then PLUS
    else if v == 63 then SLASH
    else EQUALS
  }

  function CharDecode64(ch: Byte): Byte {
    if IsUpper(ch) then ch - 0x41
    else if IsLower(ch) then ch - 0x61 + 26
    else if IsDigit(ch) then ch - 0x30 + 52
    else if ch == PLUS then 62
    else if ch == SLASH then 63
    else if ch == EQUALS then 64
    else 255
  }

  /** The table of RFC 4648 (table 1), with the padding at the end. */
  lemma LetterTable(v: Byte)
    requires v <= 64
    ensures v <= 25 ==> Letter(v) == Code('A') + v
    ensures 26 <= v <= 51 ==> Letter(v) + 26 == Code('a') + v
    ensures 52 <= v <= 61 ==> Letter(v) + 52 == Code('0') + v
    ensures v == 62 ==> Letter(v) == Code('+')
    ensures v == 63 ==> Letter(v) == Code('/')
    ensures v == 64 ==> Letter(v) == Code('=')
  {
  }

  /** A character decodes to the value it is the letter of, or to none at all. */
  lemma DecodedLetter(ch: Byte)
    ensures CharDecode64(ch) <= 64 ==> Letter(CharDecode64(ch)) == ch
    ensures 64 < CharDecode64(ch) ==> CharDecode64(ch) == 255
  {
  }

  lemma LetterRoundTrip(v: Byte)
    requires v <= 64
    ensures CharDecode64(Letter(v)) == v
  {
  }

  // ---------- encoding ----------

  /** Byte i of the input, or zero past its end. */
  function ByteOr0(s: Text, i: nat): Byte {
    if i < |s| then s[i] else 0
  }

  function Part0(a: Byte): Byte {
    (a & 0xFC) >> 2
  }

  function Part1(a: Byte, b: Byte): Byte {
    ((a & 0x03) << 4) | ((b & 0xF0) >> 4)
  }

  function Part2(b: Byte, c: Byte): Byte {
    ((b & 0x0F) << 2) | ((c & 0xC0) >> 6)
  }

  function Part3(c: Byte): Byte {
    c & 0x3F
  }

  lemma PartsInRange(a: Byte, b: Byte, c: Byte)
    ensures Part0(a) < 64 && Part1(a, b) < 64 && Part2(b, c) < 64 && Part3(c) < 64
  {
  }

  /** The four characters for the first one to three bytes of the input. */
  function Group(s: Text): (r: Text)
    requires s != []
    ensures |r| == 4
  {
    var a, b, c := s[0], ByteOr0(s, 1), ByteOr0(s, 2);
    PartsInRange(a, b, c);
    [Letter(Part0(a)), Letter(Part1(a, b)),
     Letter(if 1 < |s| then Part2(b, c) else 64), Letter(if 2 < |s| then Part3(c) else 64)]
  }

  function Encode(s: Text): Text {
    if s == [] then [] else Group(s) + Encode(s[Min(3, |s|)..])
  }

  lemma {:induction false} EncodeLength(s: Text)
    ensures |Encode(s)| == (|s| + 2) / 3 * 4
  {
    if s != [] {
      EncodeLength(s[Min(3, |s|)..]);
    }
  }

  /** The 24 bits of a group of three bytes, missing ones being zero. */
  function Bits24(s: Text, g: nat): bv24
    requires 3 * g < |s|
  {
    (s[3 * g] as bv24 << 16) | (ByteOr0(s, 3 * g + 1) as bv24 << 8) | (ByteOr0(s, 3 * g + 2) as bv24)
  }

  /** A letter stands for six of 24 bits, from the j-th sextet on. */
  predicate StandsFor(letter: Byte, bits: bv24, j: nat)
    requires j < 4
  {
    var v := ((if j == 0 then bits >> 18 else if j == 1 then bits >> 12 else if j == 2 then bits >> 6 else bits) & 0x3F)
      as Byte;
    v < 64 && letter == Letter(v)
  }

  lemma SextetsAre(a: Byte, b: Byte, c: Byte)
    ensures
      var bits := (a as bv24 << 16) | (b as bv24 << 8) | (c as bv24);
      && Part0(a) == ((bits >> 18) & 0x3F) as Byte && Part1(a, b) == ((bits >> 12) & 0x3F) as Byte
      && Part2(b, c) == ((bits >> 6) & 0x3F) as Byte && Part3(c) == (bits & 0x3F) as Byte
  {
  }

  lemma GroupStandsFor(s: Text)
    requires s != []
    ensures StandsFor(Group(s)[0], Bits24(s, 0), 0) && StandsFor(Group(s)[1], Bits24(s, 0), 1)
    ensures if 1 < |s| then StandsFor(Group(s)[2], Bits24(s, 0), 2) else Group(s)[2] == Code('=')
    ensures if 2 < |s| then StandsFor(Group(s)[3], Bits24(s, 0), 3) else Group(s)[3] == Code('=')
  {
    var a, b, c := s[0], ByteOr0(s, 1), ByteOr0(s, 2);
    PartsInRange(a, b, c);
    SextetsAre(a, b, c);
    LetterTable(64);
    hide Part0, Part1, Part2, Part3;
  }

  /** Character j of group g: its six bits of the group's three bytes, or padding (section 4 of RFC 4648). */
  lemma {:induction false} EncodedAt(s: Text, g: nat, j: nat)
    requires 3 * g < |s| && j < 4
    ensures 4 * g + j < |Encode(s)|
    ensures 3 * g + j <= |s| ==> StandsFor(Encode(s)[4 * g + j], Bits24(s, g), j)
    ensures |s| < 3 * g + j ==> Encode(s)[4 * g + j] == Code('=')
  {
    GroupStandsFor(s);
    var rest := s[Min(3, |s|)..];
    assert Encode(s) == Group(s) + Encode(rest);
    hide Group, Encode, StandsFor, Bits24;
    if 0 < g {
      EncodedAt(rest, g - 1, j);
      SameBits(s, g);
    }
  }

  lemma SameBits(s: Text, g: nat)
    requires 0 < g && 3 * g < |s|
    ensures Bits24(s[3..], g - 1) == Bits24(s, g)
  {
    assert forall i :: 0 <= i < |s| - 3 ==> s[3..][i] == s[i + 3];
  }

  /** Stores bytes into the buffer, one after the other. */
  method Put(buffer: array<Byte>, pos: nat, bytes: Text)
    requires pos + |bytes| <= buffer.Length
    modifies buffer
    ensures buffer[..pos + |bytes|] == old(buffer[..pos]) + bytes
  {
    for i := 0 to |bytes|
      invariant buffer[..pos + i] == old(buffer[..pos]) + bytes[..i]
    {
      buffer[pos + i] := bytes[i];
    }
    assert bytes[..|bytes|] == bytes;
  }

  /**
   The encoding loop writes into a buffer of (length / 3 + 1) * 4 + 1 bytes, which
   is always large enough; an empty input gives no buffer.
   */
  method S3fsBase64(input: Text) returns (text: Option<Text>)
    ensures input == [] ==> text == None
    ensures input != [] ==> text == Some(Encode(input))
  {
    if 0 >= |input| {
      return None;
    }
    EncodeStart(input);
    hide Letter, Part0, Part1, Part2, Part3, Encode, Group, ByteOr0, EncodedUpTo;
    var result := new Byte[(|input| / 3 + 1) * 4 + 1];
    var rpos, wpos := 0, 0;
    ghost var groups, out: Text := 0, [];
    while rpos < |input|
      invariant 0 <= rpos == 3 * groups <= |input| + 2 && wpos == 4 * groups < result.Length
      invariant result[..wpos] == out
      invariant EncodedUpTo(out, input, rpos)
    {
      EncodeStep(out, input, rpos);
      PutLetters(result, wpos, input, rpos);
      out := out + Group(input[rpos..]);
      wpos := wpos + 4;
      rpos := rpos + 3;
      groups := groups + 1;
    }
    EncodeNothing(out, input, rpos);
    Put(result, wpos, [NUL]);
    assert result[..wpos] == result[..wpos + 1][..wpos];
    return Some(result[..wpos]);
  }

  /** The body of the encoding loop: the four letters for up to three bytes. */
  method PutLetters(buffer: array<Byte>, wpos: nat, input: Text, rpos: nat)
    requires rpos < |input| && wpos + 4 <= buffer.Length
    modifies buffer
    ensures buffer[..wpos + 4] == old(buffer[..wpos]) + Group(input[rpos..])
  {
    hide Letter, Part0, Part1, Part2, Part3, Group, ByteOr0;
    var a := input[rpos];
    var b := if rpos + 1 < |input| then input[rpos + 1] else 0;
    var c := if rpos + 2 < |input| then input[rpos + 2] else 0;
    PartsInRange(a, b, c);
    var part2 := if rpos + 1 < |input| then Part2(b, c) else 64;
    var part3 := if rpos + 2 < |input| then Part3(c) else 64;
    GroupAt(input, rpos);
    Put(buffer, wpos, [Letter(Part0(a)), Letter(Part1(a, b)), Letter(part2), Letter(part3)]);
  }

  lemma GroupAt(input: Text, rpos: nat)
    requires rpos < |input|
    ensures
      var a, b, c := input[rpos], ByteOr0(input, rpos + 1), ByteOr0(input, rpos + 2);
      && b == (if rpos + 1 < |input| then input[rpos + 1] else 0)
      && c == (if rpos + 2 < |input| then input[rpos + 2] else 0)
      && Part0(a) < 64 && Part1(a, b) < 64 && Part2(b, c) < 64 && Part3(c) < 64
      && Group(input[rpos..])
         == [Letter(Part0(a)), Letter(Part1(a, b)), Letter(if rpos + 1 < |input| then Part2(b, c) else 64),
             Letter(if rpos + 2 < |input| then Part3(c) else 64)]
  {
    PartsInRange(input[rpos], ByteOr0(input, rpos + 1), ByteOr0(input, rpos + 2));
    hide Letter, Part0, Part1, Part2, Part3;
    assert input[rpos..][0] == input[rpos];
    assert ByteOr0(input[rpos..], 1) == ByteOr0(input, rpos + 1);
    assert ByteOr0(input[rpos..], 2) == ByteOr0(input, rpos + 2);
  }

  /** The groups before a position are written. */
  ghost predicate EncodedUpTo(out: Text, input: Text, rpos: nat) {
    out + Encode(input[Min(rpos, |input|)..]) == Encode(input)
  }

  lemma EncodeStart(input: Text)
    ensures EncodedUpTo([], input, 0)
  {
    assert input[0..] == input;
  }

  lemma EncodeStep(out: Text, input: Text, rpos: nat)
    requires rpos < |input| && EncodedUpTo(out, input, rpos)
    ensures EncodedUpTo(out + Group(input[rpos..]), input, rpos + 3)
  {
    hide Group;
    var rest := input[rpos..];
    assert rest[Min(3, |rest|)..] == input[Min(rpos + 3, |input|)..];
  }

  lemma EncodeNothing(out: Text, input: Text, rpos: nat)
    requires |input| <= rpos && EncodedUpTo(out, input, rpos)
    ensures out == Encode(input)
  {
    assert input[|input|..] == [];
  }

  // ---------- decoding ----------

  /** Character i decoded, or padding past the end. */
  function PartOr64(s: Text, i: nat): Byte {
    if i < |s| then CharDecode64(s[i]) else 64
  }

  function Byte0(p: Byte, q: Byte): Byte {
    ((p << 2) & 0xFC) | ((q >> 4) & 0x03)
  }

  function Byte1(q: Byte, r: Byte): Byte {
    ((q << 4) & 0xF0) | ((r >> 2) & 0x0F)
  }

  function Byte2(r: Byte, t: Byte): Byte {
    ((r << 6) & 0xC0) | (t & 0x3F)
  }

  /** Only the low six bits of a value count, so that a character outside the table counts like the last letter. */
  lemma SixBits(p: Byte, q: Byte, r: Byte, t: Byte)
    ensures Byte0(p, q) == Byte0(p & 0x3F, q & 0x3F)
    ensures Byte1(q, r) == Byte1(q & 0x3F, r & 0x3F)
    ensures Byte2(r, t) == Byte2(r & 0x3F, t & 0x3F)
    ensures
      (((p as bv24) & 0x3F) << 18) | (((q as bv24) & 0x3F) << 12) | (((r as bv24) & 0x3F) << 6) | ((t as bv24) & 0x3F)
      == ((Byte0(p, q) as bv24) << 16) | ((Byte1(q, r) as bv24) << 8) | (Byte2(r, t) as bv24)
  {
  }

  /** The bytes of one group; padding in the third or fourth place leaves one or two. */
  function GroupBytes(p: Byte, q: Byte, r: Byte, t: Byte): Text {
    if r == 64 then [Byte0(p, q)]
    else if t == 64 then [Byte0(p, q), Byte1(q, r)]
    else [Byte0(p, q), Byte1(q, r), Byte2(r, t)]
  }

  /** Decodes groups of four until padding ends the text. */
  function DecodeGroups(s: Text): Text {
    if s == [] then []
    else
      var p, q, r, t := PartOr64(s, 0), PartOr64(s, 1), PartOr64(s, 2), PartOr64(s, 3);
      GroupBytes(p, q, r, t) + (if r == 64 || t == 64 then [] else DecodeGroups(s[Min(4, |s|)..]))
  }

  /** The C string given to s3fs_decode64 ends at the first NUL. */
  function Decode(s: Text): Text {
    DecodeGroups(Field(s, NUL))
  }

  method S3fsDecode64(input: Text) returns (bytes: Text)
    ensures bytes == Decode(input)
  {
    var input := Field(input, NUL);
    if 0 == |input| {
      return [];
    }
    DecodeStart(input);
    hide CharDecode64, GroupBytes, DecodeGroups, DecodedUpTo;
    var result := new Byte[|input| + 1];
    var rpos, wpos := 0, 0;
    ghost var groups, out: Text := 0, [];
    while rpos < |input|
      invariant 0 <= rpos == 4 * groups <= |input| && wpos == 3 * groups
      invariant result[..wpos] == out
      invariant DecodedUpTo(out, input, rpos)
    {
      var p := CharDecode64(input[rpos]);
      var q := if rpos + 1 < |input| then CharDecode64(input[rpos + 1]) else 64;
      var r := if rpos + 2 < |input| then CharDecode64(input[rpos + 2]) else 64;
      var t := if rpos + 3 < |input| then CharDecode64(input[rpos + 3]) else 64;
      DecodeStep(out, input, rpos);
      out := out + GroupBytes(p, q, r, t);
      wpos := PutGroup(result, wpos, p, q, r, t);
      if 64 == r || 64 == t {
        break;
      }
      rpos := rpos + 4;
      groups := groups + 1;
    }
    DecodeNothing(out, input, rpos);
    Put(result, wpos, [NUL]);
    assert result[..wpos] == result[..wpos + 1][..wpos];
    return result[..wpos];
  }

  /** Stores the bytes of one group, stopping at padding. */
  method PutGroup(buffer: array<Byte>, pos: nat, p: Byte, q: Byte, r: Byte, t: Byte) returns (next: nat)
    requires pos + (if r == 64 then 1 else if t == 64 then 2 else 3) <= buffer.Length
    modifies buffer
    ensures next == pos + (if r == 64 then 1 else if t == 64 then 2 else 3)
    ensures buffer[..next] == old(buffer[..pos]) + GroupBytes(p, q, r, t)
  {
    hide Byte0, Byte1, Byte2;
    Put(buffer, pos, [Byte0(p, q)]);
    if 64 == r {
      return pos + 1;
    }
    Put(buffer, pos + 1, [Byte1(q, r)]);
    if 64 == t {
      return pos + 2;
    }
    Put(buffer, pos + 2, [Byte2(r, t)]);
    return pos + 3;
  }

  /** The groups before a position are decoded. */
  ghost predicate DecodedUpTo(out: Text, input: Text, rpos: nat) {
    rpos <= |input| && out + DecodeGroups(input[rpos..]) == DecodeGroups(input)
  }

  lemma DecodeStart(input: Text)
    ensures DecodedUpTo([], input, 0)
  {
    assert input[0..] == input;
  }

  lemma GroupsAt(input: Text, rpos: nat)
    requires rpos < |input|
    ensures
      var p, q := PartOr64(input, rpos), PartOr64(input, rpos + 1);
      var r, t := PartOr64(input, rpos + 2), PartOr64(input, rpos + 3);
      && DecodeGroups(input[rpos..])
         == GroupBytes(p, q, r, t)
          + (if r == 64 || t == 64 then [] else DecodeGroups(input[Min(rpos + 4, |input|)..]))
      && (|input| < rpos + 4 ==> t == 64)
  {
    hide CharDecode64, GroupBytes;
    var rest := input[rpos..];
    assert PartOr64(rest, 0) == PartOr64(input, rpos) && PartOr64(rest, 1) == PartOr64(input, rpos + 1);
    assert PartOr64(rest, 2) == PartOr64(input, rpos + 2) && PartOr64(rest, 3) == PartOr64(input, rpos + 3);
    assert rest[Min(4, |rest|)..] == input[Min(rpos + 4, |input|)..];
  }

  lemma DecodeStep(out: Text, input: Text, rpos: nat)
    requires rpos < |input| && DecodedUpTo(out, input, rpos)
    ensures
      var p, q := PartOr64(input, rpos), PartOr64(input, rpos + 1);
      var r, t := PartOr64(input, rpos + 2), PartOr64(input, rpos + 3);
      var more := out + GroupBytes(p, q, r, t);
      if r == 64 || t == 64 then more == DecodeGroups(input) else DecodedUpTo(more, input, rpos + 4)
  {
    hide PartOr64, GroupBytes, DecodeGroups;
    GroupsAt(input, rpos);
  }

  lemma DecodeNothing(out: Text, input: Text, rpos: nat)
    ensures rpos == |input| && DecodedUpTo(out, input, rpos) ==> out == DecodeGroups(input)
  {
    assert input[|input|..] == [];
  }

  // ---------- round trip ----------

  lemma PartsToBytes(a: Byte, b: Byte, c: Byte)
    ensures Byte0(Part0(a), Part1(a, b)) == a
    ensures Byte1(Part1(a, b), Part2(b, c)) == b
    ensures Byte2(Part2(b, c), Part3(c)) == c
  {
  }

  lemma {:induction false} GroupsRoundTrip(s: Text)
    ensures DecodeGroups(Encode(s)) == s
  {
    if s != [] {
      var a, b, c := s[0], ByteOr0(s, 1), ByteOr0(s, 2);
      var rest := s[Min(3, |s|)..];
      GroupsRoundTrip(rest);
      PartsInRange(a, b, c);
      PartsToBytes(a, b, c);
      LetterRoundTrip(Part0(a));
      LetterRoundTrip(Part1(a, b));
      LetterRoundTrip(Part2(b, c));
      LetterRoundTrip(Part3(c));
      LetterRoundTrip(64);
      assert Encode(s)[4..] == Encode(rest);
    }
  }

  /** The characters that can occur in encoded text. */
  predicate IsLetter(c: Byte) {
    IsUpper(c) || IsLower(c) || IsDigit(c) || c == PLUS || c == SLASH || c == EQUALS
  }

  lemma LetterIsLetter(v: Byte)
    requires v <= 64
    ensures IsLetter(Letter(v))
  {
  }

  lemma GroupLetters(s: Text)
    requires s != []
    ensures forall i :: 0 <= i < 4 ==> IsLetter(Group(s)[i])
  {
    hide IsLetter, Letter;
    var a, b, c := s[0], ByteOr0(s, 1), ByteOr0(s, 2);
    PartsInRange(a, b, c);
    LetterIsLetter(Part0(a));
    LetterIsLetter(Part1(a, b));
    LetterIsLetter(Part2(b, c));
    LetterIsLetter(Part3(c));
    LetterIsLetter(64);
  }

  lemma {:induction false} EncodeLetters(s: Text)
    ensures forall i :: 0 <= i < |Encode(s)| ==> IsLetter(Encode(s)[i])
  {
    if s != [] {
      GroupLetters(s);
      hide Group, IsLetter;
      EncodeLetters(s[Min(3, |s|)..]);
    }
  }

  /** Decoding inverts encoding for every byte string. */
  lemma DecodeEncode(s: Text)
    ensures Decode(Encode(s)) == s
  {
    EncodeLetters(s);
    FieldStops(Encode(s), NUL, []);
    GroupsRoundTrip(s);
  }
}
