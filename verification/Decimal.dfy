/** Number text of src/string_util.cpp: decimal printing and s3fs_strtoofft. */
module Decimal {

  const NUL: char := '\0'

  /** isspace in the C locale. */
  predicate IsSpace(c: char) {
    c == ' ' || 9 <= c as int <= 13
  }

  function DigitChar(d: nat): (c: char)
    requires d < 10
  {
    ('0' as int + d) as char
  }

  /** What operator<< prints for a non-negative number. */
  function Print(n: nat): string {
    if n < 10 then [DigitChar(n)] else Print(n / 10) + [DigitChar(n % 10)]
  }

  /**
   The digit test of the source accepts every character from '0' upwards,
   letters included; plain char is signed, so codes from 128 are below '0'.
   */
  predicate Accepted(c: char) {
    '0' <= c && c as int < 128
  }

  /** Value of the characters up to the terminating NUL, or 0 at the first unaccepted one. */
  function Digits(s: string, base: nat, acc: nat): nat {
    if s == [] || s[0] == NUL then acc
    else if !Accepted(s[0]) then 0
    else Digits(s[1..], base, acc * base + (s[0] as int - '0' as int))
  }

  function SkipSpaces(s: string): string {
    if s != [] && IsSpace(s[0]) then SkipSpaces(s[1..]) else s
  }

  predicate HasHexPrefix(s: string) {
    2 <= |s| && s[0] == '0' && (s[1] == 'x' || s[1] == 'X')
  }

  /** The number s3fs_strtoofft reads from a string. */
  function Value(s: string, isBase16: bool): nat {
    var t := SkipSpaces(s);
    if HasHexPrefix(t) then Digits(t[2..], 16, 0) else Digits(t, if isBase16 then 16 else 10, 0)
  }

  method StrToOffset(str: string, isBase16: bool) returns (result: nat)
    ensures result == Value(str, isBase16)
  {
    if str == [] || str[0] == NUL {
      return 0;
    }
    var base16 := isBase16;
    var chkSpace, chkPrefix := false, false;
    result := 0;
    var i := 0;
    while i < |str| && str[i] != NUL
      invariant i <= |str|
      invariant !chkSpace ==> result == 0 && !chkPrefix && SkipSpaces(str[i..]) == SkipSpaces(str)
      invariant !chkSpace ==> base16 == isBase16 && Value(str[i..], isBase16) == Value(str, isBase16)
      invariant chkSpace ==> chkPrefix && Digits(str[i..], if base16 then 16 else 10, result) == Value(str, isBase16)
    {
      var c := str[i];
      if !chkSpace && IsSpace(c) {
        i := i + 1;
        continue;
      } else if !chkSpace {
        chkSpace := true;
      }
      if !chkPrefix {
        chkPrefix := true;
        if '0' == c && i + 1 < |str| && (str[i + 1] == 'x' || str[i + 1] == 'X') {
          base16 := true;
          i := i + 2;
          assert str[i - 2..][2..] == str[i..];
          continue;
        }
      }
      assert str[i..][0] == c && str[i..][1..] == str[i + 1..];
      assert Digits(str[i..], if base16 then 16 else 10, result) == Value(str, isBase16);
      result := result * (if base16 then 16 else 10);
      if '0' <= c && c as int < 128 {
        result := result + (c as int - '0' as int);
      } else {
        return 0;
      }
      i := i + 1;
    }
  }

  // ---------- decimal round trip ----------

  predicate AllDigits(s: string) {
    forall i :: 0 <= i < |s| ==> '0' <= s[i] <= '9'
  }

  lemma {:induction false} PrintIsDigits(n: nat)
    ensures Print(n) != [] && AllDigits(Print(n))
  {
    if 10 <= n {
      PrintIsDigits(n / 10);
    }
  }

  lemma {:induction false} DigitsSnoc(s: string, c: char, acc: nat)
    requires AllDigits(s) && '0' <= c <= '9'
    ensures Digits(s + [c], 10, acc) == Digits(s, 10, acc) * 10 + (c as int - '0' as int)
  {
    if s == [] {
      assert Digits([c][1..], 10, acc * 10 + (c as int - '0' as int)) == acc * 10 + (c as int - '0' as int);
    } else {
      assert (s + [c])[1..] == s[1..] + [c];
      DigitsSnoc(s[1..], c, acc * 10 + (s[0] as int - '0' as int));
    }
  }

  lemma {:induction false} DigitsOfPrint(n: nat)
    ensures Digits(Print(n), 10, 0) == n
  {
    PrintIsDigits(n);
    if n < 10 {
      assert Digits([], 10, n) == n;
    } else {
      DigitsOfPrint(n / 10);
      PrintIsDigits(n / 10);
      DigitsSnoc(Print(n / 10), DigitChar(n % 10), 0);
    }
  }

  /** s3fs_strtoofft inverts decimal printing for every non-negative number. */
  lemma ValueOfPrint(n: nat)
    ensures Value(Print(n), false) == n
  {
    PrintIsDigits(n);
    DigitsOfPrint(n);
  }

  /** Leading blanks, tabs and line breaks of any kind are skipped. */
  lemma {:induction false} BlanksSkipped(blanks: string, s: string)
    requires forall i :: 0 <= i < |blanks| ==> blanks[i] in [' ', '\t', '\n', '\U{0B}', '\U{0C}', '\r']
    ensures SkipSpaces(blanks + s) == SkipSpaces(s)
    ensures Value(blanks + s, false) == Value(s, false) && Value(blanks + s, true) == Value(s, true)
  {
    if blanks != [] {
      assert (blanks + s)[1..] == blanks[1..] + s;
      BlanksSkipped(blanks[1..], s);
    } else {
      assert blanks + s == s;
    }
  }

  /** No other character is skipped. */
  lemma NothingElseSkipped(s: string)
    requires s != [] && s[0] !in [' ', '\t', '\n', '\U{0B}', '\U{0C}', '\r']
    ensures SkipSpaces(s) == s
  {
  }

  // ---------- hexadecimal text ----------

  predicate IsHexLetter(c: char) {
    'a' <= c <= 'f' || 'A' <= c <= 'F'
  }

  predicate AllHex(s: string) {
    forall i :: 0 <= i < |s| ==> '0' <= s[i] <= '9' || IsHexLetter(s[i])
  }

  function HexDigit(c: char): nat
    requires '0' <= c <= '9' || IsHexLetter(c)
  {
    if c <= '9' then c as int - '0' as int
    else if c <= 'F' then c as int - 'A' as int + 10
    else c as int - 'a' as int + 10
  }

  /** The number a string of hexadecimal digits denotes. */
  function HexValue(s: string, acc: nat): nat
    requires AllHex(s)
  {
    if s == [] then acc else HexValue(s[1..], acc * 16 + HexDigit(s[0]))
  }

  lemma {:induction false} DigitsAboveHex(s: string, read: nat, meant: nat)
    requires AllHex(s) && meant <= read
    ensures HexValue(s, meant) <= Digits(s, 16, read)
    ensures HexValue(s, meant) == Digits(s, 16, read) <==> meant == read && AllDigits(s)
  {
    if s != [] {
      DigitsAboveHex(s[1..], read * 16 + (s[0] as int - '0' as int), meant * 16 + HexDigit(s[0]));
      assert AllDigits(s) <==> '0' <= s[0] <= '9' && AllDigits(s[1..]);
    }
  }

  /**
   Hexadecimal text is read correctly exactly if it has no letter digits: the
   digit test takes letters before the branch meant for them.
   */
  lemma HexReadCorrectly(s: string)
    requires AllHex(s)
    ensures Value("0x" + s, false) == HexValue(s, 0) <==> AllDigits(s)
  {
    DigitsAboveHex(s, 0, 0);
    assert ("0x" + s)[2..] == s;
  }

  lemma HexLetterMisread()
    ensures Value("0xA", false) == 17
  {
    assert SkipSpaces("0xA") == "0xA";
    assert "0xA"[2..] == "A";
    assert Digits("A", 16, 0) == Digits("A"[1..], 16, 17) == 17;
  }
}
