/**
 The part number in the address of an upload part: a retry reads it back with get_keyword_value
 of src/string_util.cpp, which looks for the keyword anywhere in the address.
 */
module PartUrls {
  import Decimal
  import opened Fields
  import opened Sequences
  import opened Wrappers

  const PART_NUMBER := "partNumber"
  const UPLOAD_ID := "uploadId"

  /** The text between "keyword=" and the next '&', if the first occurrence of the keyword is followed by '='. */
  function KeywordValue(target: string, keyword: string): Option<string>
    requires 0 <= Find(target, keyword) ==> Find(target, keyword) + |keyword| < |target|
  {
    var pos := Find(target, keyword);
    if pos < 0 then None else ValueAt(target, pos + |keyword|)
  }

  function ValueAt(target: string, spos: nat): Option<string>
    requires spos < |target|
  {
    if target[spos] != '=' then None else Some(Field(target[spos + 1..], '&'))
  }

  /** UploadMultipartPostSetup: the address of a part. */
  function PartUrl(base: string, partNum: nat, uploadId: string): string {
    base + "?partNumber=" + Decimal.Print(partNum) + "&uploadId=" + uploadId
  }

  /** The address cut at its first '?' and at the '&' before the upload id. */
  lemma PartUrlShape(base: string, partNum: nat, uploadId: string)
    ensures PartUrl(base, partNum, uploadId)
         == base + ['?'] + ((PART_NUMBER + "=" + Decimal.Print(partNum)) + ['&'] + (UPLOAD_ID + "=" + uploadId))
  {
    var n := Decimal.Print(partNum);
    assert "?partNumber=" == ['?'] + PART_NUMBER + "=";
    assert "&uploadId=" == ['&'] + UPLOAD_ID + "=";
    hide Decimal.Print;
  }

  /** The front part of an address holds no '=', and a '?' ends it. */
  ghost predicate Splits(url: string, base: string) {
    Lacks(base, '=') && |base| < |url| && url[..|base|] == base && url[|base|] == '?'
  }

  lemma RefusedAt(url: string, base: string, spos: nat)
    requires Splits(url, base) && spos <= |base|
    ensures ValueAt(url, spos) == None
  {
    assert spos < |base| ==> url[..|base|][spos] == url[spos];
  }

  /** A keyword in the front part is found first and refused. */
  lemma ValueRefused(url: string, base: string, keyword: string, pos: nat)
    requires Splits(url, base) && pos + |keyword| <= |base|
    requires pos == Find(url, keyword)
    ensures pos + |keyword| < |url| && KeywordValue(url, keyword) == None
  {
    hide Find, ValueAt, Lacks, Field;
    RefusedAt(url, base, pos + |keyword|);
  }

  lemma ReadAt(url: string, pre: string, keyword: string, rest: string)
    requires url == pre + (keyword + ("=" + rest))
    ensures |pre| + |keyword| < |url| && ValueAt(url, |pre| + |keyword|) == Some(Field(rest, '&'))
  {
    hide Field;
    DropFront(pre, keyword + ("=" + rest), |keyword|);
    DropFront(keyword, "=" + rest, 0);
    DropFront(pre, keyword + ("=" + rest), |keyword| + 1);
    DropLast(keyword, rest);
  }

  lemma DropLast(keyword: string, rest: string)
    ensures (keyword + ("=" + rest))[|keyword| + 1..] == rest
  {
  }

  /** A keyword first found where its value stands is read. */
  lemma ValueRead(url: string, pre: string, keyword: string, value: string, rest: string)
    requires url == pre + (keyword + ("=" + rest)) && Find(url, keyword) == |pre|
    requires Field(rest, '&') == value
    ensures Find(url, keyword) + |keyword| < |url| && KeywordValue(url, keyword) == Some(value)
  {
    hide Find, Field, ValueAt;
    ReadAt(url, pre, keyword, rest);
  }

  lemma DropFront(a: string, b: string, k: nat)
    requires k <= |b|
    ensures (a + b)[|a| + k..] == b[k..] && (k < |b| ==> (a + b)[|a| + k] == b[k])
  {
  }

  lemma {:induction false} DigitsLack(s: string, c: char)
    requires Decimal.AllDigits(s) && !('0' <= c <= '9')
    ensures Lacks(s, c)
  {
  }

  lemma StartsWith(a: string, b: string)
    ensures Find(a + b, a) == 0
  {
    assert (a + b)[..|a|] == a;
  }

  lemma UrlSplits(base: string, rest: string)
    requires Lacks(base, '=')
    ensures Splits(base + ['?'] + rest, base)
  {
  }

  /** A retry reads its part number back, or gives up because the front part holds the keyword. */
  lemma PartNumberReadBack(base: string, partNum: nat, uploadId: string)
    requires Lacks(base, '=')
    ensures
      var url := PartUrl(base, partNum, uploadId);
      && (0 <= Find(url, PART_NUMBER) < |url| - |PART_NUMBER|)
      && (KeywordValue(url, PART_NUMBER)
          == if 0 <= Find(base, PART_NUMBER) then None else Some(Decimal.Print(partNum)))
      && Decimal.Value(Decimal.Print(partNum), false) == partNum
  {
    var n := Decimal.Print(partNum);
    var url := PartUrl(base, partNum, uploadId);
    var a, b := PART_NUMBER + "=" + n, UPLOAD_ID + "=" + uploadId;
    PartUrlShape(base, partNum, uploadId);
    Decimal.ValueOfPrint(partNum);
    Decimal.PrintIsDigits(partNum);
    DigitsLack(n, '&');
    UrlSplits(base, a + ['&'] + b);
    assert '?' !in PART_NUMBER;
    hide PartUrl, Decimal.Print, Decimal.Value, Decimal.AllDigits, Lacks, Splits, Find, Field, KeywordValue;
    if 0 <= Find(base, PART_NUMBER) {
      FindFront(base, ['?'] + (a + ['&'] + b), PART_NUMBER);
      Associative(base, ['?'], a + ['&'] + b);
      ValueRefused(url, base, PART_NUMBER, Find(base, PART_NUMBER));
    } else {
      FindBehind(base, '?', a + ['&'] + b, PART_NUMBER);
      PartFirst(n, b);
      FieldStops(n, '&', b);
      PartTail(base, n, b);
      ValueRead(url, base + ['?'], PART_NUMBER, n, n + ['&'] + b);
    }
  }

  lemma PartFirst(n: string, b: string)
    ensures Find((PART_NUMBER + "=" + n) + ['&'] + b, PART_NUMBER) == 0
  {
    assert (PART_NUMBER + "=" + n) + ['&'] + b == PART_NUMBER + ("=" + n + ['&'] + b);
    StartsWith(PART_NUMBER, "=" + n + ['&'] + b);
  }

  lemma PartTail(base: string, n: string, b: string)
    ensures base + ['?'] + ((PART_NUMBER + "=" + n) + ['&'] + b)
         == (base + ['?']) + (PART_NUMBER + ("=" + (n + ['&'] + b)))
  {
    assert (PART_NUMBER + "=" + n) + ['&'] + b == PART_NUMBER + ("=" + (n + ['&'] + b));
  }

  /** A retry reads the upload id back, or gives up because the front part holds the keyword. */
  lemma UploadIdReadBack(base: string, partNum: nat, uploadId: string)
    requires Lacks(base, '=') && Lacks(uploadId, '&')
    ensures
      var url := PartUrl(base, partNum, uploadId);
      && (0 <= Find(url, UPLOAD_ID) < |url| - |UPLOAD_ID|)
      && KeywordValue(url, UPLOAD_ID) == if 0 <= Find(base, UPLOAD_ID) then None else Some(uploadId)
  {
    var n := Decimal.Print(partNum);
    var url := PartUrl(base, partNum, uploadId);
    var a, b := PART_NUMBER + "=" + n, UPLOAD_ID + "=" + uploadId;
    PartUrlShape(base, partNum, uploadId);
    Decimal.PrintIsDigits(partNum);
    DigitsLack(n, 'l');
    NoUploadId(n);
    UrlSplits(base, a + ['&'] + b);
    assert '?' !in UPLOAD_ID && '&' !in UPLOAD_ID;
    hide PartUrl, Decimal.Print, Decimal.AllDigits, Lacks, Splits, Find, Field, KeywordValue;
    if 0 <= Find(base, UPLOAD_ID) {
      FindFront(base, ['?'] + (a + ['&'] + b), UPLOAD_ID);
      Associative(base, ['?'], a + ['&'] + b);
      ValueRefused(url, base, UPLOAD_ID, Find(base, UPLOAD_ID));
    } else {
      FindBehind(base, '?', a + ['&'] + b, UPLOAD_ID);
      FindBehind(a, '&', b, UPLOAD_ID);
      IdFirst(uploadId);
      FieldStops(uploadId, '&', []);
      IdTail(base, a, uploadId);
      ValueRead(url, base + ['?'] + (a + ['&']), UPLOAD_ID, uploadId, uploadId);
    }
  }

  lemma NoUploadId(n: string)
    requires Lacks(n, 'l')
    ensures Find(PART_NUMBER + "=" + n, UPLOAD_ID) < 0
  {
    assert UPLOAD_ID[2] == 'l';
    assert Lacks(PART_NUMBER + "=" + n, 'l');
    FindLacking(PART_NUMBER + "=" + n, UPLOAD_ID, 'l');
  }

  lemma IdFirst(uploadId: string)
    ensures Find(UPLOAD_ID + "=" + uploadId, UPLOAD_ID) == 0
  {
    assert UPLOAD_ID + "=" + uploadId == UPLOAD_ID + ("=" + uploadId);
    StartsWith(UPLOAD_ID, "=" + uploadId);
  }

  lemma IdTail(base: string, a: string, uploadId: string)
    ensures base + ['?'] + (a + ['&'] + (UPLOAD_ID + "=" + uploadId))
         == (base + ['?'] + (a + ['&'])) + (UPLOAD_ID + ("=" + uploadId))
  {
    assert UPLOAD_ID + "=" + uploadId == UPLOAD_ID + ("=" + uploadId);
    Associative(base + ['?'], a + ['&'], UPLOAD_ID + "=" + uploadId);
  }
}
