/** The ETag of an answer, as src/curl.cpp cuts it out of the header text. */
module EtagHeaders {
  import opened Fields
  import opened Ints
  import opened Wrappers

  const KEYWORD := "ETag: \""

  /** 32 characters if a quote ends them, else 40; the text must go on for 39 characters from the keyword. */
  function AnsweredEtag(head: string): (etag: Option<string>)
    ensures etag.Some? ==> etag.value != ""
  {
    var pos := Find(head, KEYWORD);
    if pos < 0 || |head| <= pos + 39 then None
    else if head[pos + 39] != '"' then Some(head[pos + 7..Min(pos + 47, |head|)])
    else Some(head[pos + 7..pos + 39])
  }

  /** A quoted tag behind the first keyword is read as it is if and only if it has 32 or 40 characters. */
  lemma EtagRead(before: string, tag: string, after: string)
    requires Find(before + KEYWORD, KEYWORD) == |before| && Lacks(tag, '"')
    requires 32 < |tag + ['"'] + after|
    ensures
      var etag := AnsweredEtag(before + KEYWORD + (tag + ['"'] + after));
      etag.Some? && (etag.value == tag <==> |tag| == 32 || |tag| == 40)
  {
    var rest := tag + ['"'] + after;
    FindFront(before + KEYWORD, rest, KEYWORD);
    assert |KEYWORD| == 7 && |before + KEYWORD + rest| == |before| + 7 + |rest|;
    hide Find, KEYWORD, Lacks;
    CutOut(before + KEYWORD, rest, 32);
    CutOut(before + KEYWORD, rest, Min(40, |rest|));
    TagEnds(tag, after, rest, 32);
    TagEnds(tag, after, rest, Min(40, |rest|));
  }

  predicate KeywordAt(head: string, k: nat) {
    k + |KEYWORD| <= |head| && head[k..k + |KEYWORD|] == KEYWORD
  }

  /** Without the keyword anywhere there is none. */
  lemma NoEtag(head: string)
    requires forall k: nat :: !KeywordAt(head, k)
    ensures AnsweredEtag(head) == None
  {
    if 0 <= Find(head, KEYWORD) {
      FoundThere(head, KEYWORD, Find(head, KEYWORD));
      assert KeywordAt(head, Find(head, KEYWORD));
    }
  }

  lemma CutOut(front: string, rest: string, n: nat)
    requires n <= |rest|
    ensures (front + rest)[|front|..|front| + n] == rest[..n]
    ensures n < |rest| ==> (front + rest)[|front| + n] == rest[n]
  {
  }

  /** Only as many characters as the tag has are the tag. */
  lemma TagEnds(tag: string, after: string, rest: string, n: nat)
    requires rest == tag + ['"'] + after && Lacks(tag, '"') && n <= |rest|
    ensures rest[..n] == tag <==> n == |tag|
    ensures |tag| == n < |rest| ==> rest[n] == '"'
    ensures n < |tag| ==> rest[n] != '"'
    ensures |tag| < n ==> '"' in rest[..n]
  {
    if |tag| < n {
      assert rest[..n][|tag|] == '"';
    }
  }
}
