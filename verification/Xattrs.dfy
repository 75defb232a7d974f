/**
 The extended-attribute header of src/s3fs.cpp: attributes as quoted, comma-separated
 pairs in braces, each value in base64, the whole percent-encoded.
 */
module Xattrs {
  import opened Bytes
  import opened Errno
  import opened Fields
  import opened Wrappers
  import Base64
  import PercentCoding

  datatype Attribute = Attribute(name: Text, value: Text)

  type XattrMap = map<Text, Text>

  // ---------- building ----------

  function PairText(a: Attribute): Text {
    [QUOTE] + a.name + [QUOTE, COLON, QUOTE] + Base64.Encode(a.value) + [QUOTE]
  }

  function PairsText(attributes: seq<Attribute>): Text {
    if attributes == [] then []
    else if |attributes| == 1 then PairText(attributes[0])
    else PairText(attributes[0]) + [COMMA] + PairsText(attributes[1..])
  }

  function Json(attributes: seq<Attribute>): Text {
    [LBRACE] + PairsText(attributes) + [RBRACE]
  }

  /** The attributes as a map; a later pair with the same name wins. */
  function MapOf(attributes: seq<Attribute>): XattrMap {
    if attributes == [] then map[]
    else MapOf(attributes[..|attributes| - 1])[attributes[|attributes| - 1].name := attributes[|attributes| - 1].value]
  }

  lemma {:induction false} PairsTextSnoc(attributes: seq<Attribute>, a: Attribute)
    ensures PairsText(attributes + [a])
         == PairsText(attributes) + (if attributes == [] then [] else [COMMA]) + PairText(a)
  {
    hide PairText;
    if |attributes| == 0 {
      assert attributes + [a] == [a];
    } else {
      assert (attributes + [a])[1..] == attributes[1..] + [a];
      PairsTextSnoc(attributes[1..], a);
      if |attributes| == 1 {
        assert attributes[1..] == [];
      }
    }
  }

  /** The attributes listed so far are those of the map whose names are no longer to be done. */
  ghost predicate Listed(attributes: seq<Attribute>, xattrs: XattrMap, todo: set<Text>) {
    && todo <= xattrs.Keys
    && MapOf(attributes).Keys == xattrs.Keys - todo
    && forall k :: k in MapOf(attributes) && k in xattrs ==> MapOf(attributes)[k] == xattrs[k]
  }

  /** Writes the attributes in map order; the order is any, so it is chosen arbitrarily here. */
  method BuildXattrs(xattrs: XattrMap) returns (text: Text, ghost attributes: seq<Attribute>)
    ensures MapOf(attributes) == xattrs
    ensures text == PercentCoding.Encode(Json(attributes), true)
    ensures Parsed(text) == xattrs <==> CleanNames(xattrs)
  {
    hide Parsed, CleanNames, PairsText, PairText, Listed, MapOf;
    var json := [LBRACE];
    var isSet := false;
    var todo := xattrs.Keys;
    attributes := [];
    NothingListed(xattrs);
    while todo != {}
      invariant isSet <==> attributes != []
      invariant json == [LBRACE] + PairsText(attributes)
      invariant Listed(attributes, xattrs, todo)
      decreases |todo|
    {
      var name :| name in todo;
      ListOne(attributes, xattrs, todo, name);
      if isSet {
        json := json + [COMMA];
      } else {
        isSet := true;
      }
      ghost var before := json;
      json := json + [QUOTE];
      json := json + name;
      json := json + [QUOTE, COLON, QUOTE];
      var base64val := Base64.S3fsBase64(xattrs[name]);
      if base64val.Some? {
        json := json + base64val.value;
      } else {
        assert json + Base64.Encode(xattrs[name]) == json;
      }
      json := json + [QUOTE];
      JsonSnoc(attributes, Attribute(name, xattrs[name]), before, json);
      todo := todo - {name};
      attributes := attributes + [Attribute(name, xattrs[name])];
    }
    AllListed(attributes, xattrs);
    BuiltIsParsed(attributes);
    json := json + [RBRACE];
    text := PercentCoding.UrlEncode(json, true);
  }

  lemma NothingListed(xattrs: XattrMap)
    ensures PairsText([]) == [] && Listed([], xattrs, xattrs.Keys)
  {
  }

  lemma ListOne(attributes: seq<Attribute>, xattrs: XattrMap, todo: set<Text>, name: Text)
    requires Listed(attributes, xattrs, todo) && name in todo
    ensures name in xattrs
    ensures Listed(attributes + [Attribute(name, xattrs[name])], xattrs, todo - {name})
  {
    hide MapOf;
    MapOfSnoc(attributes, Attribute(name, xattrs[name]));
  }

  lemma AllListed(attributes: seq<Attribute>, xattrs: XattrMap)
    requires Listed(attributes, xattrs, {})
    ensures MapOf(attributes) == xattrs
  {
    hide MapOf;
    assert MapOf(attributes).Keys == xattrs.Keys;
  }

  lemma MapOfSnoc(attributes: seq<Attribute>, a: Attribute)
    ensures MapOf(attributes + [a]) == MapOf(attributes)[a.name := a.value]
  {
    assert (attributes + [a])[..|attributes|] == attributes;
  }

  lemma JsonSnoc(attributes: seq<Attribute>, a: Attribute, before: Text, after: Text)
    requires before == [LBRACE] + PairsText(attributes) + (if attributes == [] then [] else [COMMA])
          || (attributes == [] && before == [LBRACE] + PairsText(attributes))
    requires after == before + [QUOTE] + a.name + [QUOTE, COLON, QUOTE] + Base64.Encode(a.value) + [QUOTE]
    ensures after == [LBRACE] + PairsText(attributes + [a])
  {
    hide PairsText;
    assert after == before + PairText(a);
    hide PairText;
    PairsTextSnoc(attributes, a);
  }

  // ---------- parsing ----------

  /** takeout_str_dquart: the text between the only two quotes, or the text itself if it has none. */
  function TakeOut(s: Text): Option<Text> {
    if Lacks(s, QUOTE) then Some(s)
    else
      var inner := Rest(s, QUOTE);
      if Lacks(inner, QUOTE) then None
      else
        var taken := BeforeLast(inner, QUOTE);
        if Lacks(taken, QUOTE) then Some(taken) else None
  }

  /** What stands before the last delimiter. */
  function BeforeLast(s: Text, d: Byte): Text {
    if s == [] then []
    else if s[|s| - 1] == d then s[..|s| - 1]
    else BeforeLast(s[..|s| - 1], d)
  }

  /** parse_xattr_keyval: one pair, if it is well-formed. */
  function ParsePair(pair: Text): Option<Attribute> {
    if Lacks(pair, COLON) then None
    else
      var name, value := TakeOut(Field(pair, COLON)), TakeOut(Rest(pair, COLON));
      if name.None? || value.None? then None else Some(Attribute(name.value, Base64.Decode(value.value)))
  }

  /** The pairs of the text between the braces; malformed ones are skipped. */
  function ParsePairs(text: Text): seq<Attribute>
    decreases |text|
  {
    if text == [] then []
    else
      var first := ParsePair(Field(text, COMMA));
      (if first.Some? then [first.value] else []) + ParsePairs(Rest(text, COMMA))
  }

  /** The text between the first opening and the last closing brace, if they come in this order. */
  function Braced(json: Text): Option<Text> {
    if Lacks(json, LBRACE) || Lacks(Rest(json, LBRACE), RBRACE) then None
    else Some(BeforeLast(Rest(json, LBRACE), RBRACE))
  }

  /** The attributes a header value stands for. */
  function Parsed(header: Text): XattrMap {
    match Braced(PercentCoding.Decode(header))
    case None => map[]
    case Some(text) => MapOf(ParsePairs(text))
  }

  method ParseXattrs(header: Text) returns (xattrs: XattrMap)
    ensures xattrs == Parsed(header)
  {
    hide ParsePair, ParsePairs, MapOf, Braced;
    xattrs := map[];
    var json := PercentCoding.UrlDecode(header);
    var braced := Braced(json);
    if braced.None? {
      return;
    }
    var rest := braced.value;
    ghost var done: seq<Attribute> := [];
    ParseBounds(rest, done);
    while rest != []
      invariant done + ParsePairs(rest) == ParsePairs(braced.value)
      invariant xattrs == MapOf(done)
      decreases |rest|
    {
      ParseOne(done, rest);
      var pair := Field(rest, COMMA);
      var parsed := ParsePair(pair);
      rest := Rest(rest, COMMA);
      if parsed.None? {
        continue;
      }
      MapOfSnoc(done, parsed.value);
      done := done + [parsed.value];
      xattrs := xattrs[parsed.value.name := parsed.value.value];
    }
    ParseBounds(rest, done);
  }

  lemma ParseBounds(rest: Text, done: seq<Attribute>)
    ensures done == [] ==> done + ParsePairs(rest) == ParsePairs(rest) && MapOf(done) == map[]
    ensures rest == [] ==> done + ParsePairs(rest) == done
  {
  }

  lemma ParseOne(done: seq<Attribute>, rest: Text)
    requires rest != []
    ensures
      var first := ParsePair(Field(rest, COMMA));
      done + ParsePairs(rest)
      == (if first.Some? then done + [first.value] else done) + ParsePairs(Rest(rest, COMMA))
  {
    hide ParsePair;
  }

  // ---------- round trip ----------

  /** Names the text format can carry. */
  predicate CleanName(name: Text) {
    Lacks(name, COMMA) && Lacks(name, COLON) && Lacks(name, QUOTE)
  }

  predicate CleanNames(xattrs: XattrMap) {
    forall name :: name in xattrs ==> CleanName(name)
  }

  lemma ValueIsClean(value: Text)
    ensures Lacks(Base64.Encode(value), COMMA) && Lacks(Base64.Encode(value), COLON)
    ensures Lacks(Base64.Encode(value), QUOTE)
  {
    Base64.EncodeLetters(value);
  }

  lemma {:induction false} BeforeLastStops(a: Text, d: Byte)
    ensures BeforeLast(a + [d], d) == a
  {
    assert (a + [d])[..|a|] == a;
  }

  lemma TakeOutQuoted(s: Text)
    requires Lacks(s, QUOTE)
    ensures TakeOut([QUOTE] + s + [QUOTE]) == Some(s)
  {
    var quoted := [QUOTE] + s + [QUOTE];
    assert quoted[0] == QUOTE;
    assert quoted == [] + [QUOTE] + (s + [QUOTE]);
    FieldStops([], QUOTE, s + [QUOTE]);
    assert (s + [QUOTE])[|s|] == QUOTE;
    BeforeLastStops(s, QUOTE);
  }

  lemma PairParses(a: Attribute)
    requires CleanName(a.name)
    ensures ParsePair(PairText(a)) == Some(a)
    ensures PairText(a) != [] && Lacks(PairText(a), COMMA)
  {
    hide TakeOut, Base64.Encode, Field, Rest;
    var name, value := [QUOTE] + a.name + [QUOTE], [QUOTE] + Base64.Encode(a.value) + [QUOTE];
    ValueIsClean(a.value);
    assert PairText(a) == name + [COLON] + value;
    assert PairText(a)[|name|] == COLON;
    FieldStops(name, COLON, value);
    TakeOutQuoted(a.name);
    TakeOutQuoted(Base64.Encode(a.value));
    Base64.DecodeEncode(a.value);
  }

  lemma {:induction false} PairsParse(attributes: seq<Attribute>)
    requires forall i :: 0 <= i < |attributes| ==> CleanName(attributes[i].name)
    ensures ParsePairs(PairsText(attributes)) == attributes
  {
    hide PairText, ParsePair, CleanName;
    if attributes != [] {
      PairParses(attributes[0]);
      PairsParse(attributes[1..]);
      var first, rest := PairText(attributes[0]), PairsText(attributes[1..]);
      if |attributes| == 1 {
        FieldStops(first, COMMA, []);
        assert attributes == [attributes[0]];
      } else {
        FieldStops(first, COMMA, rest);
      }
    }
  }

  lemma JsonBraced(attributes: seq<Attribute>)
    ensures Braced(Json(attributes)) == Some(PairsText(attributes))
  {
    var json, inner := Json(attributes), PairsText(attributes) + [RBRACE];
    assert json == [] + [LBRACE] + inner;
    assert json[0] == LBRACE;
    FieldStops([], LBRACE, inner);
    assert inner[|PairsText(attributes)|] == RBRACE;
    BeforeLastStops(PairsText(attributes), RBRACE);
  }

  lemma {:induction false} NamesInMap(attributes: seq<Attribute>)
    ensures forall i :: 0 <= i < |attributes| ==> attributes[i].name in MapOf(attributes)
    ensures forall name :: name in MapOf(attributes) ==> exists i :: 0 <= i < |attributes| && attributes[i].name == name
  {
    if attributes != [] {
      NamesInMap(attributes[..|attributes| - 1]);
    }
  }

  lemma TakeOutLacks(s: Text, d: Byte)
    requires TakeOut(s).Some? && Lacks(s, d)
    ensures Lacks(TakeOut(s).value, QUOTE) && Lacks(TakeOut(s).value, d)
  {
    PartsLack(s, QUOTE, d);
    BeforeLastLacks(Rest(s, QUOTE), QUOTE, d);
  }

  lemma {:induction false} BeforeLastLacks(s: Text, d: Byte, e: Byte)
    requires Lacks(s, e)
    ensures Lacks(BeforeLast(s, d), e)
  {
    if s != [] && s[|s| - 1] != d {
      BeforeLastLacks(s[..|s| - 1], d, e);
    }
  }

  /** Whatever text is parsed, the names that come out are clean. */
  lemma {:induction false} ParsedPairsClean(text: Text)
    ensures forall i :: 0 <= i < |ParsePairs(text)| ==> CleanName(ParsePairs(text)[i].name)
    decreases |text|
  {
    hide TakeOut, CleanName;
    if text != [] {
      ParsedPairsClean(Rest(text, COMMA));
      if ParsePair(Field(text, COMMA)).Some? {
        ParsedPairClean(text);
      }
    }
  }

  lemma ParsedPairClean(text: Text)
    requires ParsePair(Field(text, COMMA)).Some?
    ensures CleanName(ParsePair(Field(text, COMMA)).value.name)
  {
    var pair := Field(text, COMMA);
    FieldLacks(text, COMMA);
    PartsLack(pair, COLON, COMMA);
    FieldLacks(pair, COLON);
    TakeOutLacks(Field(pair, COLON), COMMA);
    TakeOutLacks(Field(pair, COLON), COLON);
  }

  lemma ParsedIsClean(header: Text)
    ensures CleanNames(Parsed(header))
  {
    var braced := Braced(PercentCoding.Decode(header));
    if braced.Some? {
      ParsedPairsClean(braced.value);
      NamesInMap(ParsePairs(braced.value));
    }
  }

  /** Parsing what was built gives the attributes back exactly if all their names are clean. */
  lemma BuiltIsParsed(attributes: seq<Attribute>)
    ensures Parsed(PercentCoding.Encode(Json(attributes), true)) == MapOf(attributes)
      <==> CleanNames(MapOf(attributes))
  {
    hide Json, Braced, ParsePairs, PairsText, CleanName;
    var header := PercentCoding.Encode(Json(attributes), true);
    ParsedIsClean(header);
    if CleanNames(MapOf(attributes)) {
      PercentCoding.DecodeEncode(Json(attributes), true);
      JsonBraced(attributes);
      NamesInMap(attributes);
      PairsParse(attributes);
    }
  }

  // ---------- texts that were not built here ----------

  /** A field is taken as it is without quotes, and from between two; with any other number of them it is refused. */
  lemma TakenOut(a: Text, v: Text, b: Text, c: Text)
    requires Lacks(a, QUOTE) && Lacks(v, QUOTE) && Lacks(b, QUOTE)
    ensures TakeOut(v) == Some(v)
    ensures TakeOut(a + [QUOTE] + v) == None
    ensures TakeOut(a + [QUOTE] + v + [QUOTE] + b) == Some(v)
    ensures TakeOut(a + [QUOTE] + v + [QUOTE] + b + [QUOTE] + c) == None
  {
    var one, two, three := v, v + [QUOTE] + b, v + [QUOTE] + b + [QUOTE] + c;
    assert a + [QUOTE] + v + [QUOTE] + b == a + [QUOTE] + two;
    assert a + [QUOTE] + v + [QUOTE] + b + [QUOTE] + c == a + [QUOTE] + three;
    AtQuote(a, one);
    AtQuote(a, two);
    AtQuote(a, three);
    hide Rest, BeforeLast;
    assert two[|v|] == QUOTE && three[|v|] == QUOTE;
    BeforeLastOf(v, b, QUOTE);
    BeforeLastSome(three, QUOTE, |v| + 1 + |b|);
  }

  lemma AtQuote(a: Text, rest: Text)
    requires Lacks(a, QUOTE)
    ensures Rest(a + [QUOTE] + rest, QUOTE) == rest && !Lacks(a + [QUOTE] + rest, QUOTE)
  {
    FieldStops(a, QUOTE, rest);
    assert (a + [QUOTE] + rest)[|a|] == QUOTE;
  }

  lemma {:induction false} BeforeLastOf(a: Text, b: Text, d: Byte)
    requires Lacks(b, d)
    ensures BeforeLast(a + [d] + b, d) == a
  {
    var s := a + [d] + b;
    if b == [] {
      assert s == a + [d];
      BeforeLastStops(a, d);
    } else {
      assert s[..|s| - 1] == a + [d] + b[..|b| - 1];
      BeforeLastOf(a, b[..|b| - 1], d);
    }
  }

  /** What stands before the last delimiter holds all earlier ones. */
  lemma {:induction false} BeforeLastSome(s: Text, d: Byte, k: nat)
    requires k < |s| && s[k] == d
    ensures k <= |BeforeLast(s, d)| < |s| && BeforeLast(s, d) == s[..|BeforeLast(s, d)|]
  {
    var n := |s| - 1;
    if s[n] != d {
      BeforeLastSome(s[..n], d, k);
    }
  }

  /** A pair is split at its first colon, and without one, or with a field that is refused, it is none. */
  lemma PairIs(name: Text, value: Text)
    requires Lacks(name, COLON)
    ensures ParsePair(name) == None
    ensures ParsePair(name + [COLON] + value)
         == if TakeOut(name).None? || TakeOut(value).None? then None
            else Some(Attribute(TakeOut(name).value, Base64.Decode(TakeOut(value).value)))
  {
    hide TakeOut;
    FieldStops(name, COLON, value);
    assert (name + [COLON] + value)[|name|] == COLON;
  }

  /** Pairs are what stands between commas; those that are none are skipped. */
  lemma PairsAre(pair: Text, others: Text)
    requires Lacks(pair, COMMA)
    ensures pair != [] ==> ParsePairs(pair) == (if ParsePair(pair).Some? then [ParsePair(pair).value] else [])
    ensures ParsePairs(pair + [COMMA] + others)
         == (if ParsePair(pair).Some? then [ParsePair(pair).value] else []) + ParsePairs(others)
  {
    hide ParsePair;
    FieldStops(pair, COMMA, others);
    assert ParsePairs([]) == [];
  }

  /** What counts stands between the first opening and the last closing brace; without both there is nothing. */
  lemma BracesAre(a: Text, b: Text, c: Text)
    requires Lacks(a, LBRACE) && Lacks(c, RBRACE)
    ensures Braced(a + [LBRACE] + b + [RBRACE] + c) == Some(b)
    ensures Braced(a) == None && Braced(a + [LBRACE] + c) == None
  {
    var inner := b + [RBRACE] + c;
    assert a + [LBRACE] + b + [RBRACE] + c == a + [LBRACE] + inner;
    FieldStops(a, LBRACE, inner);
    FieldStops(a, LBRACE, c);
    assert (a + [LBRACE] + inner)[|a|] == LBRACE && (a + [LBRACE] + c)[|a|] == LBRACE;
    assert inner[|b|] == RBRACE;
    BeforeLastOf(b, c, RBRACE);
  }

  // ---------- setting one attribute ----------

  const XATTR_HEADER := "x-cos-meta-xattr"

  /**
   Sets one attribute in the header map. The flags only look at whether the header
   exists, not at whether the attribute does.
   */
  method SetXattrsToHeader(meta: map<string, Text>, name: Text, value: Text, create: bool, replace: bool)
    returns (result: int, after: map<string, Text>)
    ensures XATTR_HEADER !in meta && replace ==> result == -ENOATTR
    ensures XATTR_HEADER in meta && create ==> result == -EEXIST
    ensures result == 0 <==> if XATTR_HEADER in meta then !create else !replace
    ensures result != 0 ==> after == meta
    ensures result == 0 ==> XATTR_HEADER in after && after == meta[XATTR_HEADER := after[XATTR_HEADER]]
    ensures result == 0 ==>
      (Parsed(after[XATTR_HEADER]) == Parsed(if XATTR_HEADER in meta then meta[XATTR_HEADER] else [])[name := value]
       <==> CleanName(name))
  {
    hide Parsed, CleanName, Json;
    var strxattrs: Text := [];
    after := meta;
    if XATTR_HEADER !in meta {
      if replace {
        return -ENOATTR, meta;
      }
    } else {
      if create {
        return -EEXIST, meta;
      }
      strxattrs := meta[XATTR_HEADER];
    }
    var xattrs := ParseXattrs(strxattrs);
    ParsedIsClean(strxattrs);
    xattrs := xattrs[name := value];
    var text; ghost var attributes;
    text, attributes := BuildXattrs(xattrs);
    after := meta[XATTR_HEADER := text];
    result := 0;
  }
}
