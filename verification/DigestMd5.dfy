/** The texts of a DIGEST-MD5 exchange: the pair parser, the challenge, the client's response. MD5 is any function. */
module DigestMd5 {
  import opened Octets
  import opened Dn

  type Md5Sum = d: Text | |d| == 16 witness seq(16, _ => 0)
  type Md5 = Text -> Md5Sum

  const QUOTE: byte := '"' as int
  const ESCAPE: byte := '\\' as int
  const COLON: Text := [':' as int]

  const USERNAME: Text := Ascii("username")
  const REALM: Text := Ascii("realm")
  const NONCE: Text := Ascii("nonce")
  const CNONCE: Text := Ascii("cnonce")
  const NC: Text := Ascii("nc")
  const QOP: Text := Ascii("qop")
  const DIGEST_URI: Text := Ascii("digest-uri")
  const RESPONSE: Text := Ascii("response")
  const CHARSET: Text := Ascii("charset")
  const ALGORITHM: Text := Ascii("algorithm")
  const AUTH: Text := Ascii("auth")
  const FIRST_USE: Text := Ascii("00000001")
  const UTF8: Text := Ascii("utf-8")
  const MD5_SESS: Text := Ascii("md5-sess")
  const AUTHENTICATE: Text := Ascii("AUTHENTICATE:")
  const RSPAUTH: Text := Ascii("rspauth=")

  function HexDigit(i: nat): (c: byte)
    requires i < 16
    ensures '0' as int <= c <= '9' as int || 'a' as int <= c <= 'f' as int
  {
    if i < 10 then '0' as int + i else 'a' as int + i - 10
  }

  function Hex(data: Text): Text
    decreases |data|
  {
    if data == [] then [] else [HexDigit(data[0] / 16), HexDigit(data[0] % 16)] + Hex(data[1..])
  }

  function Md5Hex(md5: Md5, text: Text): Text {
    Hex(md5(text))
  }

  // ---------- parsing pairs ----------

  function SkipSeparators(s: Text): (r: Text)
    ensures |r| <= |s|
  {
    if s != [] && (s[0] == COMMA || IsSpace(s[0])) then SkipSeparators(s[1..]) else s
  }

  /** The value up to the closing quote, a backslash taking the next octet literally, and what follows. */
  function ReadQuoted(s: Text, value: Text): (r: (Text, Text))
    ensures |r.1| <= |s|
    decreases |s|
  {
    if s == [] then (value, [])
    else if s[0] == QUOTE then (value, s[1..])
    else if s[0] == ESCAPE && |s| > 1 then ReadQuoted(s[2..], value + [s[1]])
    else ReadQuoted(s[1..], value + [s[0]])
  }

  function ReadValue(s: Text): (r: (Text, Text))
    ensures |r.1| <= |s|
  {
    if s != [] && s[0] == QUOTE then ReadQuoted(s[1..], [])
    else
      var comma := IndexOf(s, COMMA);
      (s[..comma], s[comma..])
  }

  /** A later pair with the same name replaces an earlier one. */
  function ParsePairs(text: Text, pairs: map<Text, Text>): map<Text, Text>
    decreases |text|
  {
    var s := SkipSeparators(text);
    var eq := IndexOf(s, EQUALS);
    if eq == |s| then pairs
    else
      var (value, rest) := ReadValue(s[eq + 1..]);
      ParsePairs(rest, pairs[Lower(s[..eq]) := value])
  }

  function Unquote(value: Text): Text {
    if |value| >= 2 && value[0] == QUOTE && value[|value| - 1] == QUOTE then value[1..|value| - 1] else value
  }

  function RawPair(pairs: map<Text, Text>, name: Text): Text {
    if name in pairs then pairs[name] else []
  }

  function PairOf(pairs: map<Text, Text>, name: Text): Text {
    Unquote(RawPair(pairs, name))
  }

  function QopOf(pairs: map<Text, Text>): Text {
    if QOP in pairs then Unquote(pairs[QOP]) else AUTH
  }

  // ---------- the texts ----------

  datatype Pair = Pair(name: Text, value: Text, quoted: bool)

  function PrintPair(p: Pair): Text {
    p.name + [EQUALS] + if p.quoted then [QUOTE] + p.value + [QUOTE] else p.value
  }

  function PrintPairs(pairs: seq<Pair>): Text {
    if pairs == [] then []
    else if |pairs| == 1 then PrintPair(pairs[0])
    else PrintPair(pairs[0]) + [COMMA] + PrintPairs(pairs[1..])
  }

  /** The `dc` values of the base DN, joined with dots. */
  function DcValues(rest: Text, realm: Text): Text
    decreases |rest|
  {
    if rest == [] then realm
    else
      var comma := IndexOf(rest, COMMA);
      var rdn := ParseRdn(rest[..comma]);
      var next :=
        if rdn.Some? && IEquals(rdn.value.attribute, Ascii("dc")) then
          (if realm == [] then [] else realm + ['.' as int]) + rdn.value.value
        else realm;
      if comma == |rest| then next else DcValues(rest[comma + 1..], next)
  }

  function RealmFromBase(baseDn: Text): Text {
    var realm := DcValues(baseDn, []);
    if realm == [] then Ascii("simple-ldapd") else realm
  }

  function ChallengePairs(realm: Text, nonce: Text): seq<Pair> {
    [Pair(REALM, realm, true), Pair(NONCE, nonce, true), Pair(QOP, AUTH, true),
     Pair(ALGORITHM, MD5_SESS, false), Pair(CHARSET, UTF8, false)]
  }

  function Challenge(realm: Text, nonce: Text): Text {
    PrintPairs(ChallengePairs(realm, nonce))
  }

  /** What both sides hash. */
  datatype Exchange = Exchange(username: Text, realm: Text, nonce: Text, cnonce: Text, nc: Text, qop: Text, uri: Text)

  function ResponseHash(md5: Md5, e: Exchange, password: Text, verb: Text): Text {
    var ha1 := Md5Hex(md5, md5(e.username + COLON + e.realm + COLON + password) + COLON + e.nonce + COLON + e.cnonce);
    Md5Hex(md5, ha1 + COLON + e.nonce + COLON + e.nc + COLON + e.cnonce + COLON + e.qop + COLON
                + Md5Hex(md5, verb + e.uri))
  }

  function ResponsePairs(e: Exchange, response: Text): seq<Pair> {
    [Pair(USERNAME, e.username, true), Pair(REALM, e.realm, true), Pair(NONCE, e.nonce, true),
     Pair(CNONCE, e.cnonce, true), Pair(NC, e.nc, false), Pair(QOP, e.qop, false),
     Pair(DIGEST_URI, e.uri, true), Pair(RESPONSE, response, false), Pair(CHARSET, UTF8, false)]
  }

  /** `saslDigestClientResponse`: what a client sends back for a challenge. */
  function ClientResponse(md5: Md5, challenge: Text, username: Text, password: Text, uri: Text, cnonce: Text): Option<Text> {
    var pairs := ParsePairs(challenge, map[]);
    var e := Exchange(username, PairOf(pairs, REALM), PairOf(pairs, NONCE), cnonce, FIRST_USE, QopOf(pairs),
                      if uri == [] then Ascii("ldap/") else uri);
    if e.nonce == [] || username == [] then None
    else Some(PrintPairs(ResponsePairs(e, ResponseHash(md5, e, password, AUTHENTICATE))))
  }

  /** What the server reads back out of a response. */
  function ReadExchange(text: Text): (Exchange, Text) {
    var pairs := ParsePairs(text, map[]);
    (Exchange(PairOf(pairs, USERNAME), PairOf(pairs, REALM), PairOf(pairs, NONCE), PairOf(pairs, CNONCE),
              RawPair(pairs, NC), QopOf(pairs), PairOf(pairs, DIGEST_URI)),
     PairOf(pairs, RESPONSE))
  }

  // ---------- printing then parsing ----------

  /** Neither quotes nor backslashes. */
  predicate Plain(value: Text) {
    QUOTE !in value && ESCAPE !in value
  }

  predicate PairOk(p: Pair) {
    && p.name != [] && p.name[0] != COMMA && !IsSpace(p.name[0])
    && EQUALS !in p.name
    && Plain(p.value)
    && (!p.quoted ==> COMMA !in p.value)
  }

  function Collected(list: seq<Pair>, pairs: map<Text, Text>): map<Text, Text> {
    if list == [] then pairs else Collected(list[1..], pairs[Lower(list[0].name) := list[0].value])
  }

  lemma {:induction false} QuotedRoundTrip(value: Text, rest: Text, before: Text)
    requires Plain(value)
    ensures ReadQuoted(value + [QUOTE] + rest, before) == (before + value, rest)
    decreases |value|
  {
    var s := value + [QUOTE] + rest;
    if value == [] {
      assert s[0] == QUOTE && s[1..] == rest;
      assert before + value == before;
    } else {
      assert value[0] in value;
      assert s[1..] == value[1..] + [QUOTE] + rest;
      QuotedRoundTrip(value[1..], rest, before + [value[0]]);
      assert before + [value[0]] + value[1..] == before + value;
    }
  }

  /** A value that ends before the text does took at least its closing quote. */
  lemma {:induction false} QuotedTakesQuote(s: Text, before: Text)
    ensures var r := ReadQuoted(s, before); r.1 != [] ==> |r.0| + |r.1| < |before| + |s|
    decreases |s|
  {
    if s != [] && s[0] != QUOTE {
      if s[0] == ESCAPE && |s| > 1 {
        QuotedTakesQuote(s[2..], before + [s[1]]);
      } else {
        QuotedTakesQuote(s[1..], before + [s[0]]);
      }
    }
  }

  /** A quoted value is read back, with the reader just past it, exactly when it has no quote and no backslash. */
  lemma {:induction false} QuotedSurvivesExactly(value: Text, rest: Text, before: Text)
    requires rest != []
    ensures ReadQuoted(value + [QUOTE] + rest, before) == (before + value, rest) <==> Plain(value)
    decreases |value|
  {
    var s := value + [QUOTE] + rest;
    if Plain(value) {
      QuotedRoundTrip(value, rest, before);
    } else if value[0] == QUOTE {
      assert |before + value| > |before|;
    } else if value[0] == ESCAPE {
      QuotedTakesQuote(s[2..], before + [s[1]]);
      assert |before + value| + |rest| == |before + [s[1]]| + |s[2..]|;
    } else {
      assert s[1..] == value[1..] + [QUOTE] + rest;
      QuotedSurvivesExactly(value[1..], rest, before + [value[0]]);
      assert before + [value[0]] + value[1..] == before + value;
      assert forall b <- value :: b == value[0] || b in value[1..];
    }
  }

  lemma QuotedValueRoundTrip(value: Text, rest: Text)
    requires Plain(value)
    ensures ReadValue([QUOTE] + value + [QUOTE] + rest) == (value, rest)
  {
    hide ReadQuoted, Plain;
    var s := [QUOTE] + value + [QUOTE] + rest;
    assert s[1..] == value + [QUOTE] + rest;
    QuotedRoundTrip(value, rest, []);
    assert [] + value == value;
  }

  lemma BareValueRoundTrip(value: Text, rest: Text)
    requires Plain(value) && COMMA !in value && (rest == [] || rest[0] == COMMA)
    ensures ReadValue(value + rest) == (value, rest)
  {
    hide ReadQuoted;
    var s := value + rest;
    assert forall i :: 0 <= i < |value| ==> s[i] in value;
    IndexOfUnique(s, COMMA, |value|);
  }

  lemma ValueRoundTrip(p: Pair, rest: Text)
    requires PairOk(p) && (rest == [] || rest[0] == COMMA)
    ensures ReadValue((if p.quoted then [QUOTE] + p.value + [QUOTE] else p.value) + rest) == (p.value, rest)
  {
    hide ReadValue, Plain;
    if p.quoted {
      QuotedValueRoundTrip(p.value, rest);
    } else {
      BareValueRoundTrip(p.value, rest);
    }
  }

  lemma SkipsTo(skip: Text, s: Text)
    requires s != [] && s[0] != COMMA && !IsSpace(s[0]) && (skip == [] || skip == [COMMA])
    ensures SkipSeparators(skip + s) == s
  {
    if skip == [] {
      assert skip + s == s;
    } else {
      assert (skip + s)[1..] == s;
    }
  }

  lemma PairStep(p: Pair, rest: Text, pairs: map<Text, Text>, skip: Text)
    requires PairOk(p) && (rest == [] || rest[0] == COMMA) && (skip == [] || skip == [COMMA])
    ensures ParsePairs(skip + PrintPair(p) + rest, pairs) == ParsePairs(rest, pairs[Lower(p.name) := p.value])
  {
    hide ReadValue, Lower, IsSpace, SkipSeparators;
    var value := if p.quoted then [QUOTE] + p.value + [QUOTE] else p.value;
    var s := p.name + [EQUALS] + value + rest;
    assert skip + PrintPair(p) + rest == skip + s;
    SkipsTo(skip, s);
    NameEnds(p.name, value + rest);
    assert s == p.name + [EQUALS] + (value + rest);
    ValueRoundTrip(p, rest);
  }

  lemma NameEnds(name: Text, rest: Text)
    requires EQUALS !in name
    ensures var s := name + [EQUALS] + rest;
            IndexOf(s, EQUALS) == |name| && s[..|name|] == name && s[|name| + 1..] == rest
  {
    var s := name + [EQUALS] + rest;
    assert forall i :: 0 <= i < |name| ==> s[i] in name;
    IndexOfUnique(s, EQUALS, |name|);
  }

  /** Parsing printed pairs collects exactly those pairs. */
  lemma {:induction false} PairsRoundTrip(list: seq<Pair>, pairs: map<Text, Text>, skip: Text)
    requires forall p <- list :: PairOk(p)
    requires if list == [] then skip == [] else skip == [] || skip == [COMMA]
    ensures ParsePairs(skip + PrintPairs(list), pairs) == Collected(list, pairs)
    decreases |list|
  {
    hide PairOk, Lower, PrintPair;
    if list == [] {
      assert skip + PrintPairs(list) == [];
      assert ParsePairs([], pairs) == pairs;
    } else {
      var p := list[0];
      var rest := if |list| == 1 then [] else [COMMA] + PrintPairs(list[1..]);
      assert skip + PrintPairs(list) == skip + PrintPair(p) + rest;
      PairStep(p, rest, pairs, skip);
      if |list| == 1 {
        assert rest == [] + PrintPairs(list[1..]);
        PairsRoundTrip(list[1..], pairs[Lower(p.name) := p.value], []);
      } else {
        PairsRoundTrip(list[1..], pairs[Lower(p.name) := p.value], [COMMA]);
      }
    }
  }

  ghost predicate DistinctNames(list: seq<Pair>) {
    forall i, j :: 0 <= i < j < |list| ==> Lower(list[i].name) != Lower(list[j].name)
  }

  lemma {:induction false} CollectedAt(list: seq<Pair>, pairs: map<Text, Text>)
    requires DistinctNames(list)
    ensures forall p <- list ::
              Lower(p.name) in Collected(list, pairs) && Collected(list, pairs)[Lower(p.name)] == p.value
    ensures forall k | k in pairs && (forall p <- list :: Lower(p.name) != k) ::
              k in Collected(list, pairs) && Collected(list, pairs)[k] == pairs[k]
    decreases |list|
  {
    hide Lower;
    if list != [] {
      var next := pairs[Lower(list[0].name) := list[0].value];
      CollectedAt(list[1..], next);
      assert forall p <- list[1..] :: Lower(p.name) != Lower(list[0].name);
      assert forall p <- list :: p == list[0] || p in list[1..];
      assert Lower(list[0].name) in next;
    }
  }

  lemma {:induction false} HexClean(data: Text)
    ensures |Hex(data)| == 2 * |data|
    ensures forall c <- Hex(data) :: '0' as int <= c <= '9' as int || 'a' as int <= c <= 'f' as int
    decreases |data|
  {
    if data != [] {
      HexClean(data[1..]);
    }
  }

  lemma UnquotePlain(value: Text)
    requires Plain(value)
    ensures Unquote(value) == value
  {
    if value != [] {
      assert value[0] in value;
    }
  }

  predicate LowerCaseName(name: Text) {
    && name != []
    && EQUALS !in name
    && forall c <- name :: c == '-' as int || 'a' as int <= c <= 'z' as int
  }

  lemma LowerCaseFolds(name: Text)
    requires LowerCaseName(name)
    ensures Lower(name) == name && name[0] != COMMA && !IsSpace(name[0])
  {
    assert forall i :: 0 <= i < |name| ==> name[i] in name;
  }

  lemma NamesFold()
    ensures LowerCaseName(USERNAME) && LowerCaseName(REALM) && LowerCaseName(NONCE) && LowerCaseName(CNONCE)
    ensures LowerCaseName(NC) && LowerCaseName(QOP) && LowerCaseName(DIGEST_URI) && LowerCaseName(RESPONSE)
    ensures LowerCaseName(CHARSET) && LowerCaseName(ALGORITHM)
  {
    hide LowerCaseName, Ascii;
    WordFolds("username");
    WordFolds("realm");
    WordFolds("nonce");
    WordFolds("cnonce");
    WordFolds("nc");
    WordFolds("qop");
    WordFolds("digest-uri");
    WordFolds("response");
    WordFolds("charset");
    WordFolds("algorithm");
  }

  lemma WordFolds(word: string)
    requires word != "" && forall c <- word :: c == '-' || 'a' <= c <= 'z'
    ensures LowerCaseName(Ascii(word))
  {
    var name := Ascii(word);
    forall i | 0 <= i < |name| ensures name[i] == '-' as int || 'a' as int <= name[i] <= 'z' as int {
      assert word[i] in word;
    }
  }

  lemma NamesDiffer()
    ensures |USERNAME| == 8 && |REALM| == 5 && |NONCE| == 5 && |CNONCE| == 6 && |NC| == 2 && |QOP| == 3
    ensures |DIGEST_URI| == 10 && |RESPONSE| == 8 && |CHARSET| == 7 && |ALGORITHM| == 9
    ensures REALM != NONCE && USERNAME != RESPONSE
  {
    assert REALM[0] == 'r' as int && NONCE[0] == 'n' as int;
    assert USERNAME[0] == 'u' as int && RESPONSE[0] == 'r' as int;
  }

  lemma FixedValuesPlain()
    ensures Plain(AUTH) && Plain(FIRST_USE) && Plain(UTF8) && Plain(MD5_SESS)
    ensures COMMA !in AUTH && COMMA !in FIRST_USE && COMMA !in UTF8 && COMMA !in MD5_SESS
    ensures AUTH != []
  {
  }

  /** A client reads back the realm and the nonce of every challenge. */
  lemma ChallengeIsRead(realm: Text, nonce: Text)
    requires Plain(realm) && Plain(nonce)
    ensures var pairs := ParsePairs(Challenge(realm, nonce), map[]);
            PairOf(pairs, REALM) == realm && PairOf(pairs, NONCE) == nonce && QopOf(pairs) == AUTH
  {
    hide Lower, ParsePairs, PrintPairs, Collected, Plain, LowerCaseName, Unquote;
    var list := ChallengePairs(realm, nonce);
    NamesFold();
    NamesDiffer();
    FixedValuesPlain();
    PairsAreRead(list);
    UnquotePlain(realm);
    UnquotePlain(nonce);
    UnquotePlain(AUTH);
    assert list[0] in list && list[1] in list && list[2] in list;
  }

  /** The names this exchange uses are pairwise different as written, so every pair is found by its name. */
  lemma PairsAreRead(list: seq<Pair>)
    requires forall p <- list :: LowerCaseName(p.name) && Plain(p.value) && (!p.quoted ==> COMMA !in p.value)
    requires forall i, j :: 0 <= i < j < |list| ==> list[i].name != list[j].name
    ensures var pairs := ParsePairs(PrintPairs(list), map[]);
            forall p <- list :: p.name in pairs && pairs[p.name] == p.value
  {
    hide Lower, ParsePairs, PrintPairs, Collected, Plain, LowerCaseName, PairOk, DistinctNames;
    AllFolded(list);
    ParsedIsCollected(list);
    forall p | p in list ensures p.name in Collected(list, map[]) && Collected(list, map[])[p.name] == p.value {
      CollectedHas(list, p);
    }
  }

  lemma ParsedIsCollected(list: seq<Pair>)
    requires forall p <- list :: PairOk(p)
    ensures ParsePairs(PrintPairs(list), map[]) == Collected(list, map[])
  {
    hide ParsePairs, PrintPairs, Collected, PairOk;
    PairsRoundTrip(list, map[], []);
    assert [] + PrintPairs(list) == PrintPairs(list);
  }

  lemma CollectedHas(list: seq<Pair>, p: Pair)
    requires DistinctNames(list) && p in list
    ensures Lower(p.name) in Collected(list, map[]) && Collected(list, map[])[Lower(p.name)] == p.value
  {
    hide Lower, Collected, DistinctNames;
    CollectedAt(list, map[]);
  }

  lemma AllFolded(list: seq<Pair>)
    requires forall p <- list :: LowerCaseName(p.name) && Plain(p.value) && (!p.quoted ==> COMMA !in p.value)
    requires forall i, j :: 0 <= i < j < |list| ==> list[i].name != list[j].name
    ensures DistinctNames(list) && forall p <- list :: PairOk(p) && Lower(p.name) == p.name
  {
    hide Lower, Plain, LowerCaseName, PairOk;
    forall i | 0 <= i < |list| ensures PairOk(list[i]) && Lower(list[i].name) == list[i].name {
      assert list[i] in list;
      FoldedPairOk(list[i]);
    }
  }

  lemma FoldedPairOk(p: Pair)
    requires LowerCaseName(p.name) && Plain(p.value) && (!p.quoted ==> COMMA !in p.value)
    ensures PairOk(p) && Lower(p.name) == p.name
  {
    LowerCaseFolds(p.name);
  }

  /** The server reads back exactly what a client hashed. */
  lemma ResponseIsRead(e: Exchange, response: Text)
    requires Plain(e.username) && Plain(e.realm) && Plain(e.nonce) && Plain(e.cnonce) && Plain(e.uri)
    requires e.nc == FIRST_USE && e.qop == AUTH && Plain(response) && COMMA !in response
    ensures ReadExchange(PrintPairs(ResponsePairs(e, response))) == (e, response)
  {
    hide Lower, ParsePairs, PrintPairs, Collected, Plain, LowerCaseName, Unquote;
    var list := ResponsePairs(e, response);
    FixedValuesPlain();
    NamesFold();
    NamesDiffer();
    PairsAreRead(list);
    assert list[0] in list && list[1] in list && list[2] in list && list[3] in list && list[4] in list
        && list[5] in list && list[6] in list && list[7] in list;
    UnquotePlain(e.username);
    UnquotePlain(e.realm);
    UnquotePlain(e.nonce);
    UnquotePlain(e.cnonce);
    UnquotePlain(e.uri);
    UnquotePlain(response);
    UnquotePlain(AUTH);
  }
}
