/** OAuth 1.0a request signing (RFC 5849) as the copies of
    `createOAuthHeader` / `create_oauth_header` perform it.

    Every copy merges the caller's parameters with the protocol parameters
    (the protocol ones spread last, so they win on a name collision), sorts the
    merged names, writes `enc(k)=enc(v)` pairs joined by `&` (section
    3.4.1.3.2), builds the base string `METHOD&enc(url)&enc(params)` (section
    3.4.1) and the key `enc(consumerSecret)&enc(tokenSecret)` (section 3.4.2),
    signs, and writes the `OAuth k="v", ...` header (section 3.5.1) from the
    protocol parameters and the signature only.

    The copies differ in four ways, each an explicit choice here: the sort
    order of the names (JavaScript code units or Python code points), whether
    the method is upper-cased, whether `oauth_token` is always present or only
    when a token is given, and whether the header is sorted or in insertion
    order. HMAC-SHA1 with its base64 rendering, the nonce and the timestamp
    are parameters. */
module OAuth1 {
  import opened Text
  import opened Collation
  import opened Params
  import opened Unicode
  import opened PercentEncoding

  /** `hmac(key, text)`: the base64 HMAC-SHA1 digest of `text` under `key`. */
  type Hmac = (string, string) -> string

  /** The nonce and timestamp a signer draws from its random source and clock. */
  datatype Stamp = Stamp(nonce: string, timestamp: string)

  /** `order`: how the parameter names are sorted; `upperMethod`: whether the
      method goes into the base string upper-cased. */
  datatype Dialect = Dialect(order: KeyOrder, upperMethod: bool)

  /** The TypeScript copies. */
  const JsDialect := Dialect(JsCodeUnits, true)
  /** src/workatofinal.py. */
  const PyDialect := Dialect(PyCodePoints, true)
  /** src/workato.py, which uses the method as given. */
  const PyVerbatimDialect := Dialect(PyCodePoints, false)

  // ------------------------------------------------------------- strings

  function PairText(k: string, v: string): string
  {
    Encode(k) + "=" + Encode(v)
  }

  function PairTexts(d: Dict): (ts: seq<string>)
    ensures |ts| == |d|
    ensures forall i | 0 <= i < |d| :: ts[i] == PairText(d[i].0, d[i].1)
  {
    seq(|d|, i requires 0 <= i < |d| => PairText(d[i].0, d[i].1))
  }

  /** The normalised parameter string: the pairs in ascending name order
      (raw names, in the copy's order), joined by `&`. */
  function ParamString(o: KeyOrder, signed: Dict): string
    requires DistinctKeys(signed)
  {
    Join("&", PairTexts(SortByKey(o, signed)))
  }

  function MethodText(d: Dialect, m: string): string
  {
    if d.upperMethod then AsciiUpper(m) else m
  }

  /** The signature base string of section 3.4.1. */
  function BaseString(d: Dialect, m: string, url: string, paramString: string): string
  {
    MethodText(d, m) + "&" + Encode(url) + "&" + Encode(paramString)
  }

  /** The signing key of section 3.4.2, as `createSignature` /
      `create_signature` write it. */
  function SigningKey(consumerSecret: string, tokenSecret: string): string
  {
    Encode(consumerSecret) + "&" + Encode(tokenSecret)
  }

  /** The signing key as src/outh.ts and src/testoAuth.ts write it: the token
      secret is encoded only when it is truthy. An absent secret is `""`. */
  function OptionalSecretKey(consumerSecret: string, tokenSecret: string): string
  {
    Encode(consumerSecret) + "&" + (if tokenSecret != "" then Encode(tokenSecret) else "")
  }

  /** `createSignature` / `create_signature`. */
  function CreateSignature(d: Dialect, hmac: Hmac, m: string, url: string, params: Dict,
                           consumerSecret: string, tokenSecret: string): string
    requires DistinctKeys(params)
  {
    hmac(SigningKey(consumerSecret, tokenSecret), BaseString(d, m, url, ParamString(d.order, params)))
  }

  function Quoted(s: string): string
  {
    "\"" + s + "\""
  }

  /** `k="v"`, both encoded. */
  function HeaderEntry(k: string, v: string): string
  {
    Encode(k) + "=" + Quoted(Encode(v))
  }

  function HeaderEntries(d: Dict): (ts: seq<string>)
    ensures |ts| == |d|
    ensures forall i | 0 <= i < |d| :: ts[i] == HeaderEntry(d[i].0, d[i].1)
  {
    seq(|d|, i requires 0 <= i < |d| => HeaderEntry(d[i].0, d[i].1))
  }

  /** The Authorization header value of section 3.5.1, entries in the order given. */
  function HeaderValue(entries: Dict): string
  {
    "OAuth " + Join(", ", HeaderEntries(entries))
  }

  // ------------------------------------------------- protocol parameters

  /** The protocol parameter names in the insertion order of every copy. */
  const ProtocolNames: seq<string> :=
    ["oauth_consumer_key", "oauth_nonce", "oauth_signature_method", "oauth_timestamp", "oauth_token", "oauth_version"]

  /** The header names of the insertion-order copies: the protocol names,
      then the signature. */
  const InsertionHeaderNames: seq<string> := ProtocolNames + ["oauth_signature"]

  /** The protocol parameters of the copies that always send a token. */
  function ProtocolParams(consumerKey: string, st: Stamp, token: string): (d: Dict)
    ensures DistinctKeys(d) && Keys(d) == ProtocolNames
  {
    [("oauth_consumer_key", consumerKey), ("oauth_nonce", st.nonce), ("oauth_signature_method", "HMAC-SHA1"),
     ("oauth_timestamp", st.timestamp), ("oauth_token", token), ("oauth_version", "1.0")]
  }

  /** The protocol parameters of src/outh.ts and src/testoAuth.ts:
      `oauth_token` is added, after `oauth_version`, only for a truthy token.
      An absent token is `""`. */
  function OptionalTokenParams(consumerKey: string, st: Stamp, token: string): (d: Dict)
    ensures DistinctKeys(d)
    ensures "oauth_signature" !in Keys(d)
    ensures "oauth_token" in Keys(d) <==> token != ""
  {
    var base := [("oauth_consumer_key", consumerKey), ("oauth_nonce", st.nonce), ("oauth_signature_method", "HMAC-SHA1"),
                 ("oauth_timestamp", st.timestamp), ("oauth_version", "1.0")];
    assert Keys(base) == ["oauth_consumer_key", "oauth_nonce", "oauth_signature_method", "oauth_timestamp", "oauth_version"];
    if token != "" then
      var d := base + [("oauth_token", token)];
      assert Keys(d) == Keys(base) + ["oauth_token"];
      d
    else base
  }

  // ------------------------------------------------------------- signers

  /** What a signer computes: the signed parameter set, the signature, the
      header entries and the header, `OAuth ` followed by the entries as
      `k="v"` joined by `, `. The source returns only the header. */
  datatype Signed = Signed(signed: Dict, signature: string, entries: Dict, header: string)

  /** `createOAuthHeader` of src/outh.ts and src/testoAuth.ts. */
  function SignSorted(hmac: Hmac, st: Stamp, m: string, url: string, params: Dict,
                      consumerKey: string, consumerSecret: string, token: string, tokenSecret: string): (r: Signed)
    requires DistinctKeys(params)
    ensures DistinctKeys(r.signed)
    ensures ToMap(r.signed) == ToMap(params) + ToMap(OptionalTokenParams(consumerKey, st, token))
    ensures "oauth_token" in Keys(r.entries) <==> token != ""
    ensures token != "" ==> "oauth_token" in ToMap(r.signed) && ToMap(r.signed)["oauth_token"] == token
    ensures "oauth_signature" in Keys(r.signed) <==> "oauth_signature" in Keys(params)
    ensures r.signature == hmac(SigningKey(consumerSecret, tokenSecret),
                                BaseString(JsDialect, m, url, ParamString(JsCodeUnits, r.signed)))
    ensures SortedBy(JsCodeUnits, r.entries)
    ensures ToMap(r.entries) == ToMap(OptionalTokenParams(consumerKey, st, token))["oauth_signature" := r.signature]
    ensures r.header == HeaderValue(r.entries)
  {
    var oauth := OptionalTokenParams(consumerKey, st, token);
    var combined := Spread(params, oauth);
    var paramString := ParamString(JsCodeUnits, combined);
    var baseString := BaseString(JsDialect, m, url, paramString);
    var signingKey := OptionalSecretKey(consumerSecret, tokenSecret);
    OptionalSecretKeyIsSigningKey(consumerSecret, tokenSecret);
    var signature := hmac(signingKey, baseString);
    var entries := SortByKey(JsCodeUnits, Put(oauth, "oauth_signature", signature));
    SortedEntries(consumerKey, st, token, signature);
    OptionalTokenParamsToken(consumerKey, st, token);
    Signed(combined, signature, entries, HeaderValue(entries))
  }

  lemma OptionalTokenParamsToken(consumerKey: string, st: Stamp, token: string)
    ensures token != "" ==> "oauth_token" in ToMap(OptionalTokenParams(consumerKey, st, token)) &&
                            ToMap(OptionalTokenParams(consumerKey, st, token))["oauth_token"] == token
  {
    if token != "" {
      ToMapAt(OptionalTokenParams(consumerKey, st, token), 5);
    }
  }

  /** The header entries of `SignSorted`: the protocol parameters and the
      signature, sorted, with the token exactly when one is given. */
  lemma SortedEntries(consumerKey: string, st: Stamp, token: string, signature: string)
    ensures var oauth := OptionalTokenParams(consumerKey, st, token);
      var entries := SortByKey(JsCodeUnits, Put(oauth, "oauth_signature", signature));
      SortedBy(JsCodeUnits, entries) && ("oauth_token" in Keys(entries) <==> token != "") &&
      ToMap(entries) == ToMap(oauth)["oauth_signature" := signature]
  {
    var oauth := OptionalTokenParams(consumerKey, st, token);
    var withSignature := Put(oauth, "oauth_signature", signature);
    SortByKeyMap(JsCodeUnits, withSignature);
  }

  /** `createOAuthHeader` / `create_oauth_header` of src/finaltest.ts,
      src/authtest.ts, src/mediaTweet.ts, src/workatofinal.py and
      src/workato.py, which differ only in their dialect. */
  function SignInOrder(d: Dialect, hmac: Hmac, st: Stamp, m: string, url: string, params: Dict,
                       consumerKey: string, consumerSecret: string, token: string, tokenSecret: string): (r: Signed)
    requires DistinctKeys(params)
    ensures DistinctKeys(r.signed)
    ensures ToMap(r.signed) == ToMap(params) + ToMap(ProtocolParams(consumerKey, st, token))
    ensures "oauth_token" in ToMap(r.signed) && ToMap(r.signed)["oauth_token"] == token
    ensures "oauth_signature" in Keys(r.signed) <==> "oauth_signature" in Keys(params)
    ensures r.signature == hmac(SigningKey(consumerSecret, tokenSecret),
                                BaseString(d, m, url, ParamString(d.order, r.signed)))
    ensures Keys(r.entries) == InsertionHeaderNames
    ensures r.entries == ProtocolParams(consumerKey, st, token) + [("oauth_signature", r.signature)]
    ensures r.header == HeaderValue(r.entries)
  {
    var oauth := ProtocolParams(consumerKey, st, token);
    ProtocolParamsToken(consumerKey, st, token);
    var all := Spread(params, oauth);
    var signature := CreateSignature(d, hmac, m, url, all, consumerSecret, tokenSecret);
    var entries := Put(oauth, "oauth_signature", signature);
    InsertionKeys(consumerKey, st, token, signature);
    Signed(all, signature, entries, HeaderValue(entries))
  }

  // ------------------------------------------------------------ helpers

  lemma ProtocolParamsToken(consumerKey: string, st: Stamp, token: string)
    ensures "oauth_token" in ToMap(ProtocolParams(consumerKey, st, token))
    ensures ToMap(ProtocolParams(consumerKey, st, token))["oauth_token"] == token
    ensures "oauth_signature" !in Keys(ProtocolParams(consumerKey, st, token))
  {
    ToMapAt(ProtocolParams(consumerKey, st, token), 4);
  }

  lemma InsertionKeys(consumerKey: string, st: Stamp, token: string, signature: string)
    ensures Keys(ProtocolParams(consumerKey, st, token) + [("oauth_signature", signature)]) == InsertionHeaderNames
  {
    var d := ProtocolParams(consumerKey, st, token);
    assert Keys(d + [("oauth_signature", signature)]) == Keys(d) + ["oauth_signature"];
  }

  lemma OptionalSecretKeyIsSigningKey(consumerSecret: string, tokenSecret: string)
    ensures OptionalSecretKey(consumerSecret, tokenSecret) == SigningKey(consumerSecret, tokenSecret)
  {
    EncodeAppend("", "");
  }

  lemma SortByKeyMap(o: KeyOrder, d: Dict)
    requires DistinctKeys(d)
    ensures ToMap(SortByKey(o, d)) == ToMap(d)
    ensures forall k :: k in Keys(SortByKey(o, d)) <==> k in Keys(d)
  {
    SortedDistinct(o, SortByKey(o, d));
    SameEntriesSameMap(SortByKey(o, d), d);
  }

  // ------------------------------------------- what the strings determine

  lemma JoinNonEmpty(sep: string, parts: seq<string>)
    ensures parts != [] ==> |Join(sep, parts)| >= |parts[0]|
  {
  }

  lemma JoinSmall(sep: string, a: string, b: string, c: string)
    ensures Join(sep, [a, b]) == a + sep + b
    ensures Join(sep, [a, b, c]) == a + sep + b + sep + c
  {
    assert [a, b][1..] == [b];
    assert [a, b, c][1..] == [b, c];
    assert [b, c][1..] == [c];
    assert Join(sep, [b, c]) == b + sep + c;
  }

  lemma Unquote(x: string, y: string)
    requires Quoted(x) == Quoted(y)
    ensures x == y
  {
    assert x == Quoted(x)[1..|Quoted(x)| - 1];
    assert y == Quoted(y)[1..|Quoted(y)| - 1];
  }

  lemma QuotedFree(v: string)
    ensures '=' !in Quoted(Encode(v)) && ',' !in Quoted(Encode(v))
  {
    EncodeOutput(v);
  }

  lemma {:induction false} PairTextInjective(k1: string, v1: string, k2: string, v2: string)
    ensures PairText(k1, v1) == PairText(k2, v2) <==> k1 == k2 && v1 == v2
  {
    if PairText(k1, v1) == PairText(k2, v2) {
      EncodeOutput(k1);
      EncodeOutput(v1);
      EncodeOutput(k2);
      EncodeOutput(v2);
      JoinSmall("=", Encode(k1), Encode(v1), "");
      JoinSmall("=", Encode(k2), Encode(v2), "");
      JoinInjective("=", [Encode(k1), Encode(v1)], [Encode(k2), Encode(v2)]);
      EncodeInjective(k1, k2);
      EncodeInjective(v1, v2);
    }
  }

  lemma PairTextsFree(d: Dict)
    ensures SeparatorFree("&", PairTexts(d))
    ensures forall i | 0 <= i < |d| :: |PairTexts(d)[i]| > 0
  {
    forall i | 0 <= i < |d| ensures '&' !in PairTexts(d)[i] {
      EncodeOutput(d[i].0);
      EncodeOutput(d[i].1);
    }
  }

  /** The parameter string is canonical: two parameter sets give the same
      string exactly when they hold the same names and values, whatever
      their insertion order. */
  lemma {:induction false} ParamStringCanonical(o: KeyOrder, a: Dict, b: Dict)
    requires DistinctKeys(a) && DistinctKeys(b)
    ensures ParamString(o, a) == ParamString(o, b) <==> ToMap(a) == ToMap(b)
  {
    SortByKeyCanonical(o, a, b);
    var sa, sb := SortByKey(o, a), SortByKey(o, b);
    if ParamString(o, a) == ParamString(o, b) {
      var ta, tb := PairTexts(sa), PairTexts(sb);
      PairTextsFree(sa);
      PairTextsFree(sb);
      JoinNonEmpty("&", ta);
      JoinNonEmpty("&", tb);
      if ta != [] && tb != [] {
        JoinInjective("&", ta, tb);
        forall i | 0 <= i < |sa| ensures sa[i] == sb[i] {
          PairTextInjective(sa[i].0, sa[i].1, sb[i].0, sb[i].1);
        }
      }
      assert sa == sb;
    }
  }

  lemma MethodTextFree(d: Dialect, m: string)
    requires '&' !in m
    ensures '&' !in MethodText(d, m)
  {
    if d.upperMethod {
      forall i | 0 <= i < |m| ensures AsciiUpper(m)[i] != '&' {
        assert m[i] != '&';
      }
    }
  }

  /** The base string is unambiguous: for a method without `&`, it
      determines the method text, the URL and the parameter string. */
  lemma {:induction false} BaseStringUnambiguous(d: Dialect, m1: string, url1: string, ps1: string,
                                                 m2: string, url2: string, ps2: string)
    requires '&' !in m1 && '&' !in m2
    ensures BaseString(d, m1, url1, ps1) == BaseString(d, m2, url2, ps2) <==>
            MethodText(d, m1) == MethodText(d, m2) && url1 == url2 && ps1 == ps2
  {
    var xs := [MethodText(d, m1), Encode(url1), Encode(ps1)];
    var ys := [MethodText(d, m2), Encode(url2), Encode(ps2)];
    if BaseString(d, m1, url1, ps1) == BaseString(d, m2, url2, ps2) {
      MethodTextFree(d, m1);
      MethodTextFree(d, m2);
      EncodeOutput(url1);
      EncodeOutput(ps1);
      EncodeOutput(url2);
      EncodeOutput(ps2);
      JoinSmall("&", MethodText(d, m1), Encode(url1), Encode(ps1));
      JoinSmall("&", MethodText(d, m2), Encode(url2), Encode(ps2));
      JoinInjective("&", xs, ys);
      EncodeInjective(url1, url2);
      EncodeInjective(ps1, ps2);
    }
  }

  /** So the base string a signer hashes determines the parameter set it
      signed: a change to any signed name or value changes what is signed. */
  lemma BaseStringDeterminesParams(d: Dialect, m: string, url: string, a: Dict, b: Dict)
    requires '&' !in m
    requires DistinctKeys(a) && DistinctKeys(b)
    ensures BaseString(d, m, url, ParamString(d.order, a)) == BaseString(d, m, url, ParamString(d.order, b))
            <==> ToMap(a) == ToMap(b)
  {
    BaseStringUnambiguous(d, m, url, ParamString(d.order, a), m, url, ParamString(d.order, b));
    ParamStringCanonical(d.order, a, b);
  }

  /** src/workato.py signs the method as given, the other copies upper-case
      it; the two base strings agree exactly when the method has no
      lower-case ASCII letter. */
  lemma MethodCaseMatters(m: string, url: string, ps: string)
    ensures BaseString(PyVerbatimDialect, m, url, ps) == BaseString(PyDialect, m, url, ps) <==> AsciiUpper(m) == m
  {
    var x, y := BaseString(PyVerbatimDialect, m, url, ps), BaseString(PyDialect, m, url, ps);
    if x == y {
      assert x[..|m|] == m && y[..|m|] == AsciiUpper(m);
    }
  }

  /** The signing key determines both secrets. */
  lemma {:induction false} SigningKeyInjective(cs1: string, ts1: string, cs2: string, ts2: string)
    ensures SigningKey(cs1, ts1) == SigningKey(cs2, ts2) <==> cs1 == cs2 && ts1 == ts2
  {
    if SigningKey(cs1, ts1) == SigningKey(cs2, ts2) {
      EncodeOutput(cs1);
      EncodeOutput(ts1);
      EncodeOutput(cs2);
      EncodeOutput(ts2);
      JoinSmall("&", Encode(cs1), Encode(ts1), "");
      JoinSmall("&", Encode(cs2), Encode(ts2), "");
      JoinInjective("&", [Encode(cs1), Encode(ts1)], [Encode(cs2), Encode(ts2)]);
      EncodeInjective(cs1, cs2);
      EncodeInjective(ts1, ts2);
    }
  }

  lemma {:induction false} HeaderEntryInjective(k1: string, v1: string, k2: string, v2: string)
    ensures HeaderEntry(k1, v1) == HeaderEntry(k2, v2) <==> k1 == k2 && v1 == v2
  {
    if HeaderEntry(k1, v1) == HeaderEntry(k2, v2) {
      var q1, q2 := Quoted(Encode(v1)), Quoted(Encode(v2));
      EncodeOutput(k1);
      EncodeOutput(k2);
      QuotedFree(v1);
      QuotedFree(v2);
      JoinSmall("=", Encode(k1), q1, "");
      JoinSmall("=", Encode(k2), q2, "");
      JoinInjective("=", [Encode(k1), q1], [Encode(k2), q2]);
      Unquote(Encode(v1), Encode(v2));
      EncodeInjective(k1, k2);
      EncodeInjective(v1, v2);
    }
  }

  lemma HeaderEntriesFree(d: Dict)
    ensures SeparatorFree(", ", HeaderEntries(d))
    ensures forall i | 0 <= i < |d| :: |HeaderEntries(d)[i]| > 0
  {
    forall i | 0 <= i < |d| ensures ',' !in HeaderEntries(d)[i] {
      EncodeOutput(d[i].0);
      QuotedFree(d[i].1);
    }
  }

  /** A header of the always-token copies names its nonce, its timestamp
      and its signature: equal headers under one consumer key and token
      were stamped and signed alike. */
  lemma InsertionHeaderDeterminesStamp(consumerKey: string, token: string, st1: Stamp, st2: Stamp, sig1: string, sig2: string,
                                       e1: Dict, e2: Dict)
    requires e1 == ProtocolParams(consumerKey, st1, token) + [("oauth_signature", sig1)]
    requires e2 == ProtocolParams(consumerKey, st2, token) + [("oauth_signature", sig2)]
    requires HeaderValue(e1) == HeaderValue(e2)
    ensures st1 == st2 && sig1 == sig2
  {
    HeaderValueInjective(e1, e2);
    InsertionEntriesInjective(consumerKey, token, st1, st2, sig1, sig2);
  }

  lemma InsertionEntriesInjective(consumerKey: string, token: string, st1: Stamp, st2: Stamp, sig1: string, sig2: string)
    requires ProtocolParams(consumerKey, st1, token) + [("oauth_signature", sig1)]
          == ProtocolParams(consumerKey, st2, token) + [("oauth_signature", sig2)]
    ensures st1 == st2 && sig1 == sig2
  {
    var e1 := ProtocolParams(consumerKey, st1, token) + [("oauth_signature", sig1)];
    assert e1[1].1 == st1.nonce && e1[3].1 == st1.timestamp && e1[6].1 == sig1;
  }

  /** The header can be read back: it determines its entries, names, values
      and order. */
  lemma {:induction false} HeaderValueInjective(e1: Dict, e2: Dict)
    ensures HeaderValue(e1) == HeaderValue(e2) <==> e1 == e2
  {
    if HeaderValue(e1) == HeaderValue(e2) {
      var t1, t2 := HeaderEntries(e1), HeaderEntries(e2);
      assert Join(", ", t1) == HeaderValue(e1)[6..] == HeaderValue(e2)[6..] == Join(", ", t2);
      HeaderEntriesFree(e1);
      HeaderEntriesFree(e2);
      JoinNonEmpty(", ", t1);
      JoinNonEmpty(", ", t2);
      if t1 != [] && t2 != [] {
        JoinInjective(", ", t1, t2);
        forall i | 0 <= i < |e1| ensures e1[i] == e2[i] {
          HeaderEntryInjective(e1[i].0, e1[i].1, e2[i].0, e2[i].1);
        }
      }
      assert e1 == e2;
    }
  }

  // ------------------------------------------------- the copies compared

  /** The signature and the header of src/outh.ts depend on the caller's
      parameters only through their names and values, not their order. */
  lemma SignSortedIgnoresOrder(hmac: Hmac, st: Stamp, m: string, url: string, p1: Dict, p2: Dict,
                               consumerKey: string, consumerSecret: string, token: string, tokenSecret: string)
    requires DistinctKeys(p1) && DistinctKeys(p2) && ToMap(p1) == ToMap(p2)
    ensures SignSorted(hmac, st, m, url, p1, consumerKey, consumerSecret, token, tokenSecret).header
         == SignSorted(hmac, st, m, url, p2, consumerKey, consumerSecret, token, tokenSecret).header
  {
    var r1 := SignSorted(hmac, st, m, url, p1, consumerKey, consumerSecret, token, tokenSecret);
    var r2 := SignSorted(hmac, st, m, url, p2, consumerKey, consumerSecret, token, tokenSecret);
    ParamStringCanonical(JsCodeUnits, r1.signed, r2.signed);
  }

  /** Likewise for the insertion-order copies. */
  lemma SignInOrderIgnoresOrder(d: Dialect, hmac: Hmac, st: Stamp, m: string, url: string, p1: Dict, p2: Dict,
                                consumerKey: string, consumerSecret: string, token: string, tokenSecret: string)
    requires DistinctKeys(p1) && DistinctKeys(p2) && ToMap(p1) == ToMap(p2)
    ensures SignInOrder(d, hmac, st, m, url, p1, consumerKey, consumerSecret, token, tokenSecret)
         == SignInOrder(d, hmac, st, m, url, p2, consumerKey, consumerSecret, token, tokenSecret).(signed :=
            SignInOrder(d, hmac, st, m, url, p1, consumerKey, consumerSecret, token, tokenSecret).signed)
  {
    var r1 := SignInOrder(d, hmac, st, m, url, p1, consumerKey, consumerSecret, token, tokenSecret);
    var r2 := SignInOrder(d, hmac, st, m, url, p2, consumerKey, consumerSecret, token, tokenSecret);
    ParamStringCanonical(d.order, r1.signed, r2.signed);
  }

  predicate NamesInBmp(d: Dict)
  {
    forall i | 0 <= i < |d| :: InBmp(d[i].0)
  }

  /** For names inside the Basic Multilingual Plane the JavaScript and the
      Python sort give the same parameter string. */
  lemma ParamStringOrdersAgree(d: Dict)
    requires DistinctKeys(d) && NamesInBmp(d)
    ensures ParamString(JsCodeUnits, d) == ParamString(PyCodePoints, d)
  {
    var sj, sp := SortByKey(JsCodeUnits, d), SortByKey(PyCodePoints, d);
    forall i, j | 0 <= i < j < |sj| ensures KeyLess(PyCodePoints, sj[i].0, sj[j].0) {
      assert sj[i] in d && sj[j] in d;
      OrdersAgreeInBmp(sj[i].0);
      OrdersAgreeInBmp(sj[j].0);
    }
    SortedUnique(PyCodePoints, sj, sp);
  }

  lemma ProtocolNamesInBmp(consumerKey: string, st: Stamp, token: string)
    ensures NamesInBmp(ProtocolParams(consumerKey, st, token))
  {
    var d := ProtocolParams(consumerKey, st, token);
    forall i | 0 <= i < |d| ensures InBmp(d[i].0) {
      assert d[i].0 in ProtocolNames;
    }
  }

  /** The TypeScript copies and src/workatofinal.py sign the same request
      identically when the caller's names lie in the Basic Multilingual
      Plane, as every name the code uses does. */
  lemma JsAndPyCopiesAgree(hmac: Hmac, st: Stamp, m: string, url: string, params: Dict,
                           consumerKey: string, consumerSecret: string, token: string, tokenSecret: string)
    requires DistinctKeys(params) && NamesInBmp(params)
    ensures SignInOrder(JsDialect, hmac, st, m, url, params, consumerKey, consumerSecret, token, tokenSecret)
         == SignInOrder(PyDialect, hmac, st, m, url, params, consumerKey, consumerSecret, token, tokenSecret)
  {
    var oauth := ProtocolParams(consumerKey, st, token);
    var all := Spread(params, oauth);
    ProtocolNamesInBmp(consumerKey, st, token);
    forall i | 0 <= i < |all| ensures InBmp(all[i].0) {
      assert all[i].0 in Keys(all);
      assert all[i].0 in ToMap(params) || all[i].0 in ToMap(oauth);
      if all[i].0 in ToMap(params) {
        var j :| 0 <= j < |params| && Keys(params)[j] == all[i].0;
      } else {
        var j :| 0 <= j < |oauth| && Keys(oauth)[j] == all[i].0;
      }
    }
    ParamStringOrdersAgree(all);
  }

  /** src/workato.py and src/workatofinal.py sign alike exactly when the
      method is already upper-case, as the `"GET"` of the connection test is. */
  lemma VerbatimCopyAgreesOnUpperMethod(hmac: Hmac, st: Stamp, m: string, url: string, params: Dict,
                                        consumerKey: string, consumerSecret: string, token: string, tokenSecret: string)
    requires DistinctKeys(params) && AsciiUpper(m) == m
    ensures SignInOrder(PyVerbatimDialect, hmac, st, m, url, params, consumerKey, consumerSecret, token, tokenSecret)
         == SignInOrder(PyDialect, hmac, st, m, url, params, consumerKey, consumerSecret, token, tokenSecret)
  {
  }

  // ------------------------------------- sorting before or after encoding

  /** The pairs with name and value encoded, in the original order;
      distinct names stay distinct. */
  function EncodedPairs(d: Dict): (e: Dict)
    ensures |e| == |d|
    ensures forall i | 0 <= i < |d| :: e[i] == (Encode(d[i].0), Encode(d[i].1))
    ensures DistinctKeys(d) ==> DistinctKeys(e)
  {
    var e := seq(|d|, i requires 0 <= i < |d| => (Encode(d[i].0), Encode(d[i].1)));
    assert DistinctKeys(d) ==> DistinctKeys(e) by {
      if DistinctKeys(d) {
        forall i, j | 0 <= i < j < |d| ensures e[i].0 != e[j].0 {
          EncodeInjective(d[i].0, d[j].0);
        }
      }
    }
    e
  }

  function JoinedPairs(e: Dict): (ts: seq<string>)
    ensures |ts| == |e|
    ensures forall i | 0 <= i < |e| :: ts[i] == e[i].0 + "=" + e[i].1
  {
    seq(|e|, i requires 0 <= i < |e| => e[i].0 + "=" + e[i].1)
  }

  /** The parameter string as section 3.4.1.3.2 of RFC 5849 orders it:
      names and values are encoded first, then sorted by encoded name in
      byte order (encoded names are ASCII, so code point order is byte
      order), then joined. */
  function RfcParamString(d: Dict): string
    requires DistinctKeys(d)
  {
    Join("&", JoinedPairs(SortByKey(PyCodePoints, EncodedPairs(d))))
  }

  /** The copies sort raw names and encode afterwards. A name with a
      character that encoding escapes can then land elsewhere: `aZ` comes
      before `a[` raw, but `a%5B` comes before `aZ` encoded. */
  lemma RawSortDiffersFromRfc()
    ensures ParamString(JsCodeUnits, [("aZ", "1"), ("a[", "2")]) == "aZ=1&a%5B=2"
    ensures ParamString(PyCodePoints, [("aZ", "1"), ("a[", "2")]) == "aZ=1&a%5B=2"
    ensures RfcParamString([("aZ", "1"), ("a[", "2")]) == "a%5B=2&aZ=1"
  {
    var d := [("aZ", "1"), ("a[", "2")];
    SampleRawParamString(JsCodeUnits, d);
    SampleRawParamString(PyCodePoints, d);
    SampleRfcParamString(d);
  }

  /** The names and values of the sample, in insertion order, and the same
      pairs encoded and sorted by encoded name. */
  predicate IsSample(d: Dict)
  {
    d == [("aZ", "1"), ("a[", "2")]
  }

  predicate IsEncodedSample(d: Dict)
  {
    d == [("a%5B", "2"), ("aZ", "1")]
  }

  lemma SampleRfcParamString(d: Dict)
    requires IsSample(d)
    ensures DistinctKeys(d) && RfcParamString(d) == "a%5B=2&aZ=1"
  {
    var e := [("a%5B", "2"), ("aZ", "1")];
    SampleEncodedSorted(d, e);
    SampleJoinedPairs(e);
    JoinSmall("&", "a%5B=2", "aZ=1", "");
  }

  lemma SampleRawParamString(o: KeyOrder, d: Dict)
    requires IsSample(d)
    ensures DistinctKeys(d) && ParamString(o, d) == "aZ=1&a%5B=2"
  {
    SampleRawSorted(o, d);
    SamplePairTexts(d);
    JoinSmall("&", "aZ=1", "a%5B=2", "");
  }

  lemma SampleRawSorted(o: KeyOrder, d: Dict)
    requires IsSample(d)
    ensures DistinctKeys(d) && SortByKey(o, d) == d
  {
    assert Utf16("aZ") == [97, 90] && Utf16("a[") == [97, 91];
    assert CodePoints("aZ") == [97, 90] && CodePoints("a[") == [97, 91];
    assert LexLess([90], [91]);
    assert SortedBy(o, d);
    SortedUnique(o, d, SortByKey(o, d));
  }

  lemma SampleEncodedSorted(d: Dict, e: Dict)
    requires IsSample(d) && IsEncodedSample(e)
    ensures DistinctKeys(d) && SortByKey(PyCodePoints, EncodedPairs(d)) == e
  {
    EncodeUnreservedText("aZ");
    EncodeUnreservedText("1");
    EncodeUnreservedText("2");
    EncodeBracket();
    var p := EncodedPairs(d);
    assert p[0] == ("aZ", "1") && p[1] == ("a%5B", "2");
    assert CodePoints("aZ") == [97, 90];
    assert CodePoints("a%5B") == [97, 37, 53, 66];
    assert LexLess([37, 53, 66], [90]);
    assert SortedBy(PyCodePoints, e);
    assert forall q :: q in e <==> q in p;
    SortedUnique(PyCodePoints, e, SortByKey(PyCodePoints, p));
  }

  lemma SamplePairTexts(d: Dict)
    requires IsSample(d)
    ensures PairTexts(d) == ["aZ=1", "a%5B=2"]
  {
    EncodeUnreservedText("aZ");
    EncodeUnreservedText("1");
    EncodeBracket();
    EncodeUnreservedText("2");
    assert PairText("aZ", "1") == "aZ=1";
    assert PairText("a[", "2") == "a%5B=2";
  }

  lemma SampleJoinedPairs(e: Dict)
    requires IsEncodedSample(e)
    ensures JoinedPairs(e) == ["a%5B=2", "aZ=1"]
  {
    var j := JoinedPairs(e);
    assert j[0] == "a%5B=2" && j[1] == "aZ=1";
  }

  lemma EncodeUnreservedText(s: string)
    requires forall i | 0 <= i < |s| :: IsUnreserved(s[i])
    ensures Encode(s) == s
  {
    EncodeFixedPointIff(s);
  }

  lemma EncodeBracket()
    ensures Encode("a[") == "a%5B"
  {
    EncodeAppend("a", "[");
    assert "a" + "[" == "a[";
    UnreservedUnchanged('a');
    assert Utf8("[") == [0x5B];
    assert "[" == ['['];
    EscapeByteSingle(IsUnreserved, 0x5B);
    assert HexDigit(5) == '5' && HexDigit(11) == 'B';
  }

  predicate NamesUnreserved(d: Dict)
  {
    forall i, j | 0 <= i < |d| && 0 <= j < |d[i].0| :: IsUnreserved(d[i].0[j])
  }

  /** When every name consists of unreserved characters, as every name the
      code signs does, sorting before or after encoding makes no difference
      and the copies produce the parameter string of the standard. */
  lemma RfcAgreesOnUnreservedNames(o: KeyOrder, d: Dict)
    requires DistinctKeys(d) && NamesUnreserved(d)
    ensures ParamString(o, d) == RfcParamString(d)
  {
    var s := SortByKey(o, d);
    var e := SortByKey(PyCodePoints, EncodedPairs(d));
    SortedNamesUnchanged(o, d);
    EncodeAfterSort(o, d);
    forall i | 0 <= i < |s| ensures PairTexts(s)[i] == JoinedPairs(e)[i] {
    }
    assert PairTexts(s) == JoinedPairs(e);
  }

  /** The sorted names of such a set are unchanged by encoding. */
  lemma SortedNamesUnchanged(o: KeyOrder, d: Dict)
    requires DistinctKeys(d) && NamesUnreserved(d)
    ensures forall i | 0 <= i < |d| :: Encode(SortByKey(o, d)[i].0) == SortByKey(o, d)[i].0 && InBmp(SortByKey(o, d)[i].0)
  {
    var s := SortByKey(o, d);
    forall i | 0 <= i < |s| ensures Encode(s[i].0) == s[i].0 && InBmp(s[i].0) {
      assert s[i] in d;
      var k :| 0 <= k < |d| && d[k] == s[i];
      EncodeUnreservedText(d[k].0);
    }
  }

  /** Sorting by raw name and then encoding the values gives the encoded
      pairs sorted by encoded name. */
  lemma EncodeAfterSort(o: KeyOrder, d: Dict)
    requires DistinctKeys(d) && NamesUnreserved(d)
    ensures SortByKey(PyCodePoints, EncodedPairs(d)) ==
            seq(|d|, i requires 0 <= i < |d| => (SortByKey(o, d)[i].0, Encode(SortByKey(o, d)[i].1)))
  {
    var s := SortByKey(o, d);
    var s' := seq(|s|, i requires 0 <= i < |s| => (s[i].0, Encode(s[i].1)));
    EncodedSortedAscends(o, d, s');
    EncodedSortedSameEntries(o, d, s');
    SortedUnique(PyCodePoints, s', SortByKey(PyCodePoints, EncodedPairs(d)));
  }

  lemma EncodedSortedAscends(o: KeyOrder, d: Dict, s': Dict)
    requires DistinctKeys(d) && NamesUnreserved(d)
    requires |s'| == |d| && forall i | 0 <= i < |d| :: s'[i] == (SortByKey(o, d)[i].0, Encode(SortByKey(o, d)[i].1))
    ensures SortedBy(PyCodePoints, s')
  {
    var s := SortByKey(o, d);
    SortedNamesUnchanged(o, d);
    forall i, j | 0 <= i < j < |s'| ensures KeyLess(PyCodePoints, s'[i].0, s'[j].0) {
      OrdersAgreeInBmp(s[i].0);
      OrdersAgreeInBmp(s[j].0);
    }
  }

  lemma EncodedSortedSameEntries(o: KeyOrder, d: Dict, s': Dict)
    requires DistinctKeys(d) && NamesUnreserved(d)
    requires |s'| == |d| && forall i | 0 <= i < |d| :: s'[i] == (SortByKey(o, d)[i].0, Encode(SortByKey(o, d)[i].1))
    ensures forall p :: p in s' <==> p in EncodedPairs(d)
  {
    var s := SortByKey(o, d);
    SortedNamesUnchanged(o, d);
    forall p ensures p in s' <==> p in EncodedPairs(d) {
      if p in s' {
        var i :| 0 <= i < |s'| && s'[i] == p;
        assert s[i] in d;
        var k :| 0 <= k < |d| && d[k] == s[i];
        assert EncodedPairs(d)[k] == p;
      }
      if p in EncodedPairs(d) {
        var k :| 0 <= k < |d| && EncodedPairs(d)[k] == p;
        assert d[k] in s;
        var i :| 0 <= i < |s| && s[i] == d[k];
        assert s'[i] == p;
      }
    }
  }

  function EncodePair(p: (string, string)): (string, string)
  {
    (Encode(p.0), Encode(p.1))
  }

  lemma InEncodedPairs(d: Dict, p: (string, string), q: (string, string))
    ensures p in d <==> EncodePair(p) in EncodedPairs(d)
    ensures q in EncodedPairs(d) ==> exists i :: 0 <= i < |d| && q == EncodePair(d[i])
  {
    if EncodePair(p) in EncodedPairs(d) {
      var i :| 0 <= i < |d| && EncodedPairs(d)[i] == EncodePair(p);
      EncodeInjective(d[i].0, p.0);
      EncodeInjective(d[i].1, p.1);
      assert d[i] == p;
    }
    if p in d {
      var i :| 0 <= i < |d| && d[i] == p;
      assert EncodedPairs(d)[i] == EncodePair(p);
    }
    if q in EncodedPairs(d) {
      var i :| 0 <= i < |d| && EncodedPairs(d)[i] == q;
      assert q == EncodePair(d[i]);
    }
  }

  lemma EncodedMapIff(a: Dict, b: Dict)
    requires DistinctKeys(a) && DistinctKeys(b)
    ensures ToMap(EncodedPairs(a)) == ToMap(EncodedPairs(b)) <==> ToMap(a) == ToMap(b)
  {
    var ea, eb := EncodedPairs(a), EncodedPairs(b);
    if ToMap(ea) == ToMap(eb) {
      forall p ensures p in a <==> p in b {
        InEncodedPairs(a, p, p);
        InEncodedPairs(b, p, p);
        PairInIff(ea, EncodePair(p));
        PairInIff(eb, EncodePair(p));
      }
      SameEntriesSameMap(a, b);
    }
    if ToMap(a) == ToMap(b) {
      forall q ensures q in ea ==> q in eb {
        InEncodedPairs(a, q, q);
        if q in ea {
          var i :| 0 <= i < |a| && q == EncodePair(a[i]);
          PairInIff(a, a[i]);
          PairInIff(b, a[i]);
          InEncodedPairs(b, a[i], q);
        }
      }
      forall q ensures q in eb ==> q in ea {
        InEncodedPairs(b, q, q);
        if q in eb {
          var i :| 0 <= i < |b| && q == EncodePair(b[i]);
          PairInIff(b, b[i]);
          PairInIff(a, b[i]);
          InEncodedPairs(a, b[i], q);
        }
      }
      SameEntriesSameMap(ea, eb);
    }
  }

  /** An encoded pair has no `=` or `&` in its name or value. */
  lemma EncodedEntryFree(d: Dict, q: (string, string))
    requires q in EncodedPairs(d)
    ensures '=' !in q.0 && '=' !in q.1 && '&' !in q.0 && '&' !in q.1
  {
    InEncodedPairs(d, q, q);
    var i :| 0 <= i < |d| && q == EncodePair(d[i]);
    EncodeOutput(d[i].0);
    EncodeOutput(d[i].1);
  }

  lemma {:induction false} EqualsTextInjective(q1: (string, string), q2: (string, string))
    requires '=' !in q1.0 && '=' !in q1.1 && '=' !in q2.0 && '=' !in q2.1
    ensures q1.0 + "=" + q1.1 == q2.0 + "=" + q2.1 ==> q1 == q2
  {
    JoinSmall("=", q1.0, q1.1, "");
    JoinSmall("=", q2.0, q2.1, "");
    if q1.0 + "=" + q1.1 == q2.0 + "=" + q2.1 {
      JoinInjective("=", [q1.0, q1.1], [q2.0, q2.1]);
    }
  }

  lemma JoinedPairsOfEncoded(d: Dict, s: Dict)
    requires forall p :: p in s ==> p in EncodedPairs(d)
    ensures SeparatorFree("&", JoinedPairs(s))
    ensures forall i | 0 <= i < |s| :: |JoinedPairs(s)[i]| > 0
    ensures forall i | 0 <= i < |s| :: '=' !in s[i].0 && '=' !in s[i].1
  {
    forall i | 0 <= i < |s| ensures '&' !in JoinedPairs(s)[i] && '=' !in s[i].0 && '=' !in s[i].1 {
      assert s[i] in s;
      EncodedEntryFree(d, s[i]);
    }
  }

  /** The parameter string of the standard is canonical as well: it
      determines the names and values signed. */
  lemma {:induction false} RfcParamStringCanonical(a: Dict, b: Dict)
    requires DistinctKeys(a) && DistinctKeys(b)
    ensures RfcParamString(a) == RfcParamString(b) <==> ToMap(a) == ToMap(b)
  {
    var ea, eb := EncodedPairs(a), EncodedPairs(b);
    var sa, sb := SortByKey(PyCodePoints, ea), SortByKey(PyCodePoints, eb);
    EncodedMapIff(a, b);
    SortByKeyCanonical(PyCodePoints, ea, eb);
    if RfcParamString(a) == RfcParamString(b) {
      var ta, tb := JoinedPairs(sa), JoinedPairs(sb);
      JoinedPairsOfEncoded(a, sa);
      JoinedPairsOfEncoded(b, sb);
      JoinNonEmpty("&", ta);
      JoinNonEmpty("&", tb);
      if ta != [] && tb != [] {
        JoinInjective("&", ta, tb);
        forall i | 0 <= i < |sa| ensures sa[i] == sb[i] {
          EqualsTextInjective(sa[i], sb[i]);
        }
      }
      assert sa == sb;
    }
  }

  /** The sorted header of src/outh.ts lists consumer key, nonce,
      signature, signature method, timestamp, token (when given) and
      version: `oauth_signature` precedes `oauth_signature_method`, of
      which it is a prefix. */
  lemma SortedHeaderOrder(hmac: Hmac, st: Stamp, m: string, url: string, params: Dict,
                          consumerKey: string, consumerSecret: string, token: string, tokenSecret: string)
    requires DistinctKeys(params)
    ensures var r := SignSorted(hmac, st, m, url, params, consumerKey, consumerSecret, token, tokenSecret);
            Keys(r.entries) == if token != "" then SortedHeaderNames else SortedHeaderNames[..5] + SortedHeaderNames[6..]
  {
    var r := SignSorted(hmac, st, m, url, params, consumerKey, consumerSecret, token, tokenSecret);
    var oauth := OptionalTokenParams(consumerKey, st, token);
    assert r.entries == SortByKey(JsCodeUnits, Put(oauth, "oauth_signature", r.signature));
    if token != "" {
      SortedEntriesWithToken(consumerKey, st, token, r.signature);
    } else {
      SortedEntriesWithoutToken(consumerKey, st, r.signature);
    }
  }

  lemma SortedEntriesWithToken(consumerKey: string, st: Stamp, token: string, signature: string)
    requires token != ""
    ensures Keys(SortByKey(JsCodeUnits, Put(OptionalTokenParams(consumerKey, st, token), "oauth_signature", signature)))
            == SortedHeaderNames
  {
    var full := [("oauth_consumer_key", consumerKey), ("oauth_nonce", st.nonce), ("oauth_signature", signature),
                 ("oauth_signature_method", "HMAC-SHA1"), ("oauth_timestamp", st.timestamp),
                 ("oauth_token", token), ("oauth_version", "1.0")];
    var withSignature := Put(OptionalTokenParams(consumerKey, st, token), "oauth_signature", signature);
    assert withSignature == OptionalTokenParams(consumerKey, st, token) + [("oauth_signature", signature)];
    var a, b, c, d, e, f, g := full[0], full[1], full[2], full[3], full[4], full[5], full[6];
    assert withSignature == [a, b, d, e, g, f, c];
    Reordered(a, b, c, d, e, f, g);
    assert Keys(full) == SortedHeaderNames;
    SortedCandidate(full);
    SortByKeyIs(JsCodeUnits, withSignature, full);
  }

  lemma SortedEntriesWithoutToken(consumerKey: string, st: Stamp, signature: string)
    ensures Keys(SortByKey(JsCodeUnits, Put(OptionalTokenParams(consumerKey, st, ""), "oauth_signature", signature)))
            == SortedHeaderNames[..5] + SortedHeaderNames[6..]
  {
    var short := [("oauth_consumer_key", consumerKey), ("oauth_nonce", st.nonce), ("oauth_signature", signature),
                  ("oauth_signature_method", "HMAC-SHA1"), ("oauth_timestamp", st.timestamp), ("oauth_version", "1.0")];
    var withSignature := Put(OptionalTokenParams(consumerKey, st, ""), "oauth_signature", signature);
    assert withSignature == OptionalTokenParams(consumerKey, st, "") + [("oauth_signature", signature)];
    var a, b, c, d, e, g := short[0], short[1], short[2], short[3], short[4], short[5];
    assert withSignature == [a, b, d, e, g, c];
    Reordered(a, b, c, d, e, g, g);
    assert Keys(short) == SortedHeaderNames[..5] + SortedHeaderNames[6..];
    SortedCandidateWithoutToken(short);
    SortByKeyIs(JsCodeUnits, withSignature, short);
  }

  lemma SortedCandidateWithoutToken(c: Dict)
    requires Keys(c) == SortedHeaderNames[..5] + SortedHeaderNames[6..]
    ensures SortedBy(JsCodeUnits, c)
  {
    var full := c[..5] + [("oauth_token", "")] + c[5..];
    assert Keys(full) == SortedHeaderNames;
    SortedCandidate(full);
    SortedRemove(JsCodeUnits, full, 5);
    assert full[..5] + full[6..] == c;
  }

  /** The insertion order of the protocol parameters and the sorted order
      hold the same entries. */
  lemma Reordered<T>(a: T, b: T, c: T, d: T, e: T, f: T, g: T)
    ensures forall q :: q in [a, b, d, e, g, f, c] <==> q in [a, b, c, d, e, f, g]
    ensures forall q :: q in [a, b, d, e, g, c] <==> q in [a, b, c, d, e, g]
  {
  }

  lemma SortedCandidate(c: Dict)
    requires Keys(c) == SortedHeaderNames
    ensures SortedBy(JsCodeUnits, c)
  {
    HeaderNamesAscend();
    forall i | 0 <= i < |c| - 1 ensures KeyLess(JsCodeUnits, c[i].0, c[i + 1].0) {
      assert c[i].0 == SortedHeaderNames[i] && c[i + 1].0 == SortedHeaderNames[i + 1];
    }
    ChainSorted(JsCodeUnits, c);
  }

  /** The protocol names in the order the sorted header lists them. */
  const SortedHeaderNames: seq<string> :=
    ["oauth_consumer_key", "oauth_nonce", "oauth_signature", "oauth_signature_method", "oauth_timestamp", "oauth_token", "oauth_version"]

  lemma HeaderNamesAscend()
    ensures forall i | 0 <= i < 6 :: KeyLess(JsCodeUnits, SortedHeaderNames[i], SortedHeaderNames[i + 1])
  {
    ConsumerKeyBeforeNonce();
    NonceBeforeSignature();
    SignatureBeforeMethod();
    MethodBeforeTimestamp();
    TimestampBeforeToken();
    TokenBeforeVersion();
    StepsAscend(SortedHeaderNames);
  }

  lemma StepsAscend(n: seq<string>)
    requires |n| == 7
    requires KeyLess(JsCodeUnits, n[0], n[1]) && KeyLess(JsCodeUnits, n[1], n[2]) && KeyLess(JsCodeUnits, n[2], n[3])
    requires KeyLess(JsCodeUnits, n[3], n[4]) && KeyLess(JsCodeUnits, n[4], n[5]) && KeyLess(JsCodeUnits, n[5], n[6])
    ensures forall i | 0 <= i < 6 :: KeyLess(JsCodeUnits, n[i], n[i + 1])
  {
  }

  lemma ConsumerKeyBeforeNonce()
    ensures KeyLess(JsCodeUnits, SortedHeaderNames[0], SortedHeaderNames[1])
  {
    KeyLessAt(JsCodeUnits, SortedHeaderNames[0], SortedHeaderNames[1], 6);
  }

  lemma NonceBeforeSignature()
    ensures KeyLess(JsCodeUnits, SortedHeaderNames[1], SortedHeaderNames[2])
  {
    KeyLessAt(JsCodeUnits, SortedHeaderNames[1], SortedHeaderNames[2], 6);
  }

  lemma SignatureBeforeMethod()
    ensures KeyLess(JsCodeUnits, SortedHeaderNames[2], SortedHeaderNames[3])
  {
    KeyLessAt(JsCodeUnits, SortedHeaderNames[2], SortedHeaderNames[3], 15);
  }

  lemma MethodBeforeTimestamp()
    ensures KeyLess(JsCodeUnits, SortedHeaderNames[3], SortedHeaderNames[4])
  {
    KeyLessAt(JsCodeUnits, SortedHeaderNames[3], SortedHeaderNames[4], 6);
  }

  lemma TimestampBeforeToken()
    ensures KeyLess(JsCodeUnits, SortedHeaderNames[4], SortedHeaderNames[5])
  {
    KeyLessAt(JsCodeUnits, SortedHeaderNames[4], SortedHeaderNames[5], 7);
  }

  lemma TokenBeforeVersion()
    ensures KeyLess(JsCodeUnits, SortedHeaderNames[5], SortedHeaderNames[6])
  {
    KeyLessAt(JsCodeUnits, SortedHeaderNames[5], SortedHeaderNames[6], 6);
  }
}
