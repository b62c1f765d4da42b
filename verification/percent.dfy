/** Percent-encoding as the signers perform it. RFC 5849, section 3.6, asks
    for the UTF-8 bytes of a string to be written out with the unreserved
    characters of RFC 3986, section 2.3, kept and every other byte turned into
    `%` and two upper-case hexadecimal digits. Each copy of the signer reaches
    that rule a different way: a chain of `replace` calls after
    `encodeURIComponent`, one regular-expression `replace` after
    `encodeURIComponent`, or Python's `quote(s, safe='~')`. All three are
    modelled as written and shown equal to the one canonical `Encode`. */
module PercentEncoding {
  import opened Wrappers
  import opened Unicode
  import opened Text

  /** RFC 3986, section 2.3: ALPHA / DIGIT / "-" / "." / "_" / "~". */
  predicate IsUnreserved(c: char)
  {
    'A' <= c <= 'Z' || 'a' <= c <= 'z' || '0' <= c <= '9' || c == '-' || c == '.' || c == '_' || c == '~'
  }

  predicate IsUpperHex(c: char)
  {
    '0' <= c <= '9' || 'A' <= c <= 'F'
  }

  function HexDigit(d: int): (c: char)
    requires 0 <= d < 16
    ensures IsUpperHex(c)
  {
    if d < 10 then ('0' as int + d) as char else ('A' as int + d - 10) as char
  }

  /** One byte: kept as its ASCII character when `safe` allows that
      character, otherwise `%` and two upper-case hexadecimal digits. */
  function EscapeByte(safe: char -> bool, b: Byte): string
  {
    if b < 0x80 && safe(b as char) then [b as char] else ['%', HexDigit(b / 16), HexDigit(b % 16)]
  }

  function EscapeBytes(safe: char -> bool, bs: seq<Byte>): string
  {
    if bs == [] then "" else EscapeByte(safe, bs[0]) + EscapeBytes(safe, bs[1..])
  }

  /** The encoding RFC 5849, section 3.6, prescribes. */
  function Encode(s: string): string
  {
    EscapeBytes(IsUnreserved, Utf8(s))
  }

  // ------------------------------------------------ the copies as written

  /** The characters `encodeURIComponent` leaves alone: the unreserved ones
      and the five sub-delimiters `! ' ( ) *`. */
  predicate IsUriComponentSafe(c: char)
  {
    IsUnreserved(c) || c == '!' || c == '\'' || c == '(' || c == ')' || c == '*'
  }

  /** `encodeURIComponent(s)` for a string without lone surrogates. */
  function EncodeUriComponent(s: string): string
  {
    EscapeBytes(IsUriComponentSafe, Utf8(s))
  }

  /** Replaces every character of `t` by its image under `f`. */
  function FlatMap(t: string, f: char -> string): string
  {
    if t == [] then "" else f(t[0]) + FlatMap(t[1..], f)
  }

  /** `t.replace(/c/g, r)` for a single literal character `c`. */
  function ReplaceAll(t: string, c: char, r: string): string
  {
    if t == [] then "" else (if t[0] == c then r else [t[0]]) + ReplaceAll(t[1..], c, r)
  }

  /** `percentEncode` of src/utils.ts: `encodeURIComponent` followed by five
      `replace` calls, one per sub-delimiter. */
  function UtilsPercentEncode(s: string): string
  {
    var t := EncodeUriComponent(s);
    ReplaceAll(ReplaceAll(ReplaceAll(ReplaceAll(ReplaceAll(t, '!', "%21"), '\'', "%27"), '*', "%2A"), '(', "%28"), ')', "%29")
  }

  function LowerHexDigit(d: int): char
    requires 0 <= d < 16
  {
    if d < 10 then ('0' as int + d) as char else ('a' as int + d - 10) as char
  }

  /** `n.toString(16)`: the shortest lower-case hexadecimal rendering. */
  function ToLowerHex(n: nat): (r: string)
    ensures r != []
  {
    if n < 16 then [LowerHexDigit(n)] else ToLowerHex(n / 16) + [LowerHexDigit(n % 16)]
  }

  /** The callback of the regular-expression copies: a character of the class
      `[!'()*]` becomes `'%' + c.charCodeAt(0).toString(16).toUpperCase()`. */
  function EscapeSubDelim(c: char): string
  {
    if c == '!' || c == '\'' || c == '(' || c == ')' || c == '*' then "%" + AsciiUpper(ToLowerHex(c as int)) else [c]
  }

  /** `percentEncode` of src/finaltest.ts, src/authtest.ts, src/testoAuth.ts
      and src/mediaTweet.ts: `encodeURIComponent` and one global `replace`
      over the class of the five sub-delimiters, whose order in the class
      differs between the copies and does not matter. */
  function RegexPercentEncode(s: string): string
  {
    FlatMap(EncodeUriComponent(s), EscapeSubDelim)
  }

  /** The bytes Python's `quote` never escapes: letters, digits and `_.-~`. */
  predicate IsAlwaysSafe(c: char)
  {
    'A' <= c <= 'Z' || 'a' <= c <= 'z' || '0' <= c <= '9' || c == '_' || c == '.' || c == '-' || c == '~'
  }

  /** `urllib.parse.quote(s, safe)`: the UTF-8 bytes of `s`, with the always
      safe ASCII characters and the ASCII characters of `safe` kept. */
  function Quote(s: string, safe: string): string
  {
    EscapeBytes(c => IsAlwaysSafe(c) || c in safe, Utf8(s))
  }

  /** `percent_encode` of src/workatofinal.py and src/workato.py. */
  function PyPercentEncode(s: string): string
  {
    Quote(s, "~")
  }

  // ---------------------------------------------- the copies are all Encode

  lemma {:induction false} FlatMapAppend(t: string, u: string, f: char -> string)
    ensures FlatMap(t + u, f) == FlatMap(t, f) + FlatMap(u, f)
  {
    if t == [] {
      assert t + u == u;
    } else {
      assert (t + u)[0] == t[0] && (t + u)[1..] == t[1..] + u;
      FlatMapAppend(t[1..], u, f);
    }
  }

  lemma {:induction false} EscapeBytesAppend(safe: char -> bool, a: seq<Byte>, b: seq<Byte>)
    ensures EscapeBytes(safe, a + b) == EscapeBytes(safe, a) + EscapeBytes(safe, b)
  {
    if a == [] {
      assert a + b == b;
    } else {
      assert (a + b)[0] == a[0] && (a + b)[1..] == a[1..] + b;
      EscapeBytesAppend(safe, a[1..], b);
    }
  }

  /** The five replacements of src/utils.ts, one after the other. */
  function ReplaceChain(t: string): string
  {
    ReplaceAll(ReplaceAll(ReplaceAll(ReplaceAll(ReplaceAll(t, '!', "%21"), '\'', "%27"), '*', "%2A"), '(', "%28"), ')', "%29")
  }

  lemma {:induction false} ReplaceAllAppend(t: string, u: string, c: char, r: string)
    ensures ReplaceAll(t + u, c, r) == ReplaceAll(t, c, r) + ReplaceAll(u, c, r)
  {
    if t == [] {
      assert t + u == u;
    } else {
      assert (t + u)[0] == t[0] && (t + u)[1..] == t[1..] + u;
      ReplaceAllAppend(t[1..], u, c, r);
    }
  }

  lemma {:induction false} ReplaceAllAbsent(t: string, c: char, r: string)
    requires c !in t
    ensures ReplaceAll(t, c, r) == t
  {
    if t != [] {
      forall i | 0 <= i < |t[1..]| ensures t[1..][i] != c {
        assert t[1..][i] == t[i + 1];
      }
      ReplaceAllAbsent(t[1..], c, r);
      assert [t[0]] + t[1..] == t;
    }
  }

  lemma ReplaceChainAppend(t: string, u: string)
    ensures ReplaceChain(t + u) == ReplaceChain(t) + ReplaceChain(u)
  {
    var t1, u1 := ReplaceAll(t, '!', "%21"), ReplaceAll(u, '!', "%21");
    ReplaceAllAppend(t, u, '!', "%21");
    var t2, u2 := ReplaceAll(t1, '\'', "%27"), ReplaceAll(u1, '\'', "%27");
    ReplaceAllAppend(t1, u1, '\'', "%27");
    var t3, u3 := ReplaceAll(t2, '*', "%2A"), ReplaceAll(u2, '*', "%2A");
    ReplaceAllAppend(t2, u2, '*', "%2A");
    var t4, u4 := ReplaceAll(t3, '(', "%28"), ReplaceAll(u3, '(', "%28");
    ReplaceAllAppend(t3, u3, '(', "%28");
    ReplaceAllAppend(t4, u4, ')', "%29");
  }

  /** Text made of '%' and upper-case hexadecimal digits is left alone. */
  lemma ReplaceChainKeeps(t: string)
    requires forall i | 0 <= i < |t| :: t[i] == '%' || IsUpperHex(t[i])
    ensures ReplaceChain(t) == t
  {
    ReplaceAllAbsent(t, '!', "%21");
    ReplaceAllAbsent(t, '\'', "%27");
    ReplaceAllAbsent(t, '*', "%2A");
    ReplaceAllAbsent(t, '(', "%28");
    ReplaceAllAbsent(t, ')', "%29");
  }

  lemma ReplaceAllSingle(x: char, c: char, r: string)
    ensures ReplaceAll([x], c, r) == if x == c then r else [x]
  {
    assert [x][1..] == [];
  }

  predicate IsSubDelim(c: char)
  {
    c == '!' || c == '\'' || c == '(' || c == ')' || c == '*'
  }

  /** What `Encode` writes for an ASCII character it escapes. */
  function Escaped(c: char): string
    requires c as int < 0x80
  {
    ['%', HexDigit(c as int / 16), HexDigit(c as int % 16)]
  }

  /** One replacement of the chain, applied to a sub-delimiter that is still
      literal or already escaped. */
  lemma ChainStep(c: char, d: char, r: string, t: string)
    requires IsSubDelim(c) && IsSubDelim(d)
    requires t == [c] || t == Escaped(c)
    requires d == c ==> r == Escaped(c)
    ensures ReplaceAll(t, d, r) == if d == c then Escaped(c) else t
  {
    if t == [c] {
      ReplaceAllSingle(c, d, r);
    } else {
      ReplaceAllAbsent(t, d, r);
    }
  }

  /** The chain escapes each sub-delimiter exactly once. */
  lemma ChainFires(c: char)
    requires IsSubDelim(c)
    ensures ReplaceChain([c]) == Escaped(c)
  {
    var t1 := ReplaceAll([c], '!', "%21");
    ChainStep(c, '!', "%21", [c]);
    var t2 := ReplaceAll(t1, '\'', "%27");
    ChainStep(c, '\'', "%27", t1);
    var t3 := ReplaceAll(t2, '*', "%2A");
    ChainStep(c, '*', "%2A", t2);
    var t4 := ReplaceAll(t3, '(', "%28");
    ChainStep(c, '(', "%28", t3);
    ChainStep(c, ')', "%29", t4);
  }

  lemma ChainSkips(c: char)
    requires !IsSubDelim(c)
    ensures ReplaceChain([c]) == [c]
  {
    ReplaceAllSingle(c, '!', "%21");
    ReplaceAllSingle(c, '\'', "%27");
    ReplaceAllSingle(c, '*', "%2A");
    ReplaceAllSingle(c, '(', "%28");
    ReplaceAllSingle(c, ')', "%29");
  }

  lemma EscapeByteSingle(safe: char -> bool, b: Byte)
    ensures EscapeBytes(safe, [b]) == EscapeByte(safe, b)
  {
    assert [b][1..] == [];
  }

  lemma ReplaceChainByte(b: Byte)
    ensures ReplaceChain(EscapeByte(IsUriComponentSafe, b)) == EscapeByte(IsUnreserved, b)
  {
    var c := b as char;
    if b < 0x80 && IsUriComponentSafe(c) {
      if !IsUnreserved(c) {
        ChainFires(c);
      } else {
        ChainSkips(c);
      }
    } else {
      ReplaceChainKeeps(['%', HexDigit(b / 16), HexDigit(b % 16)]);
    }
  }

  lemma {:induction false} ReplaceChainBytes(bs: seq<Byte>)
    ensures ReplaceChain(EscapeBytes(IsUriComponentSafe, bs)) == EscapeBytes(IsUnreserved, bs)
  {
    if bs != [] {
      ReplaceChainAppend(EscapeByte(IsUriComponentSafe, bs[0]), EscapeBytes(IsUriComponentSafe, bs[1..]));
      ReplaceChainByte(bs[0]);
      ReplaceChainBytes(bs[1..]);
    }
  }

  /** src/utils.ts: `encodeURIComponent` and the five replacements produce
      exactly the RFC 5849 encoding. */
  lemma UtilsPercentEncodeIsEncode(s: string)
    ensures UtilsPercentEncode(s) == Encode(s)
  {
    ReplaceChainBytes(Utf8(s));
  }

  lemma {:induction false} FlatMapKeeps(t: string, f: char -> string)
    requires forall i | 0 <= i < |t| :: f(t[i]) == [t[i]]
    ensures FlatMap(t, f) == t
  {
    if t != [] {
      FlatMapKeeps(t[1..], f);
      assert [t[0]] + t[1..] == t;
    }
  }

  /** `toString(16).toUpperCase()` of a sub-delimiter gives the two digits
      `Encode` writes for it. */
  lemma SubDelimHex(b: Byte)
    requires b == 0x21 || b == 0x27 || b == 0x28 || b == 0x29 || b == 0x2A
    ensures "%" + AsciiUpper(ToLowerHex(b)) == ['%', HexDigit(b / 16), HexDigit(b % 16)]
  {
    var h := ToLowerHex(b);
    assert h == [LowerHexDigit(b / 16), LowerHexDigit(b % 16)];
    var u := AsciiUpper(h);
    assert u[0] == HexDigit(b / 16) && u[1] == HexDigit(b % 16);
    assert u == [u[0], u[1]];
  }

  lemma EscapeSubDelimByte(b: Byte)
    ensures FlatMap(EscapeByte(IsUriComponentSafe, b), EscapeSubDelim) == EscapeByte(IsUnreserved, b)
  {
    var c := b as char;
    if b < 0x80 && IsUriComponentSafe(c) {
      assert FlatMap([c], EscapeSubDelim) == EscapeSubDelim(c) + FlatMap([], EscapeSubDelim);
      if !IsUnreserved(c) {
        SubDelimHex(b);
      }
    } else {
      FlatMapKeeps(['%', HexDigit(b / 16), HexDigit(b % 16)], EscapeSubDelim);
    }
  }

  lemma {:induction false} EscapeSubDelimBytes(bs: seq<Byte>)
    ensures FlatMap(EscapeBytes(IsUriComponentSafe, bs), EscapeSubDelim) == EscapeBytes(IsUnreserved, bs)
  {
    if bs != [] {
      FlatMapAppend(EscapeByte(IsUriComponentSafe, bs[0]), EscapeBytes(IsUriComponentSafe, bs[1..]), EscapeSubDelim);
      EscapeSubDelimByte(bs[0]);
      EscapeSubDelimBytes(bs[1..]);
    }
  }

  /** The regular-expression copies produce exactly the RFC 5849 encoding:
      `toString(16)` of each sub-delimiter has two digits, and upper-casing
      makes them the digits `Encode` writes. */
  lemma RegexPercentEncodeIsEncode(s: string)
    ensures RegexPercentEncode(s) == Encode(s)
  {
    EscapeSubDelimBytes(Utf8(s));
  }

  lemma {:induction false} SameSafeSameEscape(p: char -> bool, q: char -> bool, bs: seq<Byte>)
    requires forall c: char | c as int < 0x80 :: p(c) == q(c)
    ensures EscapeBytes(p, bs) == EscapeBytes(q, bs)
  {
    if bs != [] {
      SameSafeSameEscape(p, q, bs[1..]);
    }
  }

  /** The Python copies: `quote` with `safe='~'` keeps exactly the unreserved
      characters, so it is the RFC 5849 encoding too. */
  lemma PyPercentEncodeIsEncode(s: string)
    ensures PyPercentEncode(s) == Encode(s)
  {
    var p := c => IsAlwaysSafe(c) || c in "~";
    SameSafeSameEscape(p, IsUnreserved, Utf8(s));
  }

  // ----------------------------------------------------- what Encode means

  /** The encoding works character by character. */
  lemma EncodeAppend(a: string, b: string)
    ensures Encode("") == ""
    ensures Encode(a + b) == Encode(a) + Encode(b)
  {
    Utf8Append(a, b);
    EscapeBytesAppend(IsUnreserved, Utf8(a), Utf8(b));
  }

  /** Unreserved characters stand for themselves. */
  lemma UnreservedUnchanged(c: char)
    requires IsUnreserved(c)
    ensures Encode([c]) == [c]
  {
    assert [c][1..] == [];
    assert Utf8([c]) == [c as int];
    EscapeByteSingle(IsUnreserved, c as int);
    assert EscapeByte(IsUnreserved, c as int) == [c];
  }

  /** The sub-delimiters `encodeURIComponent` would keep are escaped, and so is
      the space (as `%20`, never `+`). */
  lemma SubDelimsEscaped()
    ensures Encode("!") == "%21" && Encode("'") == "%27" && Encode("*") == "%2A"
    ensures Encode("(") == "%28" && Encode(")") == "%29" && Encode(" ") == "%20"
  {
    assert Utf8("!") == [0x21];
    assert Utf8("'") == [0x27];
    assert Utf8("*") == [0x2A];
    assert Utf8("(") == [0x28];
    assert Utf8(")") == [0x29];
    assert Utf8(" ") == [0x20];
  }

  /** Characters outside the unreserved set take at least three output
      characters. */
  lemma {:induction false} EscapeBytesLength(bs: seq<Byte>)
    requires forall i | 0 <= i < |bs| :: bs[i] >= 0x80
    ensures |EscapeBytes(IsUnreserved, bs)| == 3 * |bs|
  {
    if bs != [] {
      EscapeBytesLength(bs[1..]);
    }
  }

  lemma EncodeCharLength(c: char)
    ensures IsUnreserved(c) ==> |Encode([c])| == 1
    ensures !IsUnreserved(c) ==> |Encode([c])| >= 3
  {
    assert [c][1..] == [];
    assert Utf8([c]) == Utf8Char(c);
    if c as int >= 0x80 {
      EscapeBytesLength(Utf8Char(c));
    } else {
      EscapeByteSingle(IsUnreserved, c as int);
    }
  }

  lemma {:induction false} EncodeLength(s: string)
    ensures |Encode(s)| >= |s|
    ensures |Encode(s)| == |s| ==> forall i | 0 <= i < |s| :: IsUnreserved(s[i])
  {
    if s != [] {
      EncodeAppend([s[0]], s[1..]);
      assert [s[0]] + s[1..] == s;
      EncodeCharLength(s[0]);
      EncodeLength(s[1..]);
      if |Encode(s)| == |s| {
        forall i | 0 <= i < |s| ensures IsUnreserved(s[i]) {
          if i > 0 {
            assert s[i] == s[1..][i - 1];
          }
        }
      }
    }
  }

  /** A string is left unchanged exactly when all its characters are
      unreserved. */
  lemma {:induction false} EncodeFixedPointIff(s: string)
    ensures Encode(s) == s <==> forall i | 0 <= i < |s| :: IsUnreserved(s[i])
  {
    EncodeLength(s);
    if s != [] && forall i | 0 <= i < |s| :: IsUnreserved(s[i]) {
      EncodeAppend([s[0]], s[1..]);
      assert [s[0]] + s[1..] == s;
      UnreservedUnchanged(s[0]);
      assert forall i | 0 <= i < |s[1..]| :: IsUnreserved(s[1..][i]) by {
        forall i | 0 <= i < |s[1..]| ensures IsUnreserved(s[1..][i]) {
          assert s[1..][i] == s[i + 1];
        }
      }
      EncodeFixedPointIff(s[1..]);
    }
  }

  /** Encoded text: unreserved characters and `%HH` triples with upper-case
      digits, and nothing else. */
  predicate IsEncodedForm(t: string)
    decreases |t|
  {
    if t == [] then true
    else if IsUnreserved(t[0]) then IsEncodedForm(t[1..])
    else |t| >= 3 && t[0] == '%' && IsUpperHex(t[1]) && IsUpperHex(t[2]) && IsEncodedForm(t[3..])
  }

  lemma {:induction false} EncodedFormAppend(t: string, u: string)
    requires IsEncodedForm(t) && IsEncodedForm(u)
    ensures IsEncodedForm(t + u)
    decreases |t|
  {
    if t != [] {
      if IsUnreserved(t[0]) {
        assert (t + u)[0] == t[0] && (t + u)[1..] == t[1..] + u;
        EncodedFormAppend(t[1..], u);
      } else {
        assert (t + u)[0] == t[0] && (t + u)[1] == t[1] && (t + u)[2] == t[2];
        assert (t + u)[3..] == t[3..] + u;
        EncodedFormAppend(t[3..], u);
      }
    } else {
      assert t + u == u;
    }
  }

  lemma {:induction false} EscapeBytesForm(bs: seq<Byte>)
    ensures IsEncodedForm(EscapeBytes(IsUnreserved, bs))
  {
    if bs != [] {
      var h := EscapeByte(IsUnreserved, bs[0]);
      assert IsEncodedForm(h) by {
        if !IsUnreserved(h[0]) {
          assert h[3..] == [];
        } else {
          assert h[1..] == [];
        }
      }
      EscapeBytesForm(bs[1..]);
      EncodedFormAppend(h, EscapeBytes(IsUnreserved, bs[1..]));
    }
  }

  lemma {:induction false} EncodedFormChars(t: string)
    requires IsEncodedForm(t)
    ensures forall i | 0 <= i < |t| :: IsUnreserved(t[i]) || t[i] == '%' || IsUpperHex(t[i])
    decreases |t|
  {
    if t != [] {
      var k := if IsUnreserved(t[0]) then 1 else 3;
      assert IsEncodedForm(t[k..]);
      EncodedFormChars(t[k..]);
      forall i | 0 <= i < |t| ensures IsUnreserved(t[i]) || t[i] == '%' || IsUpperHex(t[i]) {
        if i >= k {
          assert t[i] == t[k..][i - k];
        }
      }
    }
  }

  /** Every output is in encoded form, so it holds none of the characters the
      signers use as separators: `&` and `=` in the parameter and base
      strings, `"` and `,` in the header. */
  lemma EncodeOutput(s: string)
    ensures IsEncodedForm(Encode(s))
    ensures forall i | 0 <= i < |Encode(s)| :: IsUnreserved(Encode(s)[i]) || Encode(s)[i] == '%'
    ensures '&' !in Encode(s) && '=' !in Encode(s) && '"' !in Encode(s) && ',' !in Encode(s)
  {
    EscapeBytesForm(Utf8(s));
    EncodedFormChars(Encode(s));
  }

  // ------------------------------------------------------------- decoding

  function HexValue(c: char): Option<int>
  {
    if '0' <= c <= '9' then Some(c as int - '0' as int)
    else if 'A' <= c <= 'F' then Some(c as int - 'A' as int + 10)
    else if 'a' <= c <= 'f' then Some(c as int - 'a' as int + 10)
    else None
  }

  /** Percent-decoding to bytes: `%HH` (either case) is one byte, any other
      ASCII character stands for itself, and a stray `%` or a non-ASCII
      character is an error. */
  function PercentDecode(t: string): Option<seq<Byte>>
    decreases |t|
  {
    if t == [] then Some([])
    else if t[0] == '%' then
      if |t| < 3 then None
      else match (HexValue(t[1]), HexValue(t[2]))
        case (Some(hi), Some(lo)) =>
          (match PercentDecode(t[3..])
           case Some(rest) => if 0 <= hi * 16 + lo < 256 then Some([hi * 16 + lo] + rest) else None
           case None => None)
        case _ => None
    else if t[0] as int < 0x80 then
      match PercentDecode(t[1..])
      case Some(rest) => Some([t[0] as int] + rest)
      case None => None
    else None
  }

  /** Percent-decoding followed by UTF-8 decoding. */
  function DecodeString(t: string): Option<string>
  {
    match PercentDecode(t)
    case Some(bs) => DecodeUtf8(bs)
    case None => None
  }

  lemma EscapeByteDecodes(b: Byte, rest: string)
    ensures PercentDecode(EscapeByte(IsUnreserved, b) + rest) ==
      match PercentDecode(rest) case Some(r) => Some([b] + r) case None => None
  {
    var t := EscapeByte(IsUnreserved, b) + rest;
    if b < 0x80 && IsUnreserved(b as char) {
      assert t[0] == b as char && t[1..] == rest;
    } else {
      var hi, lo := b / 16, b % 16;
      assert HexValue(HexDigit(hi)) == Some(hi) && HexValue(HexDigit(lo)) == Some(lo);
      assert t[0] == '%' && t[1] == HexDigit(hi) && t[2] == HexDigit(lo) && t[3..] == rest;
    }
  }

  lemma {:induction false} EscapeBytesDecode(bs: seq<Byte>)
    ensures PercentDecode(EscapeBytes(IsUnreserved, bs)) == Some(bs)
  {
    if bs != [] {
      EscapeByteDecodes(bs[0], EscapeBytes(IsUnreserved, bs[1..]));
      EscapeBytesDecode(bs[1..]);
      assert [bs[0]] + bs[1..] == bs;
    }
  }

  /** Decoding the encoding of a string gives the string back. */
  lemma EncodeRoundTrip(s: string)
    ensures DecodeString(Encode(s)) == Some(s)
  {
    EscapeBytesDecode(Utf8(s));
    Utf8RoundTrip(s);
  }

  /** Hence the encoding is injective: distinct strings never collide. */
  lemma EncodeInjective(s: string, t: string)
    ensures Encode(s) == Encode(t) <==> s == t
  {
    EncodeRoundTrip(s);
    EncodeRoundTrip(t);
  }
}
