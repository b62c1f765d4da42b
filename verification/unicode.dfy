/** Text as the signing code handles it. A Dafny `string` is a sequence of
    Unicode scalar values. `encodeURIComponent` and Python's `quote` escape the
    UTF-8 bytes of a string (RFC 3629), and JavaScript's default `sort`
    compares strings by their UTF-16 code units (RFC 2781). Both encodings are
    defined here with a decoder that inverts them. */
module Unicode {
  import opened Wrappers

  type Byte = b: int | 0 <= b < 256

  predicate IsScalar(n: int) {
    0 <= n < 0xD800 || 0xE000 <= n < 0x110000
  }

  // ---------------------------------------------------------------- UTF-8

  /** The UTF-8 encoding of one scalar value (RFC 3629, section 3). */
  function Utf8Char(c: char): (bs: seq<Byte>)
    ensures 1 <= |bs| <= 4
    ensures c as int < 0x80 ==> bs == [c as int]
    ensures c as int >= 0x80 ==> forall i | 0 <= i < |bs| :: bs[i] >= 0x80
  {
    var n := c as int;
    if n < 0x80 then [n]
    else if n < 0x800 then [0xC0 + n / 64, 0x80 + n % 64]
    else if n < 0x10000 then [0xE0 + n / 4096, 0x80 + (n / 64) % 64, 0x80 + n % 64]
    else [0xF0 + n / 262144, 0x80 + (n / 4096) % 64, 0x80 + (n / 64) % 64, 0x80 + n % 64]
  }

  /** The UTF-8 encoding of a string: its characters' encodings, in order. */
  function Utf8(s: string): seq<Byte>
  {
    if s == [] then [] else Utf8Char(s[0]) + Utf8(s[1..])
  }

  predicate IsContinuation(b: Byte) {
    0x80 <= b < 0xC0
  }

  /** Reads one character from the front of `bs`: the character and the
      number of bytes it took, or None when `bs` does not start with one. */
  function DecodeUtf8Char(bs: seq<Byte>): (r: Option<(char, nat)>)
    ensures r.Some? ==> 1 <= r.value.1 <= |bs|
  {
    if |bs| == 0 then None
    else if bs[0] < 0x80 then Some((bs[0] as char, 1))
    else if bs[0] < 0xC0 then None
    else if bs[0] < 0xE0 then
      if |bs| < 2 || !IsContinuation(bs[1]) then None
      else Some((((bs[0] as int - 0xC0) * 64 + (bs[1] as int - 0x80)) as char, 2))
    else if bs[0] < 0xF0 then
      if |bs| < 3 || !IsContinuation(bs[1]) || !IsContinuation(bs[2]) then None
      else
        var n := (bs[0] as int - 0xE0) * 4096 + (bs[1] as int - 0x80) * 64 + (bs[2] as int - 0x80);
        if IsScalar(n) then Some((n as char, 3)) else None
    else if bs[0] < 0xF8 then
      if |bs| < 4 || !IsContinuation(bs[1]) || !IsContinuation(bs[2]) || !IsContinuation(bs[3]) then None
      else
        var n := (bs[0] as int - 0xF0) * 262144 + (bs[1] as int - 0x80) * 4096 + (bs[2] as int - 0x80) * 64 + (bs[3] as int - 0x80);
        if IsScalar(n) then Some((n as char, 4)) else None
    else None
  }

  /** Decodes a whole byte sequence, or None if it is not well-formed. */
  function DecodeUtf8(bs: seq<Byte>): Option<string>
    decreases |bs|
  {
    if bs == [] then Some([])
    else match DecodeUtf8Char(bs)
      case None => None
      case Some((c, k)) =>
        match DecodeUtf8(bs[k..])
        case None => None
        case Some(rest) => Some([c] + rest)
  }

  lemma Utf8CharDecodes(c: char, rest: seq<Byte>)
    ensures DecodeUtf8Char(Utf8Char(c) + rest) == Some((c, |Utf8Char(c)|))
  {
    var n := c as int;
    if n < 0x80 {
    } else if n < 0x800 {
      Utf8TwoDecodes(c, rest);
    } else if n < 0x10000 {
      Utf8ThreeDecodes(c, rest);
    } else {
      Utf8FourDecodes(c, rest);
    }
  }

  lemma Utf8TwoDecodes(c: char, rest: seq<Byte>)
    requires 0x80 <= c as int < 0x800
    ensures DecodeUtf8Char(Utf8Char(c) + rest) == Some((c, 2))
  {
    var n := c as int;
    var b0, b1 := 0xC0 + n / 64, 0x80 + n % 64;
    assert (b0 - 0xC0) * 64 + (b1 - 0x80) == n;
    var bs := Utf8Char(c) + rest;
    assert bs[0] == b0 && bs[1] == b1;
  }

  lemma Utf8ThreeDecodes(c: char, rest: seq<Byte>)
    requires 0x800 <= c as int < 0x10000
    ensures DecodeUtf8Char(Utf8Char(c) + rest) == Some((c, 3))
  {
    var n := c as int;
    var b0, b1, b2 := 0xE0 + n / 4096, 0x80 + (n / 64) % 64, 0x80 + n % 64;
    assert (b0 - 0xE0) * 4096 + (b1 - 0x80) * 64 + (b2 - 0x80) == n;
    var bs := Utf8Char(c) + rest;
    assert bs[0] == b0 && bs[1] == b1 && bs[2] == b2;
  }

  lemma Utf8FourDecodes(c: char, rest: seq<Byte>)
    requires 0x10000 <= c as int
    ensures DecodeUtf8Char(Utf8Char(c) + rest) == Some((c, 4))
  {
    var n := c as int;
    FourByteDigits(n);
    var bs := Utf8Char(c) + rest;
    assert bs[0] == 0xF0 + n / 262144 && bs[1] == 0x80 + (n / 4096) % 64;
    assert bs[2] == 0x80 + (n / 64) % 64 && bs[3] == 0x80 + n % 64;
  }

  /** The four digits of a supplementary scalar value in bases 64 and 8. */
  lemma FourByteDigits(n: int)
    requires 0x10000 <= n < 0x110000
    ensures 0xF0 <= 0xF0 + n / 262144 < 0xF8
    ensures (n / 262144) * 262144 + ((n / 4096) % 64) * 4096 + ((n / 64) % 64) * 64 + n % 64 == n
  {
  }

  /** UTF-8 is a homomorphism from strings to byte sequences. */
  lemma {:induction false} Utf8Append(a: string, b: string)
    ensures Utf8(a + b) == Utf8(a) + Utf8(b)
  {
    if a == [] {
      assert a + b == b;
    } else {
      assert (a + b)[0] == a[0] && (a + b)[1..] == a[1..] + b;
      Utf8Append(a[1..], b);
    }
  }

  /** Decoding the UTF-8 encoding of a string gives the string back. */
  lemma {:induction false} Utf8RoundTrip(s: string)
    ensures DecodeUtf8(Utf8(s)) == Some(s)
  {
    if s != [] {
      Utf8CharDecodes(s[0], Utf8(s[1..]));
      var bs := Utf8(s);
      assert bs[|Utf8Char(s[0])|..] == Utf8(s[1..]);
      Utf8RoundTrip(s[1..]);
      assert [s[0]] + s[1..] == s;
    }
  }

  /** Hence distinct strings have distinct UTF-8 encodings. */
  lemma Utf8Injective(s: string, t: string)
    requires Utf8(s) == Utf8(t)
    ensures s == t
  {
    Utf8RoundTrip(s);
    Utf8RoundTrip(t);
  }

  // --------------------------------------------------------------- UTF-16

  /** The UTF-16 code units of one scalar value (RFC 2781, section 2.1). */
  function Utf16Char(c: char): (us: seq<int>)
    ensures 1 <= |us| <= 2
    ensures forall i | 0 <= i < |us| :: 0 <= us[i] < 0x10000
  {
    var n := c as int;
    if n < 0x10000 then [n]
    else [0xD800 + (n - 0x10000) / 1024, 0xDC00 + (n - 0x10000) % 1024]
  }

  /** The UTF-16 code units of a string, as JavaScript stores it. */
  function Utf16(s: string): seq<int>
  {
    if s == [] then [] else Utf16Char(s[0]) + Utf16(s[1..])
  }

  /** Reads one character from the front of a code unit sequence. */
  function DecodeUtf16Char(us: seq<int>): (r: Option<(char, nat)>)
    ensures r.Some? ==> 1 <= r.value.1 <= |us|
  {
    if |us| == 0 then None
    else if IsScalar(us[0]) && us[0] < 0x10000 then Some((us[0] as char, 1))
    else if 0xD800 <= us[0] < 0xDC00 && |us| >= 2 && 0xDC00 <= us[1] < 0xE000 then
      Some(((0x10000 + (us[0] - 0xD800) * 1024 + (us[1] - 0xDC00)) as char, 2))
    else None
  }

  function DecodeUtf16(us: seq<int>): Option<string>
    decreases |us|
  {
    if us == [] then Some([])
    else match DecodeUtf16Char(us)
      case None => None
      case Some((c, k)) =>
        match DecodeUtf16(us[k..])
        case None => None
        case Some(rest) => Some([c] + rest)
  }

  lemma Utf16CharDecodes(c: char, rest: seq<int>)
    ensures DecodeUtf16Char(Utf16Char(c) + rest) == Some((c, |Utf16Char(c)|))
  {
    var n := c as int;
    var us := Utf16Char(c) + rest;
    if n >= 0x10000 {
      var m := n - 0x10000;
      assert us[0] == 0xD800 + m / 1024 && us[1] == 0xDC00 + m % 1024;
      assert 0x10000 + (us[0] - 0xD800) * 1024 + (us[1] - 0xDC00) == n;
    }
  }

  /** Decoding the UTF-16 form of a string gives the string back. */
  lemma {:induction false} Utf16RoundTrip(s: string)
    ensures DecodeUtf16(Utf16(s)) == Some(s)
  {
    if s != [] {
      Utf16CharDecodes(s[0], Utf16(s[1..]));
      var us := Utf16(s);
      assert us[|Utf16Char(s[0])|..] == Utf16(s[1..]);
      Utf16RoundTrip(s[1..]);
      assert [s[0]] + s[1..] == s;
    }
  }

  lemma Utf16Injective(s: string, t: string)
    requires Utf16(s) == Utf16(t)
    ensures s == t
  {
    Utf16RoundTrip(s);
    Utf16RoundTrip(t);
  }

  // ----------------------------------------------------------- code points

  /** The code points of a string, as Python compares it. */
  function CodePoints(s: string): (ns: seq<int>)
    ensures |ns| == |s|
    ensures forall i | 0 <= i < |s| :: ns[i] == s[i] as int
  {
    seq(|s|, i requires 0 <= i < |s| => s[i] as int)
  }

  lemma CodePointsInjective(s: string, t: string)
    requires CodePoints(s) == CodePoints(t)
    ensures s == t
  {
    assert |s| == |t|;
    forall i | 0 <= i < |s| ensures s[i] == t[i] {
      assert CodePoints(s)[i] == CodePoints(t)[i];
    }
  }
}
