/** The shape of the nonces. Where the random bytes come from is outside the
    model; what is modelled is how the signers turn them into text. */
module Nonce {
  import opened Unicode
  import opened PercentEncoding

  predicate IsAlnum(c: char)
  {
    'A' <= c <= 'Z' || 'a' <= c <= 'z' || '0' <= c <= '9'
  }

  /** `s.replace(/[^a-zA-Z0-9]/g, '')`: the letters and digits of `s`, in order. */
  function FilterAlnum(s: string): (r: string)
    ensures |r| <= |s|
    ensures forall i | 0 <= i < |r| :: IsAlnum(r[i])
    ensures forall c | IsAlnum(c) :: multiset(r)[c] == multiset(s)[c]
    ensures forall c | !IsAlnum(c) :: c !in r
  {
    if s == [] then ""
    else
      var rest := FilterAlnum(s[1..]);
      assert s == [s[0]] + s[1..];
      if IsAlnum(s[0]) then [s[0]] + rest else rest
  }

  /** Filtering keeps a string that is already alphanumeric, so filtering
      twice is filtering once. */
  lemma {:induction false} FilterAlnumKeeps(s: string)
    requires forall i | 0 <= i < |s| :: IsAlnum(s[i])
    ensures FilterAlnum(s) == s
  {
    if s != [] {
      FilterAlnumKeeps(s[1..]);
      assert [s[0]] + s[1..] == s;
    }
  }

  lemma FilterAlnumIdempotent(s: string)
    ensures FilterAlnum(FilterAlnum(s)) == FilterAlnum(s)
  {
    FilterAlnumKeeps(FilterAlnum(s));
  }

  /** The nonce of src/utils.ts needs no escaping in the header. */
  lemma FilteredNonceUnescaped(s: string)
    ensures Encode(FilterAlnum(s)) == FilterAlnum(s)
  {
    EncodeFixedPointIff(FilterAlnum(s));
  }

  predicate IsLowerHex(c: char)
  {
    '0' <= c <= '9' || 'a' <= c <= 'f'
  }

  /** `buf.toString('hex')`: two lower-case hexadecimal digits per byte,
      high nibble first. */
  function HexEncode(bs: seq<Byte>): (r: string)
    ensures |r| == 2 * |bs|
    ensures forall i | 0 <= i < |bs| :: r[2 * i] == LowerHexDigit(bs[i] / 16) && r[2 * i + 1] == LowerHexDigit(bs[i] % 16)
  {
    if bs == [] then "" else [LowerHexDigit(bs[0] / 16), LowerHexDigit(bs[0] % 16)] + HexEncode(bs[1..])
  }

  function LowerHexValue(c: char): int
  {
    if '0' <= c <= '9' then c as int - '0' as int
    else if 'a' <= c <= 'f' then c as int - 'a' as int + 10
    else 0
  }

  lemma LowerHexDigitValue(d: int)
    requires 0 <= d < 16
    ensures IsLowerHex(LowerHexDigit(d)) && LowerHexValue(LowerHexDigit(d)) == d
  {
  }

  /** The hex nonce of src/testoAuth.ts has only `[0-9a-f]` characters, 64 of
      them for 32 bytes, and the bytes can be read back from it. */
  lemma HexEncodeShape(bs: seq<Byte>)
    ensures forall i | 0 <= i < |HexEncode(bs)| :: IsLowerHex(HexEncode(bs)[i])
    ensures |bs| == 32 ==> |HexEncode(bs)| == 64
    ensures forall i | 0 <= i < |bs| ::
      bs[i] == LowerHexValue(HexEncode(bs)[2 * i]) * 16 + LowerHexValue(HexEncode(bs)[2 * i + 1])
  {
    var r := HexEncode(bs);
    forall i | 0 <= i < |r| ensures IsLowerHex(r[i]) {
      LowerHexDigitValue(bs[i / 2] / 16);
      LowerHexDigitValue(bs[i / 2] % 16);
      assert i == 2 * (i / 2) || i == 2 * (i / 2) + 1;
    }
    forall i | 0 <= i < |bs|
      ensures bs[i] == LowerHexValue(r[2 * i]) * 16 + LowerHexValue(r[2 * i + 1])
    {
      LowerHexDigitValue(bs[i] / 16);
      LowerHexDigitValue(bs[i] % 16);
    }
  }

  lemma HexEncodeInjective(a: seq<Byte>, b: seq<Byte>)
    ensures HexEncode(a) == HexEncode(b) <==> a == b
  {
    if HexEncode(a) == HexEncode(b) {
      HexEncodeShape(a);
      HexEncodeShape(b);
      assert |a| == |b|;
      forall i | 0 <= i < |a| ensures a[i] == b[i] {
        assert HexEncode(a)[2 * i] == HexEncode(b)[2 * i] && HexEncode(a)[2 * i + 1] == HexEncode(b)[2 * i + 1];
      }
    }
  }
}
