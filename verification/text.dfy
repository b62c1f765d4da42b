/** String helpers the signing and upload code relies on: `join`, ASCII
    upper-casing and decimal rendering of numbers. */
module Text {

  /** `parts.join(sep)` in JavaScript, `sep.join(parts)` in Python. */
  function Join(sep: string, parts: seq<string>): string
  {
    if parts == [] then ""
    else if |parts| == 1 then parts[0]
    else parts[0] + sep + Join(sep, parts[1..])
  }

  /** No part contains the first character of the separator. */
  predicate SeparatorFree(sep: string, parts: seq<string>)
    requires sep != ""
  {
    forall i | 0 <= i < |parts| :: sep[0] !in parts[i]
  }

  /** Joining a non-empty list of separator-free parts loses nothing: the
      parts can be read back from the joined string. */
  lemma {:induction false} JoinInjective(sep: string, xs: seq<string>, ys: seq<string>)
    requires sep != "" && xs != [] && ys != []
    requires SeparatorFree(sep, xs) && SeparatorFree(sep, ys)
    requires Join(sep, xs) == Join(sep, ys)
    ensures xs == ys
    decreases |xs|
  {
    if |xs| > 1 && |ys| > 1 {
      var t, x, y := Join(sep, xs), xs[0], ys[0];
      var rx, ry := sep + Join(sep, xs[1..]), sep + Join(sep, ys[1..]);
      assert t == x + rx && t == y + ry;
      assert rx[0] == sep[0] && ry[0] == sep[0];
      if |x| < |y| {
        CharOfConcat(y, ry, |x|);
        CharOfConcat(x, rx, |x|);
        assert false;
      } else if |y| < |x| {
        CharOfConcat(x, rx, |y|);
        CharOfConcat(y, ry, |y|);
        assert false;
      } else {
        assert x == t[..|x|] == y;
        assert Join(sep, xs[1..]) == t[|x| + |sep|..] == Join(sep, ys[1..]);
        JoinInjective(sep, xs[1..], ys[1..]);
        assert xs == [x] + xs[1..] && ys == [y] + ys[1..];
      }
    }
  }

  lemma CharOfConcat(a: string, b: string, k: int)
    ensures 0 <= k < |a| ==> (a + b)[k] == a[k] && a[k] in a
    ensures |a| <= k < |a| + |b| ==> (a + b)[k] == b[k - |a|]
  {
  }

  predicate IsAsciiLower(c: char) {
    'a' <= c <= 'z'
  }

  /** `toUpperCase()` / `upper()` restricted to ASCII: lower-case letters map
      to upper-case ones, every other character is kept. */
  function AsciiUpper(s: string): (r: string)
    ensures |r| == |s|
    ensures forall i | 0 <= i < |s| ::
      r[i] == if IsAsciiLower(s[i]) then (s[i] as int - 32) as char else s[i]
  {
    seq(|s|, i requires 0 <= i < |s| =>
      if IsAsciiLower(s[i]) then (s[i] as int - 32) as char else s[i])
  }

  /** Upper-casing twice changes nothing more, and an upper-cased string has
      no lower-case ASCII letter left. */
  lemma AsciiUpperIdempotent(s: string)
    ensures AsciiUpper(AsciiUpper(s)) == AsciiUpper(s)
    ensures forall i | 0 <= i < |s| :: !IsAsciiLower(AsciiUpper(s)[i])
  {
  }

  function DecimalDigit(d: int): char
    requires 0 <= d < 10
  {
    ('0' as int + d) as char
  }

  /** `n.toString()` in JavaScript and `str(n)` in Python, for a natural number. */
  function Decimal(n: nat): (r: string)
    ensures r != []
    ensures forall i | 0 <= i < |r| :: '0' <= r[i] <= '9'
    ensures r[0] == '0' ==> n == 0
  {
    if n < 10 then [DecimalDigit(n)] else Decimal(n / 10) + [DecimalDigit(n % 10)]
  }

  /** The number a string of decimal digits denotes, as a server reading
      `total_bytes` or `segment_index` would parse it. */
  function DigitsValue(s: string): nat
  {
    if s == [] then 0
    else
      var d := s[|s| - 1] as int - '0' as int;
      DigitsValue(s[..|s| - 1]) * 10 + (if 0 <= d < 10 then d else 0)
  }

  /** Writing a number in decimal and reading it back gives the number:
      distinct numbers are written differently. */
  lemma {:induction false} DecimalRoundTrip(n: nat)
    ensures DigitsValue(Decimal(n)) == n
  {
    if n >= 10 {
      var r := Decimal(n);
      assert r[..|r| - 1] == Decimal(n / 10);
      DecimalRoundTrip(n / 10);
    }
  }

  lemma DecimalInjective(m: nat, n: nat)
    ensures Decimal(m) == Decimal(n) <==> m == n
  {
    DecimalRoundTrip(m);
    DecimalRoundTrip(n);
  }
}
