/** UTF-8 as `Encoding.UTF8` implements it (Unicode section 3.9, table 3-7):
    `GetBytes` encodes every scalar value, and `GetString` decodes, putting
    one U+FFFD in place of each maximal ill-formed subsequence. */
module Utf8 {
  import opened Common

  /** A Unicode scalar value: a code point that is not a surrogate. */
  predicate IsScalar(n: int)
  {
    0 <= n < 0xD800 || 0xE000 <= n < 0x11_0000
  }

  /** The bytes of one character. */
  function EncodeChar(c: char): (r: seq<byte>)
    ensures 1 <= |r| <= 4
  {
    var n := c as int;
    if n < 0x80 then [n]
    else if n < 0x800 then [0xC0 + n / 0x40, 0x80 + n % 0x40]
    else if n < 0x1_0000 then
      [0xE0 + n / 0x1000, 0x80 + n / 0x40 % 0x40, 0x80 + n % 0x40]
    else
      [0xF0 + n / 0x4_0000, 0x80 + n / 0x1000 % 0x40, 0x80 + n / 0x40 % 0x40,
       0x80 + n % 0x40]
  }

  /** `Encoding.UTF8.GetBytes(s)`. */
  function Encode(s: string): (r: seq<byte>)
    ensures |r| >= |s|
  {
    if |s| == 0 then [] else EncodeChar(s[0]) + Encode(s[1..])
  }

  /** The length of the sequence a byte starts, or 0 for a byte that
      cannot start one (a continuation byte, C0, C1, F5..FF). */
  function Lead(b: byte): nat
  {
    if b < 0x80 then 1
    else if 0xC2 <= b <= 0xDF then 2
    else if 0xE0 <= b <= 0xEF then 3
    else if 0xF0 <= b <= 0xF4 then 4
    else 0
  }

  /** Whether `b` may stand at position `k` (1 to 3) of a sequence that
      starts with `lead`. */
  predicate Continues(lead: byte, k: nat, b: byte)
  {
    if k == 1 && lead == 0xE0 then 0xA0 <= b <= 0xBF
    else if k == 1 && lead == 0xED then 0x80 <= b <= 0x9F
    else if k == 1 && lead == 0xF0 then 0x90 <= b <= 0xBF
    else if k == 1 && lead == 0xF4 then 0x80 <= b <= 0x8F
    else 0x80 <= b <= 0xBF
  }

  /** The length of the longest prefix of `b` that begins a well-formed
      sequence, given that its first `k` bytes do. */
  function Prefix(b: seq<byte>, k: nat): (n: nat)
    requires 1 <= k <= |b| && k <= Lead(b[0])
    ensures k <= n <= |b| && n <= Lead(b[0])
    ensures n == Lead(b[0]) ==> forall j :: k <= j < n ==> Continues(b[0], j, b[j])
    decreases Lead(b[0]) - k
  {
    if k < Lead(b[0]) && k < |b| && Continues(b[0], k, b[k]) then Prefix(b, k + 1) else k
  }

  /** The code point a complete sequence stands for: the lead's payload
      followed by six bits from each continuation byte. */
  function ValueOf(b: seq<byte>): int
    requires 1 <= |b| == Lead(b[0])
  {
    var b0 := b[0] as int;
    if |b| == 1 then b0
    else if |b| == 2 then (b0 - 0xC0) * 0x40 + (b[1] as int - 0x80)
    else if |b| == 3 then
      (b0 - 0xE0) * 0x1000 + (b[1] as int - 0x80) * 0x40 + (b[2] as int - 0x80)
    else
      (b0 - 0xF0) * 0x4_0000 + (b[1] as int - 0x80) * 0x1000
      + (b[2] as int - 0x80) * 0x40 + (b[3] as int - 0x80)
  }

  /** A well-formed sequence stands for a scalar value. */
  lemma WellFormedScalar(b: seq<byte>)
    requires 1 <= |b| == Lead(b[0])
    requires forall j :: 1 <= j < |b| ==> Continues(b[0], j, b[j])
    ensures IsScalar(ValueOf(b))
  {
    if |b| == 3 {
      assert Continues(b[0], 1, b[1]);
    } else if |b| == 4 {
      assert Continues(b[0], 1, b[1]);
    }
  }

  /** The first character `GetString` reads from `b`, and how many bytes it
      takes: a well-formed sequence gives its character, anything else one
      U+FFFD for the longest prefix of a well-formed sequence (at least one
      byte). */
  function DecodeOne(b: seq<byte>): (r: (char, nat))
    requires |b| > 0
    ensures 1 <= r.1 <= |b|
  {
    if Lead(b[0]) == 0 then ('\U{FFFD}', 1)
    else
      var n := Prefix(b, 1);
      if n == Lead(b[0]) then
        WellFormedScalar(b[..n]);
        (ValueOf(b[..n]) as char, n)
      else ('\U{FFFD}', n)
  }

  /** `Encoding.UTF8.GetString(b)`. */
  function Decode(b: seq<byte>): string
    decreases |b|
  {
    if |b| == 0 then "" else var (c, n) := DecodeOne(b); [c] + Decode(b[n..])
  }

  /** The bytes of a character form a well-formed sequence standing for it. */
  lemma EncodeCharWellFormed(c: char)
    ensures var e := EncodeChar(c);
      Lead(e[0]) == |e| && (forall j :: 1 <= j < |e| ==> Continues(e[0], j, e[j]))
      && ValueOf(e) == c as int
  {
    var n := c as int;
    if n < 0x80 {
    } else if n < 0x800 {
      Digits(n, 0x40);
    } else if n < 0x1_0000 {
      EncodeThree(c);
    } else {
      EncodeFour(c);
    }
  }

  /** A number is its quotient and remainder put back together. */
  lemma Digits(n: nat, d: nat)
    requires d > 0
    ensures n == n / d * d + n % d && 0 <= n % d < d
  {
  }

  lemma EncodeThree(c: char)
    requires 0x800 <= c as int < 0x1_0000
    ensures var e := EncodeChar(c);
      Lead(e[0]) == |e| && (forall j :: 1 <= j < |e| ==> Continues(e[0], j, e[j]))
      && ValueOf(e) == c as int
  {
    var n := c as int;
    var e := EncodeChar(c);
    var hi, mid, lo := n / 0x1000, n / 0x40 % 0x40, n % 0x40;
    Digits(n, 0x40);
    Digits(n / 0x40, 0x40);
    assert n / 0x40 / 0x40 == hi;
    assert n == hi * 0x1000 + mid * 0x40 + lo;
    assert e == [0xE0 + hi, 0x80 + mid, 0x80 + lo];
    assert hi == 0 ==> mid >= 0x20;
    assert hi == 0xD ==> mid < 0x20;
  }

  lemma EncodeFour(c: char)
    requires 0x1_0000 <= c as int
    ensures var e := EncodeChar(c);
      Lead(e[0]) == |e| && (forall j :: 1 <= j < |e| ==> Continues(e[0], j, e[j]))
      && ValueOf(e) == c as int
  {
    var n := c as int;
    var e := EncodeChar(c);
    var top, hi, mid, lo := n / 0x4_0000, n / 0x1000 % 0x40, n / 0x40 % 0x40, n % 0x40;
    Digits(n, 0x40);
    Digits(n / 0x40, 0x40);
    Digits(n / 0x1000, 0x40);
    assert n / 0x40 / 0x40 == n / 0x1000;
    assert n / 0x1000 / 0x40 == top;
    assert n == top * 0x4_0000 + hi * 0x1000 + mid * 0x40 + lo;
    assert e == [0xF0 + top, 0x80 + hi, 0x80 + mid, 0x80 + lo];
    assert top == 0 ==> hi >= 0x10;
    assert top == 4 ==> hi < 0x10;
  }

  /** The bytes of a character are read back as that character, whatever
      follows them. */
  lemma DecodeOneEncoded(c: char, rest: seq<byte>)
    ensures DecodeOne(EncodeChar(c) + rest) == (c, |EncodeChar(c)|)
  {
    var e := EncodeChar(c);
    var b := e + rest;
    EncodeCharWellFormed(c);
    assert b[0] == e[0];
    assert forall j :: 1 <= j < |e| ==> b[j] == e[j];
    PrefixComplete(b, 1);
    assert b[..|e|] == e;
  }

  /** When every byte that must follow the lead does, the prefix is complete. */
  lemma {:induction false} PrefixComplete(b: seq<byte>, k: nat)
    requires |b| > 0 && 1 <= k <= Lead(b[0]) <= |b|
    requires forall j :: k <= j < Lead(b[0]) ==> Continues(b[0], j, b[j])
    ensures Prefix(b, k) == Lead(b[0])
    decreases Lead(b[0]) - k
  {
    if k < Lead(b[0]) {
      PrefixComplete(b, k + 1);
    }
  }

  /** Decoding what was encoded gives the string back. */
  lemma {:induction false} DecodeEncode(s: string)
    ensures Decode(Encode(s)) == s
    decreases |s|
  {
    if |s| > 0 {
      var e := EncodeChar(s[0]);
      var rest := Encode(s[1..]);
      DecodeOneEncoded(s[0], rest);
      assert (e + rest)[|e|..] == rest;
      DecodeEncode(s[1..]);
      assert s == [s[0]] + s[1..];
    }
  }

  /** Encoding keeps concatenation. */
  lemma {:induction false} EncodeAppend(s: string, t: string)
    ensures Encode(s + t) == Encode(s) + Encode(t)
    decreases |s|
  {
    if |s| > 0 {
      assert (s + t)[1..] == s[1..] + t;
      EncodeAppend(s[1..], t);
    } else {
      assert s + t == t;
    }
  }
}
