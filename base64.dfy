/** Base 64 as `Convert.ToBase64String` and `Convert.FromBase64String`
    implement it: the alphabet and padding of section 4 of RFC 4648, no line
    breaks when encoding, and space, tab, carriage return and line feed
    skipped when decoding.  Both directions go through the symbols a text
    stands for: six-bit values and the padding character. */
module Base64 {
  import opened Common

  const BadCharacter: string :=
    "The input is not a valid Base-64 string as it contains a non-base 64 character, more than two padding characters, or an illegal character among the padding characters."
  const BadLength: string := "Invalid length for a Base-64 char array or string."

  /** The character for a six-bit value (table 1 of RFC 4648). */
  function Digit(i: nat): (c: char)
    requires i < 64
    ensures c != '=' && !IsSkipped(c)
  {
    if i < 26 then ('A' as int + i) as char
    else if i < 52 then ('a' as int + i - 26) as char
    else if i < 62 then ('0' as int + i - 52) as char
    else if i == 62 then '+'
    else '/'
  }

  /** The six-bit value of a character, if it is in the alphabet. */
  function ValueOfDigit(c: char): (r: Option<nat>)
    ensures r.Some? ==> r.value < 64 && Digit(r.value) == c
  {
    if 'A' <= c <= 'Z' then Some(c as int - 'A' as int)
    else if 'a' <= c <= 'z' then Some(c as int - 'a' as int + 26)
    else if '0' <= c <= '9' then Some(c as int - '0' as int + 52)
    else if c == '+' then Some(62)
    else if c == '/' then Some(63)
    else None
  }

  /** Every character of the alphabet is read back as its value. */
  lemma DigitValue(i: nat)
    requires i < 64
    ensures ValueOfDigit(Digit(i)) == Some(i)
  {
  }

  /** What a character of a base 64 text stands for. */
  datatype Symbol = Sextet(value: nat) | Pad | Bad

  /** Every six-bit value of a sequence of symbols is below 64. */
  predicate InRange(u: seq<Symbol>)
  {
    forall i :: 0 <= i < |u| ==> u[i].Sextet? ==> u[i].value < 64
  }

  function SymbolOf(c: char): (s: Symbol)
    ensures s.Sextet? ==> s.value < 64 && Digit(s.value) == c
    ensures s == Pad <==> c == '='
  {
    match ValueOfDigit(c)
    case Some(v) => Sextet(v)
    case None => if c == '=' then Pad else Bad
  }

  /** The symbols of a text, character by character. */
  function Read(t: string): (u: seq<Symbol>)
    ensures |u| == |t| && InRange(u)
  {
    seq(|t|, i requires 0 <= i < |t| => SymbolOf(t[i]))
  }

  /** The character that stands for a symbol. */
  function CharOf(s: Symbol): (c: char)
    requires s != Bad && (s.Sextet? ==> s.value < 64)
    ensures SymbolOf(c) == s
  {
    if s == Pad then '=' else DigitValue(s.value); Digit(s.value)
  }

  /** Symbols that have characters. */
  predicate Spellable(u: seq<Symbol>)
  {
    forall i :: 0 <= i < |u| ==> u[i] != Bad && (u[i].Sextet? ==> u[i].value < 64)
  }

  /** The text that stands for some symbols. */
  function Spell(u: seq<Symbol>): (t: string)
    requires Spellable(u)
    ensures |t| == |u| && forall i :: 0 <= i < |t| ==> SymbolOf(t[i]) == u[i]
  {
    seq(|u|, i requires 0 <= i < |u| => CharOf(u[i]))
  }

  /** Reading a spelled text gives its symbols back. */
  lemma ReadSpell(u: seq<Symbol>)
    requires Spellable(u)
    ensures Read(Spell(u)) == u
  {
    var t := Spell(u);
    assert forall i :: 0 <= i < |u| ==> Read(t)[i] == SymbolOf(t[i]) == u[i];
  }

  /** The symbols for some bytes: every three bytes become four six-bit
      values; a last group of one or two bytes is padded. */
  function Sextets(b: seq<byte>): (u: seq<Symbol>)
    ensures Spellable(u) && |u| % 4 == 0 && (|u| == 0 <==> |b| == 0)
    ensures |b| > 0 ==> u[0].Sextet?
  {
    if |b| == 0 then []
    else if |b| == 1 then [Sextet(b[0] / 4), Sextet(b[0] % 4 * 16), Pad, Pad]
    else if |b| == 2 then [Sextet(b[0] / 4), Sextet(b[0] % 4 * 16 + b[1] / 16), Sextet(b[1] % 16 * 4), Pad]
    else
      [Sextet(b[0] / 4), Sextet(b[0] % 4 * 16 + b[1] / 16), Sextet(b[1] % 16 * 4 + b[2] / 64),
       Sextet(b[2] % 64)]
      + Sextets(b[3..])
  }

  /** `Convert.ToBase64String(b)`. */
  function Encode(b: seq<byte>): (r: string)
    ensures |r| % 4 == 0 && (|r| == 0 <==> |b| == 0)
  {
    Spell(Sextets(b))
  }

  /** The characters `FromBase64String` skips wherever they appear. */
  predicate IsSkipped(c: char)
  {
    c == ' ' || c == '\t' || c == '\r' || c == '\n'
  }

  function Squeeze(s: string): (r: string)
    ensures forall i :: 0 <= i < |r| ==> !IsSkipped(r[i])
  {
    if |s| == 0 then ""
    else if IsSkipped(s[0]) then Squeeze(s[1..])
    else [s[0]] + Squeeze(s[1..])
  }

  /** `Convert.FromBase64String(s)`: after the skipped characters are taken
      out, the length must be a multiple of four, and every group of four
      must be alphabet characters, except that the last may end in one or
      two '='.  The bits a padded group does not use are ignored, as
      section 3.5 of RFC 4648 allows. */
  function Decode(s: string): (r: Result<seq<byte>>)
    ensures r.Threw? ==> r.error.FormatException?
  {
    var t := Squeeze(s);
    if |t| % 4 != 0 then Threw(FormatException(BadLength)) else DecodeSymbols(Read(t))
  }

  function DecodeSymbols(u: seq<Symbol>): (r: Result<seq<byte>>)
    requires InRange(u)
    ensures r.Threw? ==> r.error == FormatException(BadCharacter)
    decreases |u|
  {
    if |u| == 0 then Ok([])
    else if |u| < 4 || !u[0].Sextet? || !u[1].Sextet? then Threw(FormatException(BadCharacter))
    else if u[2].Sextet? && u[3].Sextet? then
      match DecodeSymbols(u[4..])
      case Threw(e) => Threw(e)
      case Ok(rest) => Ok(Three(u[0].value, u[1].value, u[2].value, u[3].value) + rest)
    else if |u| > 4 then Threw(FormatException(BadCharacter))
    else if u[2].Sextet? && u[3] == Pad then Ok(Three(u[0].value, u[1].value, u[2].value, 0)[..2])
    else if u[2] == Pad && u[3] == Pad then Ok(Three(u[0].value, u[1].value, 0, 0)[..1])
    else Threw(FormatException(BadCharacter))
  }

  /** The three bytes four six-bit values spell. */
  function Three(d0: nat, d1: nat, d2: nat, d3: nat): (r: seq<byte>)
    requires d0 < 64 && d1 < 64 && d2 < 64 && d3 < 64
    ensures |r| == 3
  {
    [d0 * 4 + d1 / 16, d1 % 16 * 16 + d2 / 4, d2 % 4 * 64 + d3]
  }

  /** A value below 16 (or 4) put after a multiple of 16 (or 4) is read
      back by `/` and `%`. */
  lemma Place16(a: nat, b: nat)
    requires b < 16
    ensures (a * 16 + b) / 16 == a && (a * 16 + b) % 16 == b
  {
  }

  lemma Place4(a: nat, b: nat)
    requires b < 4
    ensures (a * 4 + b) / 4 == a && (a * 4 + b) % 4 == b
  {
  }

  /** The six-bit values of a group of bytes spell those bytes. */
  lemma ThreeOfEncoded(b0: byte, b1: byte, b2: byte)
    ensures Three(b0 / 4, b0 % 4 * 16 + b1 / 16, b1 % 16 * 4 + b2 / 64, b2 % 64) == [b0, b1, b2]
  {
    Place16(b0 % 4, b1 / 16);
    Place4(b1 % 16, b2 / 64);
  }

  /** Decoding the symbols of some bytes gives the bytes back. */
  lemma {:induction false} DecodeSextets(b: seq<byte>)
    ensures DecodeSymbols(Sextets(b)) == Ok(b)
    decreases |b|
  {
    var u := Sextets(b);
    if |b| == 1 {
      ThreeOfEncoded(b[0], 0, 0);
      assert Three(u[0].value, u[1].value, 0, 0)[..1] == b;
    } else if |b| == 2 {
      ThreeOfEncoded(b[0], b[1], 0);
      assert Three(u[0].value, u[1].value, u[2].value, 0)[..2] == b;
    } else if |b| > 2 {
      DecodeSextets(b[3..]);
      assert u[4..] == Sextets(b[3..]);
      ThreeOfEncoded(b[0], b[1], b[2]);
      assert b == [b[0], b[1], b[2]] + b[3..];
    }
  }

  /** No encoded character is one the decoder skips. */
  lemma EncodeUnskipped(b: seq<byte>)
    ensures forall i :: 0 <= i < |Encode(b)| ==> !IsSkipped(Encode(b)[i])
  {
    var t := Encode(b);
    forall i | 0 <= i < |t|
      ensures !IsSkipped(t[i])
    {
      assert SymbolOf(t[i]) != Bad;
    }
  }

  /** Squeezing a string with nothing to skip leaves it as it is. */
  lemma {:induction false} SqueezeUnskipped(s: string)
    requires forall i :: 0 <= i < |s| ==> !IsSkipped(s[i])
    ensures Squeeze(s) == s
    decreases |s|
  {
    if |s| > 0 {
      SqueezeUnskipped(s[1..]);
      assert s == [s[0]] + s[1..];
    }
  }

  /** Decoding what was encoded gives the bytes back. */
  lemma DecodeEncode(b: seq<byte>)
    ensures Decode(Encode(b)) == Ok(b)
  {
    EncodeUnskipped(b);
    SqueezeUnskipped(Encode(b));
    ReadSpell(Sextets(b));
    DecodeSextets(b);
  }

  /** The encoding of some bytes begins with an alphabet character. */
  lemma EncodeStart(b: seq<byte>)
    requires |b| > 0
    ensures ValueOfDigit(Encode(b)[0]).Some?
  {
    assert SymbolOf(Encode(b)[0]).Sextet?;
  }
}
