/** The pieces of .NET's string library that the modelled code relies on:
    white space, searching, `Split`, `string.Join`, `Trim`, `Replace` of one
    character, and order-preserving filtering. */
module Text {
  import opened Common

  /** `char.IsWhiteSpace`, which is also what the regular-expression class
      `\s` matches: the Unicode White_Space characters. */
  predicate IsWhiteSpace(c: char)
  {
    c == ' ' || ('\t' <= c <= '\r') || c == '\U{0085}' || c == '\U{00A0}'
    || c == '\U{1680}' || ('\U{2000}' <= c <= '\U{200A}') || c == '\U{2028}'
    || c == '\U{2029}' || c == '\U{202F}' || c == '\U{205F}' || c == '\U{3000}'
  }

  /** `string.IsNullOrWhiteSpace` on a non-null string. */
  predicate IsBlank(s: string)
  {
    forall i :: 0 <= i < |s| ==> IsWhiteSpace(s[i])
  }

  /** `s.IndexOf(c)`: the first position of `c`, or None for -1. */
  function IndexOf(s: string, c: char): (r: Option<nat>)
    ensures r.None? <==> c !in s
    ensures r.Some? ==> r.value < |s| && s[r.value] == c && c !in s[..r.value]
  {
    if |s| == 0 then None
    else if s[0] == c then Some(0)
    else
      match IndexOf(s[1..], c)
      case None => None
      case Some(i) => assert s[1..][..i] == s[1..i + 1]; Some(i + 1)
  }

  /** The first position of `c` is the one before which `c` does not occur. */
  lemma IndexOfAt(s: string, c: char, i: nat)
    requires i < |s| && s[i] == c && c !in s[..i]
    ensures IndexOf(s, c) == Some(i)
  {
  }

  /** `s.Split(sep)` with one separator character: n separators give n + 1
      pieces, empty ones included. */
  function Split(s: string, sep: char): (r: seq<string>)
    ensures |r| >= 1
    decreases |s|
  {
    match IndexOf(s, sep)
    case None => [s]
    case Some(i) => [s[..i]] + Split(s[i + 1..], sep)
  }

  /** `string.Join(sep, parts)`. */
  function Join(parts: seq<string>, sep: string): string
  {
    if |parts| == 0 then ""
    else if |parts| == 1 then parts[0]
    else parts[0] + sep + Join(parts[1..], sep)
  }

  /** Joining one more part puts the separator before it. */
  lemma {:induction false} JoinSnoc(parts: seq<string>, last: string, delimiter: string)
    requires |parts| > 0
    ensures Join(parts + [last], delimiter) == Join(parts, delimiter) + delimiter + last
  {
    if |parts| > 1 {
      assert (parts + [last])[1..] == parts[1..] + [last];
      JoinSnoc(parts[1..], last, delimiter);
    }
  }

  /** Splitting at a character and joining the pieces back with it gives
      the original string. */
  lemma {:induction false} SplitJoin(s: string, sep: char)
    ensures Join(Split(s, sep), [sep]) == s
    decreases |s|
  {
    match IndexOf(s, sep)
    case None =>
    case Some(i) =>
      var rest := Split(s[i + 1..], sep);
      SplitJoin(s[i + 1..], sep);
      assert Split(s, sep) == [s[..i]] + rest;
      assert ([s[..i]] + rest)[1..] == rest;
      assert Join(Split(s, sep), [sep]) == s[..i] + [sep] + s[i + 1..];
      assert s == s[..i] + [sep] + s[i + 1..];
  }

  /** Joining pieces free of the separator and splitting at it gives the
      pieces back. */
  lemma {:induction false} JoinSplit(parts: seq<string>, sep: char)
    requires |parts| > 0
    requires forall k :: 0 <= k < |parts| ==> sep !in parts[k]
    ensures Split(Join(parts, [sep]), sep) == parts
    decreases |parts|
  {
    if |parts| == 1 {
      assert IndexOf(parts[0], sep) == None;
    } else {
      SplitCons(parts[0], Join(parts[1..], [sep]), sep);
      JoinSplit(parts[1..], sep);
      assert parts == [parts[0]] + parts[1..];
    }
  }

  /** A separator-free piece in front of a separator splits off first. */
  lemma SplitCons(x: string, s: string, sep: char)
    requires sep !in x
    ensures Split(x + [sep] + s, sep) == [x] + Split(s, sep)
  {
    var t := x + [sep] + s;
    assert t[..|x|] == x;
    IndexOfAt(t, sep, |x|);
    assert t[|x| + 1..] == s;
  }

  /** No piece of a split contains the separator. */
  lemma {:induction false} SplitPiecesFree(s: string, sep: char)
    ensures forall k :: 0 <= k < |Split(s, sep)| ==> sep !in Split(s, sep)[k]
    decreases |s|
  {
    match IndexOf(s, sep)
    case None =>
    case Some(i) =>
      SplitPiecesFree(s[i + 1..], sep);
      var rest := Split(s[i + 1..], sep);
      assert Split(s, sep) == [s[..i]] + rest;
  }

  /** The pieces of a split: a separator-free prefix before the first
      separator comes first. */
  lemma SplitHead(s: string, sep: char)
    ensures sep !in s ==> Split(s, sep) == [s]
    ensures sep in s ==> Split(s, sep)[0] == s[..IndexOf(s, sep).value]
  {
  }

  /** `s.TrimStart()`: drops leading white space. */
  function TrimStart(s: string): (r: string)
    ensures |r| <= |s| && r == s[|s| - |r|..]
    ensures |r| > 0 ==> !IsWhiteSpace(r[0])
    ensures IsBlank(s[..|s| - |r|])
  {
    if |s| > 0 && IsWhiteSpace(s[0]) then TrimStart(s[1..]) else s
  }

  /** `s.TrimEnd()`: drops trailing white space. */
  function TrimEnd(s: string): (r: string)
    ensures |r| <= |s| && r == s[..|r|]
    ensures |r| > 0 ==> !IsWhiteSpace(r[|r| - 1])
    ensures IsBlank(s[|r|..])
  {
    if |s| > 0 && IsWhiteSpace(s[|s| - 1]) then TrimEnd(s[..|s| - 1]) else s
  }

  /** `s.Trim()`. */
  function Trim(s: string): string
  {
    TrimEnd(TrimStart(s))
  }

  /** Trailing white space never survives a trim. */
  lemma {:induction false} TrimEndAppendBlank(s: string, w: string)
    requires IsBlank(w)
    ensures TrimEnd(s + w) == TrimEnd(s)
    decreases |w|
  {
    if |w| > 0 {
      assert (s + w)[..|s + w| - 1] == s + w[..|w| - 1];
      TrimEndAppendBlank(s, w[..|w| - 1]);
    } else {
      assert s + w == s;
    }
  }

  /** Trimming a string that ends in white space is trimming it without. */
  lemma TrimAppendBlank(s: string, w: string)
    requires IsBlank(w)
    ensures Trim(s + w) == Trim(s)
  {
    if IsBlank(s) {
      TrimStartBlank(s + w);
      TrimStartBlank(s);
    } else {
      var k := NonBlankIndex(s);
      TrimStartNonBlank(s, k);
      TrimStartNonBlank(s + w, k);
      var t := TrimStart(s);
      assert TrimStart(s + w) == t + w;
      TrimEndAppendBlank(t, w);
    }
  }

  /** A blank string trims to nothing. */
  lemma {:induction false} TrimStartBlank(s: string)
    requires IsBlank(s)
    ensures TrimStart(s) == ""
    decreases |s|
  {
    if |s| > 0 { TrimStartBlank(s[1..]); }
  }

  /** The index of some non-white-space character. */
  lemma NonBlankIndex(s: string) returns (k: nat)
    requires !IsBlank(s)
    ensures k < |s| && !IsWhiteSpace(s[k])
  {
    k :| k < |s| && !IsWhiteSpace(s[k]);
  }

  /** TrimStart only looks at the prefix up to the first non-white-space
      character. */
  lemma {:induction false} TrimStartNonBlank(s: string, k: nat)
    requires k < |s| && !IsWhiteSpace(s[k])
    ensures forall w :: TrimStart(s + w) == TrimStart(s) + w
    decreases |s|
  {
    forall w ensures TrimStart(s + w) == TrimStart(s) + w {
      if IsWhiteSpace(s[0]) {
        assert (s + w)[1..] == s[1..] + w;
        TrimStartNonBlank(s[1..], k - 1);
      }
    }
  }

  /** `s.Replace(c, "")` for a one-character search string. */
  function RemoveChar(s: string, c: char): (r: string)
    ensures c !in r
    ensures |r| <= |s|
  {
    if |s| == 0 then ""
    else if s[0] == c then RemoveChar(s[1..], c)
    else [s[0]] + RemoveChar(s[1..], c)
  }

  /** `s.Contains(t)` and `s.IndexOf(t, StringComparison.Ordinal)` for a
      string `t`: whether, and where first, `t` occurs in `s`. */
  predicate OccursAt(s: string, t: string, i: nat)
  {
    i + |t| <= |s| && s[i..i + |t|] == t
  }

  predicate Contains(s: string, t: string)
  {
    exists i: nat | i <= |s| :: OccursAt(s, t, i)
  }

  /** `s.StartsWith(t)` under ordinal comparison, character by character. */
  predicate StartsWith(s: string, t: string)
    decreases |t|
  {
    |t| == 0 || (|s| > 0 && s[0] == t[0] && StartsWith(s[1..], t[1..]))
  }

  /** A string starts with `t` exactly when `t` occurs at its start. */
  lemma {:induction false} StartsWithOccurs(s: string, t: string)
    ensures StartsWith(s, t) <==> OccursAt(s, t, 0)
    decreases |t|
  {
    if |t| > 0 && |s| > 0 {
      StartsWithOccurs(s[1..], t[1..]);
      if |t| <= |s| {
        assert s[..|t|] == [s[0]] + s[1..][..|t| - 1];
        assert t == [t[0]] + t[1..];
      }
    }
  }

  /** `s.IndexOf(t, StringComparison.Ordinal)`: the first position where
      `t` occurs. */
  function IndexOfString(s: string, t: string): (r: Option<nat>)
    ensures r.Some? ==> r.value + |t| <= |s|
    decreases |s|
  {
    if |t| > |s| then None
    else if StartsWith(s, t) then Some(0)
    else
      match IndexOfString(s[1..], t)
      case None => None
      case Some(i) => Some(i + 1)
  }

  /** `IndexOf` finds the first occurrence, and finds none exactly when
      there is none. */
  lemma {:induction false} IndexOfStringSpec(s: string, t: string)
    ensures var r := IndexOfString(s, t);
      (r.Some? ==> OccursAt(s, t, r.value) && forall j: nat :: j < r.value ==> !OccursAt(s, t, j))
      && (r.None? <==> !Contains(s, t))
    decreases |s|
  {
    if |t| > |s| {
      assert forall j: nat :: !OccursAt(s, t, j);
    } else {
      StartsWithOccurs(s, t);
      if !StartsWith(s, t) {
        OccursShift(s, t);
        IndexOfStringSpec(s[1..], t);
      }
    }
  }

  /** An occurrence after the first position is an occurrence in the
      rest, one place earlier. */
  lemma OccursShift(s: string, t: string)
    requires |s| > 0
    ensures forall j: nat :: 0 < j ==> (OccursAt(s, t, j) <==> OccursAt(s[1..], t, j - 1))
  {
    forall j: nat | 0 < j
      ensures OccursAt(s, t, j) <==> OccursAt(s[1..], t, j - 1)
    {
      if j + |t| <= |s| {
        assert s[1..][j - 1..j - 1 + |t|] == s[j..j + |t|];
      }
    }
  }
}
