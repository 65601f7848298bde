/** The string helpers of `StringExtension`.  Strings are non-null here;
    culture-dependent character functions (`char.ToUpperInvariant`,
    `ToLower`, `char.IsDigit`, `char.IsLetterOrDigit`) are parameters. */
module StringExtension {
  import opened Common
  import opened Text
  import Utf8
  import Base64

  // ---------------------------------------------------------------------
  // Filtering

  /** The characters of `s` that `keep` accepts, in order (LINQ's `Where`). */
  function Filter(s: string, keep: char -> bool): (r: string)
    ensures |r| <= |s|
    ensures forall i :: 0 <= i < |r| ==> keep(r[i])
  {
    if |s| == 0 then "" else (if keep(s[0]) then [s[0]] else "") + Filter(s[1..], keep)
  }

  /** Filtering keeps the order: it distributes over concatenation. */
  lemma {:induction false} FilterAppend(s: string, t: string, keep: char -> bool)
    ensures Filter(s + t, keep) == Filter(s, keep) + Filter(t, keep)
    decreases |s|
  {
    if |s| == 0 {
      assert s + t == t;
    } else {
      assert (s + t)[1..] == s[1..] + t;
      FilterAppend(s[1..], t, keep);
    }
  }

  /** Nothing is left of a string whose every character is rejected. */
  lemma {:induction false} FilterNone(s: string, keep: char -> bool)
    requires forall i :: 0 <= i < |s| ==> !keep(s[i])
    ensures Filter(s, keep) == ""
    decreases |s|
  {
    if |s| > 0 {
      FilterNone(s[1..], keep);
    }
  }

  /** Filtering keeps every accepted character as often as it occurs and no
      other. */
  lemma {:induction false} FilterCounts(s: string, keep: char -> bool)
    ensures forall c :: keep(c) ==> multiset(Filter(s, keep))[c] == multiset(s)[c]
    ensures forall c :: !keep(c) ==> c !in Filter(s, keep)
    decreases |s|
  {
    if |s| > 0 {
      FilterCounts(s[1..], keep);
      assert s == [s[0]] + s[1..];
      assert multiset(s) == multiset([s[0]]) + multiset(s[1..]);
    }
  }

  /** A predicate for "not one of `chars`" (`!chars.Contains(c)`). */
  function Outside(chars: seq<char>): char -> bool
  {
    c => c !in chars
  }

  /** `RemoveChars(s, chars)`: a StringBuilder collects the characters that
      are not in `chars`. */
  method RemoveChars(s: string, chars: seq<char>) returns (r: string)
    ensures r == Filter(s, Outside(chars))
  {
    var sb := "";
    for k := 0 to |s|
      invariant sb == Filter(s[..k], Outside(chars))
    {
      if s[k] !in chars {
        sb := sb + [s[k]];
      }
      FilterAppend(s[..k], [s[k]], Outside(chars));
      assert s[..k + 1] == s[..k] + [s[k]];
    }
    assert s[..|s|] == s;
    r := sb;
  }

  /** `RemoveSpaces(s)` is `RemoveChars(s, ' ')`. */
  method RemoveSpaces(s: string) returns (r: string)
    ensures ' ' !in r
    ensures forall c :: c != ' ' ==> multiset(r)[c] == multiset(s)[c]
    ensures r == Filter(s, Outside([' ']))
  {
    r := RemoveChars(s, [' ']);
    FilterCounts(s, Outside([' ']));
    assert !Outside([' '])(' ');
  }

  /** `OnlyNumbers(s)`: the characters `isDigit` (`char.IsDigit`) accepts. */
  function OnlyNumbers(s: string, isDigit: char -> bool): (r: string)
    ensures forall i :: 0 <= i < |r| ==> isDigit(r[i])
    ensures forall c :: isDigit(c) ==> multiset(r)[c] == multiset(s)[c]
  {
    FilterCounts(s, isDigit);
    Filter(s, isDigit)
  }

  /** `OnlyAlfaNumeric(s)`: the characters `isLetterOrDigit`
      (`char.IsLetterOrDigit`) accepts. */
  function OnlyAlfaNumeric(s: string, isLetterOrDigit: char -> bool): (r: string)
    ensures forall i :: 0 <= i < |r| ==> isLetterOrDigit(r[i])
    ensures forall c :: isLetterOrDigit(c) ==> multiset(r)[c] == multiset(s)[c]
  {
    FilterCounts(s, isLetterOrDigit);
    Filter(s, isLetterOrDigit)
  }

  // ---------------------------------------------------------------------
  // Slicing

  /** `ToWithoutFirstCharacter`: a blank value comes back as it is;
      otherwise the first character is dropped. */
  function ToWithoutFirstCharacter(value: string): (r: string)
    ensures IsBlank(value) ==> r == value
    ensures !IsBlank(value) ==> |value| == |r| + 1 && value == [value[0]] + r
  {
    if IsBlank(value) then value else if |value| == 1 then "" else value[1..]
  }

  /** `ToTruncateWithMaxLength`: a blank value comes back as it is; a longer
      value is cut to `maxLength` characters, and `Substring` throws for a
      negative length. */
  function ToTruncateWithMaxLength(value: string, maxLength: int32): (r: Result<string>)
    ensures IsBlank(value) ==> r == Ok(value)
    ensures r.Threw? <==> !IsBlank(value) && maxLength < 0
    ensures r.Threw? ==> r.error == ArgumentOutOfRangeException("length")
    ensures !IsBlank(value) && maxLength >= 0 ==>
      r.Ok? && |r.value| == Min(|value|, maxLength as int) && r.value == value[..|r.value|]
  {
    if IsBlank(value) then Ok(value)
    else if |value| > maxLength as int then
      (if maxLength < 0 then Threw(ArgumentOutOfRangeException("length"))
       else Ok(value[..maxLength]))
    else Ok(value)
  }

  function Min(a: int, b: int): int { if a < b then a else b }

  /** Truncating what was truncated to the same length changes nothing. */
  lemma TruncateIdempotent(value: string, maxLength: int32)
    requires ToTruncateWithMaxLength(value, maxLength).Ok?
    ensures var t := ToTruncateWithMaxLength(value, maxLength).value;
      ToTruncateWithMaxLength(t, maxLength) == Ok(t)
  {
  }

  // ---------------------------------------------------------------------
  // Extract

  /** `s.Split(new[] { sep }, StringSplitOptions.None)`: the pieces between
      the occurrences of `sep` found from the left without overlapping; an
      empty separator leaves `s` whole. */
  function SplitOn(s: string, sep: string): (r: seq<string>)
    ensures |r| >= 1
    decreases |s|
  {
    if |sep| == 0 then [s]
    else
      match IndexOfString(s, sep)
      case None => [s]
      case Some(i) => [s[..i]] + SplitOn(s[i + |sep|..], sep)
  }

  /** `Extract`: "" unless both delimiters occur; otherwise the last piece
      of a split at the first delimiter, cut at the first occurrence of the
      second.  No exception can reach the `catch` for non-null strings. */
  function Extract(value: string, beginDelim: string, endDelim: string): (r: string)
    ensures !Contains(value, beginDelim) || !Contains(value, endDelim) ==> r == ""
  {
    if !Contains(value, beginDelim) || !Contains(value, endDelim) then ""
    else
      var pieces := SplitOn(value, beginDelim);
      SplitOn(pieces[|pieces| - 1], endDelim)[0]
  }

  /** An occurrence in a prefix is an occurrence in the whole. */
  lemma OccursInPrefix(p: string, k: nat, t: string, j: nat)
    requires k <= |p| && OccursAt(p[..k], t, j)
    ensures OccursAt(p, t, j) && j + |t| <= k
  {
    assert p[..k][j..j + |t|] == p[j..j + |t|];
  }

  /** A prefix of a string without `t` has no `t` either. */
  lemma NotInPrefix(p: string, k: nat, t: string)
    requires k <= |p| && !Contains(p, t)
    ensures !Contains(p[..k], t)
  {
    forall j: nat | j <= k && OccursAt(p[..k], t, j)
      ensures false
    {
      OccursInPrefix(p, k, t, j);
    }
  }

  /** An occurrence in a suffix is an occurrence in the whole. */
  lemma OccursInSuffix(p: string, k: nat, t: string, j: nat)
    requires k <= |p| && OccursAt(p[k..], t, j)
    ensures OccursAt(p, t, j + k)
  {
    assert p[k..][j..j + |t|] == p[j + k..j + k + |t|];
  }

  /** No occurrence starts within the first `n` positions of the suffix
      from `k`, so none starts within `n` positions from `k` in `p`. */
  lemma NoneInSuffixPrefix(p: string, k: nat, t: string, n: nat)
    requires k + n <= |p| && forall j: nat :: j < n ==> !OccursAt(p[k..], t, j)
    ensures forall j: nat :: k <= j < k + n ==> !OccursAt(p, t, j)
  {
    forall j: nat | k <= j < k + n
      ensures !OccursAt(p, t, j)
    {
      if OccursAt(p, t, j) {
        OccursFromSuffix(p, k, t, j - k);
      }
    }
  }

  /** ... and an occurrence past `k` is one in the suffix from `k`. */
  lemma OccursFromSuffix(p: string, k: nat, t: string, j: nat)
    requires k <= |p| && OccursAt(p, t, j + k)
    ensures OccursAt(p[k..], t, j)
  {
    assert p[k..][j..j + |t|] == p[j + k..j + k + |t|];
  }

  /** The piece before the first occurrence holds no occurrence. */
  lemma BeforeFirst(s: string, t: string, i: nat)
    requires i <= |s| && forall j: nat :: j < i ==> !OccursAt(s, t, j)
    requires |t| > 0
    ensures !Contains(s[..i], t)
  {
    forall j: nat | j <= i && OccursAt(s[..i], t, j)
      ensures false
    {
      OccursInPrefix(s, i, t, j);
    }
  }

  /** The first piece of a split is the prefix before the first occurrence
      of the separator, or the whole string. */
  lemma SplitOnFirst(s: string, sep: string)
    requires |sep| > 0
    ensures var f := SplitOn(s, sep)[0];
      |f| <= |s| && f == s[..|f|] && !Contains(f, sep) && (|f| == |s| || OccursAt(s, sep, |f|))
      && forall j: nat :: j < |f| ==> !OccursAt(s, sep, j)
  {
    IndexOfStringSpec(s, sep);
    match IndexOfString(s, sep)
    case None =>
      assert s[..|s|] == s;
    case Some(i) =>
      BeforeFirst(s, sep, i);
  }

  /** The last piece of a split. */
  function LastPiece(s: string, sep: string): string
  {
    var ps := SplitOn(s, sep); ps[|ps| - 1]
  }

  /** The last piece of a split is a suffix free of the separator. */
  lemma {:induction false} LastPieceFree(s: string, sep: string)
    requires |sep| > 0
    ensures var p := LastPiece(s, sep); |p| <= |s| && p == s[|s| - |p|..] && !Contains(p, sep)
    decreases |s|
  {
    IndexOfStringSpec(s, sep);
    match IndexOfString(s, sep)
    case None =>
    case Some(i) =>
      var t := s[i + |sep|..];
      LastPieceFree(t, sep);
      LastPieceStep(s, sep, i);
      var p := LastPiece(t, sep);
      assert t[|t| - |p|..] == s[|s| - |p|..];
  }

  /** Splitting at an occurrence leaves the last piece of the rest. */
  lemma LastPieceStep(s: string, sep: string, i: nat)
    requires |sep| > 0 && IndexOfString(s, sep) == Some(i)
    ensures i + |sep| <= |s| && LastPiece(s, sep) == LastPiece(s[i + |sep|..], sep)
  {
    SplitOnStep(s, sep, i);
    LastOfSplitStep(s, s[i + |sep|..], s[..i], sep);
  }

  /** At the first occurrence of the separator a split takes one piece off. */
  lemma SplitOnStep(s: string, sep: string, i: nat)
    requires |sep| > 0 && IndexOfString(s, sep) == Some(i)
    ensures i + |sep| <= |s| && SplitOn(s, sep) == [s[..i]] + SplitOn(s[i + |sep|..], sep)
  {
  }

  lemma LastOfSplitStep(s: string, t: string, x: string, sep: string)
    requires SplitOn(s, sep) == [x] + SplitOn(t, sep)
    ensures LastPiece(s, sep) == LastPiece(t, sep)
  {
    var ps := SplitOn(t, sep);
    assert ([x] + ps)[|ps|] == ps[|ps| - 1];
  }

  /** When the separator occurs, one occurrence ends where the last piece
      starts. */
  lemma {:induction false} LastPieceAfter(s: string, sep: string)
    requires |sep| > 0 && IndexOfString(s, sep).Some?
    ensures var p := LastPiece(s, sep);
      |s| - |p| >= |sep| && OccursAt(s, sep, |s| - |p| - |sep|)
    decreases |s|
  {
    var i := IndexOfString(s, sep).value;
    var t := s[i + |sep|..];
    var p := LastPiece(t, sep);
    assert i + |sep| <= |s| && LastPiece(s, sep) == p by { LastPieceStep(s, sep, i); }
    if IndexOfString(t, sep).None? {
      LastPieceWhole(t, sep);
      IndexOfStringSpec(s, sep);
    } else {
      assert |t| - |p| >= |sep| && OccursAt(t, sep, |t| - |p| - |sep|) by { LastPieceAfter(t, sep); }
      OccursBeforeSuffix(s, i + |sep|, sep, |p|);
    }
  }

  /** Without the separator the last piece is the whole string. */
  lemma LastPieceWhole(s: string, sep: string)
    requires IndexOfString(s, sep).None?
    ensures LastPiece(s, sep) == s
  {
  }

  /** An occurrence ending `n` characters before the end of a suffix ends
      `n` characters before the end of the whole. */
  lemma OccursBeforeSuffix(s: string, k: nat, sep: string, n: nat)
    requires k <= |s| && |s| - k - n >= |sep| && OccursAt(s[k..], sep, |s| - k - n - |sep|)
    ensures OccursAt(s, sep, |s| - n - |sep|)
  {
    OccursInSuffix(s, k, sep, |s| - k - n - |sep|);
  }

  /** What `Extract` returns when both delimiters occur: a piece of the
      value, starting right after an occurrence of the first delimiter
      after which it does not occur again (at the start of the value when
      that delimiter is empty), that ends where the second delimiter first
      starts after that point or where the value does. */
  lemma ExtractSpec(value: string, beginDelim: string, endDelim: string) returns (start: nat)
    requires Contains(value, beginDelim) && Contains(value, endDelim)
    ensures var r := Extract(value, beginDelim, endDelim);
      start + |r| <= |value| && value[start..start + |r|] == r
      && (|beginDelim| > 0 ==>
            !Contains(value[start..], beginDelim) && start >= |beginDelim|
            && OccursAt(value, beginDelim, start - |beginDelim|))
      && (|beginDelim| == 0 ==> start == 0)
      && (|endDelim| > 0 ==>
            !Contains(r, endDelim) && (start + |r| == |value| || OccursAt(value, endDelim, start + |r|))
            && forall j: nat :: start <= j < start + |r| ==> !OccursAt(value, endDelim, j))
  {
    var p := LastPiece(value, beginDelim);
    var r := SplitOn(p, endDelim)[0];
    assert Extract(value, beginDelim, endDelim) == r;
    LastPieceFacts(value, beginDelim);
    FirstPieceFacts(p, endDelim, beginDelim);
    start := |value| - |p|;
    PrefixOfSuffix(value, start, p, r);
    if |endDelim| > 0 {
      if |r| < |p| {
        OccursInSuffix(value, start, endDelim, |r|);
      }
      NoneInSuffixPrefix(value, start, endDelim, |r|);
    }
  }

  /** The last piece of a split at `sep` is a suffix, and when `sep` is
      not empty and occurs, it holds no `sep` and follows an occurrence. */
  lemma LastPieceFacts(value: string, sep: string)
    ensures var p := LastPiece(value, sep);
      |p| <= |value| && p == value[|value| - |p|..]
      && (|sep| > 0 && Contains(value, sep) ==>
            !Contains(p, sep) && |value| - |p| >= |sep|
            && OccursAt(value, sep, |value| - |p| - |sep|))
  {
    if |sep| > 0 {
      LastPieceFree(value, sep);
      if Contains(value, sep) {
        IndexOfStringSpec(value, sep);
        LastPieceAfter(value, sep);
      }
    } else {
      assert LastPiece(value, sep) == value;
    }
  }

  /** The first piece of a split at `sep` is a prefix that ends where
      `sep` occurs or where the string does, and it holds no `sep`, nor
      anything else the whole string does not hold. */
  lemma FirstPieceFacts(p: string, sep: string, other: string)
    ensures var r := SplitOn(p, sep)[0];
      |r| <= |p| && r == p[..|r|]
      && (|sep| > 0 ==> !Contains(r, sep) && (|r| == |p| || OccursAt(p, sep, |r|)))
      && (|sep| > 0 ==> forall j: nat :: j < |r| ==> !OccursAt(p, sep, j))
      && (!Contains(p, other) ==> !Contains(r, other))
  {
    var r := SplitOn(p, sep)[0];
    if |sep| > 0 {
      SplitOnFirst(p, sep);
    } else {
      assert r == p[..|p|];
    }
    if !Contains(p, other) {
      NotInPrefix(p, |r|, other);
    }
  }

  /** A prefix of a suffix is a slice. */
  lemma PrefixOfSuffix(s: string, k: nat, p: string, r: string)
    requires k <= |s| && p == s[k..] && |r| <= |p| && r == p[..|r|]
    ensures s[k..k + |r|] == r
  {
  }

  // ---------------------------------------------------------------------
  // Accents and special characters

  /** The two tables of lines 178-179, each written in four pieces of
      twelve characters. */
  const AccentedUpper1: string := "ÀÁÂÃÄÅÇÈÉÊËÌ"
  const AccentedUpper2: string := "ÍÎÏÒÓÔÕÖÙÚÛÜ"
  const AccentedLower1: string := "àáâãäåçèéêëì"
  const AccentedLower2: string := "íîïòóôõöùúûü"
  const Accented: string := AccentedUpper1 + AccentedUpper2 + AccentedLower1 + AccentedLower2
  const PlainUpper1: string := "AAAAAACEEEEI"
  const PlainUpper2: string := "IIIOOOOOUUUU"
  const PlainLower1: string := "aaaaaaceeeei"
  const PlainLower2: string := "iiiooooouuuu"
  const Unaccented48: string := PlainUpper1 + PlainUpper2 + PlainLower1 + PlainLower2

  /** The accented table is in strictly increasing order, from 'À' up. */
  lemma AccentedIncreasing(i: nat, j: nat)
    requires i < j < |Accented|
    ensures 'À' <= Accented[i] < Accented[j]
  {
    AccentedSteps();
    var k := i;
    while k < j
      invariant i <= k <= j
      invariant Accented[i] <= Accented[k]
      invariant k > i ==> Accented[i] < Accented[k]
    {
      k := k + 1;
    }
  }

  /** Each character is below the next. */
  predicate Ascending(s: string)
  {
    forall k :: 0 <= k < |s| - 1 ==> s[k] < s[k + 1]
  }

  /** Two ascending strings, the first ending below the start of the
      second, make an ascending string. */
  lemma AscendingJoin(s: string, t: string)
    requires Ascending(s) && Ascending(t) && |s| > 0 && |t| > 0 && s[|s| - 1] < t[0]
    ensures Ascending(s + t)
  {
    forall k | 0 <= k < |s + t| - 1
      ensures (s + t)[k] < (s + t)[k + 1]
    {
      if k >= |s| {
        assert (s + t)[k] == t[k - |s|] && (s + t)[k + 1] == t[k - |s| + 1];
      }
    }
  }

  lemma AccentedPieces()
    ensures Ascending(AccentedUpper1) && Ascending(AccentedUpper2)
    ensures Ascending(AccentedLower1) && Ascending(AccentedLower2)
    ensures |AccentedUpper1| == |AccentedUpper2| == |AccentedLower1| == |AccentedLower2| == 12
    ensures AccentedUpper1[0] == 'À' && AccentedUpper1[11] < AccentedUpper2[0]
    ensures AccentedUpper2[11] < AccentedLower1[0] && AccentedLower1[11] < AccentedLower2[0]
  {
  }

  /** Every character of a string is a plain letter. */
  predicate AllPlain(s: string)
  {
    forall k :: 0 <= k < |s| ==> IsPlainLetter(s[k])
  }

  lemma PlainPieces()
    ensures AllPlain(PlainUpper1) && AllPlain(PlainUpper2) && AllPlain(PlainLower1) && AllPlain(PlainLower2)
    ensures |PlainUpper1| == |PlainUpper2| == |PlainLower1| == |PlainLower2| == 12
  {
  }

  lemma AllPlainJoin(s: string, t: string)
    requires AllPlain(s) && AllPlain(t)
    ensures AllPlain(s + t)
  {
    forall k | |s| <= k < |s + t|
      ensures IsPlainLetter((s + t)[k])
    {
      assert (s + t)[k] == t[k - |s|];
    }
  }

  lemma AccentedSteps()
    ensures |Accented| == |Unaccented48| == 48
    ensures forall k :: 0 <= k < |Accented| - 1 ==> 'À' <= Accented[k] < Accented[k + 1]
    ensures forall k :: 0 <= k < |Unaccented48| ==> IsPlainLetter(Unaccented48[k])
  {
    AccentedPieces();
    var u := AccentedUpper1 + AccentedUpper2;
    AscendingJoin(AccentedUpper1, AccentedUpper2);
    assert u[23] == AccentedUpper2[11];
    AscendingJoin(u, AccentedLower1);
    var v := u + AccentedLower1;
    assert v[35] == AccentedLower1[11];
    AscendingJoin(v, AccentedLower2);
    assert Accented[0] == 'À';
    forall k | 0 <= k < |Accented| - 1
      ensures 'À' <= Accented[k]
    {
      var m := 0;
      while m < k
        invariant m <= k && 'À' <= Accented[m]
      {
        m := m + 1;
      }
    }
    PlainPieces();
    AllPlainJoin(PlainUpper1, PlainUpper2);
    AllPlainJoin(PlainUpper1 + PlainUpper2, PlainLower1);
    AllPlainJoin(PlainUpper1 + PlainUpper2 + PlainLower1, PlainLower2);
  }

  /** Every accented character is found at its own position. */
  lemma AccentedPosition(k: nat)
    requires k < |Accented|
    ensures IndexOf(Accented, Accented[k]) == Some(k)
  {
    forall j | 0 <= j < k
      ensures Accented[..k][j] != Accented[k]
    {
      AccentedIncreasing(j, k);
    }
    IndexOfAt(Accented, Accented[k], k);
  }

  /** The replacement of one character by the loop on lines 181-189: its
      position in the accented table, if any, picks the plain letter. */
  function Unaccent(c: char): char
  {
    match IndexOf(Accented, c)
    case Some(k) => Unaccented48[k]
    case None => c
  }

  /** A character is either kept or replaced by a plain letter. */
  lemma UnaccentPlain(c: char)
    ensures Unaccent(c) == c || IsPlainLetter(Unaccent(c))
  {
    AccentedFloor();
  }

  /** What the table puts in is never replaced again, and a character
      outside the table stays. */
  lemma UnaccentTwice(c: char)
    ensures Unaccent(Unaccent(c)) == Unaccent(c)
    ensures c !in Accented ==> Unaccent(c) == c
  {
    AccentedFloor();
    match IndexOf(Accented, c)
    case Some(k) =>
      assert Unaccented48[k] !in Accented;
      UnaccentMissing(Unaccented48[k]);
    case None =>
  }

  /** No accented character lies below 'À'; no plain replacement reaches it. */
  lemma AccentedFloor()
    ensures forall k :: 0 <= k < |Accented| ==> 'À' <= Accented[k]
    ensures forall k :: 0 <= k < |Unaccented48| ==> IsPlainLetter(Unaccented48[k])
    ensures forall c :: c < 'À' ==> c !in Accented
  {
    AccentedSteps();
  }

  predicate IsPlainLetter(c: char)
  {
    'A' <= c <= 'Z' || 'a' <= c <= 'z'
  }

  /** The table maps each accented character to the plain letter at the
      same position. */
  lemma UnaccentTable(k: nat)
    requires k < |Accented|
    ensures Unaccent(Accented[k]) == Unaccented48[k]
  {
    AccentedPosition(k);
  }

  /** The loop on lines 181-189, applied to every character. */
  function Unaccented(s: string): (r: string)
    ensures |r| == |s|
    ensures forall i :: 0 <= i < |s| ==> r[i] == Unaccent(s[i])
  {
    MapChars(s, Unaccent)
  }

  /** Every character of `s` replaced by its image under `f`. */
  function MapChars(s: string, f: char -> char): (r: string)
    ensures |r| == |s|
  {
    seq(|s|, i requires 0 <= i < |s| => f(s[i]))
  }

  /** Mapping a string one character longer adds the image of that
      character. */
  lemma MapCharsSnoc(s: string, k: nat, f: char -> char)
    requires k < |s|
    ensures MapChars(s[..k + 1], f) == MapChars(s[..k], f) + [f(s[k])]
  {
    var a := MapChars(s[..k + 1], f);
    var b := MapChars(s[..k], f) + [f(s[k])];
    assert forall j :: 0 <= j < |a| ==> a[j] == b[j];
  }

  /** `ToWithoutSpecialCharacter` as written: a blank value comes back as
      it is; otherwise the result of the regular expression is thrown away
      and only the accent table is applied. */
  method ToWithoutSpecialCharacter(value: string) returns (result: string)
    ensures IsBlank(value) ==> result == value
    ensures !IsBlank(value) ==> result == Unaccented(value)
  {
    if IsBlank(value) {
      return value;
    }
    result := "";
    for i := 1 to |value| + 1
      invariant result == Unaccented(value[..i - 1])
    {
      MapCharsSnoc(value, i - 1, Unaccent);
      var vPos := match IndexOf(Accented, value[i - 1]) case Some(k) => k + 1 case None => 0;
      if vPos > 0 {
        UnaccentFound(value[i - 1], vPos - 1);
        result := result + [Unaccented48[vPos - 1]];
      } else {
        UnaccentMissing(value[i - 1]);
        result := result + [value[i - 1]];
      }
    }
    assert value[..|value|] == value;
  }

  /** A character found in the accented table at `k` becomes the plain
      letter at `k`; one not found stays. */
  lemma UnaccentFound(c: char, k: nat)
    requires IndexOf(Accented, c) == Some(k)
    ensures k < |Unaccented48| && Unaccent(c) == Unaccented48[k]
  {
  }

  lemma UnaccentMissing(c: char)
    requires IndexOf(Accented, c) == None
    ensures Unaccent(c) == c
  {
  }

  /** Applying the accent table twice is applying it once. */
  lemma UnaccentedIdempotent(s: string)
    ensures Unaccented(Unaccented(s)) == Unaccented(s)
  {
    forall i | 0 <= i < |s|
      ensures Unaccented(Unaccented(s))[i] == Unaccented(s)[i]
    {
      UnaccentTwice(s[i]);
    }
  }

  /** The documented example keeps its punctuation: "21.000-000" comes back
      unchanged, not as "21000000". */
  lemma DocExampleKeepsPunctuation(a: string, b: string, c: string)
    requires AllDigits(a) && AllDigits(b) && AllDigits(c)
    ensures Unaccented(a + "." + b + "-" + c) == a + "." + b + "-" + c != a + b + c
  {
    DigitsBelow(a);
    DigitsBelow(b);
    DigitsBelow(c);
    BelowJoin(a, ".");
    BelowJoin(a + ".", b);
    BelowJoin(a + "." + b, "-");
    BelowJoin(a + "." + b + "-", c);
    UnaccentedBelow(a + "." + b + "-" + c);
  }

  /** Every character lies below the first accented one. */
  predicate AllBelow(s: string)
  {
    forall i :: 0 <= i < |s| ==> s[i] < 'À'
  }

  lemma DigitsBelow(s: string)
    requires AllDigits(s)
    ensures AllBelow(s)
  {
  }

  lemma BelowJoin(s: string, t: string)
    requires AllBelow(s) && AllBelow(t)
    ensures AllBelow(s + t)
  {
    forall k | |s| <= k < |s + t|
      ensures (s + t)[k] < 'À'
    {
      assert (s + t)[k] == t[k - |s|];
    }
  }

  /** Text below the first accented character is left as it is. */
  lemma UnaccentedBelow(s: string)
    requires AllBelow(s)
    ensures Unaccented(s) == s
  {
    forall i | 0 <= i < |s|
      ensures Unaccented(s)[i] == s[i]
    {
      BelowNotFound(s[i]);
      UnaccentMissing(s[i]);
    }
  }

  /** The table holds nothing below 'À'. */
  lemma BelowNotFound(c: char)
    requires c < 'À'
    ensures IndexOf(Accented, c) == None
  {
    AccentedFloor();
  }

  /** The class of the regular expression on line 172: what it does not
      remove for its own sake. */
  predicate InClass(c: char)
  {
    'a' <= c <= 'z' || '0' <= c <= '9' || 'A' <= c <= 'Z'
    || c == 'Á' || c == 'É' || c == 'Í' || c == 'Ó' || c == 'Ú' || c == 'Â' || c == 'Ê'
    || c == 'Ô' || c == 'À' || c == 'Ã' || c == 'Ç'
    || c == 'á' || c == 'é' || c == 'í' || c == 'ó' || c == 'ú' || c == 'â' || c == 'ê'
    || c == 'ô' || c == 'à' || c == 'õ' || c == 'ã' || c == 'ç' || c == ' '
  }

  predicate IsQuote(c: char)
  {
    c == '\'' || c == '"'
  }

  /** Whether the regular expression matches the character `c`: one outside
      its class, or an 's' right after a quote. */
  predicate Special(afterQuote: bool, c: char)
  {
    !InClass(c) || (c == 's' && afterQuote)
  }

  /** `regex.Replace(s, "")` for that expression; `afterQuote` says whether
      the character before `s` is a quote (false at the start). */
  function Strip(afterQuote: bool, s: string): string
    decreases |s|
  {
    if |s| == 0 then "" else (if Special(afterQuote, s[0]) then "" else [s[0]]) + Strip(IsQuote(s[0]), s[1..])
  }

  /** Whether the last character of `x` is a quote, `q` when `x` is empty. */
  function QuoteAfter(q: bool, x: string): bool
  {
    if |x| == 0 then q else IsQuote(x[|x| - 1])
  }

  /** What the expression leaves are characters of its class. */
  lemma {:induction false} StripInClass(q: bool, s: string)
    ensures forall k :: 0 <= k < |Strip(q, s)| ==> InClass(Strip(q, s)[k])
    decreases |s|
  {
    if |s| > 0 {
      StripInClass(IsQuote(s[0]), s[1..]);
    }
  }

  /** The expression works on a concatenation piece by piece, the second
      piece seeing whether the first ends in a quote. */
  lemma {:induction false} StripAppend(q: bool, x: string, y: string)
    ensures Strip(q, x + y) == Strip(q, x) + Strip(QuoteAfter(q, x), y)
    decreases |x|
  {
    if |x| == 0 {
      assert x + y == y;
    } else {
      assert (x + y)[0] == x[0] && (x + y)[1..] == x[1..] + y;
      StripAppend(IsQuote(x[0]), x[1..], y);
      assert QuoteAfter(IsQuote(x[0]), x[1..]) == QuoteAfter(q, x) by {
        if |x| > 1 {
          assert x[1..][|x| - 2] == x[|x| - 1];
        }
      }
      var head := if Special(q, x[0]) then "" else [x[0]];
      assert head + (Strip(IsQuote(x[0]), x[1..]) + Strip(QuoteAfter(q, x), y))
        == (head + Strip(IsQuote(x[0]), x[1..])) + Strip(QuoteAfter(q, x), y);
    }
  }

  /** Every character of `s` is an ASCII digit. */
  predicate AllDigits(s: string)
  {
    forall k :: 0 <= k < |s| ==> IsAsciiDigit(s[k])
  }

  /** Digits pass the expression unchanged. */
  lemma {:induction false} StripDigits(q: bool, s: string)
    requires AllDigits(s)
    ensures Strip(q, s) == s
    decreases |s|
  {
    if |s| > 0 {
      StripDigits(false, s[1..]);
      assert [s[0]] + s[1..] == s;
    }
  }

  /** `ToWithoutSpecialCharacter` as its documentation describes it: the
      regular expression's result is kept and the accent table applied to
      it.  What is left are plain letters, digits and spaces. */
  function WithoutSpecialCharacter(value: string): (r: string)
    ensures IsBlank(value) ==> r == value
    ensures !IsBlank(value) ==> forall i :: 0 <= i < |r| ==> IsPlainLetter(r[i]) || IsAsciiDigit(r[i]) || r[i] == ' '
  {
    if IsBlank(value) then value
    else
      var t := Strip(false, value);
      StripInClass(false, value);
      UnaccentClass(t);
      Unaccented(t)
  }

  /** Characters in the class end up plain. */
  lemma UnaccentClass(t: string)
    requires forall k :: 0 <= k < |t| ==> InClass(t[k])
    ensures forall i :: 0 <= i < |t| ==> var c := Unaccented(t)[i]; IsPlainLetter(c) || IsAsciiDigit(c) || c == ' '
  {
    AccentedFloor();
    forall i | 0 <= i < |t|
      ensures var c := Unaccent(t[i]); IsPlainLetter(c) || IsAsciiDigit(c) || c == ' '
    {
      var c := t[i];
      if c !in Accented {
        assert c < 'À';
      } else {
        var k := IndexOf(Accented, c).value;
        assert Unaccent(c) == Unaccented48[k];
      }
    }
  }

  /** With the regular expression applied, the documented example holds:
      "21.000-000" (digit groups joined by '.' and '-') gives "21000000". */
  lemma DocExampleWithoutPunctuation(a: string, b: string, c: string)
    requires AllDigits(a) && AllDigits(b) && AllDigits(c)
    ensures WithoutSpecialCharacter(a + "." + b + "-" + c) == a + b + c
  {
    var v := a + "." + b + "-" + c;
    assert v[|a|] == '.';
    StripGroups(a, b, c);
    DigitsBelow(a + b + c);
    UnaccentedBelow(a + b + c);
  }

  /** The expression takes the '.' and the '-' out from between the groups. */
  lemma StripGroups(a: string, b: string, c: string)
    requires AllDigits(a) && AllDigits(b) && AllDigits(c)
    ensures Strip(false, a + "." + b + "-" + c) == a + b + c
  {
    assert Strip(false, a + ".") == a by {
      StripAppend(false, a, ".");
      StripDigits(false, a);
      StripMark(QuoteAfter(false, a), '.');
      assert a + "" == a;
    }
    assert Strip(false, a + "." + b) == a + b by {
      StripAppend(false, a + ".", b);
      StripDigits(QuoteAfter(false, a + "."), b);
    }
    assert Strip(false, a + "." + b + "-") == a + b by {
      StripAppend(false, a + "." + b, "-");
      StripMark(QuoteAfter(false, a + "." + b), '-');
      assert a + b + "" == a + b;
    }
    StripAppend(false, a + "." + b + "-", c);
    StripDigits(QuoteAfter(false, a + "." + b + "-"), c);
  }

  /** A single character outside the class is taken out. */
  lemma StripMark(q: bool, c: char)
    requires !InClass(c)
    ensures Strip(q, [c]) == ""
  {
  }

  predicate IsAsciiDigit(c: char)
  {
    '0' <= c <= '9'
  }

  /** `ToOnlyNumbers`: a blank value comes back as it is; otherwise the
      special characters go and then every character that is not an ASCII
      digit. */
  function ToOnlyNumbers(value: string): (r: string)
    ensures IsBlank(value) ==> r == value
  {
    if IsBlank(value) then value else Filter(WithoutSpecialCharacter(value), IsAsciiDigit)
  }

  /** The accent table neither makes nor breaks a digit. */
  lemma {:induction false} DigitsUnaccented(s: string)
    ensures Filter(Unaccented(s), IsAsciiDigit) == Filter(s, IsAsciiDigit)
    decreases |s|
  {
    if |s| > 0 {
      AccentedFloor();
      DigitsUnaccented(s[1..]);
      assert Unaccented(s)[1..] == Unaccented(s[1..]);
      if s[0] in Accented {
        var k := IndexOf(Accented, s[0]).value;
        assert Unaccent(s[0]) == Unaccented48[k];
      }
    }
  }

  /** The regular expression never removes a digit. */
  lemma {:induction false} DigitsStripped(q: bool, s: string)
    ensures Filter(Strip(q, s), IsAsciiDigit) == Filter(s, IsAsciiDigit)
    decreases |s|
  {
    if |s| > 0 {
      DigitsStripped(IsQuote(s[0]), s[1..]);
      var head := if Special(q, s[0]) then "" else [s[0]];
      FilterAppend(head, Strip(IsQuote(s[0]), s[1..]), IsAsciiDigit);
    }
  }

  /** `ToOnlyNumbers` gives the ASCII digits of the value in order, and it
      would give the same with the accent table alone. */
  lemma OnlyNumbersAreDigits(value: string)
    requires !IsBlank(value)
    ensures ToOnlyNumbers(value) == Filter(value, IsAsciiDigit)
    ensures Filter(Unaccented(value), IsAsciiDigit) == Filter(value, IsAsciiDigit)
  {
    DigitsStripped(false, value);
    DigitsUnaccented(Strip(false, value));
    DigitsUnaccented(value);
  }

  // ---------------------------------------------------------------------
  // Words

  /** The pieces of `words` at least `n` characters long, in order. */
  function LongWords(words: seq<string>, n: int): seq<string>
  {
    if |words| == 0 then []
    else
      var last := words[|words| - 1];
      LongWords(words[..|words| - 1], n) + (if |last| >= n then [last] else [])
  }

  /** Each word followed by one space, as the loops on lines 129-131 and
      253-262 build their text. */
  function Spaced(words: seq<string>): string
  {
    if |words| == 0 then "" else Spaced(words[..|words| - 1]) + words[|words| - 1] + " "
  }

  /** One more word adds that word and a space. */
  lemma SpacedSnoc(words: seq<string>, w: string)
    ensures Spaced(words + [w]) == Spaced(words) + w + " "
  {
    assert (words + [w])[..|words|] == words;
  }

  lemma {:induction false} SpacedJoin(words: seq<string>)
    requires |words| > 0
    ensures Spaced(words) == Join(words, " ") + " "
    decreases |words|
  {
    var init := words[..|words| - 1];
    if |init| > 0 {
      SpacedJoin(init);
      JoinSnoc(init, words[|words| - 1], " ");
      assert init + [words[|words| - 1]] == words;
    }
  }

  /** Trimming the spaced words is trimming the words joined with spaces. */
  lemma SpacedTrim(words: seq<string>)
    ensures Trim(Spaced(words)) == Trim(Join(words, " "))
  {
    if |words| > 0 {
      SpacedJoin(words);
      TrimSpace(Spaced(words), Join(words, " "));
    }
  }

  /** One trailing space never survives a trim. */
  lemma TrimSpace(s: string, t: string)
    requires s == t + " "
    ensures Trim(s) == Trim(t)
  {
    assert IsBlank(" ");
    TrimAppendBlank(t, " ");
  }

  /** What `ToRemoveWords` makes of a non-blank value: the long pieces,
      joined by single spaces, trimmed. */
  function WordsKept(value: string, countLetter: int): string
  {
    Trim(Join(LongWords(Split(value, ' '), countLetter), " "))
  }

  /** `ToRemoveWords`. */
  method ToRemoveWords(value: string, countLetter: int32) returns (r: string)
    ensures IsBlank(value) ==> r == value
    ensures !IsBlank(value) ==> r == WordsKept(value, countLetter as int)
  {
    if IsBlank(value) {
      return value;
    }
    var inputElements := Split(value, ' ');
    var resultBuilder := "";
    for k := 0 to |inputElements|
      invariant resultBuilder == Spaced(LongWords(inputElements[..k], countLetter as int))
    {
      var element := inputElements[k];
      KeptStep(inputElements, k, countLetter as int);
      if |element| >= countLetter as int {
        resultBuilder := resultBuilder + element + " ";
      }
    }
    assert inputElements[..|inputElements|] == inputElements;
    SpacedTrim(LongWords(inputElements, countLetter as int));
    r := Trim(resultBuilder);
  }

  /** The loop of `ToRemoveWords` adds the next word, and a space, exactly
      when the word is long enough. */
  lemma KeptStep(words: seq<string>, k: nat, n: int)
    requires k < |words|
    ensures var w := words[k];
      Spaced(LongWords(words[..k + 1], n))
      == if |w| >= n then Spaced(LongWords(words[..k], n)) + w + " " else Spaced(LongWords(words[..k], n))
  {
    var w := words[k];
    var kept := LongWords(words[..k], n);
    assert words[..k + 1] == words[..k] + [w];
    LongWordsSnoc(words[..k], w, n);
    if |w| >= n {
      SpacedSnoc(kept, w);
    } else {
      assert kept + [] == kept;
    }
  }

  /** A string that starts and ends with something other than white space
      trims to itself. */
  lemma TrimSolid(s: string)
    requires |s| > 0 && !IsWhiteSpace(s[0]) && !IsWhiteSpace(s[|s| - 1])
    ensures Trim(s) == s
  {
  }

  /** The documented example, "Fulano de Tal da Silva" with 4 giving
      "Fulano Silva": of five words the three shorter than four letters go. */
  lemma RemoveWordsExample(w0: string, w1: string, w2: string, w3: string, w4: string)
    requires ' ' !in w0 && ' ' !in w1 && ' ' !in w2 && ' ' !in w3 && ' ' !in w4
    requires |w0| >= 4 && |w1| < 4 && |w2| < 4 && |w3| < 4 && |w4| >= 4
    requires !IsWhiteSpace(w0[0]) && !IsWhiteSpace(w4[|w4| - 1])
    ensures WordsKept(w0 + " " + w1 + " " + w2 + " " + w3 + " " + w4, 4) == w0 + " " + w4
  {
    var ws := [w0, w1, w2, w3, w4];
    assert Split(Join(ws, " "), ' ') == ws by { JoinSplit(ws, ' '); }
    JoinFive(w0, w1, w2, w3, w4);
    assert LongWords(ws, 4) == [w0, w4] by { KeepFirstAndLast(w0, w1, w2, w3, w4); }
    var kept := w0 + " " + w4;
    assert Join([w0, w4], " ") == kept by { assert [w0, w4][1..] == [w4]; }
    assert Trim(kept) == kept by {
      assert kept[0] == w0[0] && kept[|kept| - 1] == w4[|w4| - 1];
      TrimSolid(kept);
    }
  }

  lemma JoinFive(w0: string, w1: string, w2: string, w3: string, w4: string)
    ensures Join([w0, w1, w2, w3, w4], " ") == w0 + " " + w1 + " " + w2 + " " + w3 + " " + w4
  {
    var p1: seq<string> := [w0];
    var p2 := p1 + [w1];
    JoinSnoc(p1, w1, " ");
    var p3 := p2 + [w2];
    JoinSnoc(p2, w2, " ");
    var p4 := p3 + [w3];
    JoinSnoc(p3, w3, " ");
    var p5 := p4 + [w4];
    JoinSnoc(p4, w4, " ");
    assert p5 == [w0, w1, w2, w3, w4];
  }

  lemma KeepFirstAndLast(w0: string, w1: string, w2: string, w3: string, w4: string)
    requires |w0| >= 4 && |w1| < 4 && |w2| < 4 && |w3| < 4 && |w4| >= 4
    ensures LongWords([w0, w1, w2, w3, w4], 4) == [w0, w4]
  {
    var s0: seq<string> := [];
    var s1 := s0 + [w0];
    var s2 := s1 + [w1];
    var s3 := s2 + [w2];
    var s4 := s3 + [w3];
    var s5 := s4 + [w4];
    LongWordsSnoc(s0, w0, 4);
    LongWordsSnoc(s1, w1, 4);
    LongWordsSnoc(s2, w2, 4);
    LongWordsSnoc(s3, w3, 4);
    LongWordsSnoc(s4, w4, 4);
    assert LongWords(s5, 4) == [w0, w4];
    assert s5 == [w0, w1, w2, w3, w4];
  }

  /** One more word is kept exactly when it is long enough. */
  lemma LongWordsSnoc(ws: seq<string>, w: string, n: int)
    ensures LongWords(ws + [w], n) == LongWords(ws, n) + (if |w| >= n then [w] else [])
  {
    assert (ws + [w])[..|ws|] == ws;
  }

  /** With no minimum length every piece stays, so a value without white
      space at its ends comes back whole. */
  lemma RemoveNoWords(value: string, countLetter: int)
    requires |value| > 0 && !IsWhiteSpace(value[0]) && !IsWhiteSpace(value[|value| - 1])
    requires countLetter <= 0
    ensures WordsKept(value, countLetter) == value
  {
    var ws := Split(value, ' ');
    AllWordsLong(ws, countLetter);
    SplitJoin(value, ' ');
    TrimSolid(value);
  }

  /** The kept words are long enough and are words of the input. */
  lemma {:induction false} LongWordsKept(words: seq<string>, n: int)
    ensures |LongWords(words, n)| <= |words|
    ensures forall k :: 0 <= k < |LongWords(words, n)| ==> |LongWords(words, n)[k]| >= n && LongWords(words, n)[k] in words
    decreases |words|
  {
    if |words| > 0 {
      var init := words[..|words| - 1];
      LongWordsKept(init, n);
      forall k | 0 <= k < |LongWords(init, n)|
        ensures LongWords(init, n)[k] in words
      {
        assert LongWords(init, n)[k] in init;
      }
    }
  }

  lemma {:induction false} AllWordsLong(ws: seq<string>, n: int)
    requires n <= 0
    ensures LongWords(ws, n) == ws
    decreases |ws|
  {
    if |ws| > 0 {
      AllWordsLong(ws[..|ws| - 1], n);
      assert ws[..|ws| - 1] + [ws[|ws| - 1]] == ws;
    }
  }

  // ---------------------------------------------------------------------
  // Casing

  /** `ToUpperCaseFirstLetter` with `upper` for `char.ToUpperInvariant`. */
  function ToUpperCaseFirstLetter(value: string, upper: char -> char): (r: string)
    ensures IsBlank(value) ==> r == value
    ensures !IsBlank(value) ==> |r| == |value| && r[0] == upper(value[0]) && r[1..] == value[1..]
  {
    if IsBlank(value) then value else [upper(value[0])] + value[1..]
  }

  /** `ToLowerCaseFirstLetter` with `lower` for `char.ToLowerInvariant`. */
  function ToLowerCaseFirstLetter(value: string, lower: char -> char): (r: string)
    ensures IsBlank(value) ==> r == value
    ensures !IsBlank(value) ==> |r| == |value| && r[0] == lower(value[0]) && r[1..] == value[1..]
  {
    if IsBlank(value) then value else [lower(value[0])] + value[1..]
  }

  /** `s.ToLower()`, character by character. */
  function Lowered(s: string, lower: char -> char): (r: string)
    ensures |r| == |s| && forall i :: 0 <= i < |s| ==> r[i] == lower(s[i])
  {
    if |s| == 0 then "" else [lower(s[0])] + Lowered(s[1..], lower)
  }

  /** The word at position `i` as line 255 treats it: a later word of at
      most two characters stays, any other gets a capital. */
  function Capitalised(word: string, i: nat, upper: char -> char): string
  {
    if i > 0 && |word| <= 2 then word else ToUpperCaseFirstLetter(word, upper)
  }

  function CapitalisedAll(words: seq<string>, upper: char -> char): (r: seq<string>)
    ensures |r| == |words|
  {
    seq(|words|, i requires 0 <= i < |words| => Capitalised(words[i], i, upper))
  }

  /** What `ToUpperCaseFirstLetterEachWord` makes of a non-blank value. */
  function TitleCase(value: string, upper: char -> char, lower: char -> char): string
  {
    Trim(Join(CapitalisedAll(Split(Lowered(ToStandardSpaces(value), lower), ' '), upper), " "))
  }

  /** `ToUpperCaseFirstLetterEachWord`. */
  method ToUpperCaseFirstLetterEachWord(value: string, upper: char -> char, lower: char -> char)
    returns (r: string)
    ensures IsBlank(value) ==> r == value
    ensures !IsBlank(value) ==> r == TitleCase(value, upper, lower)
  {
    if IsBlank(value) {
      return value;
    }
    var standard := Lowered(ToStandardSpaces(value), lower);
    var strSplit := Split(standard, ' ');
    ghost var words := CapitalisedAll(strSplit, upper);
    var novString := "";
    for i := 0 to |strSplit|
      invariant novString == Spaced(words[..i])
    {
      assert words[..i + 1][..i] == words[..i];
      if i > 0 && |strSplit[i]| <= 2 {
        novString := novString + strSplit[i] + " ";
      } else {
        novString := novString + ToUpperCaseFirstLetter(strSplit[i], upper) + " ";
      }
    }
    assert words[..|strSplit|] == words;
    SpacedTrim(words);
    r := Trim(novString);
  }

  /** Every word that line 255 does not skip starts with a capital, and the
      rest of every word is untouched. */
  lemma CapitalisedWords(words: seq<string>, upper: char -> char, i: nat)
    requires i < |words| && !IsBlank(words[i])
    ensures var w := CapitalisedAll(words, upper)[i];
      |w| == |words[i]| && w[1..] == words[i][1..]
      && (i == 0 || |words[i]| > 2 ==> w[0] == upper(words[i][0]))
      && (i > 0 && |words[i]| <= 2 ==> w == words[i])
  {
  }

  // ---------------------------------------------------------------------
  // White space

  /** `value.Replace("\t", " ")`. */
  function TabsToSpaces(s: string): (r: string)
    ensures |r| == |s|
    ensures forall i :: 0 <= i < |s| ==> r[i] == (if s[i] == '\t' then ' ' else s[i])
  {
    if |s| == 0 then "" else [if s[0] == '\t' then ' ' else s[0]] + TabsToSpaces(s[1..])
  }

  predicate IsSolid(c: char)
  {
    !IsWhiteSpace(c)
  }

  /** `Regex.Replace(s, @"\s+", " ")`: every maximal run of white space
      becomes one space. */
  function Collapse(s: string): (r: string)
    ensures |s| > 0 ==> |r| > 0 && (IsWhiteSpace(r[0]) <==> IsWhiteSpace(s[0]))
    decreases |s|
  {
    if |s| == 0 then ""
    else if IsWhiteSpace(s[0]) then " " + Collapse(TrimStart(s))
    else [s[0]] + Collapse(s[1..])
  }

  /** Only ' ' as white space, and never two white space characters in a
      row. */
  predicate SpacesStandard(r: string)
  {
    (forall i :: 0 <= i < |r| && IsWhiteSpace(r[i]) ==> r[i] == ' ')
    && (forall i :: 0 <= i < |r| - 1 ==> !(IsWhiteSpace(r[i]) && IsWhiteSpace(r[i + 1])))
  }

  /** What `Collapse` leaves: only ' ' as white space, never two white
      space characters in a row, and the solid characters in their order. */
  lemma {:induction false} CollapseShape(s: string)
    ensures var r := Collapse(s);
      (forall i :: 0 <= i < |r| && IsWhiteSpace(r[i]) ==> r[i] == ' ')
      && (forall i :: 0 <= i < |r| - 1 ==> !(IsWhiteSpace(r[i]) && IsWhiteSpace(r[i + 1])))
      && Filter(r, IsSolid) == Filter(s, IsSolid)
    decreases |s|
  {
    if |s| > 0 {
      var c := if IsWhiteSpace(s[0]) then ' ' else s[0];
      var t := if IsWhiteSpace(s[0]) then TrimStart(s) else s[1..];
      assert Collapse(s) == [c] + Collapse(t);
      CollapseShape(t);
      var u := Collapse(t);
      ConsStandard(c, u);
      FilterCons(c, u);
      if IsWhiteSpace(s[0]) {
        SolidAfterBlank(s, t);
      } else {
        FilterCons(s[0], t);
        assert s == [s[0]] + t;
      }
    }
  }

  /** A solid character, or a space before solid text, keeps text standard. */
  lemma ConsStandard(c: char, u: string)
    requires SpacesStandard(u)
    requires IsWhiteSpace(c) ==> c == ' ' && (|u| == 0 || !IsWhiteSpace(u[0]))
    ensures SpacesStandard([c] + u)
  {
    var r := [c] + u;
    assert forall i :: 1 <= i < |r| ==> r[i] == u[i - 1];
  }

  lemma FilterCons(c: char, u: string)
    ensures Filter([c] + u, IsSolid) == (if IsSolid(c) then [c] else "") + Filter(u, IsSolid)
  {
    assert ([c] + u)[1..] == u;
  }

  /** Leading white space holds nothing solid. */
  lemma SolidAfterBlank(s: string, t: string)
    requires |t| <= |s| && t == s[|s| - |t|..] && IsBlank(s[..|s| - |t|])
    ensures Filter(s, IsSolid) == Filter(t, IsSolid)
  {
    var w := s[..|s| - |t|];
    assert s == w + t;
    FilterAppend(w, t, IsSolid);
    FilterNone(w, IsSolid);
  }

  /** `ToStandardSpaces`: an empty value comes back as it is. */
  function ToStandardSpaces(value: string): (r: string)
    ensures |value| == 0 ==> r == value
    ensures |r| == 0 ==> |value| == 0
  {
    if |value| == 0 then value else Collapse(TabsToSpaces(value))
  }

  /** Text of white space only becomes one space: the guard lets only ""
      through unchanged. */
  lemma BlankBecomesOneSpace(value: string)
    requires |value| > 0 && IsBlank(value)
    ensures ToStandardSpaces(value) == " "
  {
    var x := TabsToSpaces(value);
    assert IsBlank(x);
    assert |TrimStart(x)| == 0;
    CollapseBlankHead(x);
  }

  /** Tabs become spaces, so nothing solid changes. */
  lemma {:induction false} TabsSolid(s: string)
    ensures Filter(TabsToSpaces(s), IsSolid) == Filter(s, IsSolid)
    decreases |s|
  {
    if |s| > 0 {
      TabsSolid(s[1..]);
      assert TabsToSpaces(s)[1..] == TabsToSpaces(s[1..]);
    }
  }

  /** The standardised text has one kind of white space, never two white
      space characters in a row, and the same solid characters in the same
      order as the value. */
  lemma StandardSpacesSpec(value: string)
    ensures var r := ToStandardSpaces(value);
      (forall i :: 0 <= i < |r| && IsWhiteSpace(r[i]) ==> r[i] == ' ')
      && (forall i :: 0 <= i < |r| - 1 ==> !(IsWhiteSpace(r[i]) && IsWhiteSpace(r[i + 1])))
      && Filter(r, IsSolid) == Filter(value, IsSolid)
  {
    TabsSolid(value);
    CollapseShape(TabsToSpaces(value));
  }

  /** Text that is already standard is left alone. */
  lemma {:induction false} CollapseStandard(s: string)
    requires forall i :: 0 <= i < |s| && IsWhiteSpace(s[i]) ==> s[i] == ' '
    requires forall i :: 0 <= i < |s| - 1 ==> !(IsWhiteSpace(s[i]) && IsWhiteSpace(s[i + 1]))
    ensures Collapse(s) == s
    decreases |s|
  {
    if |s| > 0 {
      if IsWhiteSpace(s[0]) {
        var t := TrimStart(s);
        assert t == s[1..] by {
          if |s| > 1 { assert !IsWhiteSpace(s[1]); }
        }
        CollapseStandard(s[1..]);
      } else {
        CollapseStandard(s[1..]);
      }
      assert s == [s[0]] + s[1..];
    }
  }

  /** White space in front of a solid character is trimmed in full. */
  lemma {:induction false} TrimStartBefore(w: string, y: string)
    requires IsBlank(w) && (|y| == 0 || IsSolid(y[0]))
    ensures TrimStart(w + y) == y
    decreases |w|
  {
    if |w| > 0 {
      assert (w + y)[1..] == w[1..] + y;
      TrimStartBefore(w[1..], y);
    } else {
      assert w + y == y;
    }
  }

  /** Trimming the front of text that ends solid stops inside it. */
  lemma {:induction false} TrimStartAppend(x: string, z: string)
    requires |x| > 0 && IsSolid(x[|x| - 1])
    ensures TrimStart(x + z) == TrimStart(x) + z
    decreases |x|
  {
    if IsWhiteSpace(x[0]) {
      assert (x + z)[1..] == x[1..] + z;
      TrimStartAppend(x[1..], z);
    }
  }

  /** A solid character passes the regular expression unchanged. */
  lemma CollapseSolid(c: char, y: string)
    requires IsSolid(c)
    ensures Collapse([c] + y) == [c] + Collapse(y)
  {
    assert ([c] + y)[1..] == y;
  }

  /** `Collapse` on text that starts with white space. */
  lemma CollapseBlankHead(s: string)
    requires |s| > 0 && IsWhiteSpace(s[0])
    ensures Collapse(s) == " " + Collapse(TrimStart(s))
  {
  }

  /** `Collapse` on text that starts with a solid character. */
  lemma CollapseSolidHead(s: string)
    requires |s| > 0 && IsSolid(s[0])
    ensures Collapse(s) == [s[0]] + Collapse(s[1..])
  {
  }

  /** A maximal run of white space becomes exactly one space: the text on
      either side of it is collapsed on its own. */
  lemma {:induction false} CollapseRun(x: string, w: string, y: string)
    requires |w| > 0 && IsBlank(w)
    requires |x| == 0 || IsSolid(x[|x| - 1])
    requires |y| == 0 || IsSolid(y[0])
    ensures Collapse(x + w + y) == Collapse(x) + " " + Collapse(y)
    decreases |x|
  {
    if |x| == 0 {
      CollapseRunFirst(x, w, y);
    } else if IsWhiteSpace(x[0]) {
      CollapseRunBlank(x, w, y);
    } else {
      CollapseRun(x[1..], w, y);
      CollapseRunSolid(x, w, y);
    }
  }

  lemma CollapseRunFirst(x: string, w: string, y: string)
    requires |x| == 0 && |w| > 0 && IsBlank(w)
    requires |y| == 0 || IsSolid(y[0])
    ensures Collapse(x + w + y) == Collapse(x) + " " + Collapse(y)
  {
    EmptyLeft(x, w);
    EmptyLeft(Collapse(x), " ");
    TrimStartBefore(w, y);
    assert (w + y)[0] == w[0];
    CollapseBlankHead(w + y);
  }

  lemma EmptyLeft(x: string, z: string)
    requires |x| == 0
    ensures x + z == z
  {
  }

  lemma {:induction false} CollapseRunBlank(x: string, w: string, y: string)
    requires |w| > 0 && IsBlank(w)
    requires |x| > 0 && IsWhiteSpace(x[0]) && IsSolid(x[|x| - 1])
    requires |y| == 0 || IsSolid(y[0])
    ensures Collapse(x + w + y) == Collapse(x) + " " + Collapse(y)
    decreases |x|, 0
  {
    var t := TrimStart(x);
    assert 0 < |t| < |x|;
    assert t[|t| - 1] == x[|x| - 1];
    var s := x + w + y;
    ConcatHeadTail(x, w, y);
    Associate(x, w, y);
    TrimStartAppend(x, w + y);
    Associate(t, w, y);
    CollapseRun(t, w, y);
    CollapseBlankHead(x);
    CollapseBlankHead(s);
    Regroup(" ", Collapse(t), Collapse(y));
  }

  lemma CollapseRunSolid(x: string, w: string, y: string)
    requires |x| > 0 && IsSolid(x[0])
    requires Collapse(x[1..] + w + y) == Collapse(x[1..]) + " " + Collapse(y)
    ensures Collapse(x + w + y) == Collapse(x) + " " + Collapse(y)
  {
    var s := x + w + y;
    ConcatHeadTail(x, w, y);
    CollapseSolidHead(s);
    CollapseSolidHead(x);
    Regroup([x[0]], Collapse(x[1..]), Collapse(y));
  }

  /** Splitting the head off a three-part concatenation. */
  lemma ConcatHeadTail(x: string, w: string, y: string)
    requires |x| > 0
    ensures (x + w + y)[0] == x[0] && (x + w + y)[1..] == x[1..] + w + y
  {
  }

  lemma Associate(x: string, w: string, y: string)
    ensures x + (w + y) == x + w + y
  {
  }

  /** Regrouping `p + (a + " " + b)`. */
  lemma Regroup(p: string, a: string, b: string)
    ensures p + (a + " " + b) == (p + a) + " " + b
  {
  }

  predicate IsWord(s: string)
  {
    |s| > 0 && forall i :: 0 <= i < |s| ==> IsSolid(s[i])
  }

  predicate IsSpaces(s: string)
  {
    |s| > 0 && forall i :: 0 <= i < |s| ==> s[i] == ' '
  }

  /** A word with no white space collapses to itself. */
  lemma WordCollapses(a: string)
    requires IsWord(a)
    ensures Collapse(a) == a
  {
    CollapseStandard(a);
  }

  /** One more word after a run of spaces. */
  lemma CollapseWordAfter(x: string, g: string, a: string)
    requires |x| > 0 && IsSolid(x[|x| - 1]) && IsSpaces(g) && IsWord(a)
    ensures Collapse(x + g + a) == Collapse(x) + " " + a
  {
    CollapseRun(x, g, a);
    WordCollapses(a);
  }

  /** The documented example: four words separated by runs of spaces of
      any length, as in "Uma    frase        com espaços.", come out with
      single spaces, "Uma frase com espaços.". */
  lemma StandardSpacesExample(a: string, g1: string, b: string, g2: string, c: string, g3: string, d: string)
    requires IsWord(a) && IsWord(b) && IsWord(c) && IsWord(d)
    requires IsSpaces(g1) && IsSpaces(g2) && IsSpaces(g3)
    ensures ToStandardSpaces(a + g1 + b + g2 + c + g3 + d) == a + " " + b + " " + c + " " + d
  {
    var v := a + g1 + b + g2 + c + g3 + d;
    assert TabsToSpaces(v) == v by {
      assert forall i :: 0 <= i < |v| ==> v[i] != '\t';
    }
    WordCollapses(a);
    var x1 := a + g1 + b;
    CollapseWordAfter(a, g1, b);
    var x2 := x1 + g2 + c;
    CollapseWordAfter(x1, g2, c);
    CollapseWordAfter(x2, g3, d);
  }

  /** Standardising twice is standardising once. */
  lemma StandardSpacesIdempotent(value: string)
    ensures ToStandardSpaces(ToStandardSpaces(value)) == ToStandardSpaces(value)
  {
    var r := ToStandardSpaces(value);
    if |value| > 0 {
      StandardSpacesSpec(value);
      assert TabsToSpaces(r) == r;
      CollapseStandard(r);
    }
  }

  // ---------------------------------------------------------------------
  // Searching

  /** Whether the ECMAScript expression `(?=.*X)` matches at position `p`:
      an `X` comes later with no line feed before it. */
  predicate LookaheadAt(s: string, p: nat, x: char -> bool)
  {
    exists q :: p <= q < |s| && x(s[q]) && '\n' !in s[p..q]
  }

  /** `ContainsNumbers`: false for a blank value, otherwise whether the
      lookahead for `\d` (0-9 in ECMAScript mode) matches somewhere. */
  predicate ContainsNumbers(value: string)
  {
    !IsBlank(value) && exists p :: 0 <= p <= |value| && LookaheadAt(value, p, IsAsciiDigit)
  }

  predicate IsAsciiUpper(c: char)
  {
    'A' <= c <= 'Z'
  }

  /** `ContainsUpperCaseLetter`: the same with `[A-Z]`. */
  predicate ContainsUpperCaseLetter(value: string)
  {
    !IsBlank(value) && exists p :: 0 <= p <= |value| && LookaheadAt(value, p, IsAsciiUpper)
  }

  /** A lookahead matches somewhere exactly when the value holds such a
      character: each is found from its own position. */
  lemma LookaheadSomewhere(s: string, x: char -> bool)
    ensures (exists p :: 0 <= p <= |s| && LookaheadAt(s, p, x)) <==> (exists i :: 0 <= i < |s| && x(s[i]))
  {
    if i :| 0 <= i < |s| && x(s[i]) {
      assert s[i..i] == [];
      assert LookaheadAt(s, i, x);
    }
  }

  lemma ContainsNumbersSpec(value: string)
    ensures ContainsNumbers(value) <==> !IsBlank(value) && exists i :: 0 <= i < |value| && IsAsciiDigit(value[i])
  {
    LookaheadSomewhere(value, IsAsciiDigit);
  }

  lemma ContainsUpperCaseLetterSpec(value: string)
    ensures ContainsUpperCaseLetter(value) <==> !IsBlank(value) && exists i :: 0 <= i < |value| && IsAsciiUpper(value[i])
  {
    LookaheadSomewhere(value, IsAsciiUpper);
  }

  /** The longest prefix without a space. */
  function TakeWord(s: string): (r: string)
    ensures |r| <= |s| && r == s[..|r|] && ' ' !in r
    ensures |r| < |s| ==> s[|r|] == ' '
  {
    if |s| == 0 || s[0] == ' ' then "" else [s[0]] + TakeWord(s[1..])
  }

  /** The first match of `[^ ]+`: the spaces in front are skipped. */
  function FirstWordOf(s: string): string
  {
    if |s| == 0 then "" else if s[0] == ' ' then FirstWordOf(s[1..]) else TakeWord(s)
  }

  /** `FirstWord`: a null source reads as "". */
  function FirstWord(source: Option<string>): string
  {
    FirstWordOf(if source.Some? then source.value else "")
  }

  /** A slice of the tail is the slice one place further on. */
  lemma SliceOfTail(s: string, i: nat, j: nat)
    requires 1 <= i <= j <= |s|
    ensures s[1..][i - 1..j - 1] == s[i..j]
  {
  }

  /** The first word follows nothing but spaces, contains no space, and ends
      at a space or at the end; it is empty only when there is no word. */
  lemma {:induction false} FirstWordSpec(s: string) returns (k: nat)
    ensures var r := FirstWordOf(s);
      k + |r| <= |s| && s[k..k + |r|] == r && ' ' !in r
      && (forall j :: 0 <= j < k ==> s[j] == ' ')
      && (k + |r| == |s| || s[k + |r|] == ' ')
      && (r == "" <==> forall j :: 0 <= j < |s| ==> s[j] == ' ')
    decreases |s|
  {
    if |s| == 0 {
      k := 0;
    } else if s[0] == ' ' {
      var k' := FirstWordSpec(s[1..]);
      k := k' + 1;
      var r := FirstWordOf(s);
      assert r == FirstWordOf(s[1..]);
      SliceOfTail(s, k, k + |r|);
      assert forall j :: 1 <= j < |s| ==> s[j] == s[1..][j - 1];
    } else {
      k := 0;
      assert s[..|TakeWord(s)|] == TakeWord(s);
    }
  }

  /** The longest suffix without a space. */
  function TrailingWord(s: string): (r: string)
    ensures |r| <= |s| && r == s[|s| - |r|..] && ' ' !in r
    ensures |r| < |s| ==> s[|s| - |r| - 1] == ' '
  {
    if |s| == 0 || s[|s| - 1] == ' ' then ""
    else TrailingWord(s[..|s| - 1]) + [s[|s| - 1]]
  }

  /** `LastWord`: `Regex.Match` throws for a null source; otherwise the
      match of `[^ ]+$` that starts first, which is the longest suffix
      without a space (a final line feed is no space, so the match before
      it never differs). */
  function LastWord(source: Option<string>): (r: Result<string>)
    ensures r.Threw? <==> source.None?
    ensures r.Threw? ==> r.error == ArgumentNullException("input")
  {
    if source.None? then Threw(ArgumentNullException("input")) else Ok(TrailingWord(source.value))
  }

  /** A single word is its own first and last word. */
  lemma OneWord(s: string)
    requires ' ' !in s
    ensures FirstWord(Some(s)) == s && LastWord(Some(s)) == Ok(s)
  {
    if |s| > 0 {
      assert s[..|TakeWord(s)|] == TakeWord(s);
    }
  }

  // ---------------------------------------------------------------------
  // Presence

  /** `HasValue`: not null, and some character is not white space. */
  function HasValue(source: Option<string>): (r: bool)
    ensures r <==> source.Some? && exists i :: 0 <= i < |source.value| && !IsWhiteSpace(source.value[i])
  {
    source.Some? && !IsBlank(source.value)
  }

  /** `IsEmpty` is the negation of `HasValue`. */
  function IsEmpty(source: Option<string>): (r: bool)
    ensures r <==> !HasValue(source)
    ensures r <==> source.None? || forall i :: 0 <= i < |source.value| ==> IsWhiteSpace(source.value[i])
  {
    source.None? || IsBlank(source.value)
  }

  // ---------------------------------------------------------------------
  // Base 64

  /** `ToBase64`: "" for a blank value, otherwise the base 64 of its UTF-8
      bytes. */
  function ToBase64(value: string): (r: string)
    ensures IsBlank(value) ==> r == ""
  {
    if IsBlank(value) then "" else Base64.Encode(Utf8.Encode(value))
  }

  /** `FromBase64`: "" for a blank value, otherwise the UTF-8 text of the
      decoded bytes; text that is not base 64 throws FormatException. */
  function FromBase64(value: string): (r: Result<string>)
    ensures IsBlank(value) ==> r == Ok("")
    ensures r.Threw? ==> r.error.FormatException?
  {
    if IsBlank(value) then Ok("")
    else
      match Base64.Decode(value)
      case Threw(e) => Threw(e)
      case Ok(bytes) => Ok(Utf8.Decode(bytes))
  }

  /** The base 64 of a non-blank value is not blank. */
  lemma ToBase64Solid(value: string)
    requires !IsBlank(value)
    ensures !IsBlank(ToBase64(value))
  {
    var b := Utf8.Encode(value);
    Base64.EncodeStart(b);
    var c := Base64.Encode(b)[0];
    assert !IsWhiteSpace(c);
  }

  /** Decoding the base 64 of a non-blank value gives the value back. */
  lemma Base64RoundTrip(value: string)
    requires !IsBlank(value)
    ensures FromBase64(ToBase64(value)) == Ok(value)
  {
    ToBase64Solid(value);
    Base64.DecodeEncode(Utf8.Encode(value));
    Utf8.DecodeEncode(value);
  }

  const NoCredential: string := "O valor passado não contém o formato correto"

  /** `FromCredentialBase64` as written: blank text throws
      NullReferenceException, decoded text without ':' FormatException;
      otherwise the user is the piece before the first ':' and the password
      the piece after it, up to a second ':' if there is one. */
  function FromCredentialBase64(value: string): (r: Result<map<string, string>>)
    ensures IsBlank(value) ==> r == Threw(NullReferenceException)
    ensures r.Threw? <==> IsBlank(value) || FromBase64(value).Threw? || ':' !in FromBase64(value).value
    ensures !IsBlank(value) && FromBase64(value).Threw? ==> r == Threw(FromBase64(value).error)
    ensures !IsBlank(value) && FromBase64(value).Ok? && ':' !in FromBase64(value).value ==>
      r == Threw(FormatException(NoCredential))
    ensures r.Ok? ==>
      r.value.Keys == {"user", "password"} && ':' !in r.value["user"] && ':' !in r.value["password"]
      && r.value["user"] + ":" + r.value["password"] <= FromBase64(value).value
    ensures r.Ok? ==>
      var n := |r.value["user"]| + 1 + |r.value["password"]|;
      n == |FromBase64(value).value| || FromBase64(value).value[n] == ':'
  {
    if IsBlank(value) then Threw(NullReferenceException)
    else
      match FromBase64(value)
      case Threw(e) => Threw(e)
      case Ok(decoded) =>
        if ':' !in decoded then Threw(FormatException(NoCredential))
        else
          var parts := Split(decoded, ':');
          SplitPiecesFree(decoded, ':');
          SplitHasTwo(decoded, ':');
          Ok(map["user" := parts[0], "password" := parts[1]])
  }

  /** A string with the separator splits into at least two pieces, and
      the first two with the separator between them start the string. */
  lemma SplitHasTwo(s: string, sep: char)
    requires sep in s
    ensures |Split(s, sep)| >= 2
    ensures Split(s, sep)[0] + [sep] + Split(s, sep)[1] <= s
    ensures var n := |Split(s, sep)[0]| + 1 + |Split(s, sep)[1]|;
      n == |s| || s[n] == sep
  {
    var i := IndexOf(s, sep).value;
    var x := s[..i];
    var t := s[i + 1..];
    assert s == x + [sep] + t;
    SplitCons(x, t, sep);
    var h := Split(t, sep)[0];
    SplitHeadStops(t, sep);
    PrefixAfter(x + [sep], h, t);
  }

  /** A prefix stays one behind a common start. */
  lemma PrefixAfter(a: string, h: string, t: string)
    requires h <= t
    ensures a + h <= a + t
    ensures |h| < |t| ==> (a + t)[|a| + |h|] == t[|h|]
  {
  }

  /** The first piece of a split starts the string and stops at the
      separator or at the end. */
  lemma SplitHeadStops(t: string, sep: char)
    ensures var head := Split(t, sep)[0];
      head <= t && (|head| == |t| || t[|head|] == sep)
  {
    match IndexOf(t, sep)
    case None =>
    case Some(j) => assert Split(t, sep)[0] == t[..j];
  }

  /** Credentials without a ':' in either part come back from their base
      64. */
  lemma CredentialRoundTrip(user: string, password: string)
    requires ':' !in user && ':' !in password
    ensures FromCredentialBase64(ToBase64(user + ":" + password))
      == Ok(map["user" := user, "password" := password])
  {
    var text := user + ":" + password;
    assert text[|user|] == ':';
    assert !IsBlank(text) by { assert !IsWhiteSpace(text[|user|]); }
    Base64RoundTrip(text);
    ToBase64Solid(text);
    assert Join([user, password], [':']) == text;
    JoinSplit([user, password], ':');
  }

  /** A password with a ':' loses everything from that ':' on: the text
      "admin:pa:ss" gives the password "pa". */
  lemma ColonInPasswordIsLost(user: string, first: string, rest: string)
    requires ':' !in user && ':' !in first && ':' !in rest
    ensures FromCredentialBase64(ToBase64(user + ":" + first + ":" + rest))
      == Ok(map["user" := user, "password" := first])
  {
    var text := user + ":" + first + ":" + rest;
    assert text[|user|] == ':';
    assert !IsBlank(text) by { assert !IsWhiteSpace(text[|user|]); }
    Base64RoundTrip(text);
    SplitThree(user, first, rest);
  }

  /** Three pieces without ':' joined by ':' split back into themselves. */
  lemma SplitThree(user: string, first: string, rest: string)
    requires ':' !in user && ':' !in first && ':' !in rest
    ensures Split(user + ":" + first + ":" + rest, ':') == [user, first, rest]
  {
    var tail := first + [':'] + rest;
    assert Split(rest, ':') == [rest] by { SplitHead(rest, ':'); }
    assert Split(tail, ':') == [first, rest] by { SplitCons(first, rest, ':'); }
    assert Split(user + [':'] + tail, ':') == [user, first, rest] by { SplitCons(user, tail, ':'); }
    assert user + ":" + first + ":" + rest == user + [':'] + tail;
  }

  /** `FromCredentialBase64` as the HTTP Basic scheme reads credentials
      (section 2 of RFC 7617): the user is the text before the first ':'
      and the password all the text after it. */
  function FromCredentialBase64Intended(value: string): (r: Result<map<string, string>>)
    ensures IsBlank(value) ==> r == Threw(NullReferenceException)
    ensures r.Threw? <==> IsBlank(value) || FromBase64(value).Threw? || ':' !in FromBase64(value).value
    ensures !IsBlank(value) && FromBase64(value).Threw? ==> r == Threw(FromBase64(value).error)
    ensures !IsBlank(value) && FromBase64(value).Ok? && ':' !in FromBase64(value).value ==>
      r == Threw(FormatException(NoCredential))
    ensures r.Ok? ==>
      r.value.Keys == {"user", "password"} && ':' !in r.value["user"]
      && r.value["user"] + ":" + r.value["password"] == FromBase64(value).value
  {
    if IsBlank(value) then Threw(NullReferenceException)
    else
      match FromBase64(value)
      case Threw(e) => Threw(e)
      case Ok(decoded) =>
        match IndexOf(decoded, ':')
        case None => Threw(FormatException(NoCredential))
        case Some(i) => Ok(map["user" := decoded[..i], "password" := decoded[i + 1..]])
  }

  /** Any password, colons included, comes back whole. */
  lemma CredentialIntendedRoundTrip(user: string, password: string)
    requires ':' !in user
    ensures FromCredentialBase64Intended(ToBase64(user + ":" + password))
      == Ok(map["user" := user, "password" := password])
  {
    var text := user + ":" + password;
    assert text[|user|] == ':';
    assert text[..|user|] == user && text[|user| + 1..] == password;
    assert !IsBlank(text) by { assert !IsWhiteSpace(text[|user|]); }
    Base64RoundTrip(text);
    ToBase64Solid(text);
    IndexOfAt(text, ':', |user|);
  }
}
