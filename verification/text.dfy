/** The string primitives Kact's constructor and validator rely on: `String.Split` with
    `StringSplitOptions.RemoveEmptyEntries`, `String.Trim(params char[])` and the ordinal
    `String.Contains`. A C# string is modelled as a `seq<char>`; every character the
    constructor and validator look for (`;`, `,`, the trim characters and the sensor markers)
    is ASCII. */
module Text {

  // ---------------------------------------------------------------------------------------
  // Split with RemoveEmptyEntries
  // ---------------------------------------------------------------------------------------

  /** Length of the longest prefix of `s` that holds no `sep`. */
  function RunLength(s: string, sep: char): (n: nat)
    ensures n <= |s|
    ensures forall j :: 0 <= j < n ==> s[j] != sep
    ensures n < |s| ==> s[n] == sep
    decreases |s|
  {
    if |s| == 0 || s[0] == sep then 0 else 1 + RunLength(s[1..], sep)
  }

  /** The pieces of `s` between occurrences of `sep`, empty pieces dropped, in order. */
  function Split(s: string, sep: char): (pieces: seq<string>)
    ensures forall k :: 0 <= k < |pieces| ==> |pieces[k]| > 0 && sep !in pieces[k]
    decreases |s|
  {
    if |s| == 0 then []
    else if s[0] == sep then Split(s[1..], sep)
    else
      var n := RunLength(s, sep);
      [s[..n]] + Split(s[n..], sep)
  }

  /** Split drops empty pieces: it yields none exactly when `s` holds nothing but separators. */
  lemma {:induction false} SplitEmpty(s: string, sep: char)
    ensures Split(s, sep) == [] <==> forall j :: 0 <= j < |s| ==> s[j] == sep
    decreases |s|
  {
    if |s| > 0 && s[0] == sep {
      SplitEmpty(s[1..], sep);
      assert forall j :: 1 <= j < |s| ==> s[j] == s[1..][j - 1];
    }
  }

  /** The pieces glued back together with one `sep` between neighbours. */
  function Join(pieces: seq<string>, sep: char): string
    decreases |pieces|
  {
    if |pieces| == 0 then ""
    else if |pieces| == 1 then pieces[0]
    else pieces[0] + [sep] + Join(pieces[1..], sep)
  }

  /** Pieces that `Split` can produce: non-empty and free of the separator. */
  predicate SplitPieces(pieces: seq<string>, sep: char) {
    forall k :: 0 <= k < |pieces| ==> |pieces[k]| > 0 && sep !in pieces[k]
  }

  lemma {:induction false} RunLengthOfPiece(p: string, rest: string, sep: char)
    requires sep !in p
    requires |rest| == 0 || rest[0] == sep
    ensures RunLength(p + rest, sep) == |p|
    decreases |p|
  {
    if |p| > 0 {
      assert (p + rest)[1..] == p[1..] + rest;
      RunLengthOfPiece(p[1..], rest, sep);
    } else {
      assert p + rest == rest;
    }
  }

  /** Splitting a non-empty separator-free piece followed by nothing or by a separator
      yields that piece first, then the split of whatever follows the separator. */
  lemma {:induction false} SplitPieceThen(p: string, rest: string, sep: char)
    requires |p| > 0 && sep !in p
    requires |rest| == 0 || rest[0] == sep
    ensures Split(p + rest, sep) == [p] + Split(rest, sep)
  {
    var s := p + rest;
    assert s[0] == p[0];
    RunLengthOfPiece(p, rest, sep);
    assert s[..|p|] == p;
    assert s[|p|..] == rest;
  }

  /** Round trip: splitting the join of well-formed pieces gives the pieces back. */
  lemma {:induction false} SplitJoin(pieces: seq<string>, sep: char)
    requires SplitPieces(pieces, sep)
    ensures Split(Join(pieces, sep), sep) == pieces
    decreases |pieces|
  {
    if |pieces| == 0 {
    } else if |pieces| == 1 {
      assert pieces[0] + "" == pieces[0];
      SplitPieceThen(pieces[0], "", sep);
    } else {
      var tail := Join(pieces[1..], sep);
      assert Join(pieces, sep) == pieces[0] + ([sep] + tail);
      SplitPieceThen(pieces[0], [sep] + tail, sep);
      assert ([sep] + tail)[1..] == tail;
      SplitJoin(pieces[1..], sep);
      assert [pieces[0]] + pieces[1..] == pieces;
    }
  }

  /** A separator cuts the split in two: no piece straddles it, and the pieces on either side
      are exactly those of the two halves. */
  lemma {:induction false} SplitAround(a: string, b: string, sep: char)
    ensures Split(a + [sep] + b, sep) == Split(a, sep) + Split(b, sep)
    decreases |a|
  {
    if |a| == 0 {
      assert a + [sep] + b == [sep] + b;
      assert ([sep] + b)[1..] == b;
    } else if a[0] == sep {
      SplitLeadingSep(a, b, sep);
      SplitAround(a[1..], b, sep);
    } else if RunLength(a, sep) < |a| {
      var m := RunLength(a, sep);
      SplitFirstRun(a, b, sep);
      SplitAround(a[m..], b, sep);
    } else {
      SplitWholeRun(a, b, sep);
    }
  }

  /** The step of `SplitAround` for an `a` that starts with a separator. */
  lemma SplitLeadingSep(a: string, b: string, sep: char)
    requires |a| > 0 && a[0] == sep
    ensures Split(a, sep) == Split(a[1..], sep)
    ensures Split(a + [sep] + b, sep) == Split(a[1..] + [sep] + b, sep)
  {
    assert (a + [sep] + b)[1..] == a[1..] + [sep] + b;
  }

  /** The step of `SplitAround` for an `a` whose first run ends at a separator inside `a`. */
  lemma SplitFirstRun(a: string, b: string, sep: char)
    requires |a| > 0 && a[0] != sep && RunLength(a, sep) < |a|
    ensures var m := RunLength(a, sep);
      && Split(a, sep) == [a[..m]] + Split(a[m..], sep)
      && Split(a + [sep] + b, sep) == [a[..m]] + Split(a[m..] + [sep] + b, sep)
  {
    var m := RunLength(a, sep);
    SplitPieceThen(a[..m], a[m..] + [sep] + b, sep);
    assert a[..m] + (a[m..] + [sep] + b) == a + [sep] + b;
  }

  /** The step of `SplitAround` for an `a` that holds no separator at all. */
  lemma SplitWholeRun(a: string, b: string, sep: char)
    requires |a| > 0 && RunLength(a, sep) == |a|
    ensures Split(a, sep) == [a]
    ensures Split(a + [sep] + b, sep) == [a] + Split(b, sep)
  {
    assert sep !in a;
    assert a + [sep] + b == a + ([sep] + b);
    SplitPieceThen(a, [sep] + b, sep);
    assert ([sep] + b)[1..] == b;
    assert a + "" == a;
    SplitPieceThen(a, "", sep);
  }


  // ---------------------------------------------------------------------------------------
  // Trim('\r', '\n', ' ', '\t')
  // ---------------------------------------------------------------------------------------

  /** The characters the constructor trims from both ends of the act string. */
  predicate IsTrimChar(c: char) {
    c == '\r' || c == '\n' || c == ' ' || c == '\t'
  }

  predicate AllTrimChars(s: string) {
    forall j :: 0 <= j < |s| ==> IsTrimChar(s[j])
  }

  /** Neither end of `s` is a trim character. */
  predicate IsTrimmed(s: string) {
    |s| == 0 || (!IsTrimChar(s[0]) && !IsTrimChar(s[|s| - 1]))
  }

  /** `s` is `r` with trim characters only padded on either side, the padding before it of length `i`. */
  predicate PaddedAt(s: string, r: string, i: nat) {
    i + |r| <= |s| && s[i..i + |r|] == r && AllTrimChars(s[..i]) && AllTrimChars(s[i + |r|..])
  }

  function TrimStart(s: string): (r: string)
    ensures |r| <= |s| && r == s[|s| - |r|..]
    ensures AllTrimChars(s[..|s| - |r|])
    ensures |r| > 0 ==> !IsTrimChar(r[0])
    decreases |s|
  {
    if |s| > 0 && IsTrimChar(s[0]) then TrimStart(s[1..]) else s
  }

  function TrimEnd(s: string): (r: string)
    ensures |r| <= |s| && r == s[..|r|]
    ensures AllTrimChars(s[|r|..])
    ensures |r| > 0 ==> !IsTrimChar(r[|r| - 1])
    decreases |s|
  {
    if |s| > 0 && IsTrimChar(s[|s| - 1]) then TrimEnd(s[..|s| - 1]) else s
  }

  /** `String.Trim('\r', '\n', ' ', '\t')`: the infix of `s` left once trim characters are
      stripped from both ends. */
  function Trim(s: string): (r: string)
    ensures IsTrimmed(r)
    ensures PaddedAt(s, r, |s| - |TrimStart(s)|)
  {
    var t := TrimStart(s);
    var r := TrimEnd(t);
    TrimBothEnds(s, t, r);
    r
  }

  /** Stripping the front of `s` to `t` and then the back of `t` to `r` leaves `r` padded
      inside `s` with trim characters, and neither end of `r` is one. */
  lemma TrimBothEnds(s: string, t: string, r: string)
    requires |t| <= |s| && t == s[|s| - |t|..] && AllTrimChars(s[..|s| - |t|])
    requires |t| > 0 ==> !IsTrimChar(t[0])
    requires |r| <= |t| && r == t[..|r|] && AllTrimChars(t[|r|..])
    requires |r| > 0 ==> !IsTrimChar(r[|r| - 1])
    ensures IsTrimmed(r)
    ensures PaddedAt(s, r, |s| - |t|)
  {
    var i := |s| - |t|;
    SuffixSlices(s, t, |r|);
    assert AllTrimChars(s[i + |r|..]);
    assert IsTrimmed(r) by {
      if |r| > 0 { assert r[0] == t[0]; }
    }
  }

  /** Slicing a suffix `t` of `s` is slicing `s` further right. */
  lemma SuffixSlices(s: string, t: string, k: nat)
    requires |t| <= |s| && t == s[|s| - |t|..] && k <= |t|
    ensures s[|s| - |t|..|s| - |t| + k] == t[..k]
    ensures s[|s| - |t| + k..] == t[k..]
  {
  }

  /** Every character of `s` outside the string it pads is a trim character. */
  lemma TrimCharOutside(s: string, r: string, i: nat, j: int)
    requires PaddedAt(s, r, i)
    ensures 0 <= j < |s| && (j < i || i + |r| <= j) ==> IsTrimChar(s[j])
  {
    if 0 <= j < i {
      assert s[j] == s[..i][j];
    } else if i + |r| <= j < |s| {
      assert s[j] == s[i + |r|..][j - i - |r|];
    }
  }

  /** The two ends of a non-empty trimmed string that `s` pads are not trim characters. */
  lemma PaddedEnds(s: string, r: string, i: nat)
    requires IsTrimmed(r) && PaddedAt(s, r, i)
    ensures |r| > 0 ==> !IsTrimChar(s[i]) && !IsTrimChar(s[i + |r| - 1])
  {
    if |r| > 0 {
      assert s[i] == s[i..i + |r|][0];
      assert s[i + |r| - 1] == s[i..i + |r|][|r| - 1];
    }
  }

  /** Trim is determined by its contract: the only trimmed string that `s` pads is `Trim(s)`. */
  lemma TrimUnique(s: string, r: string, i: nat)
    requires IsTrimmed(r) && PaddedAt(s, r, i)
    ensures r == Trim(s)
  {
    PaddedUnique(s, r, i, Trim(s), |s| - |TrimStart(s)|);
  }

  /** Two trimmed strings that `s` pads are the same string: each starts and ends where the
      other does, since a character of `s` outside one is a trim character and the ends of the
      other are not. */
  lemma PaddedUnique(s: string, r: string, i: nat, t: string, i': nat)
    requires IsTrimmed(r) && PaddedAt(s, r, i)
    requires IsTrimmed(t) && PaddedAt(s, t, i')
    ensures r == t
  {
    PaddedEnds(s, r, i);
    PaddedEnds(s, t, i');
    TrimCharOutside(s, t, i', i);
    TrimCharOutside(s, r, i, i');
    TrimCharOutside(s, t, i', i + |r| - 1);
    TrimCharOutside(s, r, i, i' + |t| - 1);
    if |r| > 0 {
      assert r == s[i..i + |r|] == t;
    }
  }

  /** Trimming twice is trimming once. */
  lemma TrimIdempotent(s: string)
    ensures Trim(Trim(s)) == Trim(s)
  {
    var r := Trim(s);
    assert r[0..|r|] == r;
    assert AllTrimChars(r[..0]) && AllTrimChars(r[|r|..]);
    TrimUnique(r, r, 0);
  }

  // ---------------------------------------------------------------------------------------
  // Ordinal Contains
  // ---------------------------------------------------------------------------------------

  /** `t` occurs in `s` starting at index `i`. */
  predicate OccursAt(s: string, t: string, i: nat) {
    i + |t| <= |s| && s[i..i + |t|] == t
  }

  /** `s.Contains(t, StringComparison.Ordinal)`. */
  function Contains(s: string, t: string): (b: bool)
    ensures b <==> exists i: nat :: OccursAt(s, t, i)
    decreases |s|
  {
    if |t| > |s| then false
    else if s[..|t|] == t then
      assert OccursAt(s, t, 0);
      true
    else
      var b := Contains(s[1..], t);
      forall i: nat
        ensures OccursAt(s[1..], t, i) <==> OccursAt(s, t, i + 1)
      {
        if i + |t| <= |s| - 1 {
          assert s[1..][i..i + |t|] == s[i + 1..i + 1 + |t|];
        }
      }
      assert forall i: nat :: OccursAt(s, t, i) && i > 0 ==> OccursAt(s[1..], t, i - 1);
      b
  }
}
