/** One decoded key action (`KeyAct`) and the collaborators Kact calls but does not define:
    the two sensor regexes, the KeyAct token decoder and `KeyAct.GetKeyByKeyCode`. */
module Acts {
  import opened Options

  /** `ActTypes`: the three kinds of key action. The C# enum could hold any other integer;
      the decoder is taken to produce only these three. */
  datatype ActType = KeyDown | KeyUp | KeyPress

  /** A C# `int`. */
  type Int32 = x: int | -0x8000_0000 <= x < 0x8000_0000

  /** C#'s unchecked 32-bit wrap-around of an integer result. */
  function Wrap32(x: int): (r: Int32)
    ensures (x - r) % 0x1_0000_0000 == 0
    ensures -0x8000_0000 <= x < 0x8000_0000 ==> r == x
  {
    (x + 0x8000_0000) % 0x1_0000_0000 - 0x8000_0000
  }

  /** A decoded key action. Only the fields Kact reads are modelled; how the decoder derives them
      from the raw tokens is not. `hash` is an opaque identity token compared by equality only;
      `initialChar` is the `Char` the decoder leaves on the record, which replay may overwrite. */
  datatype KeyAct = KeyAct(
    kind: ActType,
    keyCode: int,
    time: Int32,
    hash: string,
    initialChar: Option<char>,
    isCharAct: bool,
    isUnknown: bool,
    isSubmission: bool)

  /** What Kact calls into without defining it, as plain functions:
      - `isWellFormed`: `Globals.Regexes.ValidateKactString.IsMatch`
      - `extractAct`: the `Kact` group of `Globals.Regexes.ExtractKactFromSensor`
      - `decode`: `new KeyAct(string[])`
      - `resolveChar`: `KeyAct.GetKeyByKeyCode(force)` */
  datatype Collaborators = Collaborators(
    isWellFormed: string -> bool,
    extractAct: string -> string,
    decode: seq<string> -> KeyAct,
    resolveChar: (KeyAct, bool) -> Option<char>)

  // ---------------------------------------------------------------------------------------
  // Counting over the key list (LINQ `Count(predicate)`)
  // ---------------------------------------------------------------------------------------

  /** The positions of `s` whose element satisfies `p`. */
  function Positions<T>(s: seq<T>, p: T -> bool): set<int> {
    set j | 0 <= j < |s| && p(s[j])
  }

  /** Number of elements of `s` that satisfy `p`. */
  function Count<T>(s: seq<T>, p: T -> bool): (n: nat)
    ensures n <= |s|
    decreases |s|
  {
    if |s| == 0 then 0 else Count(s[..|s| - 1], p) + (if p(s[|s| - 1]) then 1 else 0)
  }

  /** The count is the number of positions whose element satisfies `p`. */
  lemma {:induction false} CountIsCardinality<T>(s: seq<T>, p: T -> bool)
    ensures Count(s, p) == |Positions(s, p)|
    decreases |s|
  {
    if |s| > 0 {
      var init, last := s[..|s| - 1], |s| - 1;
      assert Count(s, p) == Count(init, p) + (if p(s[last]) then 1 else 0);
      CountIsCardinality(init, p);
      PositionsSnoc(s, p);
      if p(s[last]) {
        assert |Positions(s, p)| == |Positions(init, p)| + 1;
      }
    }
  }

  /** The positions of a non-empty `s` are those of all but its last element, plus the last
      position when that element satisfies `p`. */
  lemma PositionsSnoc<T>(s: seq<T>, p: T -> bool)
    requires |s| > 0
    ensures var a, last := Positions(s[..|s| - 1], p), |s| - 1;
      && last !in a
      && Positions(s, p) == if p(s[last]) then a + {last} else a
  {
    var init, last := s[..|s| - 1], |s| - 1;
    var a := Positions(init, p);
    forall j
      ensures j in a <==> 0 <= j < last && p(s[j])
    {
      if 0 <= j < last { assert init[j] == s[j]; }
    }
  }

  function IsKind(t: ActType): KeyAct -> bool {
    (a: KeyAct) => a.kind == t
  }

  function IsSubmission(): KeyAct -> bool {
    (a: KeyAct) => a.isSubmission
  }

  function CountKind(keys: seq<KeyAct>, t: ActType): nat {
    Count(keys, IsKind(t))
  }

  function CountSubmissions(keys: seq<KeyAct>): nat {
    Count(keys, IsSubmission())
  }

  /** Counting is additive over concatenation. */
  lemma {:induction false} CountAppend<T>(a: seq<T>, b: seq<T>, p: T -> bool)
    ensures Count(a + b, p) == Count(a, p) + Count(b, p)
    decreases |b|
  {
    if |b| == 0 {
      assert a + b == a;
    } else {
      assert (a + b)[..|a + b| - 1] == a + b[..|b| - 1];
      CountAppend(a, b[..|b| - 1], p);
    }
  }

  /** `Count` is exact: it is zero only when no element satisfies the predicate, and it reaches
      the length only when every element does. */
  lemma {:induction false} CountExtremes<T>(s: seq<T>, p: T -> bool)
    ensures Count(s, p) == 0 <==> forall j :: 0 <= j < |s| ==> !p(s[j])
    ensures Count(s, p) == |s| <==> forall j :: 0 <= j < |s| ==> p(s[j])
    decreases |s|
  {
    if |s| > 0 {
      var init := s[..|s| - 1];
      CountExtremes(init, p);
      assert forall j :: 0 <= j < |init| ==> init[j] == s[j];
    }
  }

  lemma KindCardinality(keys: seq<KeyAct>, t: ActType)
    ensures CountKind(keys, t) == |set j | 0 <= j < |keys| && keys[j].kind == t|
  {
    CountIsCardinality(keys, IsKind(t));
    assert Positions(keys, IsKind(t)) == set j | 0 <= j < |keys| && keys[j].kind == t;
  }

  lemma SubmissionCardinality(keys: seq<KeyAct>)
    ensures CountSubmissions(keys) == |set j | 0 <= j < |keys| && keys[j].isSubmission|
  {
    CountIsCardinality(keys, IsSubmission());
    assert Positions(keys, IsSubmission()) == set j | 0 <= j < |keys| && keys[j].isSubmission;
  }

  /** Every key action is exactly one of the three kinds, so the per-kind counts add up to the
      length of the list. */
  lemma {:induction false} KindCountsPartition(keys: seq<KeyAct>)
    ensures CountKind(keys, KeyDown) + CountKind(keys, KeyPress) + CountKind(keys, KeyUp) == |keys|
    decreases |keys|
  {
    if |keys| > 0 {
      KindCountsPartition(keys[..|keys| - 1]);
    }
  }
}
