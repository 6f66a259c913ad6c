/** `Kact.Validate` and the two splitters it uses: an act string is a `;`-separated list of
    events, each a `,`-separated list of 7 or 8 tokens; one malformed event rejects the lot. */
module Validation {
  import opened Options
  import opened Text
  import opened Acts

  const ActSeparator: char := ';'
  const TokenSeparator: char := ','

  /** `SplitKacts`: the non-empty `;`-separated event segments. */
  function SplitKacts(s: string): (segments: seq<string>)
    ensures forall k :: 0 <= k < |segments| ==> |segments[k]| > 0 && ActSeparator !in segments[k]
    ensures |segments| == 0 <==> forall j :: 0 <= j < |s| ==> s[j] == ActSeparator
  {
    SplitEmpty(s, ActSeparator);
    Split(s, ActSeparator)
  }

  /** `SplitAct`: the non-empty `,`-separated tokens of one event segment. */
  function SplitAct(segment: string): (tokens: seq<string>)
    ensures forall k :: 0 <= k < |tokens| ==> |tokens[k]| > 0 && TokenSeparator !in tokens[k]
    ensures |tokens| == 0 <==> forall j :: 0 <= j < |segment| ==> segment[j] == TokenSeparator
  {
    SplitEmpty(segment, TokenSeparator);
    Split(segment, TokenSeparator)
  }

  /** The token counts the validator accepts; it rejects `<= 6` and `>= 9`. */
  predicate HasEventArity(tokens: seq<string>) {
    |tokens| == 7 || |tokens| == 8
  }

  /** Every segment has an accepted token count. */
  predicate AllWellSized(segments: seq<string>) {
    forall j :: 0 <= j < |segments| ==> HasEventArity(SplitAct(segments[j]))
  }

  /** The loop of `Validate`: decode the segments in order, stopping at the first one whose
      token count is out of range. */
  function DecodeAll(env: Collaborators, segments: seq<string>): (r: Option<seq<KeyAct>>)
    ensures r.Some? <==> AllWellSized(segments)
    ensures r.Some? ==> |r.value| == |segments|
    ensures r.Some? ==> forall j :: 0 <= j < |segments| ==> r.value[j] == env.decode(SplitAct(segments[j]))
    decreases |segments|
  {
    if |segments| == 0 then Some([])
    else
      var tokens := SplitAct(segments[0]);
      if !HasEventArity(tokens) then None
      else
        match DecodeAll(env, segments[1..])
        case None => None
        case Some(rest) => Some([env.decode(tokens)] + rest)
  }

  /** `Kact.Validate`: `None` stands for `(false, null)`, `Some(keys)` for `(true, keys)`. */
  function Validate(env: Collaborators, s: string): (r: Option<seq<KeyAct>>)
    ensures r.Some? <==> env.isWellFormed(s) && AllWellSized(SplitKacts(s))
    ensures r.Some? ==> |r.value| == |SplitKacts(s)|
    ensures r.Some? ==> forall j :: 0 <= j < |r.value| ==> r.value[j] == env.decode(SplitAct(SplitKacts(s)[j]))
  {
    if !env.isWellFormed(s) then None else DecodeAll(env, SplitKacts(s))
  }

  /** All-or-nothing: one event segment anywhere in the string with a token count outside
      {7, 8} rejects the whole string, whatever the other segments hold. */
  lemma OneBadSegmentRejectsAll(env: Collaborators, before: string, bad: string, after: string)
    requires |bad| > 0 && ActSeparator !in bad && !HasEventArity(SplitAct(bad))
    ensures Validate(env, before + [ActSeparator] + bad + [ActSeparator] + after) == None
  {
    var tail := bad + [ActSeparator] + after;
    var s := before + [ActSeparator] + tail;
    assert before + [ActSeparator] + bad + [ActSeparator] + after == s;
    SplitAround(bad, after, ActSeparator);
    assert bad + "" == bad;
    SplitPieceThen(bad, "", ActSeparator);
    assert Split(bad, ActSeparator) == [bad];
    assert SplitKacts(tail) == [bad] + SplitKacts(after);
    SplitAround(before, tail, ActSeparator);
    var segs := SplitKacts(s);
    assert segs == SplitKacts(before) + SplitKacts(tail);
    assert segs[|SplitKacts(before)|] == bad;
    assert !AllWellSized(segs);
  }

  /** Serialisation round trip: events written as their token lists, joined with `,` inside an
      event and `;` between events, validate back to the decoded token lists, one per event and
      in order, provided the sensor regex accepts the string. */
  lemma ValidateSerialized(env: Collaborators, events: seq<seq<string>>)
    requires forall j :: 0 <= j < |events| ==> HasEventArity(events[j])
    requires forall j :: 0 <= j < |events| ==> SplitPieces(events[j], TokenSeparator)
    requires forall j, k :: 0 <= j < |events| && 0 <= k < |events[j]| ==> ActSeparator !in events[j][k]
    requires env.isWellFormed(Serialize(events))
    ensures Validate(env, Serialize(events)) == Some(seq(|events|, j requires 0 <= j < |events| => env.decode(events[j])))
  {
    var segs := seq(|events|, j requires 0 <= j < |events| => Join(events[j], TokenSeparator));
    forall j | 0 <= j < |events|
      ensures |segs[j]| > 0 && ActSeparator !in segs[j] && SplitAct(segs[j]) == events[j]
    {
      JoinShape(events[j], TokenSeparator, ActSeparator);
      SplitJoin(events[j], TokenSeparator);
    }
    SplitJoin(segs, ActSeparator);
    assert SplitKacts(Serialize(events)) == segs;
    var r := Validate(env, Serialize(events));
    assert AllWellSized(segs);
    assert r.Some?;
    var expected := seq(|events|, j requires 0 <= j < |events| => env.decode(events[j]));
    assert |r.value| == |expected|;
    assert forall j :: 0 <= j < |events| ==> r.value[j] == expected[j];
    assert r.value == expected;
  }

  /** An act string holding `events`, each token list joined with `,` and the events with `;`. */
  function Serialize(events: seq<seq<string>>): string {
    Join(seq(|events|, j requires 0 <= j < |events| => Join(events[j], TokenSeparator)), ActSeparator)
  }

  /** Joining a non-empty list of non-empty pieces gives a non-empty string that holds no
      character the pieces avoid, provided that character is not the separator either. */
  lemma {:induction false} JoinShape(pieces: seq<string>, sep: char, other: char)
    requires |pieces| > 0 && SplitPieces(pieces, sep)
    requires other != sep
    requires forall k :: 0 <= k < |pieces| ==> other !in pieces[k]
    ensures |Join(pieces, sep)| > 0 && other !in Join(pieces, sep)
    decreases |pieces|
  {
    if |pieces| > 1 {
      JoinShape(pieces[1..], sep, other);
    }
  }
}
