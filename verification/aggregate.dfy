/** The `Kact` object: its constructor, `IsValid`, `SetStats`, `GetSummary` and `ToString`. */
module Aggregate {
  import opened Options
  import opened Text
  import opened Acts
  import opened Validation
  import opened Correlation

  /** The two markers whose joint presence marks the input as a whole sensor payload. */
  const SensorKeyMarker: string := "-1,2,-94,-108,"
  const SensorEndMarker: string := "-1,2,-94,-110,"

  /** A `Kact` instance. `text` is `_kact`, `sensorData` is `SensorData`, `keys` is `Keys`
      (`None` for null), `mustHaveChars` is `_mustHaveTotalCharReKacts`, `submissions` is
      `Submissions`; `carry` holds the keys' current `Char` values and `_totalCharReKacts`, and
      `queues` the lists of the last `Play` (`None` before the first one). */
  datatype Kact = Kact(
    text: Option<string>,
    sensorData: Option<string>,
    keys: Option<seq<KeyAct>>,
    mustHaveChars: nat,
    submissions: nat,
    carry: Carry,
    queues: Option<Queues>)

  /** The state every instance is in between calls: the counts agree with the key list, the
      synthesized-character counter has not passed its bound, and queue entries name keys. */
  predicate Consistent(k: Kact) {
    match k.keys
    case None =>
      && k.text.None? && k.mustHaveChars == 0 && k.submissions == 0
      && k.carry == Carry([], 0) && k.queues.None?
    case Some(keys) =>
      && k.text.Some?
      && |k.carry.chars| == |keys|
      && k.mustHaveChars == CountKind(keys, KeyPress)
      && k.submissions == CountSubmissions(keys)
      && k.carry.total <= k.mustHaveChars
      && (k.queues.Some? ==> FitsUpTo(keys, Engine(k.queues.value, k.carry), |keys|))
  }

  /** The input carries both sensor markers. */
  predicate IsSensorPayload(raw: string) {
    Contains(raw, SensorKeyMarker) && Contains(raw, SensorEndMarker)
  }

  /** The act string the constructor validates: the extracted `Kact` group for a sensor payload,
      the input itself otherwise, trimmed of `\r`, `\n`, space and tab at both ends. */
  function ActText(env: Collaborators, raw: string): string {
    Trim(if IsSensorPayload(raw) then env.extractAct(raw) else raw)
  }

  /** `_mustHaveTotalCharReKacts`: the number of KeyPress acts. */
  function MustHaveChars(keys: seq<KeyAct>): (n: nat)
    ensures n == |set j | 0 <= j < |keys| && keys[j].kind == KeyPress|
    ensures n == 0 <==> forall j :: 0 <= j < |keys| ==> keys[j].kind != KeyPress
    ensures n + CountKind(keys, KeyDown) + CountKind(keys, KeyUp) == |keys|
  {
    KindCardinality(keys, KeyPress);
    CountExtremes(keys, IsKind(KeyPress));
    KindCountsPartition(keys);
    CountKind(keys, KeyPress)
  }

  /** `SetStats`: the number of submission acts, which is 0 for an empty list (the early
      assignment for an empty list is overwritten by the count, which agrees with it). */
  function SetStats(keys: seq<KeyAct>): (n: nat)
    ensures n == |set j | 0 <= j < |keys| && keys[j].isSubmission|
    ensures n == 0 <==> forall j :: 0 <= j < |keys| ==> !keys[j].isSubmission
    ensures n == |keys| <==> forall j :: 0 <= j < |keys| ==> keys[j].isSubmission
  {
    SubmissionCardinality(keys);
    CountExtremes(keys, IsSubmission());
    CountSubmissions(keys)
  }

  function InitialChars(keys: seq<KeyAct>): (chars: seq<Option<char>>)
    ensures |chars| == |keys|
    ensures forall j :: 0 <= j < |keys| ==> chars[j] == keys[j].initialChar
  {
    seq(|keys|, j requires 0 <= j < |keys| => keys[j].initialChar)
  }

  /** `new Kact(kact)`; `None` stands for a null argument. */
  function Construct(env: Collaborators, input: Option<string>): (k: Kact)
    ensures Consistent(k)
    ensures k.queues.None? && k.carry.total == 0
    ensures input.None? ==> k.keys.None? && k.sensorData.None?
    ensures input.Some? ==> (k.sensorData == Some(input.value) <==> IsSensorPayload(input.value))
    ensures input.Some? ==> (k.sensorData.None? <==> !IsSensorPayload(input.value))
    ensures input.Some? ==> k.keys == Validate(env, ActText(env, input.value))
    ensures input.Some? && k.keys.Some? ==> k.text == Some(ActText(env, input.value))
    ensures k.keys.Some? ==> forall j :: 0 <= j < |k.keys.value| ==> k.carry.chars[j] == k.keys.value[j].initialChar
  {
    match input
    case None => Kact(None, None, None, 0, 0, Carry([], 0), None)
    case Some(raw) =>
      var sensorData := if IsSensorPayload(raw) then Some(raw) else None;
      var act := ActText(env, raw);
      match Validate(env, act)
      case None => Kact(None, sensorData, None, 0, 0, Carry([], 0), None)
      case Some(keys) =>
        Kact(Some(act), sensorData, Some(keys), MustHaveChars(keys), SetStats(keys),
             Carry(InitialChars(keys), 0), None)
  }

  /** `IsValid`: the key list exists and is not empty. On an instance in its between-calls state
      that is the summary reporting at least one act, and a valid instance has its text. */
  predicate IsValid(k: Kact): (b: bool)
    ensures Consistent(k) && k.keys.Some? ==> (b <==> GetSummary(k).acts > 0)
    ensures Consistent(k) && b ==> k.text.Some?
  {
    k.keys.Some? && |k.keys.value| > 0
  }

  /** `ToString`: `_kact`, or the empty string when it was never set, which is always the case
      for an instance without keys. */
  function ToString(k: Kact): (r: string)
    ensures Consistent(k) && k.keys.None? ==> r == ""
    ensures k.text.Some? ==> r == k.text.value
  {
    k.text.OrElse("")
  }

  /** Round trip: the text of a constructed instance is the trimmed act string when validation
      succeeded and empty otherwise; either way it is itself trimmed. */
  lemma ToStringOfConstruct(env: Collaborators, raw: string)
    ensures var k := Construct(env, Some(raw));
      && ToString(k) == (if Validate(env, ActText(env, raw)).Some? then ActText(env, raw) else "")
      && IsTrimmed(ToString(k))
  {
  }

  /** Feeding an instance's text back to the constructor rebuilds the same key list and text,
      unless that text itself looks like a sensor payload. */
  lemma ReconstructFromText(env: Collaborators, raw: string)
    requires Construct(env, Some(raw)).keys.Some?
    requires !IsSensorPayload(ToString(Construct(env, Some(raw))))
    ensures var k := Construct(env, Some(raw));
      var k2 := Construct(env, Some(ToString(k)));
      k2.keys == k.keys && ToString(k2) == ToString(k)
  {
    var act := ActText(env, raw);
    TrimIdempotent(if IsSensorPayload(raw) then env.extractAct(raw) else raw);
    assert ActText(env, act) == act;
  }

  /** A null argument leaves the instance invalid, with no keys and an empty text. */
  lemma NullInput(env: Collaborators)
    ensures var k := Construct(env, None);
      !IsValid(k) && k.keys.None? && ToString(k) == "" && k.sensorData.None?
  {
  }

  /** A string only of trim characters (the empty string included) is no sensor payload, and
      the instance built from it is invalid with an empty text. */
  lemma BlankInput(env: Collaborators, raw: string)
    requires AllTrimChars(raw)
    ensures var k := Construct(env, Some(raw));
      !IsValid(k) && ToString(k) == "" && k.sensorData.None?
  {
    NoMarkerInBlank(raw, SensorKeyMarker);
    assert Trim(raw) == "" by {
      assert raw[0..0] == "" && raw[..0] == "" && raw[0..] == raw;
      TrimUnique(raw, "", 0);
    }
    var r := Validate(env, "");
    assert SplitKacts("") == [];
  }

  lemma NoMarkerInBlank(raw: string, marker: string)
    requires AllTrimChars(raw) && |marker| > 0 && !IsTrimChar(marker[0])
    ensures !Contains(raw, marker)
  {
    forall i: nat
      ensures !OccursAt(raw, marker, i)
    {
      if i + |marker| <= |raw| {
        assert raw[i..i + |marker|][0] == raw[i];
      }
    }
  }

  /** The text survives a successful validation that produced no keys: the instance built from
      `";"` is invalid, yet its text is `";"` and not the empty string. */
  lemma EmptyKeyListKeepsText(env: Collaborators)
    requires env.isWellFormed(";")
    ensures var k := Construct(env, Some(";"));
      !IsValid(k) && k.keys == Some([]) && ToString(k) == ";"
  {
    SemicolonActText(env);
    SemicolonValidates(env);
  }

  lemma SemicolonActText(env: Collaborators)
    ensures !IsSensorPayload(";") && ActText(env, ";") == ";"
  {
    assert !Contains(";", SensorKeyMarker);
    assert ";"[0..1] == ";" && AllTrimChars(";"[..0]) && AllTrimChars(";"[1..]);
    TrimUnique(";", ";", 0);
  }

  lemma SemicolonValidates(env: Collaborators)
    requires env.isWellFormed(";")
    ensures Validate(env, ";") == Some([])
  {
    assert Split(";", ActSeparator) == Split(";"[1..], ActSeparator);
    assert ";"[1..] == "";
  }

  /** `GetSummary`'s figures: total acts, KeyDowns, KeyPresses, KeyUps and submissions. */
  datatype Summary = Summary(acts: nat, keyDowns: nat, keyPresses: nat, keyUps: nat, submissions: nat)

  /** `GetSummary`; the C# dereferences `Keys`, so the key list must exist. The text layout is
      not modelled. */
  function GetSummary(k: Kact): (s: Summary)
    requires Consistent(k) && k.keys.Some?
    ensures var keys := k.keys.value;
      && s.acts == |keys|
      && s.keyDowns == |set j | 0 <= j < |keys| && keys[j].kind == KeyDown|
      && s.keyPresses == |set j | 0 <= j < |keys| && keys[j].kind == KeyPress|
      && s.keyUps == |set j | 0 <= j < |keys| && keys[j].kind == KeyUp|
      && s.submissions == |set j | 0 <= j < |keys| && keys[j].isSubmission|
    ensures s.keyDowns + s.keyPresses + s.keyUps == s.acts
    ensures s.keyPresses == k.mustHaveChars
  {
    var keys := k.keys.value;
    KindCountsPartition(keys);
    KindCardinality(keys, KeyDown);
    KindCardinality(keys, KeyPress);
    KindCardinality(keys, KeyUp);
    SubmissionCardinality(keys);
    Summary(|keys|, CountKind(keys, KeyDown), CountKind(keys, KeyPress), CountKind(keys, KeyUp), k.submissions)
  }
}
