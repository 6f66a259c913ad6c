/** `Kact.FireEvent`: the correlation of KeyPress and KeyUp events with earlier KeyDowns
    through a press queue and an up queue. Queues hold positions in the key list, so a queue
    entry names the very `KeyAct` object the C# lists hold. The `Char` field replay writes back
    into those shared objects is the `chars` sequence of a `Carry`, which, like the synthesized
    character counter, outlives a single replay. */
module Correlation {
  import opened Options
  import opened Acts

  /** The key code of a KeyDown that may synthesize a printable character. */
  const CharSentinel: int := -2

  /** Every entry of `q` is a position below `n`. */
  predicate Below(q: seq<nat>, n: nat) {
    forall j :: 0 <= j < |q| ==> q[j] < n
  }

  /** `_keyPressQueue`, `_keyUpQueue` and `_unknownKeyCodes`: what `Play` resets. */
  datatype Queues = Queues(pressQ: seq<nat>, upQ: seq<nat>, unknowns: seq<nat>)

  const NoQueues := Queues([], [], [])

  /** What `Play` does not reset: the current `Char` of every key and `_totalCharReKacts`. */
  datatype Carry = Carry(chars: seq<Option<char>>, total: nat)

  datatype Engine = Engine(queues: Queues, carry: Carry)

  /** There is one char slot per key. */
  predicate Fits(keys: seq<KeyAct>, e: Engine) {
    |e.carry.chars| == |keys|
  }

  /** `List.RemoveAt(p)`. */
  function RemoveAt(q: seq<nat>, p: nat): (r: seq<nat>)
    requires p < |q|
    ensures |r| == |q| - 1
    ensures forall j :: 0 <= j < |r| ==> r[j] == if j < p then q[j] else q[j + 1]
  {
    q[..p] + q[p + 1..]
  }

  // ---------------------------------------------------------------------------------------
  // The matching rules
  // ---------------------------------------------------------------------------------------

  /** The three queue scans of `FireEvent`, each with the key code of the event being fired:
      - `PressRule`: KeyPress against the press queue, given the up queue;
      - `CodeRule`: KeyUp with a negative code and an empty press queue, against the up queue;
      - `UpRule`: KeyUp with a negative code, against the up queue, given the press queue. */
  datatype Rule =
    | PressRule(upQ: seq<nat>, code: int)
    | CodeRule(code: int)
    | UpRule(pressQ: seq<nat>, code: int)

  /** Some entry of `upQ` is a char act with hash `h`. */
  predicate HasCharActWithHash(keys: seq<KeyAct>, upQ: seq<nat>, h: string)
    decreases |upQ|
  {
    |upQ| > 0 &&
      ((upQ[0] < |keys| && keys[upQ[0]].hash == h && keys[upQ[0]].isCharAct)
       || HasCharActWithHash(keys, upQ[1..], h))
  }

  /** Some entry of `pressQ` has a hash other than `h`. */
  predicate HasOtherHash(keys: seq<KeyAct>, pressQ: seq<nat>, h: string)
    decreases |pressQ|
  {
    |pressQ| > 0 &&
      ((pressQ[0] < |keys| && keys[pressQ[0]].hash != h) || HasOtherHash(keys, pressQ[1..], h))
  }

  /** Queue entry `d` is a hit of the scan `rule`: it has the event's code and, for the press
      scan, shares its hash with a char act of the up queue, and for the second up scan, has a
      hash that differs from that of some press-queue entry (the inner loops stop at the first
      such entry). */
  predicate Matches(keys: seq<KeyAct>, rule: Rule, d: nat) {
    && d < |keys|
    && keys[d].keyCode == rule.code
    && match rule
       case PressRule(upQ, _) => HasCharActWithHash(keys, upQ, keys[d].hash)
       case CodeRule(_) => true
       case UpRule(pressQ, _) => HasOtherHash(keys, pressQ, keys[d].hash)
  }

  /** The first position of `q` whose entry is a hit of `rule`: the nested first-match scans of
      `SetKeyThatNotYetUp` and `SetKeyThatAlreadyPressed`, which stop at the first hit. */
  function FirstWhere(keys: seq<KeyAct>, q: seq<nat>, rule: Rule): (r: Option<nat>)
    ensures r.Some? ==> r.value < |q| && Matches(keys, rule, q[r.value])
    ensures forall j :: 0 <= j < |q| && (r.None? || j < r.value) ==> !Matches(keys, rule, q[j])
    decreases |q|
  {
    if |q| == 0 then None
    else if Matches(keys, rule, q[0]) then Some(0)
    else
      match FirstWhere(keys, q[1..], rule)
      case None => None
      case Some(p) => Some(p + 1)
  }

  /** `q'` is `q` with its first hit of `rule` removed, or `q` itself when there is no hit. */
  ghost predicate RemovesFirst(keys: seq<KeyAct>, q: seq<nat>, q': seq<nat>, rule: Rule) {
    || (q' == q && forall j :: 0 <= j < |q| ==> !Matches(keys, rule, q[j]))
    || (exists p :: 0 <= p < |q| && Matches(keys, rule, q[p])
         && (forall j :: 0 <= j < p ==> !Matches(keys, rule, q[j]))
         && q' == q[..p] + q[p + 1..])
  }

  /** `chars'` is `chars` after the event at position `i` ran `Char = matched?.Char ?? Char`,
      the match being the first hit of `rule` in `q`: with no hit nothing changes, and with a
      hit the event takes the hit's character when it has one and keeps its own otherwise. */
  ghost predicate TakesCharOfFirst(keys: seq<KeyAct>, q: seq<nat>, rule: Rule,
                                   chars: seq<Option<char>>, chars': seq<Option<char>>, i: nat)
    requires |chars| == |chars'| == |keys| && i < |keys|
  {
    && ((forall j :: 0 <= j < |q| ==> !Matches(keys, rule, q[j])) ==> chars' == chars)
    && forall p :: 0 <= p < |q| && Matches(keys, rule, q[p]) && (forall j :: 0 <= j < p ==> !Matches(keys, rule, q[j])) ==>
         chars'[i] == chars[q[p]].Or(chars[i])
  }

  /** Position in the press queue of the KeyDown a KeyPress with code `code` consumes. */
  function PressMatchAt(keys: seq<KeyAct>, q: Queues, code: int): Option<nat> {
    if |q.pressQ| > 0 then FirstWhere(keys, q.pressQ, PressRule(q.upQ, code)) else None
  }

  /** Position in the up queue of the KeyDown a KeyUp with code `code` consumes. With a negative
      code and an empty press queue the code-only scan runs first; when it finds nothing the
      scan against the press queue runs next, over an empty press queue. */
  function UpMatchAt(keys: seq<KeyAct>, q: Queues, code: int): Option<nat> {
    if |q.upQ| == 0 then None
    else if code < 0 then
      if |q.pressQ| == 0 then
        match FirstWhere(keys, q.upQ, CodeRule(code))
        case Some(u) => Some(u)
        case None => FirstWhere(keys, q.upQ, UpRule(q.pressQ, code))
      else FirstWhere(keys, q.upQ, UpRule(q.pressQ, code))
    else Some(0)
  }

  /** `keyAct.Char = matched?.Char ?? keyAct.Char` for the key at position `i`. */
  function TakeChar(chars: seq<Option<char>>, i: nat, matched: Option<nat>): (r: seq<Option<char>>)
    requires i < |chars|
    ensures |r| == |chars|
  {
    // queue entries always name keys (`StepPositions`), so the bound test never fails
    if matched.Some? && matched.value < |chars| && chars[matched.value].Some? then chars[i := chars[matched.value]]
    else chars
  }

  function EntryAt(q: seq<nat>, at: Option<nat>): (r: Option<nat>)
    requires at.Some? ==> at.value < |q|
  {
    if at.Some? then Some(q[at.value]) else None
  }

  function RemoveIf(q: seq<nat>, at: Option<nat>): seq<nat>
    requires at.Some? ==> at.value < |q|
  {
    if at.Some? then RemoveAt(q, at.value) else q
  }

  // ---------------------------------------------------------------------------------------
  // One event
  // ---------------------------------------------------------------------------------------

  /** The engine state is fitted to the keys and, once the first `n` events have run, its
      queues name only those events. */
  predicate FitsUpTo(keys: seq<KeyAct>, e: Engine, n: nat) {
    && Fits(keys, e) && n <= |keys|
    && Below(e.queues.pressQ, n) && Below(e.queues.upQ, n) && Below(e.queues.unknowns, n)
  }

  /** The KeyDown branch of `FireEvent`, with the unknowns already updated. */
  function OnKeyDown(env: Collaborators, keys: seq<KeyAct>, mustHave: nat, e: Engine, i: nat): (e': Engine)
    requires i < |keys| && Fits(keys, e)
    ensures Fits(keys, e')
  {
    var k := keys[i];
    var q := e.queues;
    var c := e.carry;
    var c' :=
      if c.total < mustHave && k.keyCode == CharSentinel then
        Carry(c.chars[i := env.resolveChar(k, true)], c.total + 1)
      else if k.keyCode == CharSentinel then
        Carry(c.chars[i := env.resolveChar(k, false)], c.total)
      else c;
    var pressQ := if k.isCharAct then q.pressQ + [i] else q.pressQ;
    Engine(Queues(pressQ, q.upQ + [i], q.unknowns), c')
  }

  /** The KeyPress branch of `FireEvent`. */
  function OnKeyPress(keys: seq<KeyAct>, e: Engine, i: nat): (e': Engine)
    requires i < |keys| && Fits(keys, e)
    ensures Fits(keys, e')
  {
    var q := e.queues;
    var at := PressMatchAt(keys, q, keys[i].keyCode);
    Engine(Queues(RemoveIf(q.pressQ, at), q.upQ, q.unknowns),
           Carry(TakeChar(e.carry.chars, i, EntryAt(q.pressQ, at)), e.carry.total))
  }

  /** The KeyUp branch of `FireEvent`. */
  function OnKeyUp(keys: seq<KeyAct>, e: Engine, i: nat): (e': Engine)
    requires i < |keys| && Fits(keys, e)
    ensures Fits(keys, e')
  {
    var q := e.queues;
    var at := UpMatchAt(keys, q, keys[i].keyCode);
    Engine(Queues(q.pressQ, RemoveIf(q.upQ, at), q.unknowns),
           Carry(TakeChar(e.carry.chars, i, EntryAt(q.upQ, at)), e.carry.total))
  }

  /** `FireEvent(Keys[i])` against the engine state `e`, where `mustHave` is
      `_mustHaveTotalCharReKacts`: an unknown event joins the unknowns whatever its kind, then
      the kind selects the branch. */
  function Step(env: Collaborators, keys: seq<KeyAct>, mustHave: nat, e: Engine, i: nat): (e': Engine)
    requires i < |keys| && Fits(keys, e)
    ensures Fits(keys, e')
    ensures e'.queues.unknowns == (if keys[i].isUnknown then e.queues.unknowns + [i] else e.queues.unknowns)
  {
    var q := e.queues;
    var unknowns := if keys[i].isUnknown then q.unknowns + [i] else q.unknowns;
    var e0 := Engine(Queues(q.pressQ, q.upQ, unknowns), e.carry);
    match keys[i].kind
    case KeyDown => OnKeyDown(env, keys, mustHave, e0, i)
    case KeyPress => OnKeyPress(keys, e0, i)
    case KeyUp => OnKeyUp(keys, e0, i)
  }

  /** Whatever the kind, only the event's own character may change, and only a KeyDown may
      move the counter, by one at most. */
  lemma StepFrame(env: Collaborators, keys: seq<KeyAct>, mustHave: nat, e: Engine, i: nat)
    requires i < |keys| && Fits(keys, e)
    ensures var e' := Step(env, keys, mustHave, e, i);
      && (forall j :: 0 <= j < |keys| && j != i ==> e'.carry.chars[j] == e.carry.chars[j])
      && (keys[i].kind != KeyDown ==> e'.carry.total == e.carry.total)
      && e.carry.total <= e'.carry.total <= e.carry.total + 1
  {
  }

  // ---------------------------------------------------------------------------------------
  // What one step does, kind by kind
  // ---------------------------------------------------------------------------------------

  /** A replayed event only ever queues its own position: after event `i` the queues name
      only events up to `i`. */
  lemma StepPositions(env: Collaborators, keys: seq<KeyAct>, mustHave: nat, e: Engine, i: nat)
    requires i < |keys| && FitsUpTo(keys, e, i)
    ensures FitsUpTo(keys, Step(env, keys, mustHave, e, i), i + 1)
  {
    var q := e.queues;
    var q' := Step(env, keys, mustHave, e, i).queues;
    assert Below(q'.unknowns, i + 1);
    match keys[i].kind
    case KeyDown =>
      assert Below(q'.pressQ, i + 1) && Below(q'.upQ, i + 1);
    case KeyPress =>
      RemoveIfBelow(q.pressQ, PressMatchAt(keys, q, keys[i].keyCode), i + 1);
    case KeyUp =>
      RemoveIfBelow(q.upQ, UpMatchAt(keys, q, keys[i].keyCode), i + 1);
  }

  lemma RemoveIfBelow(q: seq<nat>, at: Option<nat>, n: nat)
    requires at.Some? ==> at.value < |q|
    requires Below(q, n)
    ensures Below(RemoveIf(q, at), n)
  {
  }

  /** The first-match scan removes exactly the first hit, if any. */
  lemma FirstWhereRemoves(keys: seq<KeyAct>, q: seq<nat>, rule: Rule)
    ensures RemovesFirst(keys, q, RemoveIf(q, FirstWhere(keys, q, rule)), rule)
  {
    var at := FirstWhere(keys, q, rule);
    if at.Some? {
      var p := at.value;
      assert Matches(keys, rule, q[p]) && (forall j :: 0 <= j < p ==> !Matches(keys, rule, q[j]));
    }
  }

  /** Two positions that are both "the first hit" are the same position. */
  lemma FirstIsUnique(keys: seq<KeyAct>, q: seq<nat>, rule: Rule, p: nat)
    requires p < |q| && Matches(keys, rule, q[p])
    requires forall j :: 0 <= j < p ==> !Matches(keys, rule, q[j])
    ensures FirstWhere(keys, q, rule) == Some(p)
  {
    var r := FirstWhere(keys, q, rule);
    assert r.Some?;
    assert !(r.value < p);
  }

  /** The press scan's inner loop: it finds a char act with the hash exactly when the up queue
      holds one. */
  lemma {:induction false} CharActWithHashMeans(keys: seq<KeyAct>, upQ: seq<nat>, h: string)
    ensures HasCharActWithHash(keys, upQ, h) <==>
      exists u :: 0 <= u < |upQ| && upQ[u] < |keys| && keys[upQ[u]].hash == h && keys[upQ[u]].isCharAct
    decreases |upQ|
  {
    if |upQ| > 0 {
      CharActWithHashMeans(keys, upQ[1..], h);
      assert forall u :: 0 < u < |upQ| ==> upQ[1..][u - 1] == upQ[u];
    }
  }

  /** The second up scan's inner loop: it finds a press-queue entry with another hash exactly
      when the press queue holds one. */
  lemma {:induction false} OtherHashMeans(keys: seq<KeyAct>, pressQ: seq<nat>, h: string)
    ensures HasOtherHash(keys, pressQ, h) <==>
      exists p :: 0 <= p < |pressQ| && pressQ[p] < |keys| && keys[pressQ[p]].hash != h
    decreases |pressQ|
  {
    if |pressQ| > 0 {
      OtherHashMeans(keys, pressQ[1..], h);
      assert forall p :: 0 < p < |pressQ| ==> pressQ[1..][p - 1] == pressQ[p];
    }
  }

  /** KeyDown: the event always joins the up queue and joins the press queue exactly when it is
      a char act; nothing leaves either queue; the counter grows by one only for the sentinel
      code while below `mustHave`, so it never passes `mustHave`; only a sentinel KeyDown
      resolves its character, with `force` set exactly when it counts. */
  lemma KeyDownStep(env: Collaborators, keys: seq<KeyAct>, mustHave: nat, e: Engine, i: nat)
    requires i < |keys| && FitsUpTo(keys, e, i) && keys[i].kind == KeyDown
    ensures var e' := Step(env, keys, mustHave, e, i);
      && e'.queues.upQ == e.queues.upQ + [i]
      && e'.queues.pressQ == (if keys[i].isCharAct then e.queues.pressQ + [i] else e.queues.pressQ)
      && e'.carry.total == (if e.carry.total < mustHave && keys[i].keyCode == CharSentinel then e.carry.total + 1 else e.carry.total)
      && (e.carry.total <= mustHave ==> e'.carry.total <= mustHave)
      && e'.carry.chars[i] == (if keys[i].keyCode != CharSentinel then e.carry.chars[i]
                               else env.resolveChar(keys[i], e.carry.total < mustHave))
  {
  }

  /** KeyPress: the up queue and the counter are unchanged; the press queue loses exactly its
      first entry with the event's code whose hash some char act in the up queue shares, or
      nothing when there is none; the event then takes that entry's character when it has one,
      and keeps its own otherwise. */
  lemma KeyPressStep(env: Collaborators, keys: seq<KeyAct>, mustHave: nat, e: Engine, i: nat)
    requires i < |keys| && FitsUpTo(keys, e, i) && keys[i].kind == KeyPress
    ensures var e' := Step(env, keys, mustHave, e, i);
      && e'.queues.upQ == e.queues.upQ
      && e'.carry.total == e.carry.total
      && RemovesFirst(keys, e.queues.pressQ, e'.queues.pressQ, PressRule(e.queues.upQ, keys[i].keyCode))
      && TakesCharOfFirst(keys, e.queues.pressQ, PressRule(e.queues.upQ, keys[i].keyCode), e.carry.chars, e'.carry.chars, i)
  {
    var q := e.queues;
    FirstTakesChar(keys, q.pressQ, PressRule(q.upQ, keys[i].keyCode), e.carry.chars, i);
  }

  /** Removing the first hit of a scan and copying its character as `??` does meets both
      `RemovesFirst` and `TakesCharOfFirst`. */
  lemma FirstTakesChar(keys: seq<KeyAct>, q: seq<nat>, rule: Rule, chars: seq<Option<char>>, i: nat)
    requires |chars| == |keys| && i < |keys|
    ensures var at := FirstWhere(keys, q, rule);
      && RemovesFirst(keys, q, RemoveIf(q, at), rule)
      && TakesCharOfFirst(keys, q, rule, chars, TakeChar(chars, i, EntryAt(q, at)), i)
  {
    FirstWhereRemoves(keys, q, rule);
    forall p | 0 <= p < |q| && Matches(keys, rule, q[p]) && (forall j :: 0 <= j < p ==> !Matches(keys, rule, q[j]))
      ensures FirstWhere(keys, q, rule) == Some(p)
    {
      FirstIsUnique(keys, q, rule, p);
    }
  }

  /** KeyUp: the press queue and the counter are unchanged, and at most one up-queue entry
      leaves, only when the up queue is non-empty:
      - a non-negative code takes the head of the up queue;
      - a negative code with an empty press queue takes the first entry with that code;
      - a negative code with a non-empty press queue takes the first entry with that code whose
        hash differs from that of some press-queue entry.
      In every case the event then takes the taken entry's character when it has one. */
  lemma KeyUpStep(env: Collaborators, keys: seq<KeyAct>, mustHave: nat, e: Engine, i: nat)
    requires i < |keys| && FitsUpTo(keys, e, i) && keys[i].kind == KeyUp
    ensures var e' := Step(env, keys, mustHave, e, i);
      && e'.queues.pressQ == e.queues.pressQ
      && e'.carry.total == e.carry.total
      && (|e.queues.upQ| == 0 ==> e'.queues.upQ == [] && e'.carry.chars == e.carry.chars)
    ensures var e' := Step(env, keys, mustHave, e, i);
      var upQ := e.queues.upQ;
      var code := keys[i].keyCode;
      && (code >= 0 && |upQ| > 0 ==>
            e'.queues.upQ == upQ[1..] && e'.carry.chars[i] == e.carry.chars[upQ[0]].Or(e.carry.chars[i]))
      && (code < 0 && |e.queues.pressQ| == 0 ==>
            && RemovesFirst(keys, upQ, e'.queues.upQ, CodeRule(code))
            && TakesCharOfFirst(keys, upQ, CodeRule(code), e.carry.chars, e'.carry.chars, i))
      && (code < 0 && |e.queues.pressQ| > 0 ==>
            && RemovesFirst(keys, upQ, e'.queues.upQ, UpRule(e.queues.pressQ, code))
            && TakesCharOfFirst(keys, upQ, UpRule(e.queues.pressQ, code), e.carry.chars, e'.carry.chars, i))
  {
    var q := e.queues;
    var code := keys[i].keyCode;
    if |q.upQ| > 0 && code < 0 {
      if |q.pressQ| == 0 {
        FirstTakesChar(keys, q.upQ, CodeRule(code), e.carry.chars, i);
        EmptyPressQueueFallThrough(keys, q.upQ, code);
      } else {
        FirstTakesChar(keys, q.upQ, UpRule(q.pressQ, code), e.carry.chars, i);
      }
    }
  }

  /** With an empty press queue, the second KeyUp scan, reached when the code-only scan found
      nothing, has an empty inner loop and so never matches. */
  lemma EmptyPressQueueFallThrough(keys: seq<KeyAct>, upQ: seq<nat>, code: int)
    ensures FirstWhere(keys, upQ, UpRule([], code)) == None
  {
  }
}
