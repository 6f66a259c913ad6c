/** `Kact.Play` and `GetLeftoverKeyEvents`: the replay loop, its waits, the notifications it
    raises, and what survives from one replay to the next. `Thread.Sleep` is not modelled: each
    wait is a `Waited` notice in the trace, which is also where the C# raises `OnWait`. */
module Replay {
  import opened Options
  import opened Acts
  import opened Correlation
  import opened Invariant
  import opened Aggregate

  predicate InInt32(x: int) {
    -0x8000_0000 <= x < 0x8000_0000
  }

  /** The wait before event `i`: its own `time` for the first event, the 32-bit difference of
      its `time` and the previous event's `time` after that, and 0 when waits are skipped. */
  function Delay(keys: seq<KeyAct>, skipWait: bool, i: nat): (d: Int32)
    requires i < |keys|
    ensures skipWait ==> d == 0
    ensures !skipWait && i == 0 ==> d == keys[0].time
    ensures !skipWait && i > 0 ==> (keys[i].time - keys[i - 1].time - d) % 0x1_0000_0000 == 0
    ensures !skipWait && i > 0 && InInt32(keys[i].time - keys[i - 1].time) ==> d == keys[i].time - keys[i - 1].time
  {
    if skipWait then 0
    else if i >= 1 then Wrap32(keys[i].time - keys[i - 1].time)
    else keys[i].time
  }

  /** What a replay reports, in order: a wait (`OnWait`) or a fired event (`OnKeyDown`,
      `OnKeyPress`, `OnKeyUp`) with the event's position, its `Char` and both queues at the
      moment the handler runs. */
  datatype Notice =
    | Waited(ms: int)
    | Fired(kind: ActType, index: nat, ch: Option<char>, pressQ: seq<nat>, upQ: seq<nat>)

  /** `OnWait` is raised, and the thread sleeps, only for a positive wait. */
  function WaitNotices(keys: seq<KeyAct>, skipWait: bool, i: nat): (w: seq<Notice>)
    requires i < |keys|
    ensures |w| <= 1
    ensures w == [] <==> Delay(keys, skipWait, i) <= 0
    ensures forall x :: x in w ==> x.Waited? && x.ms > 0
  {
    var d := Delay(keys, skipWait, i);
    if d > 0 then [Waited(d)] else []
  }

  function FiredNotice(keys: seq<KeyAct>, e: Engine, i: nat): Notice
    requires i < |keys| && Fits(keys, e)
  {
    Fired(keys[i].kind, i, e.carry.chars[i], e.queues.pressQ, e.queues.upQ)
  }

  /** One iteration of `Play`'s loop on the engine state: `FireEvent` on event `i`, after which
      the queues name only events up to `i`. */
  function Advance(env: Collaborators, keys: seq<KeyAct>, mustHave: nat, e: Engine, i: nat): (e': Engine)
    requires i < |keys| && FitsUpTo(keys, e, i)
    ensures FitsUpTo(keys, e', i + 1)
  {
    StepPositions(env, keys, mustHave, e, i);
    Step(env, keys, mustHave, e, i)
  }

  /** The engine state after the first `n` iterations of `Play`'s loop, started from freshly
      reset queues and the chars and counter `c0` left by earlier replays; its queues name only
      events already replayed. */
  function Engines(env: Collaborators, keys: seq<KeyAct>, mustHave: nat, c0: Carry, n: nat): (e: Engine)
    requires n <= |keys| && |c0.chars| == |keys|
    ensures FitsUpTo(keys, e, n)
    decreases n
  {
    if n == 0 then Engine(NoQueues, c0)
    else Advance(env, keys, mustHave, Engines(env, keys, mustHave, c0, n - 1), n - 1)
  }

  /** `Engines` one iteration at a time. */
  lemma EnginesUnfold(env: Collaborators, keys: seq<KeyAct>, mustHave: nat, c0: Carry, n: nat)
    requires 0 < n <= |keys| && |c0.chars| == |keys|
    ensures Engines(env, keys, mustHave, c0, n) == Step(env, keys, mustHave, Engines(env, keys, mustHave, c0, n - 1), n - 1)
  {
  }

  /** Every state of a replay satisfies the replay invariant, `FireEvent` by `FireEvent`. */
  lemma RunInvariant(env: Collaborators, keys: seq<KeyAct>, mustHave: nat, c0: Carry, n: nat)
    requires n <= |keys| && |c0.chars| == |keys|
    ensures ReplayInvariant(keys, mustHave, c0.total, Engines(env, keys, mustHave, c0, n), n)
  {
    InvariantStart(keys, mustHave, c0);
    var k := 0;
    while k < n
      invariant k <= n
      invariant ReplayInvariant(keys, mustHave, c0.total, Engines(env, keys, mustHave, c0, k), k)
    {
      RunInvariantStep(env, keys, mustHave, c0, k);
      k := k + 1;
    }
  }

  /** One `FireEvent` of the replay keeps the invariant. */
  lemma RunInvariantStep(env: Collaborators, keys: seq<KeyAct>, mustHave: nat, c0: Carry, k: nat)
    requires k < |keys| && |c0.chars| == |keys|
    requires ReplayInvariant(keys, mustHave, c0.total, Engines(env, keys, mustHave, c0, k), k)
    ensures ReplayInvariant(keys, mustHave, c0.total, Engines(env, keys, mustHave, c0, k + 1), k + 1)
  {
    var e := Engines(env, keys, mustHave, c0, k);
    InvariantStep(env, keys, mustHave, c0.total, e, k);
    EnginesUnfold(env, keys, mustHave, c0, k + 1);
  }

  /** The fired notices of the first `n` iterations, one per event and in order; each shows the
      engine state after its event was handled. */
  function Fires(env: Collaborators, keys: seq<KeyAct>, mustHave: nat, c0: Carry, n: nat): (fs: seq<Notice>)
    requires n <= |keys| && |c0.chars| == |keys|
    ensures |fs| == n
    decreases n
  {
    if n == 0 then []
    else Fires(env, keys, mustHave, c0, n - 1) + [FiredNotice(keys, Engines(env, keys, mustHave, c0, n), n - 1)]
  }

  /** The fired notices `fs` of the first `|fs|` events, each preceded by its wait notice, if any. */
  function Interleave(keys: seq<KeyAct>, skipWait: bool, fs: seq<Notice>): seq<Notice>
    requires |fs| <= |keys|
    decreases |fs|
  {
    if |fs| == 0 then []
    else Interleave(keys, skipWait, fs[..|fs| - 1]) + WaitNotices(keys, skipWait, |fs| - 1) + [fs[|fs| - 1]]
  }

  /** The notices of the first `n` iterations: for each event, its wait notice (if any), then
      its fired notice. */
  function Trace(env: Collaborators, keys: seq<KeyAct>, mustHave: nat, skipWait: bool, c0: Carry, n: nat): seq<Notice>
    requires n <= |keys| && |c0.chars| == |keys|
  {
    Interleave(keys, skipWait, Fires(env, keys, mustHave, c0, n))
  }

  /** `Play(skipWait)`; the C# dereferences `Keys`, so the key list must exist. Only the three
      lists are reset: the keys' `Char` values and the synthesized-character counter carry over. */
  function Play(env: Collaborators, k: Kact, skipWait: bool): (r: (Kact, seq<Notice>))
    requires Consistent(k) && k.keys.Some?
    ensures Consistent(r.0) && r.0.queues.Some?
    ensures r.0.keys == k.keys && r.0.text == k.text && r.0.sensorData == k.sensorData
    ensures r.0.mustHaveChars == k.mustHaveChars && r.0.submissions == k.submissions
  {
    var keys := k.keys.value;
    var e := Engines(env, keys, k.mustHaveChars, k.carry, |keys|);
    RunInvariant(env, keys, k.mustHaveChars, k.carry, |keys|);
    (k.(carry := e.carry, queues := Some(e.queues)), Trace(env, keys, k.mustHaveChars, skipWait, k.carry, |keys|))
  }

  /** The key code `GetLeftoverKeyEvents` counts in the press queue: 2, not the sentinel -2. */
  const LeftoverPressCode: int := 2

  /** Queue entry `d` names a key with key code `code`. */
  function HasKeyCode(keys: seq<KeyAct>, code: int): nat -> bool {
    (d: nat) => d < |keys| && keys[d].keyCode == code
  }

  /** `GetLeftoverKeyEvents`: the press-queue entries with key code 2 and the size of the up
      queue; the C# dereferences the queues, so `Play` must have run. */
  function GetLeftoverKeyEvents(k: Kact): (r: (nat, nat))
    requires Consistent(k) && k.keys.Some? && k.queues.Some?
    ensures var keys, pressQ := k.keys.value, k.queues.value.pressQ;
      && r.0 == |set j | 0 <= j < |pressQ| && keys[pressQ[j]].keyCode == LeftoverPressCode|
      && r.0 <= |pressQ|
      && (r.0 == 0 <==> forall j :: 0 <= j < |pressQ| ==> keys[pressQ[j]].keyCode != LeftoverPressCode)
      && (r.0 == |pressQ| <==> forall j :: 0 <= j < |pressQ| ==> keys[pressQ[j]].keyCode == LeftoverPressCode)
    ensures r.1 == |k.queues.value.upQ|
  {
    var q := k.queues.value;
    var codeTwo := HasKeyCode(k.keys.value, LeftoverPressCode);
    CountExtremes(q.pressQ, codeTwo);
    CountIsCardinality(q.pressQ, codeTwo);
    assert Positions(q.pressQ, codeTwo)
      == set j | 0 <= j < |q.pressQ| && k.keys.value[q.pressQ[j]].keyCode == LeftoverPressCode;
    (Count(q.pressQ, codeTwo), |q.upQ|)
  }

  // ---------------------------------------------------------------------------------------
  // Waits
  // ---------------------------------------------------------------------------------------


  /** The wait rule: skipping waits emits no wait; otherwise the first event waits its own time
      and a later one the difference to the previous event's time (when that difference fits
      an `int`), and a wait is emitted only when positive. */
  lemma WaitRule(keys: seq<KeyAct>, skipWait: bool, i: nat)
    requires i < |keys|
    ensures skipWait ==> WaitNotices(keys, skipWait, i) == []
    ensures |WaitNotices(keys, skipWait, i)| <= 1
    ensures forall w :: w in WaitNotices(keys, skipWait, i) ==> w.Waited? && w.ms > 0
    ensures !skipWait && i == 0 ==>
      WaitNotices(keys, skipWait, i) == (if keys[0].time > 0 then [Waited(keys[0].time)] else [])
    ensures !skipWait && i > 0 && InInt32(keys[i].time - keys[i - 1].time) ==>
      var d := keys[i].time - keys[i - 1].time;
      WaitNotices(keys, skipWait, i) == (if d > 0 then [Waited(d)] else [])
  {
  }

  /** The subtraction wraps like C#'s unchecked `int`: a later event whose time exceeds the
      previous one's by more than `int.MaxValue` gets a negative wait and so no wait at all,
      and one whose time falls below the previous one's by more than 2^31 gets a positive wait. */
  lemma WaitWrapsAround(keys: seq<KeyAct>, i: nat)
    requires 0 < i < |keys|
    ensures keys[i].time - keys[i - 1].time > 0x7FFF_FFFF ==>
      Delay(keys, false, i) == keys[i].time - keys[i - 1].time - 0x1_0000_0000 < 0 && WaitNotices(keys, false, i) == []
    ensures keys[i].time - keys[i - 1].time < -0x8000_0000 ==>
      Delay(keys, false, i) == keys[i].time - keys[i - 1].time + 0x1_0000_0000 > 0
      && WaitNotices(keys, false, i) == [Waited(Delay(keys, false, i))]
  {
  }

  /** The positions of the events fired in `trace`, in the order they fired. */
  function FiredIndices(trace: seq<Notice>): seq<nat>
    decreases |trace|
  {
    if |trace| == 0 then []
    else FiredIndices(trace[..|trace| - 1]) + (if trace[|trace| - 1].Fired? then [trace[|trace| - 1].index] else [])
  }

  lemma {:induction false} FiredIndicesAppend(a: seq<Notice>, b: seq<Notice>)
    ensures FiredIndices(a + b) == FiredIndices(a) + FiredIndices(b)
    decreases |b|
  {
    if |b| == 0 {
      assert a + b == a;
    } else {
      assert (a + b)[..|a + b| - 1] == a + b[..|b| - 1];
      FiredIndicesAppend(a, b[..|b| - 1]);
    }
  }

  /** The events fired in `trace` are events `0 .. n-1`, each exactly once and in order. */
  ghost predicate FiresInOrder(trace: seq<Notice>, n: nat) {
    && |FiredIndices(trace)| == n
    && (forall j :: 0 <= j < n ==> FiredIndices(trace)[j] == j)
    && (forall j :: 0 <= j < |trace| && trace[j].Fired? ==> trace[j].index < n)
  }

  /** Every wait notice comes directly before a fired event and carries that event's wait. */
  ghost predicate WaitsPrecedeTheirEvent(keys: seq<KeyAct>, trace: seq<Notice>, skipWait: bool, n: nat)
    requires n <= |keys|
  {
    forall j :: 0 <= j < |trace| && trace[j].Waited? ==>
      && j + 1 < |trace| && trace[j + 1].Fired? && trace[j + 1].index < n
      && trace[j].ms == Delay(keys, skipWait, trace[j + 1].index) > 0
  }

  /** Every fired event whose wait is positive has its wait notice directly before it. */
  ghost predicate DelayedEventsWait(keys: seq<KeyAct>, trace: seq<Notice>, skipWait: bool, n: nat)
    requires n <= |keys|
  {
    forall j :: 0 <= j < |trace| && trace[j].Fired? && trace[j].index < n && Delay(keys, skipWait, trace[j].index) > 0 ==>
      j > 0 && trace[j - 1] == Waited(Delay(keys, skipWait, trace[j].index))
  }

  /** A trace of the first `n` events of `keys`: the events fire exactly once each, in order;
      a wait notice comes directly before the event it delays and carries that event's wait;
      an event with a positive wait has its wait notice directly before it; and an event with
      no positive wait has none. */
  ghost predicate NoticesUpTo(keys: seq<KeyAct>, trace: seq<Notice>, skipWait: bool, n: nat)
    requires n <= |keys|
  {
    && FiresInOrder(trace, n)
    && WaitsPrecedeTheirEvent(keys, trace, skipWait, n)
    && DelayedEventsWait(keys, trace, skipWait, n)
  }

  lemma FiresInOrderExtend(keys: seq<KeyAct>, trace: seq<Notice>, skipWait: bool, f: Notice, n: nat, t: seq<Notice>)
    requires n < |keys| && FiresInOrder(trace, n)
    requires f.Fired? && f.index == n && t == trace + WaitNotices(keys, skipWait, n) + [f]
    ensures FiresInOrder(t, n + 1)
  {
    var w := WaitNotices(keys, skipWait, n);
    FiredIndicesAppend(trace + w, [f]);
    FiredIndicesAppend(trace, w);
    assert FiredIndices([f]) == [n] by { assert [f][..0] == []; }
    if |w| == 1 {
      assert FiredIndices(w) == [] by { assert w[..0] == []; }
    }
    assert FiredIndices(t) == FiredIndices(trace) + [n];
    assert forall j :: 0 <= j < |trace| ==> t[j] == trace[j];
  }

  lemma WaitsPrecedeExtend(keys: seq<KeyAct>, trace: seq<Notice>, skipWait: bool, f: Notice, n: nat, t: seq<Notice>)
    requires n < |keys| && WaitsPrecedeTheirEvent(keys, trace, skipWait, n)
    requires f.Fired? && f.index == n && t == trace + WaitNotices(keys, skipWait, n) + [f]
    ensures WaitsPrecedeTheirEvent(keys, t, skipWait, n + 1)
  {
    var w := WaitNotices(keys, skipWait, n);
    forall j | 0 <= j < |t| && t[j].Waited?
      ensures j + 1 < |t| && t[j + 1].Fired? && t[j + 1].index < n + 1
      ensures t[j].ms == Delay(keys, skipWait, t[j + 1].index) > 0
    {
      if j < |trace| {
        assert t[j] == trace[j] && t[j + 1] == trace[j + 1];
      } else {
        assert j == |t| - 2 && t[j] == w[0] && t[j + 1] == f;
      }
    }
  }

  lemma DelayedEventsWaitExtend(keys: seq<KeyAct>, trace: seq<Notice>, skipWait: bool, f: Notice, n: nat, t: seq<Notice>)
    requires n < |keys| && FiresInOrder(trace, n) && DelayedEventsWait(keys, trace, skipWait, n)
    requires f.Fired? && f.index == n && t == trace + WaitNotices(keys, skipWait, n) + [f]
    ensures DelayedEventsWait(keys, t, skipWait, n + 1)
  {
    var w := WaitNotices(keys, skipWait, n);
    forall j | 0 <= j < |t| && t[j].Fired? && t[j].index < n + 1 && Delay(keys, skipWait, t[j].index) > 0
      ensures j > 0 && t[j - 1] == Waited(Delay(keys, skipWait, t[j].index))
    {
      if j < |trace| {
        assert t[j] == trace[j];
        assert trace[j].index < n;
        assert t[j - 1] == trace[j - 1];
      } else {
        assert j == |t| - 1 && t[j] == f;
        assert w == [Waited(Delay(keys, skipWait, n))];
        assert t[j - 1] == w[0];
      }
    }
  }

  /** A wait notice at `j` delays the event fired at `j + 1` by a positive wait. */
  lemma WaitedBeforeItsEvent(keys: seq<KeyAct>, trace: seq<Notice>, skipWait: bool, n: nat, j: nat)
    requires n <= |keys| && WaitsPrecedeTheirEvent(keys, trace, skipWait, n)
    requires j < |trace| && trace[j].Waited?
    ensures j + 1 < |trace| && trace[j + 1].Fired? && trace[j + 1].index < n
    ensures Delay(keys, skipWait, trace[j + 1].index) > 0
  {
  }

  /** Skipping waits, the trace is exactly the fired events in order. */
  lemma SkippingWaitsFiresOnly(keys: seq<KeyAct>, trace: seq<Notice>, n: nat)
    requires n <= |keys| && NoticesUpTo(keys, trace, true, n)
    ensures |trace| == n
    ensures forall j :: 0 <= j < |trace| ==> trace[j].Fired? && trace[j].index == j
  {
    forall j | 0 <= j < |trace|
      ensures trace[j].Fired?
    {
      if trace[j].Waited? {
        WaitedBeforeItsEvent(keys, trace, true, n, j);
        assert false;
      }
    }
    AllFired(trace);
  }

  /** In a trace of fired notices only, the fired indices are the notices' own indices. */
  lemma {:induction false} AllFired(trace: seq<Notice>)
    requires forall j :: 0 <= j < |trace| ==> trace[j].Fired?
    ensures |FiredIndices(trace)| == |trace|
    ensures forall j :: 0 <= j < |trace| ==> FiredIndices(trace)[j] == trace[j].index
    decreases |trace|
  {
    if |trace| > 0 {
      AllFired(trace[..|trace| - 1]);
    }
  }

  /** Over a whole run each event fires exactly once, in order, directly after its wait notice
      when its wait is positive, and with no wait notice otherwise. */
  lemma RunNotices(env: Collaborators, keys: seq<KeyAct>, mustHave: nat, skipWait: bool, c0: Carry, n: nat)
    requires n <= |keys| && |c0.chars| == |keys|
    ensures NoticesUpTo(keys, Trace(env, keys, mustHave, skipWait, c0, n), skipWait, n)
  {
    FiresIndexed(env, keys, mustHave, c0, n);
    InterleaveNotices(keys, skipWait, Fires(env, keys, mustHave, c0, n));
  }

  /** Fired notices, the `i`-th of them for event `i`. */
  ghost predicate IndexedFires(fs: seq<Notice>) {
    forall i :: 0 <= i < |fs| ==> fs[i].Fired? && fs[i].index == i
  }

  lemma IndexedFiresAppend(prev: seq<Notice>, f: Notice, fs: seq<Notice>)
    requires IndexedFires(prev) && f.Fired? && f.index == |prev| && fs == prev + [f]
    ensures IndexedFires(fs)
  {
    assert forall i :: 0 <= i < |prev| ==> fs[i] == prev[i];
  }

  /** Event `i` is the `i`-th to fire. */
  lemma {:induction false} FiresIndexed(env: Collaborators, keys: seq<KeyAct>, mustHave: nat, c0: Carry, n: nat)
    requires n <= |keys| && |c0.chars| == |keys|
    ensures IndexedFires(Fires(env, keys, mustHave, c0, n))
    decreases n
  {
    if n > 0 {
      FiresIndexed(env, keys, mustHave, c0, n - 1);
      IndexedFiresAppend(Fires(env, keys, mustHave, c0, n - 1), FiredNotice(keys, Engines(env, keys, mustHave, c0, n), n - 1),
                         Fires(env, keys, mustHave, c0, n));
    }
  }

  /** Interleaving wait notices with events fired in order gives a trace of those events. */
  lemma {:induction false} InterleaveNotices(keys: seq<KeyAct>, skipWait: bool, fs: seq<Notice>)
    requires |fs| <= |keys| && IndexedFires(fs)
    ensures NoticesUpTo(keys, Interleave(keys, skipWait, fs), skipWait, |fs|)
    decreases |fs|
  {
    if |fs| > 0 {
      var n := |fs| - 1;
      var prev, t := Interleave(keys, skipWait, fs[..n]), Interleave(keys, skipWait, fs);
      InterleaveNotices(keys, skipWait, fs[..n]);
      FiresInOrderExtend(keys, prev, skipWait, fs[n], n, t);
      WaitsPrecedeExtend(keys, prev, skipWait, fs[n], n, t);
      DelayedEventsWaitExtend(keys, prev, skipWait, fs[n], n, t);
    }
  }

  // ---------------------------------------------------------------------------------------
  // What a replay keeps
  // ---------------------------------------------------------------------------------------

  /** Two notice traces that agree in everything but the characters they report. */
  predicate SameButChars(t1: seq<Notice>, t2: seq<Notice>) {
    && |t1| == |t2|
    && forall j :: 0 <= j < |t1| ==>
         if t1[j].Fired? then t2[j].Fired? && t2[j] == t1[j].(ch := t2[j].ch) else t2[j] == t1[j]
  }

  lemma SameButCharsExtend(t1: seq<Notice>, t2: seq<Notice>, w: seq<Notice>, f1: Notice, f2: Notice, a: seq<Notice>, b: seq<Notice>)
    requires SameButChars(t1, t2) && f1.Fired? && f2.Fired? && f2 == f1.(ch := f2.ch)
    requires a == t1 + w + [f1] && b == t2 + w + [f2]
    ensures SameButChars(a, b)
  {
    assert forall j :: 0 <= j < |a| ==> a[j] == if j < |t1| then t1[j] else if j < |t1| + |w| then w[j - |t1|] else f1;
    assert forall j :: 0 <= j < |b| ==> b[j] == if j < |t2| then t2[j] else if j < |t2| + |w| then w[j - |t2|] else f2;
  }

  lemma StepIgnoresCarry(env: Collaborators, keys: seq<KeyAct>, mustHave: nat, e1: Engine, e2: Engine, i: nat)
    requires i < |keys| && Fits(keys, e1) && Fits(keys, e2) && e1.queues == e2.queues
    ensures Step(env, keys, mustHave, e1, i).queues == Step(env, keys, mustHave, e2, i).queues
  {
  }

  /** The queues never look at characters or at the counter: runs from any two carried-over
      states end with the same queues. */
  lemma {:induction false} RunIgnoresCarry(env: Collaborators, keys: seq<KeyAct>, mustHave: nat, c1: Carry, c2: Carry, n: nat)
    requires n <= |keys| && |c1.chars| == |keys| && |c2.chars| == |keys|
    ensures Engines(env, keys, mustHave, c1, n).queues == Engines(env, keys, mustHave, c2, n).queues
    decreases n
  {
    if n > 0 {
      RunIgnoresCarry(env, keys, mustHave, c1, c2, n - 1);
      RunIgnoresCarryStep(env, keys, mustHave, c1, c2, n);
    }
  }

  lemma RunIgnoresCarryStep(env: Collaborators, keys: seq<KeyAct>, mustHave: nat, c1: Carry, c2: Carry, n: nat)
    requires 0 < n <= |keys| && |c1.chars| == |keys| && |c2.chars| == |keys|
    requires Engines(env, keys, mustHave, c1, n - 1).queues == Engines(env, keys, mustHave, c2, n - 1).queues
    ensures Engines(env, keys, mustHave, c1, n).queues == Engines(env, keys, mustHave, c2, n).queues
  {
    StepIgnoresCarry(env, keys, mustHave, Engines(env, keys, mustHave, c1, n - 1), Engines(env, keys, mustHave, c2, n - 1), n - 1);
    EnginesUnfold(env, keys, mustHave, c1, n);
    EnginesUnfold(env, keys, mustHave, c2, n);
  }

  /** Fired notices of two engine states with the same queues differ at most in the character. */
  lemma FiredIgnoresCarry(keys: seq<KeyAct>, e1: Engine, e2: Engine, i: nat)
    requires i < |keys| && Fits(keys, e1) && Fits(keys, e2) && e1.queues == e2.queues
    ensures FiredNotice(keys, e1, i).Fired? && FiredNotice(keys, e2, i).Fired?
    ensures FiredNotice(keys, e2, i) == FiredNotice(keys, e1, i).(ch := FiredNotice(keys, e2, i).ch)
  {
  }

  /** Runs from any two carried-over states raise the same notices, up to the characters. */
  lemma {:induction false} TraceIgnoresCarry(env: Collaborators, keys: seq<KeyAct>, mustHave: nat, skipWait: bool, c1: Carry, c2: Carry, n: nat)
    requires n <= |keys| && |c1.chars| == |keys| && |c2.chars| == |keys|
    ensures SameButChars(Trace(env, keys, mustHave, skipWait, c1, n), Trace(env, keys, mustHave, skipWait, c2, n))
    decreases n
  {
    if n > 0 {
      TraceIgnoresCarry(env, keys, mustHave, skipWait, c1, c2, n - 1);
      RunIgnoresCarry(env, keys, mustHave, c1, c2, n);
      TraceIgnoresCarryStep(env, keys, mustHave, skipWait, c1, c2, n);
    }
  }

  lemma TraceIgnoresCarryStep(env: Collaborators, keys: seq<KeyAct>, mustHave: nat, skipWait: bool, c1: Carry, c2: Carry, n: nat)
    requires 0 < n <= |keys| && |c1.chars| == |keys| && |c2.chars| == |keys|
    requires SameButChars(Trace(env, keys, mustHave, skipWait, c1, n - 1), Trace(env, keys, mustHave, skipWait, c2, n - 1))
    requires Engines(env, keys, mustHave, c1, n).queues == Engines(env, keys, mustHave, c2, n).queues
    ensures SameButChars(Trace(env, keys, mustHave, skipWait, c1, n), Trace(env, keys, mustHave, skipWait, c2, n))
  {
    var e1, e2 := Engines(env, keys, mustHave, c1, n), Engines(env, keys, mustHave, c2, n);
    FiredIgnoresCarry(keys, e1, e2, n - 1);
    TraceUnfold(env, keys, mustHave, skipWait, c1, n);
    TraceUnfold(env, keys, mustHave, skipWait, c2, n);
    SameButCharsExtend(Trace(env, keys, mustHave, skipWait, c1, n - 1), Trace(env, keys, mustHave, skipWait, c2, n - 1),
                       WaitNotices(keys, skipWait, n - 1), FiredNotice(keys, e1, n - 1), FiredNotice(keys, e2, n - 1),
                       Trace(env, keys, mustHave, skipWait, c1, n), Trace(env, keys, mustHave, skipWait, c2, n));
  }

  /** Replaying twice: the second replay ends with the same queues and raises the same
      notices as the first, except possibly for the characters, since the counter and the
      characters written by the first replay carry over into the second. */
  lemma PlayTwice(env: Collaborators, k: Kact, skipWait: bool)
    requires Consistent(k) && k.keys.Some?
    ensures var k1 := Play(env, k, skipWait).0;
      var k2 := Play(env, k1, skipWait).0;
      && k2.queues == k1.queues
      && SameButChars(Play(env, k, skipWait).1, Play(env, k1, skipWait).1)
      && k2.carry.total <= k2.mustHaveChars
  {
    var keys := k.keys.value;
    var k1 := Play(env, k, skipWait).0;
    RunIgnoresCarry(env, keys, k.mustHaveChars, k.carry, k1.carry, |keys|);
    TraceIgnoresCarry(env, keys, k.mustHaveChars, skipWait, k.carry, k1.carry, |keys|);
  }

  // ---------------------------------------------------------------------------------------
  // Scenarios
  // ---------------------------------------------------------------------------------------

  /** One sentinel-coded key typed once: KeyDown, KeyPress and KeyUp sharing the hash "abc",
      the KeyDown a char act. */
  function TypedKey(): seq<KeyAct> {
    [ KeyAct(KeyDown, CharSentinel, 0, "abc", None, true, false, false),
      KeyAct(KeyPress, CharSentinel, 0, "abc", None, false, false, false),
      KeyAct(KeyUp, CharSentinel, 0, "abc", None, false, false, false) ]
  }

  /** The KeyDown resolves the character with `force`, counts it, and queues the key twice. */
  lemma TypedKeyDown(env: Collaborators, c: char)
    requires env.resolveChar(TypedKey()[0], true) == Some(c)
    ensures Step(env, TypedKey(), 1, Engine(NoQueues, Carry([None, None, None], 0)), 0)
      == Engine(Queues([0], [0], []), Carry([Some(c), None, None], 1))
  {
  }

  /** The KeyPress finds the KeyDown in the press queue by its sentinel code and takes its char. */
  lemma TypedKeyPress(env: Collaborators, c: char)
    ensures Step(env, TypedKey(), 1, Engine(Queues([0], [0], []), Carry([Some(c), None, None], 1)), 1)
      == Engine(Queues([], [0], []), Carry([Some(c), Some(c), None], 1))
  {
    assert Matches(TypedKey(), PressRule([0], CharSentinel), 0);
  }

  /** The KeyUp finds the KeyDown in the up queue by its code and takes its char. */
  lemma TypedKeyUp(env: Collaborators, c: char)
    ensures Step(env, TypedKey(), 1, Engine(Queues([], [0], []), Carry([Some(c), Some(c), None], 1)), 2)
      == Engine(Queues([], [], []), Carry([Some(c), Some(c), Some(c)], 1))
  {
    assert Matches(TypedKey(), CodeRule(CharSentinel), 0);
  }

  /** The engine states of one replay of the typed key, from a fresh instance. */
  lemma TypedKeyEngines(env: Collaborators, c: char)
    requires env.resolveChar(TypedKey()[0], true) == Some(c)
    ensures var keys, c0 := TypedKey(), Carry([None, None, None], 0);
      && Engines(env, keys, 1, c0, 1) == Engine(Queues([0], [0], []), Carry([Some(c), None, None], 1))
      && Engines(env, keys, 1, c0, 2) == Engine(Queues([], [0], []), Carry([Some(c), Some(c), None], 1))
      && Engines(env, keys, 1, c0, 3) == Engine(NoQueues, Carry([Some(c), Some(c), Some(c)], 1))
  {
    var keys, c0 := TypedKey(), Carry([None, None, None], 0);
    TypedKeyDown(env, c);
    TypedKeyPress(env, c);
    TypedKeyUp(env, c);
    assert Engines(env, keys, 1, c0, 0) == Engine(NoQueues, c0);
    EnginesUnfold(env, keys, 1, c0, 1);
    EnginesUnfold(env, keys, 1, c0, 2);
    EnginesUnfold(env, keys, 1, c0, 3);
  }

  /** `Trace` one iteration at a time. */
  lemma TraceUnfold(env: Collaborators, keys: seq<KeyAct>, mustHave: nat, skipWait: bool, c0: Carry, n: nat)
    requires 0 < n <= |keys| && |c0.chars| == |keys|
    ensures Trace(env, keys, mustHave, skipWait, c0, n)
      == Trace(env, keys, mustHave, skipWait, c0, n - 1) + WaitNotices(keys, skipWait, n - 1)
         + [FiredNotice(keys, Engines(env, keys, mustHave, c0, n), n - 1)]
  {
    var fs := Fires(env, keys, mustHave, c0, n);
    assert fs[..n - 1] == Fires(env, keys, mustHave, c0, n - 1);
  }

  /** Replaying the typed key once synthesizes the character on the KeyDown, and the KeyPress
      and the KeyUp both surface that same character through the queues, which end empty. */
  lemma TypedKeyScenario(env: Collaborators, c: char)
    requires env.resolveChar(TypedKey()[0], true) == Some(c)
    ensures Trace(env, TypedKey(), 1, true, Carry([None, None, None], 0), 3) == [ Fired(KeyDown, 0, Some(c), [0], [0]),
                    Fired(KeyPress, 1, Some(c), [], [0]),
                    Fired(KeyUp, 2, Some(c), [], []) ]
    ensures Engines(env, TypedKey(), 1, Carry([None, None, None], 0), 3).carry.total == 1
    ensures MustHaveChars(TypedKey()) == 1
  {
    CountTriple(TypedKey(), IsKind(KeyPress));
    TypedKeyEngines(env, c);
    TypedKeyTrace(env, c);
  }

  /** The fired notices of one replay of the typed key, from a fresh instance. */
  lemma TypedKeyFired(env: Collaborators, c: char)
    requires env.resolveChar(TypedKey()[0], true) == Some(c)
    ensures var keys, c0 := TypedKey(), Carry([None, None, None], 0);
      && FiredNotice(keys, Engines(env, keys, 1, c0, 1), 0) == Fired(KeyDown, 0, Some(c), [0], [0])
      && FiredNotice(keys, Engines(env, keys, 1, c0, 2), 1) == Fired(KeyPress, 1, Some(c), [], [0])
      && FiredNotice(keys, Engines(env, keys, 1, c0, 3), 2) == Fired(KeyUp, 2, Some(c), [], [])
  {
    TypedKeyEngines(env, c);
  }

  lemma TypedKeyTrace(env: Collaborators, c: char)
    requires env.resolveChar(TypedKey()[0], true) == Some(c)
    ensures Trace(env, TypedKey(), 1, true, Carry([None, None, None], 0), 3) == [ Fired(KeyDown, 0, Some(c), [0], [0]),
                    Fired(KeyPress, 1, Some(c), [], [0]),
                    Fired(KeyUp, 2, Some(c), [], []) ]
  {
    TypedKeyFired(env, c);
    ThreeEventTrace(env, TypedKey(), 1, Carry([None, None, None], 0),
                    Fired(KeyDown, 0, Some(c), [0], [0]), Fired(KeyPress, 1, Some(c), [], [0]), Fired(KeyUp, 2, Some(c), [], []));
  }

  /** Skipping waits, a replay of three events raises exactly their three fired notices. */
  lemma ThreeEventTrace(env: Collaborators, keys: seq<KeyAct>, mustHave: nat, c0: Carry, f0: Notice, f1: Notice, f2: Notice)
    requires |keys| == 3 && |c0.chars| == 3
    requires FiredNotice(keys, Engines(env, keys, mustHave, c0, 1), 0) == f0
    requires FiredNotice(keys, Engines(env, keys, mustHave, c0, 2), 1) == f1
    requires FiredNotice(keys, Engines(env, keys, mustHave, c0, 3), 2) == f2
    ensures Trace(env, keys, mustHave, true, c0, 3) == [f0, f1, f2]
  {
    assert Fires(env, keys, mustHave, c0, 1) == [f0];
    assert Fires(env, keys, mustHave, c0, 2) == [f0, f1];
    assert Fires(env, keys, mustHave, c0, 3) == [f0, f1, f2];
    InterleaveSkipping(keys, [f0, f1, f2]);
  }

  /** Skipping waits, interleaving adds nothing: the trace is the fired notices themselves. */
  lemma {:induction false} InterleaveSkipping(keys: seq<KeyAct>, fs: seq<Notice>)
    requires |fs| <= |keys|
    ensures Interleave(keys, true, fs) == fs
    decreases |fs|
  {
    if |fs| > 0 {
      InterleaveSkipping(keys, fs[..|fs| - 1]);
      assert WaitNotices(keys, true, |fs| - 1) == [];
      assert fs[..|fs| - 1] + [fs[|fs| - 1]] == fs;
    }
  }

  /** A replayed key whose resolution differs with and without `force`: the first replay
      synthesizes with `force`, the counter then stays at its bound, and the second replay
      resolves the same KeyDown without it. */
  function ForcedKeyEnv(): Collaborators {
    Collaborators(
      s => true,
      s => s,
      t => KeyAct(KeyDown, CharSentinel, 0, "h", None, true, false, false),
      (a, force) => if force then Some('a') else Some('b'))
  }

  function ForcedKeyKact(): Kact {
    var keys := [ KeyAct(KeyDown, CharSentinel, 0, "h", None, true, false, false),
                  KeyAct(KeyPress, CharSentinel, 0, "h", None, false, false, false) ];
    Kact(Some("x"), None, Some(keys), 1, 0, Carry([None, None], 0), None)
  }

  lemma CountPair<T>(s: seq<T>, p: T -> bool)
    requires |s| == 2
    ensures Count(s, p) == (if p(s[0]) then 1 else 0) + (if p(s[1]) then 1 else 0)
  {
    assert s[..1] == [s[0]];
    assert s[..1][..0] == [];
  }

  lemma CountTriple<T>(s: seq<T>, p: T -> bool)
    requires |s| == 3
    ensures Count(s, p) == (if p(s[0]) then 1 else 0) + (if p(s[1]) then 1 else 0) + (if p(s[2]) then 1 else 0)
  {
    CountPair(s[..2], p);
  }

  /** The first notice of a replay that skips waits is the first event firing. */
  lemma {:induction false} FirstNoticeSkippingWaits(env: Collaborators, keys: seq<KeyAct>, mustHave: nat, c0: Carry, n: nat)
    requires 0 < n <= |keys| && |c0.chars| == |keys|
    ensures |Trace(env, keys, mustHave, true, c0, n)| > 0
    ensures Trace(env, keys, mustHave, true, c0, n)[0] == FiredNotice(keys, Engines(env, keys, mustHave, c0, 1), 0)
    decreases n
  {
    TraceUnfold(env, keys, mustHave, true, c0, n);
    if n > 1 {
      FirstNoticeSkippingWaits(env, keys, mustHave, c0, n - 1);
    }
  }

  lemma ForcedKeyConsistent()
    ensures Consistent(ForcedKeyKact())
  {
    var keys := ForcedKeyKact().keys.value;
    CountPair(keys, IsKind(KeyPress));
    CountPair(keys, IsSubmission());
  }

  /** The first KeyDown of the forced-key instance, fired from carried-over characters and
      counter `c`: it synthesizes with `force` exactly while the counter is below 1. */
  lemma ForcedKeyDown(c: Carry)
    requires |c.chars| == 2
    ensures var keys := ForcedKeyKact().keys.value;
      var e := Engines(ForcedKeyEnv(), keys, 1, c, 1);
      && e.queues == Queues([0], [0], [])
      && e.carry == Carry(c.chars[0 := if c.total < 1 then Some('a') else Some('b')], if c.total < 1 then c.total + 1 else c.total)
  {
    var keys := ForcedKeyKact().keys.value;
    EnginesUnfold(ForcedKeyEnv(), keys, 1, c, 1);
  }

  /** `Play` is not idempotent in the characters it reports: replaying the same instance twice
      reports 'a' for the KeyDown the first time and 'b' the second. */
  lemma SecondPlayReportsOtherChar()
    ensures Consistent(ForcedKeyKact())
    ensures var k1 := Play(ForcedKeyEnv(), ForcedKeyKact(), true);
      var k2 := Play(ForcedKeyEnv(), k1.0, true);
      && k1.1[0] == Fired(KeyDown, 0, Some('a'), [0], [0])
      && k2.1[0] == Fired(KeyDown, 0, Some('b'), [0], [0])
  {
    var env, k := ForcedKeyEnv(), ForcedKeyKact();
    var keys := k.keys.value;
    ForcedKeyConsistent();
    ForcedKeyDown(k.carry);
    FirstNoticeSkippingWaits(env, keys, 1, k.carry, 2);
    var k1 := Play(env, k, true).0;
    assert k1.carry.total == 1 by {
      RunInvariant(env, keys, 1, k.carry, 2);
      var e1 := Engines(env, keys, 1, k.carry, 2);
      assert e1.carry.total <= 1;
      EnginesUnfold(env, keys, 1, k.carry, 2);
    }
    ForcedKeyDown(k1.carry);
    FirstNoticeSkippingWaits(env, keys, 1, k1.carry, 2);
  }
}
