/** What stays true while `Kact.Play` replays the key list: the positions each queue may
    hold, the order and kinds of their entries, their sizes, the unknowns list and the
    synthesized-character counter, each stated for the engine state after the first `n`
    events and shown to survive one more `FireEvent`. */
module Invariant {
  import opened Options
  import opened Acts
  import opened Correlation

  /** Entries in strictly increasing position order. */
  predicate Increasing(q: seq<nat>) {
    forall a, b :: 0 <= a < b < |q| ==> q[a] < q[b]
  }

  lemma RemoveKeepsOrder(q: seq<nat>, at: Option<nat>)
    requires at.Some? ==> at.value < |q|
    ensures Increasing(q) ==> Increasing(RemoveIf(q, at))
    ensures forall x :: x in RemoveIf(q, at) ==> x in q
    ensures |RemoveIf(q, at)| >= |q| - 1
  {
    if at.Some? {
      if Increasing(q) {
        RemoveAtKeepsOrder(q, at.value);
      }
      RemoveAtKeepsEntries(q, at.value);
    }
  }

  lemma RemoveAtKeepsOrder(q: seq<nat>, p: nat)
    requires p < |q| && Increasing(q)
    ensures Increasing(RemoveAt(q, p))
  {
    var r := RemoveAt(q, p);
    forall a, b | 0 <= a < b < |r|
      ensures r[a] < r[b]
    {
      var a', b' := if a < p then a else a + 1, if b < p then b else b + 1;
      assert r[a] == q[a'] && r[b] == q[b'];
    }
  }

  lemma RemoveAtKeepsEntries(q: seq<nat>, p: nat)
    requires p < |q|
    ensures forall x :: x in RemoveAt(q, p) ==> x in q
  {
    var r := RemoveAt(q, p);
    forall x | x in r
      ensures x in q
    {
      var j :| 0 <= j < |r| && r[j] == x;
      if j < p { assert q[j] == x; } else { assert q[j + 1] == x; }
    }
  }

  /** The positions below `n` of the keys flagged unknown, in order. */
  function UnknownPositions(keys: seq<KeyAct>, n: nat): seq<nat>
    requires n <= |keys|
    decreases n
  {
    if n == 0 then []
    else UnknownPositions(keys, n - 1) + (if keys[n - 1].isUnknown then [n - 1] else [])
  }

  /** The reference list is increasing and holds exactly the flagged positions below `n`. */
  lemma {:induction false} UnknownPositionsMeans(keys: seq<KeyAct>, n: nat)
    requires n <= |keys|
    ensures Increasing(UnknownPositions(keys, n))
    ensures forall x: nat :: x in UnknownPositions(keys, n) <==> x < n && keys[x].isUnknown
    decreases n
  {
    if n > 0 {
      UnknownPositionsMeans(keys, n - 1);
      var u := UnknownPositions(keys, n - 1);
      assert forall j :: 0 <= j < |u| ==> u[j] in u;
    }
  }

  /** `q` is in strictly increasing order and names only KeyDowns, which are char acts too when
      `charActs` holds: the shape of the up queue, and with `charActs` of the press queue. */
  predicate DownQueue(keys: seq<KeyAct>, q: seq<nat>, charActs: bool)
    decreases |q|
  {
    |q| == 0 ||
      (&& q[0] < |keys| && keys[q[0]].kind == KeyDown && (charActs ==> keys[q[0]].isCharAct)
       && (|q| > 1 ==> q[0] < q[1])
       && DownQueue(keys, q[1..], charActs))
  }

  /** Every entry of `q` names a KeyDown, and a char act when `charActs` holds. */
  ghost predicate AllDowns(keys: seq<KeyAct>, q: seq<nat>, charActs: bool) {
    forall x :: x in q ==> x < |keys| && keys[x].kind == KeyDown && (charActs ==> keys[x].isCharAct)
  }

  /** The recursive shape is the increasing order together with the kinds of the entries. */
  lemma {:induction false} DownQueueMeans(keys: seq<KeyAct>, q: seq<nat>, charActs: bool)
    ensures DownQueue(keys, q, charActs) <==> Increasing(q) && AllDowns(keys, q, charActs)
    decreases |q|
  {
    if |q| > 0 {
      var t := q[1..];
      DownQueueMeans(keys, t, charActs);
      assert forall j :: 0 <= j < |t| ==> t[j] == q[j + 1];
      assert forall x :: x in q <==> x == q[0] || x in t;
      if DownQueue(keys, q, charActs) {
        forall a, b | 0 <= a < b < |q|
          ensures q[a] < q[b]
        {
          if a > 0 {
            assert t[a - 1] < t[b - 1];
          } else if b > 1 {
            assert t[0] < t[b - 1];
          }
        }
      }
      if Increasing(q) && AllDowns(keys, q, charActs) {
        assert q[0] in q;
        forall a, b | 0 <= a < b < |t|
          ensures t[a] < t[b]
        {
          assert q[a + 1] < q[b + 1];
        }
      }
    }
  }

  /** A KeyDown later than every entry can join the back of a queue. */
  lemma {:induction false} DownQueueAppend(keys: seq<KeyAct>, q: seq<nat>, charActs: bool, i: nat)
    requires DownQueue(keys, q, charActs) && Below(q, i)
    requires i < |keys| && keys[i].kind == KeyDown && (charActs ==> keys[i].isCharAct)
    ensures DownQueue(keys, q + [i], charActs)
    decreases |q|
  {
    if |q| > 0 {
      assert (q + [i])[1..] == q[1..] + [i];
      DownQueueAppend(keys, q[1..], charActs, i);
    }
  }

  /** Removing any one entry keeps the shape of a queue. */
  lemma {:induction false} DownQueueRemoveAt(keys: seq<KeyAct>, q: seq<nat>, charActs: bool, p: nat)
    requires DownQueue(keys, q, charActs) && p < |q|
    ensures DownQueue(keys, q[..p] + q[p + 1..], charActs)
    decreases p
  {
    var r := q[..p] + q[p + 1..];
    var t := q[1..];
    if p == 0 {
      assert r == t;
    } else {
      assert r[1..] == t[..p - 1] + t[p..];
      DownQueueRemoveAt(keys, t, charActs, p - 1);
      if |r| > 1 {
        if p == 1 {
          assert r[1] == t[1] && t[0] < t[1];
        } else {
          assert r[1] == t[0];
        }
      }
    }
  }

  /** Removing the first hit of a scan, if there is one, keeps the shape of a queue. */
  lemma DownQueueRemove(keys: seq<KeyAct>, q: seq<nat>, q': seq<nat>, charActs: bool, rule: Rule)
    requires DownQueue(keys, q, charActs) && RemovesFirst(keys, q, q', rule)
    ensures DownQueue(keys, q', charActs)
  {
    if q' != q {
      var p :| 0 <= p < |q| && q' == q[..p] + q[p + 1..];
      DownQueueRemoveAt(keys, q, charActs, p);
    }
  }

  lemma QueuesStep(env: Collaborators, keys: seq<KeyAct>, mustHave: nat, e: Engine, i: nat)
    requires i < |keys| && FitsUpTo(keys, e, i)
    requires DownQueue(keys, e.queues.upQ, false) && DownQueue(keys, e.queues.pressQ, true)
    ensures var q' := Step(env, keys, mustHave, e, i).queues;
      DownQueue(keys, q'.upQ, false) && DownQueue(keys, q'.pressQ, true)
  {
    var q := e.queues;
    var q' := Step(env, keys, mustHave, e, i).queues;
    match keys[i].kind
    case KeyDown =>
      KeyDownStep(env, keys, mustHave, e, i);
      DownQueueAppend(keys, q.upQ, false, i);
      if keys[i].isCharAct {
        DownQueueAppend(keys, q.pressQ, true, i);
      }
    case KeyPress =>
      KeyPressStep(env, keys, mustHave, e, i);
      DownQueueRemove(keys, q.pressQ, q'.pressQ, true, PressRule(q.upQ, keys[i].keyCode));
    case KeyUp =>
      KeyUpStep(env, keys, mustHave, e, i);
      var code := keys[i].keyCode;
      if |q.upQ| > 0 && code < 0 {
        if |q.pressQ| == 0 {
          DownQueueRemove(keys, q.upQ, q'.upQ, false, CodeRule(code));
        } else {
          DownQueueRemove(keys, q.upQ, q'.upQ, false, UpRule(q.pressQ, code));
        }
      }
  }

  /** Neither queue holds more entries than there were KeyDowns among the first `n` events. */
  predicate SizesUpTo(keys: seq<KeyAct>, q: Queues, n: nat)
    requires n <= |keys|
  {
    |q.upQ| <= CountKind(keys[..n], KeyDown) && |q.pressQ| <= CountKind(keys[..n], KeyDown)
  }

  lemma SizesStep(env: Collaborators, keys: seq<KeyAct>, mustHave: nat, e: Engine, i: nat)
    requires i < |keys| && FitsUpTo(keys, e, i) && SizesUpTo(keys, e.queues, i)
    ensures SizesUpTo(keys, Step(env, keys, mustHave, e, i).queues, i + 1)
  {
    assert keys[..i + 1][..i] == keys[..i];
    match keys[i].kind
    case KeyDown => KeyDownStep(env, keys, mustHave, e, i);
    case KeyPress => KeyPressStep(env, keys, mustHave, e, i);
    case KeyUp => KeyUpStep(env, keys, mustHave, e, i);
  }

  /** A KeyDown with the sentinel code. */
  function IsSentinelDown(): KeyAct -> bool {
    (a: KeyAct) => a.kind == KeyDown && a.keyCode == CharSentinel
  }

  function Min(a: nat, b: nat): nat {
    if a <= b then a else b
  }

  /** The counter after the first `i` events, started from `base`: one more per sentinel
      KeyDown, up to `mustHave`. */
  predicate CounterUpTo(keys: seq<KeyAct>, total: nat, mustHave: nat, base: nat, i: nat)
    requires i <= |keys|
  {
    total == Min(mustHave, base + Count(keys[..i], IsSentinelDown()))
  }

  lemma CounterStep(env: Collaborators, keys: seq<KeyAct>, mustHave: nat, e: Engine, i: nat, base: nat)
    requires i < |keys| && FitsUpTo(keys, e, i) && base <= mustHave
    requires CounterUpTo(keys, e.carry.total, mustHave, base, i)
    ensures CounterUpTo(keys, Step(env, keys, mustHave, e, i).carry.total, mustHave, base, i + 1)
  {
    assert keys[..i + 1][..i] == keys[..i];
    match keys[i].kind
    case KeyDown => KeyDownStep(env, keys, mustHave, e, i);
    case KeyPress => KeyPressStep(env, keys, mustHave, e, i);
    case KeyUp => KeyUpStep(env, keys, mustHave, e, i);
  }

  /** Everything a replay keeps after its first `n` events, when the counter started at
      `base`. */
  predicate ReplayInvariant(keys: seq<KeyAct>, mustHave: nat, base: nat, e: Engine, n: nat) {
    && FitsUpTo(keys, e, n)
    && e.queues.unknowns == UnknownPositions(keys, n)
    && DownQueue(keys, e.queues.upQ, false) && DownQueue(keys, e.queues.pressQ, true)
    && SizesUpTo(keys, e.queues, n)
    && (base <= mustHave ==> CounterUpTo(keys, e.carry.total, mustHave, base, n))
  }

  /** The invariant holds before the first event, for freshly reset queues. */
  lemma InvariantStart(keys: seq<KeyAct>, mustHave: nat, c0: Carry)
    requires |c0.chars| == |keys|
    ensures ReplayInvariant(keys, mustHave, c0.total, Engine(NoQueues, c0), 0)
  {
    assert keys[..0] == [];
  }

  /** `FireEvent` keeps the invariant. */
  lemma InvariantStep(env: Collaborators, keys: seq<KeyAct>, mustHave: nat, base: nat, e: Engine, i: nat)
    requires i < |keys| && ReplayInvariant(keys, mustHave, base, e, i)
    ensures ReplayInvariant(keys, mustHave, base, Step(env, keys, mustHave, e, i), i + 1)
  {
    StepPositions(env, keys, mustHave, e, i);
    QueuesStep(env, keys, mustHave, e, i);
    SizesStep(env, keys, mustHave, e, i);
    if base <= mustHave {
      CounterStep(env, keys, mustHave, e, i, base);
    }
  }

  /** What the invariant says, spelled out: queue entries are earlier events, the unknowns are
      exactly the flagged events so far in order, both queues are in replay order, the up queue
      holds KeyDowns and the press queue KeyDowns that are char acts, and neither outgrows the
      number of KeyDowns so far. */
  lemma InvariantMeans(keys: seq<KeyAct>, mustHave: nat, base: nat, e: Engine, n: nat)
    requires ReplayInvariant(keys, mustHave, base, e, n)
    ensures var q := e.queues;
      && Below(q.pressQ, n) && Below(q.upQ, n)
      && Increasing(q.unknowns)
      && (forall x: nat :: x in q.unknowns <==> x < n && keys[x].isUnknown)
      && Increasing(q.upQ) && AllDowns(keys, q.upQ, false)
      && Increasing(q.pressQ) && AllDowns(keys, q.pressQ, true)
      && |q.upQ| <= CountKind(keys[..n], KeyDown) && |q.pressQ| <= CountKind(keys[..n], KeyDown)
  {
    UnknownPositionsMeans(keys, n);
    DownQueueMeans(keys, e.queues.upQ, false);
    DownQueueMeans(keys, e.queues.pressQ, true);
  }
}
