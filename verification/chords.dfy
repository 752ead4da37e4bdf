/**
 * Two-key chords. `gg` (both views), `yy` and `dd` (`main.js`) are each a
 * small machine on one timer: the first press starts a 400 ms timer, a second
 * press while it runs clears it and fires the action, and the timeout clears
 * it silently. Real time is not modelled: the timeout is an event.
 *
 * `z` works differently: `handleZ` starts its timer and adds a capture
 * listener on the view's content element, so the NEXT keydown reaches that
 * listener before the host's own key handler. The listener ends the chord,
 * toggles the preview for `p`/`P` (and stops that key), and removes itself;
 * when the timer has already expired it returns early and stays registered.
 */
module Chords {

  /** The prefixes with a timer each: `_gTimer`, `_yTimer`, `_dTimer`. */
  datatype Prefix = G | Y | D

  /** Which chord timers are running. */
  datatype Timers = Timers(g: bool, y: bool, d: bool)
  {
    function Get(p: Prefix): bool
    {
      match p
      case G => g
      case Y => y
      case D => d
    }

    function Set(p: Prefix, b: bool): (t: Timers)
      ensures t.Get(p) == b
      ensures forall q :: q != p ==> t.Get(q) == Get(q)
    {
      match p
      case G => this.(g := b)
      case Y => this.(y := b)
      case D => this.(d := b)
    }
  }

  /** No timer running (the view's initial state: the timer fields are unset). */
  const Idle: Timers := Timers(false, false, false)

  /**
   * One press of a chord key (`handleG`/`handleY`/`handleD`): the new timers,
   * and whether the chord's action (`jumpTop`, `copyEntry`, `cutEntry`) fires.
   */
  function Press(t: Timers, p: Prefix): (r: (Timers, bool))
    ensures r.1 <==> t.Get(p)
    ensures r.0.Get(p) <==> !t.Get(p)
    ensures forall q :: q != p ==> r.0.Get(q) == t.Get(q)
  {
    if t.Get(p) then (t.Set(p, false), true) else (t.Set(p, true), false)
  }

  /** The timer callback `() => { this._gTimer = null; }` and its siblings. */
  function Expire(t: Timers, p: Prefix): (t': Timers)
    ensures !t'.Get(p)
    ensures forall q :: q != p ==> t'.Get(q) == t.Get(q)
  {
    t.Set(p, false)
  }

  datatype Event = KeyPress(p: Prefix) | Timeout(p: Prefix)

  /** One event: the new timers and the chord it fires, if any. */
  function Step(t: Timers, e: Event): (Timers, seq<Prefix>)
  {
    match e
    case KeyPress(p) => var r := Press(t, p); (r.0, if r.1 then [p] else [])
    case Timeout(p) => (Expire(t, p), [])
  }

  /** Feeds events to the chord timers; returns the final timers and the chords fired, in order. */
  function Run(t: Timers, evs: seq<Event>): (Timers, seq<Prefix>)
    decreases |evs|
  {
    if evs == [] then (t, [])
    else
      var step := Step(t, evs[0]);
      var rest := Run(step.0, evs[1..]);
      (rest.0, step.1 + rest.1)
  }

  lemma RunCons(t: Timers, e: Event, evs: seq<Event>)
    ensures Run(t, [e] + evs) == (Run(Step(t, e).0, evs).0, Step(t, e).1 + Run(Step(t, e).0, evs).1)
  {
    assert ([e] + evs)[1..] == evs;
  }

  /** Setting a clear timer and clearing it again gives back the same timers. */
  lemma SetBack(t: Timers, p: Prefix)
    requires !t.Get(p)
    ensures t.Set(p, true).Set(p, false) == t
  {
    match p
    case G =>
    case Y =>
    case D =>
  }

  /** Idle, then pending, then idle again: the first press only arms, the second fires and disarms. */
  lemma ArmThenFire(t: Timers, p: Prefix)
    requires !t.Get(p)
    ensures Run(t, [KeyPress(p), KeyPress(p)]) == (t, [p])
  {
    var t1 := t.Set(p, true);
    SetBack(t, p);
    RunCons(t1, KeyPress(p), []);
    assert Step(t1, KeyPress(p)) == (t, [p]);
    assert Run(t1, [KeyPress(p)]) == (t, [p]) by {
      assert [KeyPress(p)] + [] == [KeyPress(p)];
      assert [p] + [] == [p];
    }
    RunCons(t, KeyPress(p), [KeyPress(p)]);
    assert [KeyPress(p)] + [KeyPress(p)] == [KeyPress(p), KeyPress(p)];
    assert [] + [p] == [p];
  }

  /** A timeout between the two presses swallows the chord: nothing fires and the second press re-arms. */
  lemma TimeoutIsSilent(t: Timers, p: Prefix)
    requires !t.Get(p)
    ensures Run(t, [KeyPress(p), Timeout(p), KeyPress(p)]).1 == []
    ensures Run(t, [KeyPress(p), Timeout(p), KeyPress(p)]).0.Get(p)
  {
    var t1 := t.Set(p, true);
    var t2 := t1.Set(p, false);
    RunCons(t2, KeyPress(p), []);
    RunCons(t1, Timeout(p), [KeyPress(p)]);
    RunCons(t, KeyPress(p), [Timeout(p), KeyPress(p)]);
    assert [Timeout(p)] + [KeyPress(p)] == [Timeout(p), KeyPress(p)];
    assert [KeyPress(p)] + [Timeout(p), KeyPress(p)] == [KeyPress(p), Timeout(p), KeyPress(p)];
  }

  /** The chord of one prefix seen alone: its pending flag and how many times it fired. */
  function RunOne(pending: bool, evs: seq<Event>, p: Prefix): (bool, nat)
    decreases |evs|
  {
    if evs == [] then (pending, 0)
    else if evs[0] == KeyPress(p) then
      var rest := RunOne(!pending, evs[1..], p);
      (rest.0, rest.1 + (if pending then 1 else 0))
    else if evs[0] == Timeout(p) then RunOne(false, evs[1..], p)
    else RunOne(pending, evs[1..], p)
  }

  /** How often `p` occurs in a list of fired chords. */
  function Count(fired: seq<Prefix>, p: Prefix): nat
  {
    if fired == [] then 0 else (if fired[0] == p then 1 else 0) + Count(fired[1..], p)
  }

  lemma {:induction false} CountAppend(a: seq<Prefix>, b: seq<Prefix>, p: Prefix)
    ensures Count(a + b, p) == Count(a, p) + Count(b, p)
  {
    if a != [] {
      assert (a + b)[0] == a[0];
      assert (a + b)[1..] == a[1..] + b;
      CountAppend(a[1..], b, p);
      assert Count(a + b, p) == (if a[0] == p then 1 else 0) + Count(a[1..] + b, p);
    } else {
      assert a + b == b;
    }
  }

  /**
   * The prefixes are independent: what happens to `p` (its pending flag and
   * how often it fires) depends only on `p`'s own presses and timeouts,
   * whatever the other prefixes do in between.
   */
  lemma {:induction false} PrefixesIndependent(t: Timers, evs: seq<Event>, p: Prefix)
    ensures Run(t, evs).0.Get(p) == RunOne(t.Get(p), evs, p).0
    ensures Count(Run(t, evs).1, p) == RunOne(t.Get(p), evs, p).1
    decreases |evs|
  {
    if evs != [] {
      var step := Step(t, evs[0]);
      PrefixesIndependent(step.0, evs[1..], p);
      CountAppend(step.1, Run(step.0, evs[1..]).1, p);
      if evs[0] == KeyPress(p) {
        assert Count(step.1, p) == if t.Get(p) then 1 else 0 by {
          assert Count([p], p) == 1;
        }
      } else {
        assert Count(step.1, p) == 0;
        assert step.0.Get(p) == if evs[0] == Timeout(p) then false else t.Get(p);
      }
    }
  }

  /** `n` presses of one key with no timeout in between fire `n / 2` times and leave it pending iff `n` is odd. */
  lemma {:induction false} PressesPairUp(n: nat, p: Prefix)
    ensures RunOne(false, seq(n, _ => KeyPress(p)), p) == (n % 2 == 1, n / 2)
  {
    if n >= 2 {
      var evs := seq(n, _ => KeyPress(p));
      assert evs[1..][1..] == seq(n - 2, _ => KeyPress(p));
      PressesPairUp(n - 2, p);
    } else if n == 1 {
      assert seq(n, _ => KeyPress(p))[1..] == [];
    }
  }

  /** The `z` chord: `_zTimer` running, and how many `onKey` capture listeners are registered. */
  datatype ZState = ZState(pending: bool, listeners: nat)

  /** `handleZ` registers a listener whenever it starts the timer. */
  predicate ZValid(z: ZState)
  {
    z.pending ==> z.listeners >= 1
  }

  /** `handleZ`: a running timer is cleared; otherwise the timer starts and one more listener is added. */
  function HandleZ(z: ZState): (z': ZState)
    ensures z.pending ==> z' == z.(pending := false)
    ensures !z.pending ==> z'.pending && z'.listeners == z.listeners + 1
  {
    if z.pending then z.(pending := false) else ZState(true, z.listeners + 1)
  }

  /** The `z` timer's callback: the timer ends, the listeners stay. */
  function ZTimeout(z: ZState): ZState
  {
    z.(pending := false)
  }

  /** What one keydown does to the `z` chord, and whether the preview was toggled or the key stopped. */
  datatype Capture = Capture(state: ZState, toggled: bool, stopped: bool)

  predicate IsP(k: char)
  {
    k == 'p' || k == 'P'
  }

  /**
   * The registered listeners, in order, on one keydown: the first one to
   * find the timer running ends the chord, toggles and stops the key for
   * `p`/`P`, and unregisters itself; all others return at once.
   */
  function ZCapture(z: ZState, k: char): (c: Capture)
    ensures ZValid(z) ==> !c.state.pending
    ensures c.toggled <==> z.pending && z.listeners >= 1 && IsP(k)
    ensures c.stopped == c.toggled
  {
    if z.pending && z.listeners >= 1 then
      Capture(ZState(false, z.listeners - 1), IsP(k), IsP(k))
    else Capture(z, false, false)
  }

  /**
   * One keydown in the list as far as the `z` chord is concerned: the capture
   * listeners first, then, unless the key was stopped, the host handler,
   * which sends `z` to `handleZ`.
   */
  function ZKeyDown(z: ZState, k: char): Capture
  {
    var c := ZCapture(z, k);
    if !c.stopped && k == 'z' then c.(state := HandleZ(c.state)) else c
  }

  lemma ZValidKept(z: ZState, k: char)
    requires ZValid(z)
    ensures ZValid(HandleZ(z)) && ZValid(ZTimeout(z))
    ensures ZValid(ZCapture(z, k).state) && ZValid(ZKeyDown(z, k).state)
  {
  }

  /** `z` then `p` (or `P`) toggles the preview exactly once, on the `p`, and stops that key. */
  lemma ZThenP(z: ZState, k: char)
    requires ZValid(z) && !z.pending && IsP(k)
    ensures var a := ZKeyDown(z, 'z'); !a.toggled && a.state.pending
    ensures var b := ZKeyDown(ZKeyDown(z, 'z').state, k); b.toggled && b.stopped && !b.state.pending
  {
  }

  /** `z` then any key other than `p`, `P`, `z` ends the chord without toggling; the key goes on to its own handler. */
  lemma ZThenOther(z: ZState, k: char)
    requires ZValid(z) && !z.pending && !IsP(k) && k != 'z'
    ensures var b := ZKeyDown(ZKeyDown(z, 'z').state, k); !b.toggled && !b.stopped && !b.state.pending
  {
  }

  /**
   * As written, the "second key in chord" branch of `handleZ` is never taken
   * for a keydown: the capture listener has always cleared the timer first.
   */
  lemma HandleZSeesNoTimer(z: ZState, k: char)
    requires ZValid(z)
    ensures !ZCapture(z, k).state.pending
    ensures k == 'z' ==> ZKeyDown(z, k).state == HandleZ(ZCapture(z, k).state)
  {
  }

  /**
   * As written, a second `z` does not cancel the chord: it starts a new one,
   * so `z z p` still toggles the preview.
   */
  lemma SecondZRearms(z: ZState)
    requires ZValid(z) && !z.pending
    ensures ZKeyDown(ZKeyDown(z, 'z').state, 'z').state.pending
    ensures ZKeyDown(ZKeyDown(ZKeyDown(z, 'z').state, 'z').state, 'p').toggled
  {
  }

  /** A chord that times out leaves its listener registered: listeners accumulate. */
  lemma ExpiredListenerStays(z: ZState, k: char)
    requires ZValid(z) && !z.pending
    ensures ZTimeout(ZKeyDown(z, 'z').state).listeners == z.listeners + 1
    ensures ZCapture(ZTimeout(ZKeyDown(z, 'z').state), k).state.listeners == z.listeners + 1
  {
  }

  /**
   * The evidently intended listener: the second key ends the chord, and a
   * second `z` is stopped as well, so that it does not open a new chord.
   */
  function ZCaptureFixed(z: ZState, k: char): (c: Capture)
    ensures c.toggled <==> z.pending && z.listeners >= 1 && IsP(k)
  {
    if z.pending && z.listeners >= 1 then
      Capture(ZState(false, z.listeners - 1), IsP(k), IsP(k) || k == 'z')
    else Capture(z, false, false)
  }

  function ZKeyDownFixed(z: ZState, k: char): Capture
  {
    var c := ZCaptureFixed(z, k);
    if !c.stopped && k == 'z' then c.(state := HandleZ(c.state)) else c
  }

  /** With the fix, `z z` cancels the chord and a following `p` is an ordinary key; `z p` still toggles. */
  lemma FixedZZCancels(z: ZState, k: char)
    requires ZValid(z) && !z.pending && IsP(k)
    ensures !ZKeyDownFixed(ZKeyDownFixed(z, 'z').state, 'z').state.pending
    ensures !ZKeyDownFixed(ZKeyDownFixed(ZKeyDownFixed(z, 'z').state, 'z').state, k).toggled
    ensures ZKeyDownFixed(ZKeyDownFixed(z, 'z').state, k).toggled
  {
  }
}
