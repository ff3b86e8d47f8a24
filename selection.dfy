/**
 * The selection / navigation-latch state machine that both screens run
 * in their gesture callback, parameterised by the number of options on
 * the screen (two on the first screen, one on the second).
 */
module Selection {
  import opened Wrappers
  import opened Gestures
  import Navigation

  /**
   * The screen's state: the highlighted button and the one-shot latch
   * that keeps a screen from navigating twice. The index only ever
   * starts at 0 and is reduced modulo the option count, so it is never
   * negative and the remainder of a non-negative number is the same in
   * Kotlin and in Dafny.
   */
  datatype State = State(selectedButtonIndex: nat, isNavigating: bool)

  /** A freshly created screen: first button highlighted, latch clear. */
  const Initial: State := State(0, false)

  /** The state after one callback, and whether that callback navigates. */
  datatype Transition = Transition(next: State, navigate: bool)

  /**
   * The gesture callback: a blink advances the highlight cyclically; then
   * a smile while the latch is clear sets the latch and navigates, using
   * the highlight as already updated by this frame's blink.
   */
  function Step(n: nat, s: State, g: Gesture): (t: Transition)
    requires n > 0
    ensures s.selectedButtonIndex < n ==> t.next.selectedButtonIndex < n
    ensures g.blinkDetected ==> t.next.selectedButtonIndex < n
    ensures t.navigate <==> g.smileDetected && !s.isNavigating
    ensures t.next.isNavigating <==> s.isNavigating || g.smileDetected
    ensures g == NoGesture ==> t == Transition(s, false)
  {
    var index := if g.blinkDetected then (s.selectedButtonIndex + 1) % n else s.selectedButtonIndex;
    if g.smileDetected && !s.isNavigating then Transition(State(index, true), true)
    else Transition(State(index, s.isNavigating), false)
  }

  /**
   * What one gesture callback does to a screen: its next state and the
   * intent it passes to `startActivity`, if any.
   */
  datatype Reaction = Reaction(next: State, started: Option<Navigation.Intent>)

  /** One analysed frame: the callback runs only when detection succeeded. */
  function OnFrame(n: nat, s: State, d: Detection): (t: Transition)
    requires n > 0
    ensures !d.Succeeded? ==> t == Transition(s, false)
  {
    match Delivered(d)
    case None => Transition(s, false)
    case Some(g) => Step(n, s, g)
  }

  /**
   * A run of frames on one screen instance: the final state and, for each
   * navigation, the index that was highlighted when it was sent.
   */
  datatype Trace = Trace(final: State, confirmed: seq<nat>)

  function Run(n: nat, s: State, frames: seq<Detection>): (r: Trace)
    requires n > 0
    decreases |frames|
  {
    if frames == [] then Trace(s, [])
    else
      var t := OnFrame(n, s, frames[0]);
      var rest := Run(n, t.next, frames[1..]);
      Trace(rest.final, (if t.navigate then [t.next.selectedButtonIndex] else []) + rest.confirmed)
  }

  /** The frame reached the callback with a smile. */
  predicate SmileFrame(d: Detection) {
    d.Succeeded? && SomeFaceSmiles(d.faces)
  }

  predicate SomeSmileFrame(frames: seq<Detection>) {
    exists i | 0 <= i < |frames| :: SmileFrame(frames[i])
  }

  /** The frame reached the callback with a blink. */
  predicate BlinkFrame(d: Detection) {
    d.Succeeded? && SomeFaceBlinks(d.faces)
  }

  /** How many frames of the run reached the callback with a blink. */
  function BlinkFrames(frames: seq<Detection>): (count: nat)
    decreases |frames|
  {
    if frames == [] then 0
    else (if BlinkFrame(frames[0]) then 1 else 0) + BlinkFrames(frames[1..])
  }

  /** Taking a remainder first does not change the remainder of a sum. */
  lemma {:induction false} ModOfSum(x: nat, m: nat, n: nat)
    requires n > 0
    ensures (x % n + m) % n == (x + m) % n
  {
    var q, r := x / n, x % n;
    var q', r' := (r + m) / n, (r + m) % n;
    assert x + m == (q + q') * n + r' by {
      assert x == q * n + r;
      assert r + m == q' * n + r';
      assert q * n + q' * n == (q + q') * n;
    }
    ModIsUnique(x + m, q + q', r', n);
  }

  /** Euclidean division has a single remainder. */
  lemma {:induction false} ModIsUnique(z: int, q: int, r: int, n: int)
    requires n > 0 && 0 <= r < n && z == q * n + r
    ensures z % n == r
  {
    var q2, r2 := z / n, z % n;
    assert z == q2 * n + r2;
    if q > q2 {
      MulDistributes(q - q2, q2, n);
      MulAtLeast(q - q2, n);
    } else if q < q2 {
      MulDistributes(q2 - q, q, n);
      MulAtLeast(q2 - q, n);
    }
  }

  lemma {:induction false} MulDistributes(a: int, b: int, n: int)
    ensures (a + b) * n == a * n + b * n
  {
  }

  lemma {:induction false} MulAtLeast(k: int, n: int)
    requires k >= 1 && n > 0
    ensures k * n >= n
    decreases k
  {
    if k > 1 {
      MulAtLeast(k - 1, n);
      MulDistributes(k - 1, 1, n);
    }
  }

  /**
   * Over any run, the latch ends set exactly when it started set or some
   * frame smiled, and a navigation is sent at most once: exactly once
   * when the latch started clear and some frame smiled, otherwise never.
   */
  lemma {:induction false} RunNavigatesAtMostOnce(n: nat, s: State, frames: seq<Detection>)
    requires n > 0
    ensures Run(n, s, frames).final.isNavigating <==> s.isNavigating || SomeSmileFrame(frames)
    ensures |Run(n, s, frames).confirmed| == if !s.isNavigating && SomeSmileFrame(frames) then 1 else 0
    decreases |frames|
  {
    if frames != [] {
      var t := OnFrame(n, s, frames[0]);
      var rest := frames[1..];
      RunNavigatesAtMostOnce(n, t.next, rest);
      assert t.next.isNavigating <==> s.isNavigating || SmileFrame(frames[0]);
      assert t.navigate <==> !s.isNavigating && SmileFrame(frames[0]);
      assert forall i | 0 <= i < |rest| :: rest[i] == frames[i + 1];
      assert SomeSmileFrame(frames) <==> SmileFrame(frames[0]) || SomeSmileFrame(rest) by {
        if SomeSmileFrame(frames) {
          var i :| 0 <= i < |frames| && SmileFrame(frames[i]);
          if i > 0 { assert SmileFrame(rest[i - 1]); }
        }
        if SomeSmileFrame(rest) {
          var i :| 0 <= i < |rest| && SmileFrame(rest[i]);
          assert SmileFrame(frames[i + 1]);
        }
      }
    }
  }

  /**
   * Over any run from an in-range state, the highlight advances once per
   * blinking frame, cyclically modulo the option count, and every
   * navigation carries an in-range index.
   */
  lemma {:induction false} RunAdvancesPerBlink(n: nat, s: State, frames: seq<Detection>)
    requires n > 0 && s.selectedButtonIndex < n
    ensures Run(n, s, frames).final.selectedButtonIndex == (s.selectedButtonIndex + BlinkFrames(frames)) % n
    ensures forall k | 0 <= k < |Run(n, s, frames).confirmed| :: Run(n, s, frames).confirmed[k] < n
    decreases |frames|
  {
    if frames != [] {
      var t := OnFrame(n, s, frames[0]);
      var b := if BlinkFrame(frames[0]) then 1 else 0;
      if b == 0 {
        ModIsUnique(s.selectedButtonIndex, 0, s.selectedButtonIndex, n);
      }
      assert t.next.selectedButtonIndex == (s.selectedButtonIndex + b) % n;
      RunAdvancesPerBlink(n, t.next, frames[1..]);
      ModOfSum(s.selectedButtonIndex + b, BlinkFrames(frames[1..]), n);
    }
  }
}
