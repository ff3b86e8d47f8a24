/**
 * The first screen (`MainActivity`): two buttons, "Botón 1" and
 * "Botón 2". A blink moves the highlight to the other button; a smile
 * starts the second screen once, passing the highlighted button's label.
 */
module MainScreen {
  import opened Wrappers
  import opened Gestures
  import opened Selection
  import Navigation

  /** The number of buttons the highlight cycles through. */
  const OptionCount: nat := 2

  /** The label of the button at the given index. */
  function ButtonLabel(index: nat): (text: string)
    ensures text == "Botón 1" <==> index == 0
    ensures index != 0 ==> text == "Botón 2"
  {
    if index == 0 then "Botón 1" else "Botón 2"
  }

  /** The intent that starts the second screen, carrying the label of the highlighted button. */
  function ConfirmIntent(index: nat): (intent: Navigation.Intent)
    ensures intent.target == Navigation.ButtonActivityClass
    ensures intent.extras.Keys == {Navigation.ButtonTextKey}
    ensures Navigation.GetStringExtra(intent, Navigation.ButtonTextKey) == Some(ButtonLabel(index))
  {
    Navigation.Intent(Navigation.ButtonActivityClass, map[Navigation.ButtonTextKey := ButtonLabel(index)])
  }

  /** The gesture callback of the first screen. */
  function React(s: State, g: Gesture): (r: Reaction)
    ensures s.selectedButtonIndex < OptionCount ==> r.next.selectedButtonIndex < OptionCount
    ensures r.next.isNavigating <==> s.isNavigating || g.smileDetected
    ensures r.started.Some? <==> g.smileDetected && !s.isNavigating
    ensures r.started.Some? ==> r.started.value == ConfirmIntent(r.next.selectedButtonIndex)
  {
    var t := Step(OptionCount, s, g);
    Reaction(t.next, if t.navigate then Some(ConfirmIntent(t.next.selectedButtonIndex)) else None)
  }

  /**
   * A blink toggles the highlight between the two buttons, and an
   * idle frame changes nothing.
   */
  lemma BlinkToggles(s: State, g: Gesture)
    requires s.selectedButtonIndex < OptionCount
    ensures React(s, g).next.selectedButtonIndex
         == if g.blinkDetected then 1 - s.selectedButtonIndex else s.selectedButtonIndex
    ensures React(s, g).next.isNavigating == (s.isNavigating || g.smileDetected)
    ensures g == NoGesture ==> React(s, g) == Reaction(s, None)
  {
  }

  /**
   * The label sent is the one highlighted after this frame's blink: the
   * second button's exactly when the frame's blink moved the highlight
   * off the first button or it stayed on the second. Nothing is sent
   * unless the frame smiles with the latch clear.
   */
  lemma SendsLabelAfterBlink(s: State, g: Gesture)
    requires s.selectedButtonIndex < OptionCount
    ensures React(s, g).started
         == if g.smileDetected && !s.isNavigating
            then Some(Navigation.Intent(Navigation.ButtonActivityClass,
                   map[Navigation.ButtonTextKey :=
                         if g.blinkDetected == (s.selectedButtonIndex == 0) then "Botón 2" else "Botón 1"]))
            else None
  {
  }

  /** A blink and a smile in the same frame from the first button send "Botón 2". */
  lemma BlinkAndSmileSendSecondLabel()
    ensures React(Initial, Gesture(true, true)).started
         == Some(Navigation.Intent(Navigation.ButtonActivityClass, map["button_text" := "Botón 2"]))
  {
  }

  /**
   * From a fresh screen, after any frames, the highlight is on the second
   * button exactly when an odd number of frames blinked; so two blinking
   * frames bring it back to where it started.
   */
  lemma {:induction false} HighlightFollowsBlinkParity(frames: seq<Detection>)
    ensures Run(OptionCount, Initial, frames).final.selectedButtonIndex == BlinkFrames(frames) % 2
    ensures forall k | 0 <= k < |Run(OptionCount, Initial, frames).confirmed| ::
              Run(OptionCount, Initial, frames).confirmed[k] < 2
  {
    RunAdvancesPerBlink(OptionCount, Initial, frames);
  }

  /**
   * From a fresh screen, at most one intent is ever started: exactly one
   * when some frame smiled, and none otherwise.
   */
  lemma {:induction false} StartsAtMostOnce(frames: seq<Detection>)
    ensures |Run(OptionCount, Initial, frames).confirmed| == if SomeSmileFrame(frames) then 1 else 0
  {
    RunNavigatesAtMostOnce(OptionCount, Initial, frames);
  }

  /**
   * The first screen's mutable state. `started` records the intents
   * passed to `startActivity` by this instance.
   */
  class MainActivity {
    var selectedButtonIndex: nat
    var isNavigating: bool
    ghost var started: seq<Navigation.Intent>

    /** The highlight is on a button, and the latch is set exactly when one intent was started. */
    ghost predicate Valid()
      reads this
    {
      && selectedButtonIndex < OptionCount
      && |started| <= 1
      && (isNavigating <==> started != [])
      && (forall k | 0 <= k < |started| :: started[k].target == Navigation.ButtonActivityClass)
    }

    /** The fields as a value of the shared state machine. */
    function Current(): (s: State)
      reads this
    {
      State(selectedButtonIndex, isNavigating)
    }

    constructor ()
      ensures Valid() && Current() == Initial && started == []
    {
      selectedButtonIndex := 0;
      isNavigating := false;
      started := [];
    }

    /** The callback passed to `processImageProxy`. */
    method OnGestureDetected(blinkDetected: bool, smileDetected: bool) returns (nav: Option<Navigation.Intent>)
      requires Valid()
      modifies this
      ensures Valid()
      ensures Reaction(Current(), nav) == React(old(Current()), Gesture(blinkDetected, smileDetected))
      ensures started == old(started) + if nav.Some? then [nav.value] else []
    {
      nav := None;
      if blinkDetected {
        selectedButtonIndex := (selectedButtonIndex + 1) % OptionCount;
      }
      if smileDetected && !isNavigating {
        isNavigating := true;
        var buttonText := if selectedButtonIndex == 0 then "Botón 1" else "Botón 2";
        var intent := Navigation.Intent(Navigation.ButtonActivityClass, map[Navigation.ButtonTextKey := buttonText]);
        started := started + [intent];
        nav := Some(intent);
      }
    }

    /**
     * The image analyser: one camera frame through `processImageProxy`,
     * then the callback when detection succeeded.
     */
    method Analyze(d: Detection) returns (nav: Option<Navigation.Intent>, closed: bool)
      requires Valid()
      modifies this
      ensures Valid()
      ensures closed <==> !d.NoImage?
      ensures !d.Succeeded? ==> Current() == old(Current()) && nav == None && started == old(started)
      ensures d.Succeeded? ==>
                Reaction(Current(), nav) == React(old(Current()), Reduced(d.faces))
      ensures started == old(started) + if nav.Some? then [nav.value] else []
    {
      var delivered;
      delivered, closed := ProcessImageProxy(d);
      nav := None;
      if delivered.Some? {
        nav := OnGestureDetected(delivered.value.blinkDetected, delivered.value.smileDetected);
      }
    }
  }
}
