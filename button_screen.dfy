/**
 * The second screen (`ButtonActivity`): it shows the label passed by the
 * first screen and a single "Volver" button. A blink keeps the highlight
 * on that button; a smile starts the first screen again, once.
 */
module ButtonScreen {
  import opened Wrappers
  import opened Gestures
  import opened Selection
  import Navigation
  import MainScreen

  /** The number of buttons the highlight cycles through. */
  const OptionCount: nat := 1

  /** Shown when the screen was started without a label. */
  const DefaultText: string := "No Text"

  /** The text shown on the screen: the `button_text` extra of the starting intent, or the default. */
  function DisplayedText(intent: Navigation.Intent): (text: string)
    ensures Navigation.ButtonTextKey in intent.extras ==> text == intent.extras[Navigation.ButtonTextKey]
    ensures Navigation.ButtonTextKey !in intent.extras ==> text == DefaultText
  {
    match Navigation.GetStringExtra(intent, Navigation.ButtonTextKey)
    case Some(text) => text
    case None => DefaultText
  }

  /** The intent that returns to the first screen; it carries no extras. */
  const BackIntent: Navigation.Intent := Navigation.Intent(Navigation.MainActivityClass, map[])

  /** The gesture callback of the second screen. */
  function React(s: State, g: Gesture): (r: Reaction)
    ensures s.selectedButtonIndex < OptionCount ==> r.next.selectedButtonIndex == 0
    ensures r.next.isNavigating <==> s.isNavigating || g.smileDetected
    ensures r.started.Some? <==> g.smileDetected && !s.isNavigating
    ensures r.started.Some? ==> r.started.value == BackIntent
  {
    var t := Step(OptionCount, s, g);
    Reaction(t.next, if t.navigate then Some(BackIntent) else None)
  }

  /** The second screen shows exactly the label the first screen sent. */
  lemma {:induction false} ShowsLabelSent(index: nat)
    ensures DisplayedText(MainScreen.ConfirmIntent(index)) == MainScreen.ButtonLabel(index)
  {
  }

  /**
   * One callback: the highlight stays on the only button, a smile with the
   * latch clear sets it and starts the first screen without a label, and
   * anything else starts nothing; an idle frame changes nothing.
   */
  lemma ReactGoesBack(s: State, g: Gesture)
    requires s.selectedButtonIndex < OptionCount
    ensures React(s, g).next.selectedButtonIndex == 0
    ensures React(s, g).next.isNavigating == (s.isNavigating || g.smileDetected)
    ensures React(s, g).started == if g.smileDetected && !s.isNavigating then Some(BackIntent) else None
    ensures React(s, g).started.Some? ==> Navigation.GetStringExtra(React(s, g).started.value, Navigation.ButtonTextKey) == None
    ensures g == NoGesture ==> React(s, g) == Reaction(s, None)
  {
  }

  /**
   * From a fresh screen, after any frames, the highlight is still on the
   * only button and at most one intent was started: exactly one when some
   * frame smiled.
   */
  lemma {:induction false} StartsBackAtMostOnce(frames: seq<Detection>)
    ensures Run(OptionCount, Initial, frames).final.selectedButtonIndex == 0
    ensures |Run(OptionCount, Initial, frames).confirmed| == if SomeSmileFrame(frames) then 1 else 0
  {
    RunAdvancesPerBlink(OptionCount, Initial, frames);
    RunNavigatesAtMostOnce(OptionCount, Initial, frames);
  }

  /**
   * The second screen's mutable state. `started` records the intents
   * passed to `startActivity` by this instance.
   */
  class ButtonActivity {
    const buttonText: string
    var selectedButtonIndex: nat
    var isNavigating: bool
    ghost var started: seq<Navigation.Intent>

    /** The highlight is on the only button, and the latch is set exactly when one intent was started. */
    ghost predicate Valid()
      reads this
    {
      && selectedButtonIndex < OptionCount
      && |started| <= 1
      && (isNavigating <==> started != [])
      && (forall k | 0 <= k < |started| :: started[k] == BackIntent)
    }

    /** The fields as a value of the shared state machine. */
    function Current(): (s: State)
      reads this
    {
      State(selectedButtonIndex, isNavigating)
    }

    /** Screen creation: the label comes from the starting intent. */
    constructor (intent: Navigation.Intent)
      ensures Valid() && Current() == Initial && started == []
      ensures buttonText == DisplayedText(intent)
    {
      var extra := Navigation.GetStringExtra(intent, Navigation.ButtonTextKey);
      buttonText := if extra.Some? then extra.value else DefaultText;
      selectedButtonIndex := 0;
      isNavigating := false;
      started := [];
    }

    /** The callback passed to `processImageProxy`. */
    method OnGestureDetected(blinkDetected: bool, smileDetected: bool) returns (nav: Option<Navigation.Intent>)
      requires Valid()
      modifies this
      ensures Valid()
      ensures Reaction(Current(), nav) == React(old(Current()), Gesture(blinkDetected, smileDetected))
      ensures started == old(started) + if nav.Some? then [nav.value] else []
    {
      nav := None;
      if blinkDetected {
        selectedButtonIndex := (selectedButtonIndex + 1) % OptionCount;
      }
      if smileDetected && !isNavigating {
        isNavigating := true;
        var intent := Navigation.Intent(Navigation.MainActivityClass, map[]);
        started := started + [intent];
        nav := Some(intent);
      }
    }

    /**
     * The image analyser: one camera frame through `processImageProxy`,
     * then the callback when detection succeeded.
     */
    method Analyze(d: Detection) returns (nav: Option<Navigation.Intent>, closed: bool)
      requires Valid()
      modifies this
      ensures Valid()
      ensures closed <==> !d.NoImage?
      ensures !d.Succeeded? ==> Current() == old(Current()) && nav == None && started == old(started)
      ensures d.Succeeded? ==>
                Reaction(Current(), nav) == React(old(Current()), Reduced(d.faces))
      ensures started == old(started) + if nav.Some? then [nav.value] else []
    {
      var delivered;
      delivered, closed := ProcessImageProxy(d);
      nav := None;
      if delivered.Some? {
        nav := OnGestureDetected(delivered.value.blinkDetected, delivered.value.smileDetected);
      }
    }
  }
}
