# Blink-and-smile navigation, modelled in Dafny

The app has two screens, `MainActivity` and `ButtonActivity`. Each feeds
the front camera into a face detector. For every analysed frame, the list
of detected faces is reduced to two booleans:

- a **blink**: some face has both eye-open probabilities present and below 0.5;
- a **smile**: some face has a smiling probability present and above 0.5.

These booleans drive a small state machine in each screen. A blink moves
the highlighted button to `(index + 1) % N`. There are N = 2 buttons
("Botón 1", "Botón 2") on the first screen and N = 1 ("Volver") on the
second. A smile while the one-shot `isNavigating` latch is clear sets the
latch and starts the other screen. The first screen passes the
highlighted button's label as the `button_text` extra. The second screen
shows that extra, or "No Text" when it is absent.

Modules:

- `Wrappers`: `Option`, standing for a Kotlin nullable value.
- `Gestures`: the face record and the reducer, which both screens share
  because their loops are identical. `Reduced` is the reducer as a fold and
  `Reduce` is the source's flag-setting loop, proved equal to it.
  `Detection` is the result of handing one frame to the detector, and
  `ProcessImageProxy` turns it into the value passed to the callback.
- `Selection`: the state (`selectedButtonIndex`, `isNavigating`) and the
  callback `Step`, parameterised by the option count. `Run` plays a
  sequence of frames on one screen instance. Lemmas about a run cover
  the latch and the highlight.
- `Navigation`: the intent that `startActivity` would receive, as a value.
- `MainScreen` and `ButtonScreen`: each screen's callback as a function
  (`React`), and a class whose fields the callback updates in place.
  A ghost `started` field records every intent the instance started;
  the class invariant says it holds at most one.

Probabilities are reals, since the code only compares them with 0.5. The
index is a `nat`: it starts at 0 and only changes through `% N`, so
Kotlin's truncating remainder and Dafny's Euclidean one agree.

`imageProxy.close()` is called only from the completion listener
(MainActivity.kt:151-153, ButtonActivity.kt:141-143). That listener is
registered only when `imageProxy.image` is non-null (MainActivity.kt:124,
ButtonActivity.kt:114). A frame without a media image is therefore never
closed. `ProcessImageProxy` states `closed <==> !d.NoImage?`.

## Model

| member | source | states |
|---|---|---|
| `Gestures.Reduced` | app/src/main/java/com/example/mequieropegaruntiroenlaspelotas/MainActivity.kt:128-146 | the smile flag is true iff some face's smiling probability is present and above 0.5; the blink flag is true iff some face has both eye probabilities present and below 0.5; an empty list gives neither |
| `Gestures.Reduce` | app/src/main/java/com/example/mequieropegaruntiroenlaspelotas/ButtonActivity.kt:118-135 | the flag-setting loop over the faces gives the fold's result, so again: smile iff some face smiles, blink iff some face has both eyes below 0.5 |
| `Gestures.ReducedIgnoresOrder` | app/src/main/java/com/example/mequieropegaruntiroenlaspelotas/MainActivity.kt:130-145 | two face lists in which the same faces occur, in any order and any number of times, give the same pair of flags |
| `Gestures.NonBlinkingFaceIsIgnored` | app/src/main/java/com/example/mequieropegaruntiroenlaspelotas/MainActivity.kt:137-144 | inserting a face anywhere whose eye probabilities are missing or not both below 0.5 never changes the blink flag |
| `Gestures.NonSmilingFaceIsIgnored` | app/src/main/java/com/example/mequieropegaruntiroenlaspelotas/MainActivity.kt:131-136 | inserting anywhere a face whose smiling probability is missing or at most 0.5 never changes the smile flag |
| `Gestures.Delivered` | app/src/main/java/com/example/mequieropegaruntiroenlaspelotas/ButtonActivity.kt:114-140 | the gesture callback receives a value exactly when detection succeeded; not when it failed or the frame had no image |
| `Gestures.ProcessImageProxy` | app/src/main/java/com/example/mequieropegaruntiroenlaspelotas/MainActivity.kt:118-155 | on success the callback gets (some face blinks, some face smiles); on failure or a missing image it is not called; the frame is closed exactly when it had a media image |
| `Selection.Step` | app/src/main/java/com/example/mequieropegaruntiroenlaspelotas/MainActivity.kt:88-98 | an in-range index stays in range and a blink always lands in range; it navigates iff the frame smiles with the latch clear; the latch ends set iff it was set or the frame smiled; a frame with neither gesture changes nothing |
| `Selection.OnFrame` | app/src/main/java/com/example/mequieropegaruntiroenlaspelotas/MainActivity.kt:146-150 | a frame whose detection failed, or that had no image, leaves index and latch unchanged and navigates nowhere |
| `Selection.RunNavigatesAtMostOnce` | app/src/main/java/com/example/mequieropegaruntiroenlaspelotas/ButtonActivity.kt:84-85 | over any sequence of frames, the latch ends set iff it started set or some frame smiled; the navigation count is 1 if the latch started clear and some frame smiled, else 0 |
| `Selection.RunAdvancesPerBlink` | app/src/main/java/com/example/mequieropegaruntiroenlaspelotas/MainActivity.kt:88-90 | over any sequence of frames, the final index is (start + number of blinking frames) mod N, and every navigation carries an index below N |
| `Navigation.GetStringExtra` | app/src/main/java/com/example/mequieropegaruntiroenlaspelotas/ButtonActivity.kt:37 | an extra is found iff the intent holds that key, and it is the stored string |
| `MainScreen.ButtonLabel` | app/src/main/java/com/example/mequieropegaruntiroenlaspelotas/MainActivity.kt:93 | the label is "Botón 1" exactly for index 0; any other index gets "Botón 2" |
| `MainScreen.ConfirmIntent` | app/src/main/java/com/example/mequieropegaruntiroenlaspelotas/MainActivity.kt:94-96 | the intent starts the second screen and carries one extra: `button_text`, which reads back as the label of the given index |
| `MainScreen.React` | app/src/main/java/com/example/mequieropegaruntiroenlaspelotas/MainActivity.kt:87-99 | the first screen's callback keeps the index below 2, raises the latch only on a smile, and starts an intent exactly on a smile with the latch clear; that intent carries the label of the index after this frame's blink |
| `MainScreen.BlinkToggles` | app/src/main/java/com/example/mequieropegaruntiroenlaspelotas/MainActivity.kt:88-92 | with two buttons a blink sends index i to 1 - i and otherwise keeps it; the latch only rises, on a smile; an idle frame changes nothing and sends nothing |
| `MainScreen.SendsLabelAfterBlink` | app/src/main/java/com/example/mequieropegaruntiroenlaspelotas/MainActivity.kt:91-96 | a smile with the latch clear starts the second screen with "Botón 2" when the highlight after this frame's blink is the second button, "Botón 1" otherwise; in every other case nothing is started |
| `MainScreen.BlinkAndSmileSendSecondLabel` | app/src/main/java/com/example/mequieropegaruntiroenlaspelotas/MainActivity.kt:88-95 | from a fresh screen, a frame that both blinks and smiles sends "Botón 2" |
| `MainScreen.HighlightFollowsBlinkParity` | app/src/main/java/com/example/mequieropegaruntiroenlaspelotas/MainActivity.kt:86-90 | from a fresh screen the highlight is on the second button iff an odd number of frames blinked, so two blinks return it; every label sent is for index 0 or 1 |
| `MainScreen.StartsAtMostOnce` | app/src/main/java/com/example/mequieropegaruntiroenlaspelotas/MainActivity.kt:91-98 | from a fresh screen, any sequence of frames starts the second screen once if some frame smiled and never otherwise |
| `MainScreen.MainActivity.constructor` | app/src/main/java/com/example/mequieropegaruntiroenlaspelotas/MainActivity.kt:33-41 | a new screen has the first button highlighted, the latch clear and nothing started |
| `MainScreen.MainActivity.OnGestureDetected` | app/src/main/java/com/example/mequieropegaruntiroenlaspelotas/MainActivity.kt:87-99 | the in-place callback reaches the state and intent of `React`; the invariant keeps the index below 2 and at most one intent started, the latch being set iff one was |
| `MainScreen.MainActivity.Analyze` | app/src/main/java/com/example/mequieropegaruntiroenlaspelotas/MainActivity.kt:86-100 | one camera frame: on success the callback runs on the reduced flags; otherwise state and started intents are unchanged; the frame is closed iff it had an image |
| `ButtonScreen.DisplayedText` | app/src/main/java/com/example/mequieropegaruntiroenlaspelotas/ButtonActivity.kt:37 | the text shown is the intent's `button_text` extra when there is one, and "No Text" otherwise |
| `ButtonScreen.React` | app/src/main/java/com/example/mequieropegaruntiroenlaspelotas/ButtonActivity.kt:80-89 | the second screen's callback keeps the index at 0 from an in-range state, raises the latch only on a smile, and starts an intent exactly on a smile with the latch clear; that intent is the return to the first screen, with no extras |
| `ButtonScreen.ShowsLabelSent` | app/src/main/java/com/example/mequieropegaruntiroenlaspelotas/ButtonActivity.kt:37 | round trip across the two screens: the text the second screen shows is exactly the label the first screen put in its intent, for either index |
| `ButtonScreen.ReactGoesBack` | app/src/main/java/com/example/mequieropegaruntiroenlaspelotas/ButtonActivity.kt:80-89 | with one button the index stays 0, even after a blink; a smile with the latch clear sets it and starts the first screen with no label; otherwise nothing is started; an idle frame changes nothing |
| `ButtonScreen.StartsBackAtMostOnce` | app/src/main/java/com/example/mequieropegaruntiroenlaspelotas/ButtonActivity.kt:81-88 | from a fresh screen, after any frames the index is 0 and the first screen was started once if some frame smiled, never otherwise |
| `ButtonScreen.ButtonActivity.constructor` | app/src/main/java/com/example/mequieropegaruntiroenlaspelotas/ButtonActivity.kt:33-43 | a new screen shows the intent's `button_text` or "No Text", highlights its button, and has the latch clear |
| `ButtonScreen.ButtonActivity.OnGestureDetected` | app/src/main/java/com/example/mequieropegaruntiroenlaspelotas/ButtonActivity.kt:80-89 | the in-place callback reaches the state and intent of `React`; the invariant keeps the index 0 and at most one intent started, always the return to the first screen |
| `ButtonScreen.ButtonActivity.Analyze` | app/src/main/java/com/example/mequieropegaruntiroenlaspelotas/ButtonActivity.kt:79-90 | one camera frame: on success the callback runs on the reduced flags; otherwise nothing changes; the frame is closed iff it had an image |

## Left out

- Camera and detector plumbing: camera provider, image analysis use case, lifecycle binding, `unbindAll` and the logging of binding errors. This is platform I/O.
- Face detection itself and the detector options. The detector is a foreign library, so its result is an input (`Detection`).
- UI rendering: the Compose layout, the empty `onClick` handlers and the border highlight. The highlight is only a view of `selectedButtonIndex`.
- Threading: executors, the main-executor listener and the asynchronous success, failure and completion callbacks. Each frame is one sequential step, and frames are handled in arrival order.
- `startActivity` and screen transitions: an intent value is returned and recorded in `started`. Which screen instance runs next is not modelled.
- `Log.e` calls.
- `MAX_BLINK_INTERVAL`: it is declared and never used. No debouncing is modelled.
- Probabilities as IEEE floats: they are reals, and only `<` and `>` against 0.5 are used.
- The camera stall after an unclosed frame: the analyser receives no further frame while one is still open, so a frame without a media image ends the stream. `Run` and `Analyze` keep accepting frames after such a frame; the run lemmas quantify over every frame sequence, so they also hold for the sequences that can really occur.
- Non-string and null extras: extras are a map from strings to strings, so a stored `button_text` always reads back as a string. `getStringExtra` also yields null for a key holding a null or non-String value, and the second screen then shows "No Text"; the only producer in the app (MainActivity.kt:95) stores a non-null String, so no reachable behaviour is lost.
