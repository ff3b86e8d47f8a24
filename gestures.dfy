/**
 * The gesture reducer: what one camera frame's face-detection result
 * means for the screens. Both activities carry the same reducer loop in
 * their `processImageProxy`; it is defined here once.
 *
 * Probabilities are modelled as reals: the code only compares them with
 * 0.5 and never computes with them.
 */
module Gestures {
  import opened Wrappers

  /** The single threshold both classifications are compared against. */
  const Threshold: real := 0.5

  /**
   * One face record reported by the detector. Each classification
   * probability is absent when the detector did not compute it.
   */
  datatype Face = Face(
    smilingProbability: Option<real>,
    leftEyeOpenProbability: Option<real>,
    rightEyeOpenProbability: Option<real>)

  /** The face counts as smiling: its smiling probability is present and above the threshold. */
  predicate Smiles(f: Face) {
    f.smilingProbability.Some? && f.smilingProbability.value > Threshold
  }

  /** The face counts as blinking: both eye-open probabilities are present and below the threshold. */
  predicate Blinks(f: Face) {
    && f.leftEyeOpenProbability.Some?
    && f.rightEyeOpenProbability.Some?
    && f.leftEyeOpenProbability.value < Threshold
    && f.rightEyeOpenProbability.value < Threshold
  }

  /** Some face of the frame smiles. */
  predicate SomeFaceSmiles(faces: seq<Face>) {
    exists i | 0 <= i < |faces| :: Smiles(faces[i])
  }

  /** Some face of the frame blinks. */
  predicate SomeFaceBlinks(faces: seq<Face>) {
    exists i | 0 <= i < |faces| :: Blinks(faces[i])
  }

  /** The two booleans handed to the screen's gesture callback. */
  datatype Gesture = Gesture(blinkDetected: bool, smileDetected: bool)

  /** A frame in which neither gesture was seen. */
  const NoGesture: Gesture := Gesture(false, false)

  /**
   * The reducer as a fold over the face list, in list order: each face
   * can only raise a flag, never lower it.
   */
  function Reduced(faces: seq<Face>): (g: Gesture)
    ensures g.smileDetected <==> SomeFaceSmiles(faces)
    ensures g.blinkDetected <==> SomeFaceBlinks(faces)
    decreases |faces|
  {
    if faces == [] then NoGesture
    else
      var front, f := faces[..|faces| - 1], faces[|faces| - 1];
      var g := Reduced(front);
      assert forall i | 0 <= i < |front| :: front[i] == faces[i];
      Gesture(g.blinkDetected || Blinks(f), g.smileDetected || Smiles(f))
  }

  /**
   * The reducer loop of `processImageProxy`'s success listener: two
   * flags start false and each face may set them.
   */
  method Reduce(faces: seq<Face>) returns (g: Gesture)
    ensures g == Reduced(faces)
    ensures g.smileDetected <==> SomeFaceSmiles(faces)
    ensures g.blinkDetected <==> SomeFaceBlinks(faces)
  {
    var blinkDetected := false;
    var smileDetected := false;
    for k := 0 to |faces|
      invariant Gesture(blinkDetected, smileDetected) == Reduced(faces[..k])
    {
      var face := faces[k];
      if face.smilingProbability.Some? {
        var smileProb := face.smilingProbability.value;
        if smileProb > Threshold {
          smileDetected := true;
        }
      }
      if face.leftEyeOpenProbability.Some? {
        var leftEyeProb := face.leftEyeOpenProbability.value;
        if face.rightEyeOpenProbability.Some? {
          var rightEyeProb := face.rightEyeOpenProbability.value;
          if leftEyeProb < Threshold && rightEyeProb < Threshold {
            blinkDetected := true;
          }
        }
      }
      assert faces[..k + 1][..k] == faces[..k];
    }
    assert faces[..|faces|] == faces;
    g := Gesture(blinkDetected, smileDetected);
  }

  /**
   * The result depends only on which faces occur: not on their order,
   * nor on how often each one occurs.
   */
  lemma {:induction false} ReducedIgnoresOrder(a: seq<Face>, b: seq<Face>)
    requires forall x :: x in a <==> x in b
    ensures Reduced(a) == Reduced(b)
  {
    forall i | 0 <= i < |a| ensures exists j | 0 <= j < |b| :: b[j] == a[i] {
      assert a[i] in b;
    }
    forall j | 0 <= j < |b| ensures exists i | 0 <= i < |a| :: a[i] == b[j] {
      assert b[j] in a;
    }
  }

  /**
   * A face that does not blink (an eye probability missing, or either one
   * at or above the threshold) never decides the blink flag, wherever it
   * stands in the list.
   */
  lemma {:induction false} NonBlinkingFaceIsIgnored(a: seq<Face>, f: Face, b: seq<Face>)
    requires !Blinks(f)
    ensures Reduced(a + [f] + b).blinkDetected == Reduced(a + b).blinkDetected
  {
    var whole, rest := a + [f] + b, a + b;
    if SomeFaceBlinks(whole) {
      var i :| 0 <= i < |whole| && Blinks(whole[i]);
      if i < |a| {
        assert whole[i] == rest[i];
      } else {
        assert whole[i] == rest[i - 1];
      }
    }
    if SomeFaceBlinks(rest) {
      var i :| 0 <= i < |rest| && Blinks(rest[i]);
      if i < |a| {
        assert whole[i] == rest[i];
      } else {
        assert whole[i + 1] == rest[i];
      }
    }
  }

  /** A face that does not smile never decides the smile flag, wherever it stands in the list. */
  lemma {:induction false} NonSmilingFaceIsIgnored(a: seq<Face>, f: Face, b: seq<Face>)
    requires !Smiles(f)
    ensures Reduced(a + [f] + b).smileDetected == Reduced(a + b).smileDetected
  {
    var whole, rest := a + [f] + b, a + b;
    if SomeFaceSmiles(whole) {
      var i :| 0 <= i < |whole| && Smiles(whole[i]);
      if i < |a| {
        assert whole[i] == rest[i];
      } else {
        assert whole[i] == rest[i - 1];
      }
    }
    if SomeFaceSmiles(rest) {
      var i :| 0 <= i < |rest| && Smiles(rest[i]);
      if i < |a| {
        assert whole[i] == rest[i];
      } else {
        assert whole[i + 1] == rest[i];
      }
    }
  }

  /**
   * The outcome of handing one camera frame to the detector: the frame
   * had no media image, detection failed, or it succeeded with a list
   * of faces (possibly empty).
   */
  datatype Detection = NoImage | Failed | Succeeded(faces: seq<Face>)

  /** What the frame delivers to the gesture callback; None when the callback is not called. */
  function Delivered(d: Detection): (r: Option<Gesture>)
    ensures r.Some? <==> d.Succeeded?
  {
    match d
    case Succeeded(faces) => Some(Reduced(faces))
    case _ => None
  }

  /**
   * `processImageProxy`: the gesture callback receives the reduced
   * booleans only on success; the frame is closed by the completion
   * listener, which is registered only when there is a media image.
   */
  method ProcessImageProxy(d: Detection) returns (delivered: Option<Gesture>, closed: bool)
    ensures delivered == Delivered(d)
    ensures d.Succeeded? ==> delivered == Some(Gesture(SomeFaceBlinks(d.faces), SomeFaceSmiles(d.faces)))
    ensures closed <==> !d.NoImage?
  {
    delivered, closed := None, false;
    if !d.NoImage? {
      if d.Succeeded? {
        var g := Reduce(d.faces);
        delivered := Some(g);
      }
      closed := true;
    }
  }
}
