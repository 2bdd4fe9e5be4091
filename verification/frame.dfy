/** One pass over a camera frame: the object detector's boxes are offered
    to the catalogue first, in the order they arrive, then the left and the
    right hand regions derived from the pose model's keypoints. */
module Frame {
  import opened Wrappers
  import opened Geometry
  import opened Discovery
  import opened Catalogue

  /** One box of the object detector: class name, float corners and the
      detector's confidence. */
  datatype ObjectDetection = ObjectDetection(
    name: Label, x1: real, y1: real, x2: real, y2: real, confidence: real)

  /** A hand the pose model is asked about: its catalogue label and the
      keypoint indices of its elbow and wrist. */
  datatype Hand = Hand(name: Label, elbow: nat, wrist: nat)

  const LeftHand: Hand := Hand("hand_left", 7, 9)
  const RightHand: Hand := Hand("hand_right", 8, 10)

  /** The nominal confidence recorded for a hand region; the pose model has
      no confidence of its own for the extrapolated box. */
  const HandConfidence: real := 0.99

  predicate IsHandName(name: Label) {
    name == LeftHand.name || name == RightHand.name
  }

  /** The candidate for one object box: truncated corners, label and
      confidence passed through. */
  function ObjectCandidate(d: ObjectDetection): (c: Candidate)
    ensures c.name == d.name && c.confidence == d.confidence
    ensures c.box == ObjectBox(d.x1, d.y1, d.x2, d.y2)
    ensures d.x1 <= d.x2 && d.y1 <= d.y2 ==> Ordered(c.box)
  {
    Candidate(d.name, ObjectBox(d.x1, d.y1, d.x2, d.y2), d.confidence)
  }

  function ObjectCandidates(ds: seq<ObjectDetection>): (cs: seq<Candidate>)
    ensures |cs| == |ds|
    ensures forall i | 0 <= i < |ds| :: cs[i] == ObjectCandidate(ds[i])
  {
    seq(|ds|, i requires 0 <= i < |ds| => ObjectCandidate(ds[i]))
  }

  /** The candidate for one hand of the first person's keypoints. An index
      past the end of the list skips the hand, as does a keypoint that is
      not visible, and so does a box whose crop is empty: saving an empty
      crop raises before the record is stored, and the hand's handler
      swallows the error. */
  function HandCandidate(keypoints: seq<Keypoint>, hand: Hand, width: nat, height: nat)
    : (r: Option<Candidate>)
    ensures r.Some? <==>
              && hand.elbow < |keypoints| && hand.wrist < |keypoints|
              && keypoints[hand.wrist].x > 0.0 && keypoints[hand.wrist].y > 0.0
              && keypoints[hand.elbow].x > 0.0 && keypoints[hand.elbow].y > 0.0
              && NonEmpty(HandBox(keypoints[hand.elbow], keypoints[hand.wrist], width, height).value)
    ensures r.Some? ==>
              && r.value.name == hand.name
              && r.value.confidence == HandConfidence
              && r.value.box == HandBox(keypoints[hand.elbow], keypoints[hand.wrist], width, height).value
              && Clamped(r.value.box, width, height)
              && NonEmpty(r.value.box)
  {
    match (Get(keypoints, hand.elbow), Get(keypoints, hand.wrist))
    case (Some(elbow), Some(wrist)) =>
      (match HandBox(elbow, wrist, width, height)
       case None => None
       case Some(b) => if NonEmpty(b) then Some(Candidate(hand.name, b, HandConfidence)) else None)
    case _ => None
  }

  function AsSeq<T>(o: Option<T>): (s: seq<T>)
    ensures |s| <= 1
    ensures o.None? ==> s == []
    ensures o.Some? ==> s == [o.value]
  {
    match o
    case None => []
    case Some(v) => [v]
  }

  /** The hand candidates of one pose result, left hand first. A result
      without keypoints yields none. */
  function HandCandidates(pose: Option<seq<Keypoint>>, width: nat, height: nat): (cs: seq<Candidate>)
    ensures pose.None? ==> cs == []
    ensures forall i | 0 <= i < |cs| :: IsHandName(cs[i].name) && cs[i].confidence == HandConfidence
    ensures forall i, j | 0 <= i < |cs| && 0 <= j < |cs|
              && cs[i].name == LeftHand.name && cs[j].name == RightHand.name :: i < j
    ensures pose.Some? ==> cs == AsSeq(HandCandidate(pose.value, LeftHand, width, height))
                               + AsSeq(HandCandidate(pose.value, RightHand, width, height))
  {
    match pose
    case None => []
    case Some(keypoints) =>
      var left := AsSeq(HandCandidate(keypoints, LeftHand, width, height));
      var right := AsSeq(HandCandidate(keypoints, RightHand, width, height));
      HandsInOrder(left, right);
      left + right
  }

  /** At most one left hand followed by at most one right hand. */
  lemma HandsInOrder(left: seq<Candidate>, right: seq<Candidate>)
    requires |left| <= 1 && |right| <= 1
    requires forall c | c in left :: c.name == LeftHand.name && c.confidence == HandConfidence
    requires forall c | c in right :: c.name == RightHand.name && c.confidence == HandConfidence
    ensures var cs := left + right;
            && (forall i | 0 <= i < |cs| :: IsHandName(cs[i].name) && cs[i].confidence == HandConfidence)
            && (forall i, j | 0 <= i < |cs| && 0 <= j < |cs|
                  && cs[i].name == LeftHand.name && cs[j].name == RightHand.name :: i < j)
  {
    HandNamesDistinct();
  }

  /** The two hand labels differ ("hand_left" and "hand_right" part at
      their sixth character). */
  lemma HandNamesDistinct()
    ensures LeftHand.name != RightHand.name
  {
    assert LeftHand.name[5] != RightHand.name[5];
  }

  /** Everything offered to the catalogue in one frame, in offering order:
      one candidate per object box, in arrival order, then the hands. */
  function FrameCandidates(objects: seq<ObjectDetection>, pose: Option<seq<Keypoint>>,
                           width: nat, height: nat): (cs: seq<Candidate>)
    ensures |cs| == |objects| + |HandCandidates(pose, width, height)|
    ensures forall k | 0 <= k < |objects| :: cs[k] == ObjectCandidate(objects[k])
    ensures cs[|objects|..] == HandCandidates(pose, width, height)
  {
    ObjectCandidates(objects) + HandCandidates(pose, width, height)
  }

  /** One frame: offer every object box, then each hand, at time `time`. */
  function ProcessFrame(s: State, objects: seq<ObjectDetection>, pose: Option<seq<Keypoint>>,
                        width: nat, height: nat, time: string): (s': State)
    ensures Valid(s) ==> Valid(s')
    ensures |s.entries| <= |s'.entries| && s'.entries[..|s.entries|] == s.entries
  {
    OfferAll(s, FrameCandidates(objects, pose, width, height), time)
  }

  /** A run of frames, processed in order, each with its own time. */
  function ProcessFrames(s: State, frames: seq<(seq<ObjectDetection>, Option<seq<Keypoint>>)>,
                         times: seq<string>, width: nat, height: nat): (s': State)
    requires |times| == |frames|
    ensures Valid(s) ==> Valid(s')
    ensures |s.entries| <= |s'.entries| && s'.entries[..|s.entries|] == s.entries
    decreases |frames|
  {
    if frames == [] then s
    else
      var n := |frames| - 1;
      var before := ProcessFrames(s, frames[..n], times[..n], width, height);
      var after := ProcessFrame(before, frames[n].0, frames[n].1, width, height, times[n]);
      assert after.entries[..|s.entries|] == before.entries[..|s.entries|];
      after
  }

  /** The labels a frame offers: the object boxes' class names in order,
      then hand labels only, a left hand before a right hand. */
  lemma FrameLabels(objects: seq<ObjectDetection>, pose: Option<seq<Keypoint>>, width: nat, height: nat)
    ensures var offered, m := CandidateLabels(FrameCandidates(objects, pose, width, height)), |objects|;
            && m <= |offered|
            && (forall k | 0 <= k < m :: offered[k] == objects[k].name)
            && (forall k | m <= k < |offered| :: IsHandName(offered[k]))
            && forall i, j | m <= i < |offered| && m <= j < |offered|
                 && offered[i] == LeftHand.name && offered[j] == RightHand.name :: i < j
  {
    var objs := ObjectCandidates(objects);
    var hands := HandCandidates(pose, width, height);
    var offered := CandidateLabels(objs + hands);
    forall k | |objs| <= k < |offered| ensures offered[k] == hands[k - |objs|].name {
    }
  }

  /** Every label a frame newly accepts from an object box comes before any
      hand label it newly accepts (the detector's class names are assumed
      not to be hand labels). */
  lemma ObjectsBeforeHands(s: State, objects: seq<ObjectDetection>, pose: Option<seq<Keypoint>>,
                           width: nat, height: nat, time: string)
    requires Valid(s)
    requires forall k | 0 <= k < |objects| :: !IsHandName(objects[k].name)
    ensures var ls, n := Labels(ProcessFrame(s, objects, pose, width, height, time).entries), |s.entries|;
            forall i, j | n <= i < |ls| && n <= j < |ls|
                          && (exists k | 0 <= k < |objects| :: objects[k].name == ls[i])
                          && IsHandName(ls[j])
              :: i < j
  {
    var cs := FrameCandidates(objects, pose, width, height);
    var offered := CandidateLabels(cs);
    var ls, n := Labels(OfferAll(s, cs, time).entries), |s.entries|;
    FrameLabels(objects, pose, width, height);
    forall i, j | n <= i < |ls| && n <= j < |ls|
                  && (exists k | 0 <= k < |objects| :: objects[k].name == ls[i])
                  && IsHandName(ls[j])
      ensures i < j
    {
      var k :| 0 <= k < |objects| && objects[k].name == ls[i];
      ObjectBeforeHand(s, objects, pose, width, height, time, i, j, k);
    }
  }

  /** `ObjectsBeforeHands` for one object label at `i`, first offered no
      later than box `k`, and one hand label at `j`. */
  lemma ObjectBeforeHand(s: State, objects: seq<ObjectDetection>, pose: Option<seq<Keypoint>>,
                         width: nat, height: nat, time: string, i: nat, j: nat, k: nat)
    requires Valid(s)
    requires forall k' | 0 <= k' < |objects| :: !IsHandName(objects[k'].name)
    requires var ls := Labels(ProcessFrame(s, objects, pose, width, height, time).entries);
             && |s.entries| <= i < |ls| && |s.entries| <= j < |ls|
             && k < |objects| && objects[k].name == ls[i] && IsHandName(ls[j])
    ensures i < j
  {
    var cs := FrameCandidates(objects, pose, width, height);
    var offered := CandidateLabels(cs);
    var ls := Labels(OfferAll(s, cs, time).entries);
    OfferAllNewPair(s, cs, time, i, j);
    ObjectOfferedBeforeHand(objects, pose, width, height, k, FirstIndex(offered, ls[j]));
    assert offered[k] == ls[i];
    assert FirstIndex(offered, ls[i]) <= k;
  }

  /** Among the labels a frame offers, every object box's label comes
      before any hand label when no object box carries a hand label. */
  lemma ObjectOfferedBeforeHand(objects: seq<ObjectDetection>, pose: Option<seq<Keypoint>>,
                                width: nat, height: nat, a: nat, b: nat)
    requires forall k | 0 <= k < |objects| :: !IsHandName(objects[k].name)
    requires var offered := CandidateLabels(FrameCandidates(objects, pose, width, height));
             && a < |objects| && b < |offered| && IsHandName(offered[b])
    ensures a < b
    ensures CandidateLabels(FrameCandidates(objects, pose, width, height))[a] == objects[a].name
  {
    FrameLabels(objects, pose, width, height);
  }

  /** A frame that newly accepts both hands accepts the left one first. */
  lemma LeftHandBeforeRight(s: State, objects: seq<ObjectDetection>, pose: Option<seq<Keypoint>>,
                            width: nat, height: nat, time: string)
    requires Valid(s)
    requires forall k | 0 <= k < |objects| :: !IsHandName(objects[k].name)
    ensures var ls, n := Labels(ProcessFrame(s, objects, pose, width, height, time).entries), |s.entries|;
            forall i, j | n <= i < |ls| && n <= j < |ls|
                          && ls[i] == LeftHand.name && ls[j] == RightHand.name
              :: i < j
  {
    var ls, n := Labels(ProcessFrame(s, objects, pose, width, height, time).entries), |s.entries|;
    forall i, j | n <= i < |ls| && n <= j < |ls|
                  && ls[i] == LeftHand.name && ls[j] == RightHand.name
      ensures i < j
    {
      LeftBeforeRightPair(s, objects, pose, width, height, time, i, j);
    }
  }

  /** `LeftHandBeforeRight` for one left-hand position `i` and one
      right-hand position `j`. */
  lemma LeftBeforeRightPair(s: State, objects: seq<ObjectDetection>, pose: Option<seq<Keypoint>>,
                            width: nat, height: nat, time: string, i: nat, j: nat)
    requires Valid(s)
    requires forall k | 0 <= k < |objects| :: !IsHandName(objects[k].name)
    requires var ls := Labels(ProcessFrame(s, objects, pose, width, height, time).entries);
             && |s.entries| <= i < |ls| && |s.entries| <= j < |ls|
             && ls[i] == LeftHand.name && ls[j] == RightHand.name
    ensures i < j
  {
    var cs := FrameCandidates(objects, pose, width, height);
    var offered := CandidateLabels(cs);
    var ls := Labels(OfferAll(s, cs, time).entries);
    OfferAllNewPair(s, cs, time, i, j);
    OfferedHandsInOrder(objects, pose, width, height,
                        FirstIndex(offered, ls[i]), FirstIndex(offered, ls[j]));
  }

  /** Among the labels a frame offers, a left hand comes before a right
      hand when no object box carries a hand label. */
  lemma OfferedHandsInOrder(objects: seq<ObjectDetection>, pose: Option<seq<Keypoint>>,
                            width: nat, height: nat, a: nat, b: nat)
    requires forall k | 0 <= k < |objects| :: !IsHandName(objects[k].name)
    requires var offered := CandidateLabels(FrameCandidates(objects, pose, width, height));
             && a < |offered| && b < |offered|
             && offered[a] == LeftHand.name && offered[b] == RightHand.name
    ensures a < b
  {
    FrameLabels(objects, pose, width, height);
    var offered := CandidateLabels(FrameCandidates(objects, pose, width, height));
    assert IsHandName(offered[a]) && IsHandName(offered[b]);
  }

  /** A hand whose pair is rejected (an index out of range, a keypoint
      not visible or an empty crop) is not catalogued by the frame unless it was already
      there or an object box carries its label. */
  lemma RejectedHandNotCatalogued(s: State, objects: seq<ObjectDetection>, keypoints: seq<Keypoint>,
                                  hand: Hand, width: nat, height: nat, time: string)
    requires Valid(s)
    requires hand == LeftHand || hand == RightHand
    requires HandCandidate(keypoints, hand, width, height).None?
    requires hand.name !in Labels(s.entries)
    requires forall k | 0 <= k < |objects| :: objects[k].name != hand.name
    ensures hand.name !in Labels(ProcessFrame(s, objects, Some(keypoints), width, height, time).entries)
  {
    var cs := FrameCandidates(objects, Some(keypoints), width, height);
    OfferAllMembers(s, cs, time, hand.name);
    assert hand.name !in CandidateLabels(cs) by {
      forall i | 0 <= i < |cs| ensures cs[i].name != hand.name {
        if i < |objects| {
          assert cs[i] == ObjectCandidate(objects[i]);
        }
      }
    }
  }

  /** An accepted hand whose label is neither present already nor carried
      by an object box of the frame is catalogued by the frame, with the
      record made from its own candidate. */
  lemma AcceptedHandCatalogued(s: State, objects: seq<ObjectDetection>, keypoints: seq<Keypoint>,
                               hand: Hand, width: nat, height: nat, time: string, c: Candidate)
    requires hand == LeftHand || hand == RightHand
    requires HandCandidate(keypoints, hand, width, height) == Some(c)
    requires hand.name !in Labels(s.entries)
    requires forall k | 0 <= k < |objects| :: objects[k].name != hand.name
    ensures Lookup(ProcessFrame(s, objects, Some(keypoints), width, height, time).entries, hand.name)
         == Some(NewRecord(c, time))
  {
    var k := HandFirstCarrier(objects, keypoints, hand, width, height, c);
    OfferAllFirstCarrier(s, FrameCandidates(objects, Some(keypoints), width, height), time, k);
  }

  /** Where an accepted hand sits among a frame's offers: after the object
      boxes and, for the right hand, after an accepted left hand; every
      offer before it carries another label. */
  lemma HandFirstCarrier(objects: seq<ObjectDetection>, keypoints: seq<Keypoint>,
                         hand: Hand, width: nat, height: nat, c: Candidate) returns (k: nat)
    requires hand == LeftHand || hand == RightHand
    requires HandCandidate(keypoints, hand, width, height) == Some(c)
    requires forall k | 0 <= k < |objects| :: objects[k].name != hand.name
    ensures var cs := FrameCandidates(objects, Some(keypoints), width, height);
            && |objects| <= k < |cs| && cs[k] == c
            && forall i | 0 <= i < k :: cs[i].name != hand.name
  {
    var cs := FrameCandidates(objects, Some(keypoints), width, height);
    var hands := HandCandidates(Some(keypoints), width, height);
    var left := AsSeq(HandCandidate(keypoints, LeftHand, width, height));
    var j := if hand == LeftHand then 0 else |left|;
    assert hands[j] == c;
    k := |objects| + j;
    assert cs[k] == hands[j] by {
      assert cs[|objects|..] == hands;
    }
    forall i | 0 <= i < k ensures cs[i].name != hand.name {
      if i < |objects| {
        assert cs[i] == ObjectCandidate(objects[i]);
      } else {
        HandNamesDistinct();
      }
    }
  }

  /** A frame without object boxes whose only visible hand pair has its
      wrist on the "not visible" sentinel changes nothing: no record, no
      narration. */
  lemma SentinelWristExample(s: State, time: string)
    ensures var keypoints := seq(17, i =>
              if i == 7 then Keypoint(100.0, 200.0)
              else if i == 9 then Keypoint(0.0, 150.0)
              else Keypoint(0.0, 0.0));
            ProcessFrame(s, [], Some(keypoints), 640, 480, time) == s
  {
    var keypoints := seq(17, i =>
      if i == 7 then Keypoint(100.0, 200.0)
      else if i == 9 then Keypoint(0.0, 150.0)
      else Keypoint(0.0, 0.0));
    assert HandCandidate(keypoints, LeftHand, 640, 480).None?;
    assert HandCandidate(keypoints, RightHand, 640, 480).None?;
    assert FrameCandidates([], Some(keypoints), 640, 480) == [];
  }

  /** A pair whose box lies outside a 640 x 480 frame (elbow at x = 700)
      yields an inverted box, whose crop is empty: the frame changes
      nothing. */
  lemma InvertedHandExample(s: State, time: string)
    ensures var keypoints := seq(17, i =>
              if i == 7 then Keypoint(700.0, 100.0)
              else if i == 9 then Keypoint(710.0, 100.0)
              else Keypoint(0.0, 0.0));
            ProcessFrame(s, [], Some(keypoints), 640, 480, time) == s
  {
    var keypoints := seq(17, i =>
      if i == 7 then Keypoint(700.0, 100.0)
      else if i == 9 then Keypoint(710.0, 100.0)
      else Keypoint(0.0, 0.0));
    assert keypoints[7] == Keypoint(700.0, 100.0) && keypoints[9] == Keypoint(710.0, 100.0);
    assert keypoints[10] == Keypoint(0.0, 0.0);
    HandBoxOutsideFrameIsInverted();
    assert HandCandidate(keypoints, LeftHand, 640, 480).None?;
    assert HandCandidate(keypoints, RightHand, 640, 480).None?;
    assert FrameCandidates([], Some(keypoints), 640, 480) == [];
  }
}
