/** The unique-vehicle counter: the set of track ids already counted and the
    running count beside it, the sets that specify what they hold, and the
    properties of those sets. */
module UniqueCount {
  import opened Detections

  // ---------------------------------------------------------------------
  // Specification
  // ---------------------------------------------------------------------

  /** The id one box contributes: its track id when it qualifies. */
  function BoxIds(d: Detection): set<int>
  {
    if Qualifies(d) && d.trackId.Some? then {d.trackId.value} else {}
  }

  /** The distinct track ids of the qualifying boxes of one frame, box after
      box. */
  function QualifyingIds(boxes: seq<Detection>): set<int>
  {
    if boxes == [] then {} else QualifyingIds(boxes[..|boxes| - 1]) + BoxIds(boxes[|boxes| - 1])
  }

  /** The distinct ids one tracker result contributes; a result without boxes
      contributes none. */
  function FrameIds(f: Frame): set<int>
  {
    if f.Some? then QualifyingIds(f.value) else {}
  }

  /** The distinct ids contributed by a run of frames, frame after frame. */
  function RunIds(frames: seq<Frame>): set<int>
  {
    if frames == [] then {} else RunIds(frames[..|frames| - 1]) + FrameIds(frames[|frames| - 1])
  }

  predicate BoxesTracked(boxes: seq<Detection>)
  {
    forall j :: 0 <= j < |boxes| ==> Tracked(boxes[j])
  }

  predicate RunTracked(frames: seq<Frame>)
  {
    forall i :: 0 <= i < |frames| && frames[i].Some? ==> BoxesTracked(frames[i].value)
  }

  // ---------------------------------------------------------------------
  // Properties of the specification
  // ---------------------------------------------------------------------

  /** An id is among a frame's ids exactly when some qualifying box of the
      frame carries it. */
  lemma {:induction false} QualifyingIdsMember(boxes: seq<Detection>, id: int)
    ensures id in QualifyingIds(boxes) <==>
            exists j :: 0 <= j < |boxes| && Qualifies(boxes[j]) && boxes[j].trackId == Some(id)
  {
    if boxes != [] {
      var n := |boxes| - 1;
      var init := boxes[..n];
      QualifyingIdsMember(init, id);
      assert forall j :: 0 <= j < n ==> init[j] == boxes[j];
    }
  }

  /** Appending one box adds its id when it qualifies and nothing otherwise. */
  lemma QualifyingIdsSnoc(boxes: seq<Detection>, d: Detection)
    ensures QualifyingIds(boxes + [d]) == QualifyingIds(boxes) + BoxIds(d)
  {
  }

  /** A box that does not qualify contributes nothing, wherever in the frame
      it sits. */
  lemma FilteredBoxIgnored(a: seq<Detection>, d: Detection, b: seq<Detection>)
    requires !Qualifies(d)
    ensures QualifyingIds(a + [d] + b) == QualifyingIds(a + b)
  {
    var s, t := a + [d] + b, a + b;
    forall id | id in QualifyingIds(s) ensures id in QualifyingIds(t) {
      QualifyingIdsMember(s, id);
      QualifyingIdsMember(t, id);
      var i :| 0 <= i < |s| && Qualifies(s[i]) && s[i].trackId == Some(id);
      var k := if i < |a| then i else i - 1;
      assert t[k] == s[i];
    }
    forall id | id in QualifyingIds(t) ensures id in QualifyingIds(s) {
      QualifyingIdsMember(s, id);
      QualifyingIdsMember(t, id);
      var k :| 0 <= k < |t| && Qualifies(t[k]) && t[k].trackId == Some(id);
      var i := if k < |a| then k else k + 1;
      assert s[i] == t[k];
    }
  }

  /** Seeing a qualifying box a second time, right after the first, adds
      nothing. */
  lemma RepeatedBoxIdempotent(boxes: seq<Detection>, d: Detection)
    ensures QualifyingIds(boxes + [d, d]) == QualifyingIds(boxes + [d])
  {
    assert boxes + [d, d] == (boxes + [d]) + [d];
    QualifyingIdsSnoc(boxes, d);
    QualifyingIdsSnoc(boxes + [d], d);
  }

  /** An id belongs to the run's ids exactly when some qualifying box of some
      frame of the run carries it: the count is the number of distinct ids
      among all qualifying detections, never more, never less. */
  lemma {:induction false} RunIdsMember(frames: seq<Frame>, id: int)
    ensures id in RunIds(frames) <==>
            exists i, j :: 0 <= i < |frames| && frames[i].Some? && 0 <= j < |frames[i].value|
                           && Qualifies(frames[i].value[j]) && frames[i].value[j].trackId == Some(id)
  {
    if frames != [] {
      var n := |frames| - 1;
      var init := frames[..n];
      RunIdsMember(init, id);
      assert forall i :: 0 <= i < n ==> init[i] == frames[i];
      if id in RunIds(frames) {
        if id in FrameIds(frames[n]) {
          QualifyingIdsMember(frames[n].value, id);
          var j :| 0 <= j < |frames[n].value| && Qualifies(frames[n].value[j])
                   && frames[n].value[j].trackId == Some(id);
        }
      } else {
        forall i, j | 0 <= i < |frames| && frames[i].Some? && 0 <= j < |frames[i].value|
          ensures !(Qualifies(frames[i].value[j]) && frames[i].value[j].trackId == Some(id))
        {
          if i == n {
            QualifyingIdsMember(frames[n].value, id);
          } else {
            assert init[i] == frames[i];
          }
        }
      }
    }
  }

  /** Reading one more frame adds that frame's ids. */
  lemma RunIdsNext(frames: seq<Frame>, k: nat)
    requires k < |frames|
    ensures RunIds(frames[..k + 1]) == RunIds(frames[..k]) + FrameIds(frames[k])
  {
    assert frames[..k + 1][..k] == frames[..k];
  }

  /** The ids of a prefix of a run are among those of the whole run. */
  lemma {:induction false} RunIdsPrefix(frames: seq<Frame>, i: nat)
    requires i <= |frames|
    ensures RunIds(frames[..i]) <= RunIds(frames)
  {
    if i == |frames| {
      assert frames[..i] == frames;
    } else {
      var n := |frames| - 1;
      RunIdsPrefix(frames[..n], i);
      assert frames[..n][..i] == frames[..i];
    }
  }

  lemma SubsetCardinality(a: set<int>, b: set<int>)
    requires a <= b
    ensures |a| <= |b|
  {
    assert b == a + (b - a);
  }

  /** The count shown after a later frame is never below the count shown after
      an earlier one. */
  lemma CountNeverDecreases(frames: seq<Frame>, i: nat, j: nat)
    requires i <= j <= |frames|
    ensures |RunIds(frames[..i])| <= |RunIds(frames[..j])|
  {
    RunIdsPrefix(frames[..j], i);
    assert frames[..j][..i] == frames[..i];
    SubsetCardinality(RunIds(frames[..i]), RunIds(frames[..j]));
  }

  lemma {:induction false} NoQualifyingBoxNoIds(boxes: seq<Detection>)
    requires forall j :: 0 <= j < |boxes| ==> !Qualifies(boxes[j])
    ensures QualifyingIds(boxes) == {}
  {
    if boxes != [] {
      NoQualifyingBoxNoIds(boxes[..|boxes| - 1]);
    }
  }

  /** A stream whose frames hold no qualifying box counts nothing. */
  lemma {:induction false} NoQualifyingBoxesCountsZero(frames: seq<Frame>)
    requires forall i, j :: 0 <= i < |frames| && frames[i].Some? && 0 <= j < |frames[i].value|
                            ==> !Qualifies(frames[i].value[j])
    ensures |RunIds(frames)| == 0
  {
    if frames != [] {
      var n := |frames| - 1;
      NoQualifyingBoxesCountsZero(frames[..n]);
      if frames[n].Some? {
        NoQualifyingBoxNoIds(frames[n].value);
      }
    }
  }

  /** The same frame seen `n` times in a row counts its ids once. */
  lemma {:induction false} RepeatedFrameCountsOnce(f: Frame, n: nat)
    ensures RunIds(seq(n, _ => f)) == if n == 0 then {} else FrameIds(f)
  {
    if n > 0 {
      RepeatedFrameCountsOnce(f, n - 1);
      assert seq(n, _ => f)[..n - 1] == seq(n - 1, _ => f);
    }
  }

  function Car(id: int): Detection
  {
    Detection(TargetLabel, 0.9, Some(id), Box(0, 0, 10, 10))
  }

  /** Ids 5, 5, 7, all passing the filter, count 2. */
  lemma FiveFiveSevenCountsTwo()
    ensures |QualifyingIds([Car(5), Car(5), Car(7)])| == 2
  {
    var s := [Car(5), Car(5), Car(7)];
    assert s[..2] == [Car(5), Car(5)] && s[..2][..1] == [Car(5)] && [Car(5)][..0] == [];
    assert QualifyingIds(s) == {5, 7};
  }

  /** Ids 1, 2, 3 where 2 is a truck count 2. */
  lemma TruckIsNotCounted()
    ensures |QualifyingIds([Car(1), Car(2).(className := "truck"), Car(3)])| == 2
  {
    var truck := Car(2).(className := "truck");
    var s := [Car(1), truck, Car(3)];
    assert s[..2] == [Car(1), truck] && s[..2][..1] == [Car(1)] && [Car(1)][..0] == [];
    assert truck.className[0] != TargetLabel[0];
    assert BoxIds(truck) == {};
    assert QualifyingIds([Car(1)]) == {1};
    assert QualifyingIds([Car(1), truck]) == {1};
    assert QualifyingIds(s) == {1, 3};
  }

  /** Id 9 in 100 consecutive frames counts once. */
  lemma IdNineOverHundredFramesCountsOnce()
    ensures |RunIds(seq(100, _ => Some([Car(9)])))| == 1
  {
    RepeatedFrameCountsOnce(Some([Car(9)]), 100);
    assert [Car(9)][..0] == [];
    assert QualifyingIds([Car(9)]) == {9};
  }

  // ---------------------------------------------------------------------
  // The counter the loops update in place
  // ---------------------------------------------------------------------

  /** `seen` is the loop's `tracked_ids`, `count` its `car_count`. */
  class Counter {
    var seen: set<int>
    var count: nat

    /** The count always equals the number of ids seen. */
    ghost predicate Valid()
      reads this
    {
      count == |seen|
    }

    /** A run starts with no id seen and a count of zero. */
    constructor ()
      ensures Valid() && seen == {} && count == 0
    {
      seen := {};
      count := 0;
    }

    /** One box: a qualifying box whose id is new adds that id and raises
        the count by one; any other box changes nothing. */
    method Observe(d: Detection)
      requires Valid() && Tracked(d)
      modifies this
      ensures Valid()
      ensures Qualifies(d) && d.trackId.value !in old(seen) ==>
                seen == old(seen) + {d.trackId.value} && count == old(count) + 1
      ensures !(Qualifies(d) && d.trackId.value !in old(seen)) ==>
                seen == old(seen) && count == old(count)
    {
      if d.className == TargetLabel && d.conf > Threshold {
        var trackId := d.trackId.value;
        if trackId !in seen {
          seen := seen + {trackId};
          count := count + 1;
        }
      }
    }

    /** All boxes of one frame, in order: the ids seen grow by the frame's
        qualifying ids and the count stays their number. */
    method ObserveFrame(boxes: seq<Detection>)
      requires Valid() && BoxesTracked(boxes)
      modifies this
      ensures Valid()
      ensures seen == old(seen) + QualifyingIds(boxes)
      ensures count == |old(seen) + QualifyingIds(boxes)| && old(count) <= count
    {
      for k := 0 to |boxes|
        invariant Valid()
        invariant seen == old(seen) + QualifyingIds(boxes[..k])
        invariant old(count) <= count
      {
        assert boxes[..k + 1] == boxes[..k] + [boxes[k]];
        QualifyingIdsSnoc(boxes[..k], boxes[k]);
        Observe(boxes[k]);
      }
      assert boxes[..|boxes|] == boxes;
    }
  }
}
