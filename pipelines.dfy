/** The two frame loops that drive the counter: the web dashboard's, which
    runs to the end of the video and shows the count after every frame, and
    the desktop window's, which skips frames without boxes and stops after a
    frame on which the quit key was pressed. The video is the sequence of
    tracker results, one per frame read. */
module Pipelines {
  import opened Detections
  import opened UniqueCount

  /** The counts the dashboard shows, one after each frame of the run. */
  function CountsShown(frames: seq<Frame>): (shown: seq<nat>)
    ensures |shown| == |frames|
  {
    if frames == [] then [] else CountsShown(frames[..|frames| - 1]) + [|RunIds(frames)|]
  }

  /** Reading one more frame shows one more count: the new total. */
  lemma CountsShownNext(frames: seq<Frame>, k: nat)
    requires k < |frames|
    ensures CountsShown(frames[..k + 1]) == CountsShown(frames[..k]) + [|RunIds(frames[..k + 1])|]
  {
    assert frames[..k + 1][..k] == frames[..k];
  }

  /** One count is shown per frame: the number of distinct qualifying ids in
      the frames up to and including it. */
  lemma {:induction false} CountsShownAt(frames: seq<Frame>, i: nat)
    requires i < |frames|
    ensures CountsShown(frames)[i] == |RunIds(frames[..i + 1])|
  {
    var n := |frames| - 1;
    assert CountsShown(frames) == CountsShown(frames[..n]) + [|RunIds(frames)|];
    if i < n {
      CountsShownAt(frames[..n], i);
      assert frames[..n][..i + 1] == frames[..i + 1];
    } else {
      assert frames[..i + 1] == frames;
    }
  }

  /** Counts that never go down from one entry to a later one and never
      exceed `bound`. */
  predicate NeverDecreasing(shown: seq<nat>, bound: nat)
  {
    forall i, j :: 0 <= i <= j < |shown| ==> shown[i] <= shown[j] <= bound
  }

  lemma AppendKeepsNeverDecreasing(shown: seq<nat>, bound: nat, next: nat)
    requires NeverDecreasing(shown, bound) && bound <= next
    ensures NeverDecreasing(shown + [next], next)
  {
  }

  /** The dashboard loop: every frame is processed, a frame without boxes
      counts nothing, the count is shown after each frame, and the final
      count is the number of distinct qualifying ids of the whole run. */
  method RunDashboard(frames: seq<Frame>) returns (carCount: nat, shown: seq<nat>)
    requires RunTracked(frames)
    ensures carCount == |RunIds(frames)|
    ensures shown == CountsShown(frames)
    ensures NeverDecreasing(shown, carCount)
  {
    var counter := new Counter();
    shown := [];
    var k := 0;
    while k < |frames|
      invariant 0 <= k <= |frames|
      invariant counter.Valid() && counter.seen == RunIds(frames[..k])
      invariant shown == CountsShown(frames[..k])
      invariant NeverDecreasing(shown, counter.count)
    {
      var boxes := frames[k];
      ghost var before := counter.count;
      RunIdsNext(frames, k);
      CountsShownNext(frames, k);
      if boxes.Some? {
        counter.ObserveFrame(boxes.value);
      }
      AppendKeepsNeverDecreasing(shown, before, counter.count);
      shown := shown + [counter.count];
      k := k + 1;
    }
    assert frames[..k] == frames;
    carCount := counter.count;
  }

  /** How many frames the window loop reads before it stops, given for each
      frame whether the quit key was down when the loop polled the keyboard
      after it. The keyboard is polled only after a frame that has boxes. */
  function StopAfter(frames: seq<Frame>, quit: seq<bool>): (n: nat)
    requires |quit| == |frames|
    ensures n <= |frames|
    ensures forall i :: 0 <= i < n - 1 ==> !(frames[i].Some? && quit[i])
    ensures n < |frames| ==> 0 < n && frames[n - 1].Some? && quit[n - 1]
  {
    if frames == [] then 0
    else if frames[0].Some? && quit[0] then 1
    else 1 + StopAfter(frames[1..], quit[1..])
  }

  /** A frame before the first quit is still read, so its boxes carry ids. */
  lemma StillReading(frames: seq<Frame>, quit: seq<bool>, k: nat)
    requires |quit| == |frames| && k < |frames|
    requires RunTracked(frames[..StopAfter(frames, quit)])
    requires forall i :: 0 <= i < k ==> !(frames[i].Some? && quit[i])
    requires frames[k].Some?
    ensures k < StopAfter(frames, quit)
    ensures BoxesTracked(frames[k].value)
  {
    assert frames[..StopAfter(frames, quit)][k] == frames[k];
  }

  /** Where the loop stops, by the end of the video or by a quit, is where
      StopAfter says it stops. */
  lemma StopAfterReached(frames: seq<Frame>, quit: seq<bool>, k: nat)
    requires |quit| == |frames| && k <= |frames|
    requires forall i :: 0 <= i < k - 1 ==> !(frames[i].Some? && quit[i])
    requires k == |frames| || (0 < k && frames[k - 1].Some? && quit[k - 1])
    ensures StopAfter(frames, quit) == k
  {
  }

  /** The window loop, ending with the printed total: the number of distinct
      qualifying ids in the frames read before it stopped. */
  method RunWindow(frames: seq<Frame>, quit: seq<bool>) returns (total: nat)
    requires |quit| == |frames|
    requires RunTracked(frames[..StopAfter(frames, quit)])
    ensures total == |RunIds(frames[..StopAfter(frames, quit)])|
  {
    var counter := new Counter();
    var k := 0;
    while k < |frames|
      invariant 0 <= k <= |frames|
      invariant forall i :: 0 <= i < k ==> !(frames[i].Some? && quit[i])
      invariant counter.Valid() && counter.seen == RunIds(frames[..k])
    {
      var boxes := frames[k];
      RunIdsNext(frames, k);
      k := k + 1;
      if boxes.None? {
        continue;
      }
      StillReading(frames, quit, k - 1);
      counter.ObserveFrame(boxes.value);
      if quit[k - 1] {
        break;
      }
    }
    StopAfterReached(frames, quit, k);
    total := counter.count;
  }

  /** When the quit key is never pressed, the window loop reads every frame
      and its printed total counts the same ids as the dashboard's. */
  lemma {:induction false} WindowWithoutQuitReadsAll(frames: seq<Frame>, quit: seq<bool>)
    requires |quit| == |frames|
    requires forall i :: 0 <= i < |quit| ==> !quit[i]
    ensures StopAfter(frames, quit) == |frames|
    ensures RunIds(frames[..StopAfter(frames, quit)]) == RunIds(frames)
  {
    assert frames[..|frames|] == frames;
  }
}
