/**
 The application loop of `main.cpp`: the render mode and the events that
 change it, the preparation of a frame, and the way each render stage splits
 its vertices or faces between `THREAD_COUNT` tasks. The window, the camera
 and the thread pool itself are outside the model; a stage's tasks are
 modelled as run one after another, in any order.
 */
module App {
  import opened Words
  import opened Geometry
  import opened Images
  import opened Meshes
  import opened Gl
  import opened Render

  /** `THREAD_COUNT`. */
  const ThreadCount: int := 16

  /** The index of the last regular task. */
  const LastTask: int := ThreadCount - 1

  // ----- splitting a stage between tasks -----

  /** The share of one task: `count / THREAD_COUNT`, rounded down. */
  function Share(n: nat): nat
  {
    n / ThreadCount
  }

  /** The regular range of task `i`: `[i * share, (i + 1) * share)`. */
  function Regular(n: nat, i: int): Span
  {
    Span(i * Share(n), (i + 1) * Share(n))
  }

  /**
   The split of the vertex stage and of the line stage: the sixteen regular
   ranges, then, after the last, one more task from the last range's start
   to the end of the list.
   */
  function TailSplit(n: nat): (sps: seq<Span>)
    ensures |sps| == ThreadCount + 1
    ensures forall i :: 0 <= i < ThreadCount ==> sps[i] == Regular(n, i)
    ensures sps[ThreadCount] == Span((ThreadCount - 1) * Share(n), n)
  {
    seq(ThreadCount + 1, i requires 0 <= i <= ThreadCount =>
      if i < ThreadCount then Regular(n, i) else Span((ThreadCount - 1) * Share(n), n))
  }

  /**
   The split of the two triangle stages: the sixteen regular ranges only; the
   assignment that stretches the last range to the end comes after that
   task was handed over, and changes no task.
   */
  function RegularSplit(n: nat): (sps: seq<Span>)
    ensures |sps| == ThreadCount
    ensures forall i :: 0 <= i < ThreadCount ==> sps[i] == Regular(n, i)
  {
    seq(ThreadCount, i requires 0 <= i < ThreadCount => Regular(n, i))
  }

  /** Where `i` falls among the regular ranges when there is at least one item per task. */
  lemma RegularRangeOf(n: nat, i: int)
    requires Share(n) > 0 && 0 <= i
    ensures InSpan(Regular(n, i / Share(n)), i)
  {
    var k := Share(n);
    var j := i / k;
    assert j * k <= i < (j + 1) * k by {
      assert i == j * k + i % k;
    }
  }

  lemma RegularCoverBelow(n: nat, i: int)
    requires 0 <= i < ThreadCount * Share(n)
    ensures exists j :: 0 <= j < ThreadCount && InSpan(Regular(n, j), i)
  {
    var k := Share(n);
    RegularRangeOf(n, i);
    var j := i / k;
    if j >= ThreadCount {
      MulMonotone(k, ThreadCount, j);
      assert false;
    }
    assert 0 <= j < ThreadCount && InSpan(Regular(n, j), i);
  }

  lemma RegularCoverWithin(n: nat, i: int, j: int)
    requires 0 <= j < ThreadCount && InSpan(Regular(n, j), i)
    ensures 0 <= i < ThreadCount * Share(n)
  {
    var k := Share(n);
    MulMonotone(k, 0, j);
    MulMonotone(k, j + 1, ThreadCount);
  }

  /** The regular ranges together hold exactly the items below `16 * share`. */
  lemma RegularCover(n: nat, i: int)
    ensures (exists j :: 0 <= j < ThreadCount && InSpan(Regular(n, j), i)) <==> 0 <= i < ThreadCount * Share(n)
  {
    if 0 <= i < ThreadCount * Share(n) {
      RegularCoverBelow(n, i);
    }
    if exists j :: 0 <= j < ThreadCount && InSpan(Regular(n, j), i) {
      var j :| 0 <= j < ThreadCount && InSpan(Regular(n, j), i);
      RegularCoverWithin(n, i, j);
    }
  }

  lemma RegularFits(n: nat, i: int)
    requires 0 <= i < ThreadCount
    ensures 0 <= Regular(n, i).lo <= Regular(n, i).hi <= n
  {
    var k := Share(n);
    MulMonotone(k, 0, i);
    MulMonotone(k, i, i + 1);
    MulMonotone(k, i + 1, ThreadCount);
    assert ThreadCount * k <= n;
  }

  /** An item of the last regular range also lies in the extra task. */
  lemma TailOverlap(n: nat, i: int)
    requires (ThreadCount - 1) * Share(n) <= i < ThreadCount * Share(n)
    ensures InSpan(TailSplit(n)[LastTask], i) && InSpan(TailSplit(n)[ThreadCount], i)
  {
    var k := Share(n);
    assert ThreadCount * k <= n;
    assert TailSplit(n)[ThreadCount - 1] == Span((ThreadCount - 1) * k, ThreadCount * k);
  }

  /**
   The vertex and line split stays inside the list and hands every item to
   some task; but the items from `15 * share` up to `16 * share` all go to
   two tasks, the last regular one and the extra one.
   */
  lemma TailSplitSpec(n: nat)
    ensures AllFit(TailSplit(n), n)
    ensures forall i :: Covers(TailSplit(n), i) <==> 0 <= i < n
    ensures forall i :: (ThreadCount - 1) * Share(n) <= i < ThreadCount * Share(n) ==>
              InSpan(TailSplit(n)[LastTask], i)
    ensures forall i :: (ThreadCount - 1) * Share(n) <= i < ThreadCount * Share(n) ==>
              InSpan(TailSplit(n)[ThreadCount], i)
  {
    TailSplitCovers(n);
    forall i | (ThreadCount - 1) * Share(n) <= i < ThreadCount * Share(n)
      ensures InSpan(TailSplit(n)[LastTask], i) && InSpan(TailSplit(n)[ThreadCount], i)
    {
      TailOverlap(n, i);
    }
  }

  /** The vertex and line split stays inside the list and hands every item to some task. */
  lemma TailSplitCovers(n: nat)
    ensures AllFit(TailSplit(n), n)
    ensures forall i :: Covers(TailSplit(n), i) <==> 0 <= i < n
  {
    var sps, k := TailSplit(n), Share(n);
    assert ThreadCount * k <= n;
    forall j | 0 <= j < |sps| ensures SpanFits(sps[j], n) {
      if j < ThreadCount {
        RegularFits(n, j);
      } else {
        RegularFits(n, ThreadCount - 1);
      }
    }
    forall i ensures Covers(sps, i) <==> 0 <= i < n {
      RegularCover(n, i);
      if 0 <= i < n && i >= (ThreadCount - 1) * k {
        assert InSpan(sps[ThreadCount], i);
      }
      if 0 <= i < n && i < (ThreadCount - 1) * k {
        MulMonotone(k, ThreadCount - 1, ThreadCount);
        var j :| 0 <= j < ThreadCount && InSpan(Regular(n, j), i);
        assert InSpan(sps[j], i);
      }
      if Covers(sps, i) {
        var j :| 0 <= j < |sps| && InSpan(sps[j], i);
        if j < ThreadCount {
          RegularFits(n, j);
        } else {
          RegularFits(n, ThreadCount - 1);
        }
      }
    }
  }

  /**
   The triangle split stays inside the list but hands over only the items
   below `16 * share`: when the count is not a multiple of sixteen, the last
   `count % 16` items go to no task.
   */
  lemma RegularSplitSpec(n: nat)
    ensures AllFit(RegularSplit(n), n)
    ensures forall i :: Covers(RegularSplit(n), i) <==> 0 <= i < n - n % ThreadCount
    ensures n % ThreadCount != 0 ==> !Covers(RegularSplit(n), n - 1)
  {
    var sps := RegularSplit(n);
    forall j | 0 <= j < |sps| ensures SpanFits(sps[j], n) {
      RegularFits(n, j);
    }
    forall i ensures Covers(sps, i) <==> 0 <= i < n - n % ThreadCount {
      RegularCover(n, i);
      if Covers(sps, i) {
        var j :| 0 <= j < |sps| && InSpan(sps[j], i);
        assert InSpan(Regular(n, j), i);
      }
      if exists j :: 0 <= j < ThreadCount && InSpan(Regular(n, j), i) {
        var j :| 0 <= j < ThreadCount && InSpan(Regular(n, j), i);
        assert InSpan(sps[j], i);
      }
    }
  }

  /**
   The split the three stages evidently intend: the sixteen regular ranges,
   the last one stretched to the end of the list.
   */
  function PartitionSplit(n: nat): (sps: seq<Span>)
    ensures |sps| == ThreadCount
    ensures forall i :: 0 <= i < ThreadCount - 1 ==> sps[i] == Regular(n, i)
    ensures sps[ThreadCount - 1] == Span((ThreadCount - 1) * Share(n), n)
  {
    seq(ThreadCount, i requires 0 <= i < ThreadCount =>
      if i < ThreadCount - 1 then Regular(n, i) else Span(i * Share(n), n))
  }

  /** The ranges of the intended split follow each other without gap or overlap. */
  lemma PartitionOrdered(n: nat, j1: int, j2: int)
    requires 0 <= j1 < j2 < ThreadCount
    ensures PartitionSplit(n)[j1].hi <= PartitionSplit(n)[j2].lo
  {
    MulMonotone(Share(n), j1 + 1, j2);
  }

  /** The intended split hands every item of the list to exactly one task, and nothing else. */
  lemma PartitionSplitSpec(n: nat)
    ensures AllFit(PartitionSplit(n), n)
    ensures forall i :: Covers(PartitionSplit(n), i) <==> 0 <= i < n
    ensures forall i, j1, j2 ::
              (&& 0 <= j1 < ThreadCount && 0 <= j2 < ThreadCount
               && InSpan(PartitionSplit(n)[j1], i) && InSpan(PartitionSplit(n)[j2], i)) ==> j1 == j2
  {
    var sps, k := PartitionSplit(n), Share(n);
    forall j | 0 <= j < |sps| ensures SpanFits(sps[j], n) {
      RegularFits(n, j);
    }
    forall i ensures Covers(sps, i) <==> 0 <= i < n {
      RegularCover(n, i);
      if 0 <= i < n && i >= (ThreadCount - 1) * k {
        assert InSpan(sps[ThreadCount - 1], i);
      }
      if 0 <= i < n && i < (ThreadCount - 1) * k {
        MulMonotone(k, ThreadCount - 1, ThreadCount);
        var j :| 0 <= j < ThreadCount && InSpan(Regular(n, j), i);
        if j == ThreadCount - 1 {
          assert false;
        }
        assert InSpan(sps[j], i);
      }
      if Covers(sps, i) {
        var j :| 0 <= j < |sps| && InSpan(sps[j], i);
        RegularFits(n, j);
      }
    }
    forall i, j1, j2 | 0 <= j1 < ThreadCount && 0 <= j2 < ThreadCount
        && InSpan(sps[j1], i) && InSpan(sps[j2], i)
      ensures j1 == j2
    {
      if j1 < j2 {
        PartitionOrdered(n, j1, j2);
      } else if j2 < j1 {
        PartitionOrdered(n, j2, j1);
      }
    }
  }

  // ----- render modes and events -----

  /** `RenderMode`. */
  datatype Mode = Lines | TriangleSimpleLight | SpecLight

  /** The mode the application starts in. */
  const InitialMode: Mode := Lines

  /** The key codes of the digit keys `1`, `2` and `3`. */
  const Key1: int := 0x31
  const Key2: int := 0x32
  const Key3: int := 0x33

  /** The mode after a key press: `1`, `2` and `3` choose a mode, any other key keeps the mode. */
  function ModeForKey(mode: Mode, key: int): Mode
  {
    if key == Key1 then Lines
    else if key == Key2 then TriangleSimpleLight
    else if key == Key3 then SpecLight
    else mode
  }

  function KeyOf(mode: Mode): int
  {
    match mode
    case Lines => Key1
    case TriangleSimpleLight => Key2
    case SpecLight => Key3
  }

  /** Every mode has its key, which selects it from any mode; the other keys change nothing. */
  lemma ModeKeys(mode: Mode, m: Mode, key: int)
    ensures ModeForKey(mode, KeyOf(m)) == m
    ensures key != Key1 && key != Key2 && key != Key3 ==> ModeForKey(mode, key) == mode
    ensures ModeForKey(mode, key) != mode ==> key == KeyOf(ModeForKey(mode, key))
  {
  }

  /** The events the loop reacts to; `Motion`'s flag is its left-button test, `WindowClose`'s whether the window is ours. */
  datatype Event = Quit | WindowClose(ours: bool) | Wheel | Motion(leftButton: bool) | KeyDown(key: int) | Exposed | OtherEvent

  datatype LoopState = LoopState(mode: Mode, running: bool, rerender: bool)

  predicate Stops(e: Event)
  {
    e.Quit? || (e.WindowClose? && e.ours)
  }

  predicate Redraws(e: Event)
  {
    e.Wheel? || (e.Motion? && e.leftButton) || e.KeyDown? || e.Exposed?
  }

  /** A press of one of the keys that choose a mode. */
  predicate SelectsMode(e: Event)
  {
    e.KeyDown? && (e.key == Key1 || e.key == Key2 || e.key == Key3)
  }

  /** One event of the polling loop. */
  function OnEvent(st: LoopState, e: Event): LoopState
  {
    match e
    case Quit => st.(running := false)
    case WindowClose(ours) => if ours then st.(running := false) else st
    case Wheel => st.(rerender := true)
    case Motion(left) => if left then st.(rerender := true) else st
    case KeyDown(key) => st.(mode := ModeForKey(st.mode, key), rerender := true)
    case Exposed => st.(rerender := true)
    case OtherEvent => st
  }

  /** The events of one pass of the main loop, in order. */
  function Poll(st: LoopState, events: seq<Event>): LoopState
    decreases |events|
  {
    if |events| == 0 then st else OnEvent(Poll(st, events[..|events| - 1]), events[|events| - 1])
  }

  /**
   After a batch of events, the frame is redrawn exactly when one of them asks
   for it, and the loop ends exactly when one of them closes the window. The
   mode is the one chosen by the last press of `1`, `2` or `3`, and stays as
   it was when there is no such press.
   */
  lemma {:induction false} PollSpec(st: LoopState, events: seq<Event>)
    ensures Poll(st, events).rerender <==> st.rerender || exists i :: 0 <= i < |events| && Redraws(events[i])
    ensures Poll(st, events).running <==> st.running && forall i :: 0 <= i < |events| ==> !Stops(events[i])
    ensures Poll(st, events).mode != st.mode ==> exists i :: 0 <= i < |events| && events[i].KeyDown?
    ensures (forall i :: 0 <= i < |events| ==> !SelectsMode(events[i])) ==> Poll(st, events).mode == st.mode
    ensures forall i :: 0 <= i < |events| && SelectsMode(events[i]) && (forall j :: i < j < |events| ==> !SelectsMode(events[j])) ==>
              events[i] == KeyDown(KeyOf(Poll(st, events).mode))
    decreases |events|
  {
    if |events| > 0 {
      var init, e := events[..|events| - 1], events[|events| - 1];
      PollSpec(st, init);
      assert forall i :: 0 <= i < |init| ==> init[i] == events[i];
      var prev := Poll(st, init).mode;
      ModeKeys(prev, prev, if e.KeyDown? then e.key else 0);
      if SelectsMode(e) {
        assert e == KeyDown(KeyOf(Poll(st, events).mode));
        forall i | 0 <= i < |events| && SelectsMode(events[i]) && (forall j :: i < j < |events| ==> !SelectsMode(events[j]))
          ensures events[i] == KeyDown(KeyOf(Poll(st, events).mode))
        {
          if i < |init| {
            assert false;
          }
        }
      } else {
        assert Poll(st, events).mode == prev;
      }
      if exists i :: 0 <= i < |events| && Redraws(events[i]) {
        var i :| 0 <= i < |events| && Redraws(events[i]);
        if i < |init| {
          assert Redraws(init[i]);
        }
      }
      if Poll(st, events).mode != st.mode && Poll(st, init).mode == st.mode {
        assert events[|events| - 1].KeyDown?;
      }
    }
  }

  /** Which split a mode's face stage uses. */
  function FaceSplit(mode: Mode, nfaces: nat): seq<Span>
  {
    if mode == Lines then TailSplit(nfaces) else RegularSplit(nfaces)
  }

  /**
   Every face is handed to some task exactly when the mode draws lines or
   the face count is a multiple of sixteen.
   */
  lemma FaceSplitComplete(mode: Mode, nfaces: nat)
    ensures (forall i :: 0 <= i < nfaces ==> Covers(FaceSplit(mode, nfaces), i))
            <==> mode == Lines || nfaces % ThreadCount == 0
  {
    TailSplitSpec(nfaces);
    RegularSplitSpec(nfaces);
    if mode != Lines && nfaces % ThreadCount != 0 {
      assert !Covers(FaceSplit(mode, nfaces), nfaces - 1);
    }
  }

  // ----- one frame -----

  /** `renderSDL`'s preparation: the image resized to the window and cleared to black. */
  function PrepareFrame(img: Image, w: int, h: int): (r: Image)
    requires 0 <= w && 0 <= h
    ensures Valid(r) && r.width == w && r.height == h
    ensures forall i :: 0 <= i < |r.buffer| ==> r.buffer[i] == 0
    ensures Size(r) <= |r.buffer|
  {
    Clear(Resize(img, w, h), 0)
  }

  /** The lines of a batch of tasks, in the order they are handed over. */
  function Gather(f: int -> seq<LineCmd>, sps: seq<Span>): seq<LineCmd>
    decreases |sps|
  {
    if |sps| == 0 then []
    else Gather(f, sps[..|sps| - 1]) + Concat(f, sps[|sps| - 1].lo, sps[|sps| - 1].hi)
  }

  lemma {:induction false} ConcatMember(f: int -> seq<LineCmd>, lo: int, hi: int, c: LineCmd)
    ensures c in Concat(f, lo, hi) <==> exists i :: lo <= i < hi && c in f(i)
    decreases hi - lo
  {
    if lo < hi {
      ConcatMember(f, lo, hi - 1, c);
      if exists i :: lo <= i < hi && c in f(i) {
        var i :| lo <= i < hi && c in f(i);
        if i < hi - 1 {
          assert c in Concat(f, lo, hi - 1);
        }
      }
    }
  }

  /** A line is among a batch's lines exactly when it is a line of an item some task of the batch holds. */
  lemma {:induction false} GatherMember(f: int -> seq<LineCmd>, sps: seq<Span>, c: LineCmd)
    ensures c in Gather(f, sps) <==> exists i :: Covers(sps, i) && c in f(i)
    decreases |sps|
  {
    if |sps| > 0 {
      var init, last := sps[..|sps| - 1], sps[|sps| - 1];
      GatherMember(f, init, c);
      ConcatMember(f, last.lo, last.hi, c);
      if exists i :: Covers(sps, i) && c in f(i) {
        var i :| Covers(sps, i) && c in f(i);
        var k :| 0 <= k < |sps| && InSpan(sps[k], i);
        if k < |init| {
          assert InSpan(init[k], i);
        } else {
          assert InSpan(last, i);
        }
      }
      if exists i :: Covers(init, i) && c in f(i) {
        var i :| Covers(init, i) && c in f(i);
        var k :| 0 <= k < |init| && InSpan(init[k], i);
        assert InSpan(sps[k], i);
      }
    }
  }

  /** The tasks' lines: each task's faces in order, the tasks in the order handed over. */
  function TasksLines(m: Model, sps: seq<Span>, width: int, height: int): seq<LineCmd>
  {
    Gather(FaceFn(m, width, height), sps)
  }

  /**
   The vertex stage: the tasks of the vertex split, run in any order (any
   sequence holding the same tasks, however often each occurs), leave every
   vertex of the model transformed.
   */
  lemma VertexStageComplete(m: Model, mvp: Vec4 -> Vec4, order: seq<Span>)
    requires |m.transformed| == |m.verts|
    requires forall sp :: sp in order <==> sp in TailSplit(NVerts(m))
    ensures AllFit(order, |m.verts|)
    ensures forall i :: 0 <= i < NVerts(m) ==>
              TransformAll(m, mvp, order).transformed[i] == mvp(Homogeneous(Vert(m, i)))
  {
    var sps := TailSplit(NVerts(m));
    TailSplitSpec(NVerts(m));
    forall k | 0 <= k < |order| ensures SpanFits(order[k], |m.verts|) {
      assert order[k] in sps;
    }
    forall i | 0 <= i < |m.verts| ensures Covers(order, i) {
      assert Covers(sps, i);
      var k :| 0 <= k < |sps| && InSpan(sps[k], i);
      assert sps[k] in order;
    }
    TransformAllComplete(m, mvp, order);
  }

  /**
   A line stage whose tasks together hold exactly the faces of the model
   draws the image a single pass over all faces draws, whatever the order in
   which the tasks finish and however many of them share a face.
   */
  lemma StageMatchesSinglePass(img: Image, m: Model, sps: seq<Span>, width: int, height: int)
    requires Valid(img) && SpanReady(m, Span(0, NFaces(m)))
    requires forall i :: Covers(sps, i) <==> 0 <= i < NFaces(m)
    ensures forall k :: 0 <= k < |sps| ==> SpanReady(m, sps[k])
    ensures DrawAll(img, TasksLines(m, sps, width, height))
            == DrawAll(img, LineTask(m, Span(0, NFaces(m)), width, height))
  {
    var n := NFaces(m);
    forall k | 0 <= k < |sps| ensures SpanReady(m, sps[k]) {
      forall iface | sps[k].lo <= iface < sps[k].hi ensures FaceReady(m, iface) {
        assert InSpan(sps[k], iface);
        assert Covers(sps, iface);
      }
    }
    var a := TasksLines(m, sps, width, height);
    var b := LineTask(m, Span(0, n), width, height);
    LineTaskShape(m, Span(0, n), width, height);
    forall c ensures c in a <==> c in b {
      GatherMember(FaceFn(m, width, height), sps, c);
      ConcatMember(FaceFn(m, width, height), 0, n, c);
    }
    forall idx | 0 <= idx < |a| ensures a[idx].color == White {
      assert a[idx] in b;
    }
    SameLinesSameImage(img, a, b, White);
  }

  /**
   The line stage as handed over draws what a single pass draws, although
   two of its tasks share faces.
   */
  lemma LineStageMatchesSinglePass(img: Image, m: Model, width: int, height: int)
    requires Valid(img) && SpanReady(m, Span(0, NFaces(m)))
    ensures DrawAll(img, TasksLines(m, TailSplit(NFaces(m)), width, height))
            == DrawAll(img, LineTask(m, Span(0, NFaces(m)), width, height))
  {
    TailSplitSpec(NFaces(m));
    StageMatchesSinglePass(img, m, TailSplit(NFaces(m)), width, height);
  }

  /**
   The split every stage should use: the intended partition, whatever the
   mode. It takes the mode, as `FaceSplit` does, so that it can stand in for
   `FaceSplit` unchanged; the mode no longer matters.
   */
  function FaceSplitCorrected(mode: Mode, nfaces: nat): seq<Span>
  {
    PartitionSplit(nfaces)
  }

  /** With the intended split every face goes to exactly one task in every mode, and the line stage still draws what a single pass draws. */
  lemma FaceSplitCorrectedComplete(img: Image, mode: Mode, m: Model, width: int, height: int)
    requires Valid(img) && SpanReady(m, Span(0, NFaces(m)))
    ensures forall i :: 0 <= i < NFaces(m) ==> Covers(FaceSplitCorrected(mode, NFaces(m)), i)
    ensures DrawAll(img, TasksLines(m, FaceSplitCorrected(mode, NFaces(m)), width, height))
            == DrawAll(img, LineTask(m, Span(0, NFaces(m)), width, height))
  {
    PartitionSplitSpec(NFaces(m));
    StageMatchesSinglePass(img, m, PartitionSplit(NFaces(m)), width, height);
  }
}
