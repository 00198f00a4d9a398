/**
 * A monitoring session: the tracker fed one frame after another, as the
 * capture callback does, and the behaviour over several frames that follows
 * from the single-frame rules.
 */
module Sessions {
  import opened Wrappers
  import opened Detections
  import opened StabilityTracking
  import opened TrackerProperties

  /** One captured frame: its detections and the time it was processed. */
  datatype Frame = Frame(detections: seq<DetectedText>, at: Time)

  /** The table after a session, and what each frame announced. */
  datatype Run = Run(table: Table, fired: seq<seq<StableDetection>>)

  /** The frames of a session ingested in capture order. */
  function Replay(t: Table, frames: seq<Frame>): (r: Run)
    ensures |r.fired| == |frames|
  {
    if frames == [] then Run(t, [])
    else
      var prior := Replay(t, frames[..|frames| - 1]);
      var last := frames[|frames| - 1];
      var s := Ingest(prior.table, last.detections, last.at);
      Run(s.table, prior.fired + [s.events])
  }

  /** However long a session runs, the table invariant holds after it, and
      the table holds exactly the keys of the last frame. */
  lemma {:induction false} ReplayKeepsInvariant(t: Table, frames: seq<Frame>)
    requires WellFormed(t)
    ensures WellFormed(Replay(t, frames).table)
    ensures frames != [] ==> Replay(t, frames).table.Keys == FrameKeys(frames[|frames| - 1].detections)
  {
    if frames != [] {
      ReplayKeepsInvariant(t, frames[..|frames| - 1]);
      var last := frames[|frames| - 1];
      IngestFacts(Replay(t, frames[..|frames| - 1]).table, last.detections, last.at);
    }
  }

  /** Later frames never revise what earlier frames announced: the first
      `m` frames of a session announce what they would on their own. */
  lemma {:induction false} ReplayPrefix(t: Table, frames: seq<Frame>, m: int)
    requires 0 <= m <= |frames|
    ensures Replay(t, frames[..m]).fired == Replay(t, frames).fired[..m]
    decreases |frames|
  {
    if m < |frames| {
      var pre := frames[..|frames| - 1];
      ReplayPrefix(t, pre, m);
      assert pre[..m] == frames[..m];
    } else {
      assert frames[..m] == frames;
    }
  }

  /** Frame `i` of a session announces exactly what ingesting it announces
      against the table the frames before it left. */
  lemma ReplayAnnouncements(t: Table, frames: seq<Frame>, i: int)
    requires 0 <= i < |frames|
    ensures Replay(t, frames).fired[i] == Ingest(Replay(t, frames[..i]).table, frames[i].detections, frames[i].at).events
  {
    ReplayPrefix(t, frames, i + 1);
    assert frames[..i + 1][..i] == frames[..i];
    assert frames[..i + 1][i] == frames[i];
  }

  /** A frame with a single detection keeps only that detection's key, with
      the entry the detection leaves for it. */
  lemma LoneFrame(t: Table, d: DetectedText, now: Time)
    ensures var step := Observe(t, d, now);
            Ingest(t, [d], now) == Scan(map[Key(d.text) := step.table[Key(d.text)]], ToSeq(step.fired))
  {
    AbsorbOne(t, d, now);
    assert [d][..0] == [];
    assert FrameKeys([d]) == {Key(d.text)};
  }

  /** A frame without detections forgets everything and announces nothing. */
  lemma EmptyFrame(t: Table, now: Time)
    ensures Ingest(t, [], now) == Scan(map[], [])
  {
  }

  /** The one detection of a frame, for a key the table alone tracks, at a box
      similar to the tracked one: the run grows by one, and is announced when
      it reaches `RequiredFrames`. */
  lemma SteadyFrame(t: Table, d: DetectedText, now: Time, e: StableDetection)
    requires t == map[Key(d.text) := e]
    requires Similar(e.box, d.box)
    ensures var next := e.(frameCount := e.frameCount + 1, box := d.box, lastSeen := now);
            Ingest(t, [d], now) == Scan(map[Key(d.text) := next], if next.frameCount == RequiredFrames then [next] else [])
  {
    LoneFrame(t, d, now);
  }

  /** The one detection of a frame, for a key the table alone tracks, at a box
      that does not match the tracked one: the run restarts at 1. */
  lemma MovedFrame(t: Table, d: DetectedText, now: Time, e: StableDetection)
    requires t == map[Key(d.text) := e]
    requires !Similar(e.box, d.box)
    ensures Ingest(t, [d], now) == Scan(map[Key(d.text) := e.(frameCount := 1, box := d.box, lastSeen := now)], [])
  {
    LoneFrame(t, d, now);
  }

  /** Detection `j` is the one detection of the frame whose key is `k`. */
  ghost predicate SightedOnce(ds: seq<DetectedText>, k: string, j: int) {
    && 0 <= j < |ds|
    && Key(ds[j].text) == k
    && forall i :: 0 <= i < |ds| && i != j ==> Key(ds[i].text) != k
  }

  /** Every frame of the session mentions key `k` exactly once, at position
      `pos[i]` among whatever other text it shows, and each time at a box
      that does not match the box of the previous frame. */
  ghost predicate Jumping(frames: seq<Frame>, k: string, pos: seq<int>)
    decreases |frames|
  {
    && |pos| == |frames|
    && (forall i :: 0 <= i < |frames| ==> SightedOnce(frames[i].detections, k, pos[i]))
    && (|frames| >= 2 ==>
          var n := |frames|;
          && Jumping(frames[..n - 1], k, pos[..n - 1])
          && !Similar(frames[n - 2].detections[pos[n - 2]].box, frames[n - 1].detections[pos[n - 1]].box))
  }

  /** A frame of a session shows one detection whose key the table does not
      track at that point: the table then tracks just that key, with a run
      of 1, and the frame announces nothing. */
  lemma FreshNext(t: Table, frames: seq<Frame>)
    requires |frames| >= 1 && |frames[|frames| - 1].detections| == 1
    requires Key(frames[|frames| - 1].detections[0].text) !in Replay(t, frames[..|frames| - 1]).table
    ensures var n := |frames|;
            var d := frames[n - 1].detections[0];
            Replay(t, frames).table == map[Key(d.text) := Fresh(d, frames[n - 1].at)]
    ensures Replay(t, frames).fired == Replay(t, frames[..|frames| - 1]).fired + [[]]
  {
    var n := |frames|;
    var d := frames[n - 1].detections[0];
    assert frames[n - 1].detections == [d];
    LoneFrame(Replay(t, frames[..n - 1]).table, d, frames[n - 1].at);
  }

  /** A frame of a session without detections empties the table and
      announces nothing. */
  lemma EmptyNext(t: Table, frames: seq<Frame>)
    requires |frames| >= 1 && frames[|frames| - 1].detections == []
    ensures Replay(t, frames).table == map[]
    ensures Replay(t, frames).fired == Replay(t, frames[..|frames| - 1]).fired + [[]]
  {
    var n := |frames|;
    EmptyFrame(Replay(t, frames[..n - 1]).table, frames[n - 1].at);
  }

  /** A later frame of a session shows one detection, for the key the table
      alone tracks, at a box similar to the tracked one: the run grows by
      one, and is announced when it reaches `RequiredFrames`. */
  lemma SteadyNext(t: Table, frames: seq<Frame>, e: StableDetection)
    requires |frames| >= 2 && |frames[|frames| - 1].detections| == 1
    requires Replay(t, frames[..|frames| - 1]).table == map[Key(frames[|frames| - 1].detections[0].text) := e]
    requires Similar(e.box, frames[|frames| - 1].detections[0].box)
    ensures var n := |frames|;
            var d := frames[n - 1].detections[0];
            var next := e.(frameCount := e.frameCount + 1, box := d.box, lastSeen := frames[n - 1].at);
            && Replay(t, frames).table == map[Key(d.text) := next]
            && Replay(t, frames).fired == Replay(t, frames[..n - 1]).fired + [if next.frameCount == RequiredFrames then [next] else []]
  {
    var n := |frames|;
    var d := frames[n - 1].detections[0];
    assert frames[n - 1].detections == [d];
    SteadyFrame(Replay(t, frames[..n - 1]).table, d, frames[n - 1].at, e);
  }

  /** A later frame of a session shows one detection, for the key the table
      alone tracks, at a box that does not match the tracked one: the run
      restarts at 1 and nothing is announced. */
  lemma MovedNext(t: Table, frames: seq<Frame>, e: StableDetection)
    requires |frames| >= 2 && |frames[|frames| - 1].detections| == 1
    requires Replay(t, frames[..|frames| - 1]).table == map[Key(frames[|frames| - 1].detections[0].text) := e]
    requires !Similar(e.box, frames[|frames| - 1].detections[0].box)
    ensures var n := |frames|;
            var d := frames[n - 1].detections[0];
            Replay(t, frames).table == map[Key(d.text) := e.(frameCount := 1, box := d.box, lastSeen := frames[n - 1].at)]
    ensures Replay(t, frames).fired == Replay(t, frames[..|frames| - 1]).fired + [[]]
  {
    var n := |frames|;
    var d := frames[n - 1].detections[0];
    assert frames[n - 1].detections == [d];
    MovedFrame(Replay(t, frames[..n - 1]).table, d, frames[n - 1].at, e);
  }

  /** Every frame of the session shows detection `d` and nothing else. */
  ghost predicate Identical(frames: seq<Frame>, d: DetectedText) {
    forall i :: 0 <= i < |frames| ==> frames[i].detections == [d]
  }

  /** The same detection shown frame after frame, starting from a table that
      does not track its key: after n frames its key is the only one tracked,
      with a count of n and the time of the latest frame. */
  lemma {:induction false} SteadyRunEntry(t: Table, d: DetectedText, frames: seq<Frame>)
    requires Key(d.text) !in t
    requires |frames| >= 1 && Identical(frames, d)
    ensures Replay(t, frames).table == map[Key(d.text) := StableDetection(d.text, d.box, d.confidence, |frames|, frames[|frames| - 1].at)]
  {
    var n := |frames|;
    assert frames[n - 1].detections == [d];
    if n == 1 {
      assert frames[..0] == [];
      FreshNext(t, frames);
    } else {
      var pre := frames[..n - 1];
      assert Identical(pre, d);
      SteadyRunEntry(t, d, pre);
      assert pre[n - 2] == frames[n - 2];
      SimilarReflexive(d.box);
      SteadyNext(t, frames, StableDetection(d.text, d.box, d.confidence, n - 1, frames[n - 2].at));
    }
  }

  /** In such a session, the second frame announces the key with a count
      of 2, and every later frame announces nothing. */
  lemma SteadyRunStep(t: Table, d: DetectedText, frames: seq<Frame>)
    requires Key(d.text) !in t
    requires |frames| >= 2 && Identical(frames, d)
    ensures var e := StableDetection(d.text, d.box, d.confidence, 2, frames[1].at);
            Replay(t, frames).fired == Replay(t, frames[..|frames| - 1]).fired + [if |frames| == 2 then [e] else []]
  {
    var n := |frames|;
    var pre := frames[..n - 1];
    assert frames[n - 1].detections == [d];
    assert Identical(pre, d);
    SteadyRunEntry(t, d, pre);
    assert pre[n - 2] == frames[n - 2];
    SimilarReflexive(d.box);
    SteadyNext(t, frames, StableDetection(d.text, d.box, d.confidence, n - 1, frames[n - 2].at));
  }

  /** The same detection shown frame after frame, starting from a table that
      does not track its key, is announced exactly once: on the second frame,
      with a frame count of 2 -- not on the first, and not on any later one. */
  lemma {:induction false} SteadyRunFiresOnce(t: Table, d: DetectedText, frames: seq<Frame>)
    requires Key(d.text) !in t
    requires |frames| >= 1 && Identical(frames, d)
    ensures |frames| >= 2 ==> Replay(t, frames).fired[1] == [StableDetection(d.text, d.box, d.confidence, 2, frames[1].at)]
    ensures forall i :: 0 <= i < |frames| && i != 1 ==> Replay(t, frames).fired[i] == []
  {
    var n := |frames|;
    if n == 1 {
      assert frames[..0] == [];
      assert frames[0].detections == [d];
      FreshNext(t, frames);
    } else {
      var pre := frames[..n - 1];
      assert Identical(pre, d);
      SteadyRunFiresOnce(t, d, pre);
      assert n > 2 ==> pre[1] == frames[1];
      SteadyRunStep(t, d, frames);
    }
  }

  /** A key shown frame after frame, each time at a box that does not match
      the previous one, starting from a table that does not track it: every
      move restarts its count at 1, so after any number of frames its count
      is 1, its box is the latest one, and its text and confidence are those
      of its first sighting. Whatever else the frames show does not matter.
      Showing one text alternately at two places that do not match is the
      simplest such session. */
  lemma {:induction false} JumpingKeyEntry(t: Table, k: string, frames: seq<Frame>, pos: seq<int>)
    requires WellFormed(t) && k !in t
    requires |frames| >= 1 && Jumping(frames, k, pos)
    ensures var n := |frames|;
            var first := frames[0].detections[pos[0]];
            var table := Replay(t, frames).table;
            && k in table
            && table[k] == StableDetection(first.text, frames[n - 1].detections[pos[n - 1]].box, first.confidence, 1, frames[n - 1].at)
  {
    var n := |frames|;
    var last := frames[n - 1];
    assert SightedOnce(last.detections, k, pos[n - 1]);
    var pre := frames[..n - 1];
    if n == 1 {
      assert pre == [];
      FirstSighting(t, last.detections, pos[0], last.at);
    } else {
      JumpingKeyEntry(t, k, pre, pos[..n - 1]);
      assert pre[0] == frames[0] && pre[n - 2] == frames[n - 2];
      assert pos[..n - 1][0] == pos[0] && pos[..n - 1][n - 2] == pos[n - 2];
      ReplayKeepsInvariant(t, pre);
      DissimilarSighting(Replay(t, pre).table, last.detections, pos[n - 1], last.at);
    }
  }

  /** A frame that mentions a key once, when the key is untracked or tracked
      at a box that does not match, announces nothing for that key. */
  lemma UnmatchedSightingQuiet(t: Table, ds: seq<DetectedText>, k: string, j: int, now: Time)
    requires WellFormed(t) && SightedOnce(ds, k, j)
    requires k in t ==> !Similar(t[k].box, ds[j].box)
    ensures Keyed(Ingest(t, ds, now).events, k) == []
  {
    if k in t {
      DissimilarSighting(t, ds, j, now);
    } else {
      FirstSighting(t, ds, j, now);
    }
  }

  /** The same, for the latest frame of a session. */
  lemma UnmatchedSightingNext(t: Table, frames: seq<Frame>, k: string, j: int)
    requires WellFormed(t) && |frames| >= 1
    requires SightedOnce(frames[|frames| - 1].detections, k, j)
    requires var prior := Replay(t, frames[..|frames| - 1]).table;
             k in prior ==> !Similar(prior[k].box, frames[|frames| - 1].detections[j].box)
    ensures Keyed(Replay(t, frames).fired[|frames| - 1], k) == []
  {
    var n := |frames|;
    ReplayKeepsInvariant(t, frames[..n - 1]);
    UnmatchedSightingQuiet(Replay(t, frames[..n - 1]).table, frames[n - 1].detections, k, j, frames[n - 1].at);
  }

  /** In such a session, from the second frame on, the key is tracked at a
      box that the latest frame's sighting does not match. */
  lemma JumpingKeyMoves(t: Table, k: string, frames: seq<Frame>, pos: seq<int>)
    requires WellFormed(t) && k !in t
    requires |frames| >= 2 && Jumping(frames, k, pos)
    ensures var n := |frames|;
            var prior := Replay(t, frames[..n - 1]).table;
            k in prior && !Similar(prior[k].box, frames[n - 1].detections[pos[n - 1]].box)
  {
    var n := |frames|;
    var pre := frames[..n - 1];
    JumpingKeyEntry(t, k, pre, pos[..n - 1]);
    assert pre[n - 2] == frames[n - 2] && pos[..n - 1][n - 2] == pos[n - 2];
  }

  /** In such a session, the latest frame announces nothing about the key. */
  lemma JumpingKeyQuiet(t: Table, k: string, frames: seq<Frame>, pos: seq<int>)
    requires WellFormed(t) && k !in t
    requires |frames| >= 1 && Jumping(frames, k, pos)
    ensures Keyed(Replay(t, frames).fired[|frames| - 1], k) == []
  {
    var n := |frames|;
    assert SightedOnce(frames[n - 1].detections, k, pos[n - 1]);
    if n == 1 {
      assert frames[..0] == [];
    } else {
      JumpingKeyMoves(t, k, frames, pos);
    }
    UnmatchedSightingNext(t, frames, k, pos[n - 1]);
  }

  /** A key shown frame after frame, each time at a box that does not match
      the previous one, is never announced, whatever else the frames show. */
  lemma {:induction false} JumpingKeyNeverFires(t: Table, k: string, frames: seq<Frame>, pos: seq<int>)
    requires WellFormed(t) && k !in t
    requires Jumping(frames, k, pos)
    ensures forall i :: 0 <= i < |frames| ==> Keyed(Replay(t, frames).fired[i], k) == []
  {
    var n := |frames|;
    if n >= 1 {
      JumpingKeyQuiet(t, k, frames, pos);
      if n >= 2 {
        JumpingKeyNeverFires(t, k, frames[..n - 1], pos[..n - 1]);
      }
    }
  }

  /** The first two frames of a session show the same detection of a key
      the table does not track: the second frame announces it. */
  lemma OpeningPair(t: Table, a: DetectedText, frames: seq<Frame>)
    requires |frames| >= 2 && frames[0].detections == [a] && frames[1].detections == [a]
    requires Key(a.text) !in t
    ensures var e := StableDetection(a.text, a.box, a.confidence, 2, frames[1].at);
            Replay(t, frames[..2]) == Run(map[Key(a.text) := e], [[], [e]])
  {
    var f := frames[..2];
    assert Replay(t, f[..1]) == Run(map[Key(a.text) := Fresh(a, frames[0].at)], [[]]) by {
      assert f[..1][..0] == [];
      FreshNext(t, f[..1]);
    }
    assert f[..2] == f;
    SimilarReflexive(a.box);
    SteadyNext(t, f, Fresh(a, frames[0].at));
  }

  /** Box A, box A, then box B, which does not match A: the run of A is
      announced after the second frame and restarted at B. */
  lemma ResetRunOpening(t: Table, a: DetectedText, b: DetectedText, frames: seq<Frame>)
    requires |frames| >= 3 && frames[0].detections == [a] && frames[1].detections == [a] && frames[2].detections == [b]
    requires Key(a.text) !in t && Key(b.text) == Key(a.text)
    requires !Similar(a.box, b.box)
    ensures var e := StableDetection(a.text, a.box, a.confidence, 2, frames[1].at);
            Replay(t, frames[..3]) == Run(map[Key(a.text) := StableDetection(a.text, b.box, a.confidence, 1, frames[2].at)], [[], [e], []])
  {
    OpeningPair(t, a, frames);
    assert frames[..3][..2] == frames[..2];
    MovedNext(t, frames[..3], StableDetection(a.text, a.box, a.confidence, 2, frames[1].at));
  }

  /** Box A, box A, box B, box A, box A, where B does not match A: the key is
      announced after the second frame, the mismatch restarts its run, and it
      is announced again after the fifth frame, never after the frame at B. */
  lemma {:induction false} ResetRunFiresTwice(t: Table, a: DetectedText, b: DetectedText, at: seq<Time>)
    requires |at| == 5
    requires Key(a.text) !in t && Key(b.text) == Key(a.text)
    requires !Similar(a.box, b.box)
    ensures var frames := [Frame([a], at[0]), Frame([a], at[1]), Frame([b], at[2]), Frame([a], at[3]), Frame([a], at[4])];
            Replay(t, frames).fired == [[], [StableDetection(a.text, a.box, a.confidence, 2, at[1])], [], [], [StableDetection(a.text, a.box, a.confidence, 2, at[4])]]
  {
    var f := [Frame([a], at[0]), Frame([a], at[1]), Frame([b], at[2]), Frame([a], at[3]), Frame([a], at[4])];
    var k := Key(a.text);
    var e2 := StableDetection(a.text, a.box, a.confidence, 2, at[1]);
    var e3 := StableDetection(a.text, b.box, a.confidence, 1, at[2]);
    var e4 := StableDetection(a.text, a.box, a.confidence, 1, at[3]);
    ResetRunOpening(t, a, b, f);
    assert Replay(t, f[..4]) == Run(map[k := e4], [[], [e2], [], []]) by {
      assert f[..4][..3] == f[..3];
      SimilarSymmetric(a.box, b.box);
      MovedNext(t, f[..4], e3);
    }
    assert f[..5][..4] == f[..4] && f[..5] == f;
    SimilarReflexive(a.box);
    SteadyNext(t, f, e4);
  }

  /** Text, text, then a frame without it: announced after the second frame,
      then evicted. */
  lemma AbsenceOpening(t: Table, a: DetectedText, frames: seq<Frame>)
    requires |frames| >= 3 && frames[0].detections == [a] && frames[1].detections == [a] && frames[2].detections == []
    requires Key(a.text) !in t
    ensures var e := StableDetection(a.text, a.box, a.confidence, 2, frames[1].at);
            Replay(t, frames[..3]) == Run(map[], [[], [e], []])
  {
    OpeningPair(t, a, frames);
    assert frames[..3][..2] == frames[..2];
    EmptyNext(t, frames[..3]);
  }

  /** Text, text, nothing, text, text: the frame without it evicts the key,
      so it is announced after the second frame and, having rebuilt its run
      from 1, again after the fifth. */
  lemma {:induction false} AbsenceRestartsRun(t: Table, a: DetectedText, at: seq<Time>)
    requires |at| == 5
    requires Key(a.text) !in t
    ensures var frames := [Frame([a], at[0]), Frame([a], at[1]), Frame([], at[2]), Frame([a], at[3]), Frame([a], at[4])];
            Replay(t, frames).fired == [[], [StableDetection(a.text, a.box, a.confidence, 2, at[1])], [], [], [StableDetection(a.text, a.box, a.confidence, 2, at[4])]]
  {
    var f := [Frame([a], at[0]), Frame([a], at[1]), Frame([], at[2]), Frame([a], at[3]), Frame([a], at[4])];
    var k := Key(a.text);
    var e2 := StableDetection(a.text, a.box, a.confidence, 2, at[1]);
    AbsenceOpening(t, a, f);
    assert Replay(t, f[..4]) == Run(map[k := Fresh(a, at[3])], [[], [e2], [], []]) by {
      assert f[..4][..3] == f[..3];
      FreshNext(t, f[..4]);
    }
    assert f[..5][..4] == f[..4] && f[..5] == f;
    SimilarReflexive(a.box);
    SteadyNext(t, f, Fresh(a, at[3]));
  }

  /** A monitoring session on a fresh tracker: two frames that each show `d`,
      a query for its text, then the tracker cleared as monitoring stops and
      queried again. The second frame announces `d` with a count of 2, the
      first query finds that entry, and after clearing nothing is found. */
  method MonitorTwoFrames(d: DetectedText, at1: Time, at2: Time)
    returns (events: seq<StableDetection>, found: Option<StableDetection>, afterStop: Option<StableDetection>)
    ensures events == [StableDetection(d.text, d.box, d.confidence, 2, at2)]
    ensures found == Some(StableDetection(d.text, d.box, d.confidence, 2, at2))
    ensures afterStop == None
  {
    var tracker := new StabilityTracker();
    var first := tracker.ProcessDetections([d], at1);
    LoneFrame(map[], d, at1);
    var second := tracker.ProcessDetections([d], at2);
    SimilarReflexive(d.box);
    SteadyFrame(Ingest(map[], [d], at1).table, d, at2, Fresh(d, at1));
    events := first + second;
    found := tracker.GetStableDetection(d.text);
    tracker.Clear();
    afterStop := tracker.GetStableDetection(d.text);
  }
}
