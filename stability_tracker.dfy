/**
 * The stability tracker: a table from lower-cased text to the entry tracked
 * for it, fed one frame of OCR detections at a time.
 *
 * The pure functions below give the meaning of one frame (`Ingest`); the
 * class `StabilityTracker` is the stateful object the application holds,
 * and its `ProcessDetections` is proved to change its table exactly as
 * `Ingest` says.
 */
module StabilityTracking {
  import opened Wrappers
  import opened Detections

  /** Consecutive similar sightings after which a key counts as stable. */
  const RequiredFrames: int := 2
  /** Largest change of X or Y (exclusive) for two boxes to count as the same place. */
  const PositionTolerance: real := 10.0
  /** Largest change of width or height (exclusive) for two boxes to count as the same size. */
  const SizeTolerance: real := 15.0

  type Table = map<string, StableDetection>

  function Abs(v: real): real {
    if v < 0.0 then -v else v
  }

  /** Whether a new box is close enough to the tracked one to extend its run. */
  predicate Similar(a: Rect, b: Rect) {
    && Abs(a.x - b.x) < PositionTolerance
    && Abs(a.y - b.y) < PositionTolerance
    && Abs(a.width - b.width) < SizeTolerance
    && Abs(a.height - b.height) < SizeTolerance
  }

  /** The tracker's table invariant: every entry is filed under the key of its
      own text and has been seen in at least one frame. */
  ghost predicate WellFormed(t: Table) {
    forall k :: k in t ==> Key(t[k].text) == k && t[k].frameCount >= 1
  }

  /** The set of keys a frame's detections mention. */
  function FrameKeys(ds: seq<DetectedText>): (keys: set<string>)
    ensures forall i :: 0 <= i < |ds| ==> Key(ds[i].text) in keys
  {
    if ds == [] then {} else FrameKeys(ds[..|ds| - 1]) + {Key(ds[|ds| - 1].text)}
  }

  /** Every key of a frame comes from one of its detections. */
  lemma {:induction false} FrameKeysWitness(ds: seq<DetectedText>, k: string)
    requires k in FrameKeys(ds)
    ensures exists i :: 0 <= i < |ds| && Key(ds[i].text) == k
  {
    var n := |ds| - 1;
    if k != Key(ds[n].text) {
      FrameKeysWitness(ds[..n], k);
      var i :| 0 <= i < n && Key(ds[..n][i].text) == k;
      assert ds[i] == ds[..n][i];
    }
  }

  /** The table after one detection, and the entry announced as stable, if any. */
  datatype Step = Step(table: Table, fired: Option<StableDetection>)

  /** The table after a run of detections, and the stable entries announced on the way. */
  datatype Scan = Scan(table: Table, events: seq<StableDetection>)

  /** The entry a fresh key starts with. */
  function Fresh(d: DetectedText, now: Time): StableDetection {
    StableDetection(d.text, d.box, d.confidence, 1, now)
  }

  /** One detection processed against the table: a new key gets a fresh entry;
      a known key seen at a similar place extends its run, moves its box and is
      announced when the run reaches exactly `RequiredFrames`; a known key seen
      elsewhere restarts its run at the new place. */
  function Observe(t: Table, d: DetectedText, now: Time): Step {
    var key := Key(d.text);
    if key in t then
      var stable := t[key];
      if Similar(stable.box, d.box) then
        var updated := stable.(frameCount := stable.frameCount + 1, lastSeen := now, box := d.box);
        Step(t[key := updated], if updated.frameCount == RequiredFrames then Some(updated) else None)
      else
        Step(t[key := stable.(frameCount := 1, box := d.box, lastSeen := now)], None)
    else
      Step(t[key := Fresh(d, now)], None)
  }

  /** One detection adds its key to the table and touches no other entry,
      and an announcement is the entry of an already tracked key whose count
      has just become `RequiredFrames`. */
  lemma ObserveFacts(t: Table, d: DetectedText, now: Time)
    ensures var s := Observe(t, d, now);
            && s.table.Keys == t.Keys + {Key(d.text)}
            && (forall k :: k in t && k != Key(d.text) ==> s.table[k] == t[k])
            && s.table[Key(d.text)].box == d.box
            && (s.fired.Some? ==> Key(d.text) in t && s.fired.value == s.table[Key(d.text)])
            && (s.fired.Some? ==> s.fired.value.frameCount == RequiredFrames)
  {
  }

  /** One detection keeps the table invariant. */
  lemma ObserveKeepsInvariant(t: Table, d: DetectedText, now: Time)
    requires WellFormed(t)
    ensures WellFormed(Observe(t, d, now).table)
  {
  }

  /** The detections of one frame processed left to right, before eviction. */
  function Absorb(t: Table, ds: seq<DetectedText>, now: Time): Scan {
    if ds == [] then Scan(t, [])
    else
      var prior := Absorb(t, ds[..|ds| - 1], now);
      var step := Observe(prior.table, ds[|ds| - 1], now);
      Scan(step.table, prior.events + ToSeq(step.fired))
  }

  /** Absorbing a frame adds exactly its keys to the table and leaves every
      other entry untouched, and everything it announces has a count of
      exactly `RequiredFrames`. */
  lemma {:induction false} AbsorbFacts(t: Table, ds: seq<DetectedText>, now: Time)
    ensures var s := Absorb(t, ds, now);
            && s.table.Keys == t.Keys + FrameKeys(ds)
            && (forall k :: k in t && k !in FrameKeys(ds) ==> s.table[k] == t[k])
            && (forall e :: e in s.events ==> e.frameCount == RequiredFrames)
  {
    if ds != [] {
      var n := |ds| - 1;
      AbsorbFacts(t, ds[..n], now);
      ObserveFacts(Absorb(t, ds[..n], now).table, ds[n], now);
      assert FrameKeys(ds) == FrameKeys(ds[..n]) + {Key(ds[n].text)};
    }
  }

  /** Absorbing a frame keeps the table invariant, and everything it
      announces belongs to a key of the frame. */
  lemma {:induction false} AbsorbKeepsInvariant(t: Table, ds: seq<DetectedText>, now: Time)
    requires WellFormed(t)
    ensures var s := Absorb(t, ds, now);
            && WellFormed(s.table)
            && forall e :: e in s.events ==> Key(e.text) in FrameKeys(ds)
  {
    if ds != [] {
      var n := |ds| - 1;
      var prior := Absorb(t, ds[..n], now);
      AbsorbKeepsInvariant(t, ds[..n], now);
      ObserveFacts(prior.table, ds[n], now);
      ObserveKeepsInvariant(prior.table, ds[n], now);
      assert FrameKeys(ds) == FrameKeys(ds[..n]) + {Key(ds[n].text)};
    }
  }

  /** Keeps only the entries whose key is in `seen`. */
  function Evict(t: Table, seen: set<string>): Table {
    map k | k in t && k in seen :: t[k]
  }

  /** One whole frame: every detection absorbed in order, then every key the
      frame did not mention dropped. */
  function Ingest(t: Table, ds: seq<DetectedText>, now: Time): Scan {
    var absorbed := Absorb(t, ds, now);
    Scan(Evict(absorbed.table, FrameKeys(ds)), absorbed.events)
  }

  /** After a frame the table holds exactly the keys of that frame's
      detections; the table invariant survives it; and everything announced
      has a count of exactly `RequiredFrames` and is still tracked. */
  lemma IngestFacts(t: Table, ds: seq<DetectedText>, now: Time)
    ensures var s := Ingest(t, ds, now);
            && s.table.Keys == FrameKeys(ds)
            && (WellFormed(t) ==> WellFormed(s.table))
            && (forall e :: e in s.events ==> e.frameCount == RequiredFrames)
            && (WellFormed(t) ==> forall e :: e in s.events ==> Key(e.text) in s.table)
  {
    AbsorbFacts(t, ds, now);
    if WellFormed(t) {
      AbsorbKeepsInvariant(t, ds, now);
    }
  }

  /** The tracker object: the table of tracked keys, updated in place. */
  class StabilityTracker {
    var detections: Table

    ghost predicate Valid()
      reads this
    {
      WellFormed(detections)
    }

    constructor ()
      ensures Valid() && detections == map[]
    {
      detections := map[];
    }

    /** Processes one frame's detections and returns, in order, the entries
        that became stable during it. */
    method ProcessDetections(ds: seq<DetectedText>, now: Time) returns (events: seq<StableDetection>)
      requires Valid()
      modifies this
      ensures Valid()
      ensures detections == Ingest(old(detections), ds, now).table
      ensures events == Ingest(old(detections), ds, now).events
      ensures detections.Keys == FrameKeys(ds)
      ensures forall e :: e in events ==> e.frameCount == RequiredFrames && Key(e.text) in detections
    {
      ghost var start := detections;
      var seenKeys: set<string> := {};
      events := [];
      var i := 0;
      while i < |ds|
        invariant 0 <= i <= |ds|
        invariant seenKeys == FrameKeys(ds[..i])
        invariant Absorb(start, ds[..i], now) == Scan(detections, events)
      {
        var detection := ds[i];
        assert ds[..i + 1][..i] == ds[..i];
        var key := Key(detection.text);
        seenKeys := seenKeys + {key};
        var entry: StableDetection;
        var stableNow := false;
        if key in detections {
          var stable := detections[key];
          if Similar(stable.box, detection.box) {
            entry := stable.(frameCount := stable.frameCount + 1, lastSeen := now, box := detection.box);
            stableNow := entry.frameCount == RequiredFrames;
          } else {
            entry := stable.(frameCount := 1, box := detection.box, lastSeen := now);
          }
        } else {
          entry := Fresh(detection, now);
        }
        assert Observe(detections, detection, now) == Step(detections[key := entry], if stableNow then Some(entry) else None);
        detections := detections[key := entry];
        if stableNow {
          events := events + [entry];
        }
        i := i + 1;
      }
      assert ds[..i] == ds;
      RemoveUnseen(seenKeys);
      IngestFacts(start, ds, now);
    }

    /** Drops every tracked key that is not in `seenKeys`, leaving the other
        entries as they are. */
    method RemoveUnseen(seenKeys: set<string>)
      modifies this
      ensures detections == Evict(old(detections), seenKeys)
    {
      ghost var before := detections;
      var keysToRemove := set k | k in detections && k !in seenKeys;
      while keysToRemove != {}
        invariant keysToRemove <= detections.Keys
        invariant detections.Keys == (before.Keys * seenKeys) + keysToRemove
        invariant forall k :: k in detections ==> detections[k] == before[k]
        decreases keysToRemove
      {
        var key :| key in keysToRemove;
        detections := detections - {key};
        keysToRemove := keysToRemove - {key};
      }
    }

    /** The entry for `text`, compared case-insensitively, provided it has been
        seen in at least `RequiredFrames` consecutive similar frames. */
    function GetStableDetection(text: string): (r: Option<StableDetection>)
      reads this
      ensures r.Some? <==> Key(text) in detections && detections[Key(text)].frameCount >= RequiredFrames
      ensures r.Some? ==> r.value == detections[Key(text)]
      ensures Valid() && r.Some? ==> Key(r.value.text) == Key(text)
    {
      var key := Key(text);
      if key in detections && detections[key].frameCount >= RequiredFrames then Some(detections[key]) else None
    }

    /** Forgets every tracked key. */
    method Clear()
      modifies this
      ensures Valid() && detections == map[]
      ensures forall text :: GetStableDetection(text) == None
    {
      detections := map[];
    }
  }
}
