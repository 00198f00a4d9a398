/**
 * What one frame does to each key: the three transitions of a key the frame
 * mentions once, eviction of the keys it does not mention, and when a key is
 * announced as stable.
 */
module TrackerProperties {
  import opened Wrappers
  import opened Detections
  import opened StabilityTracking

  /** The announced entries that belong to key `k`, in order. */
  function Keyed(es: seq<StableDetection>, k: string): seq<StableDetection> {
    if es == [] then []
    else (if Key(es[0].text) == k then [es[0]] else []) + Keyed(es[1..], k)
  }

  lemma {:induction false} KeyedAppend(a: seq<StableDetection>, b: seq<StableDetection>, k: string)
    ensures Keyed(a + b, k) == Keyed(a, k) + Keyed(b, k)
  {
    if a != [] {
      assert (a + b)[1..] == a[1..] + b;
      KeyedAppend(a[1..], b, k);
    } else {
      assert a + b == b;
    }
  }

  lemma {:induction false} KeyedNone(es: seq<StableDetection>, k: string)
    requires forall e :: e in es ==> Key(e.text) != k
    ensures Keyed(es, k) == []
  {
    if es != [] {
      assert es[0] in es;
      KeyedNone(es[1..], k);
    }
  }

  lemma {:induction false} KeyedAll(es: seq<StableDetection>, k: string)
    requires forall e :: e in es ==> Key(e.text) == k
    ensures Keyed(es, k) == es
  {
    if es != [] {
      assert es[0] in es;
      KeyedAll(es[1..], k);
    }
  }

  /** Absorbing two runs of detections one after the other is absorbing their
      concatenation: the frame is processed strictly left to right. */
  lemma {:induction false} AbsorbAppend(t: Table, a: seq<DetectedText>, b: seq<DetectedText>, now: Time)
    ensures var first := Absorb(t, a, now);
            var second := Absorb(first.table, b, now);
            && Absorb(t, a + b, now).table == second.table
            && Absorb(t, a + b, now).events == first.events + second.events
    decreases |b|
  {
    var first := Absorb(t, a, now);
    if b == [] {
      assert a + b == a;
    } else {
      var n := |b| - 1;
      assert (a + b)[..|a + b| - 1] == a + b[..n];
      assert (a + b)[|a + b| - 1] == b[n];
      AbsorbAppend(t, a, b[..n], now);
      var prior := Absorb(first.table, b[..n], now);
      var step := Observe(prior.table, b[n], now);
      assert Absorb(first.table, b, now) == Scan(step.table, prior.events + ToSeq(step.fired));
      assert Absorb(t, a + b, now) == Scan(step.table, (first.events + prior.events) + ToSeq(step.fired));
    }
  }

  /** What one detection does to its own key depends only on that key's entry. */
  lemma ObserveLocal(t1: Table, t2: Table, d: DetectedText, now: Time)
    requires Key(d.text) in t1 <==> Key(d.text) in t2
    requires Key(d.text) in t1 ==> t1[Key(d.text)] == t2[Key(d.text)]
    ensures Observe(t1, d, now).table[Key(d.text)] == Observe(t2, d, now).table[Key(d.text)]
    ensures Observe(t1, d, now).fired == Observe(t2, d, now).fired
  {
  }

  lemma AbsorbOne(t: Table, d: DetectedText, now: Time)
    ensures var step := Observe(t, d, now);
            Absorb(t, [d], now) == Scan(step.table, ToSeq(step.fired))
  {
    assert [d][..0] == [];
  }

  /** A key that a frame mentions only at position `j` is not among the keys
      of the detections before or after it. */
  lemma SightingsElsewhere(ds: seq<DetectedText>, j: int)
    requires 0 <= j < |ds|
    requires forall i :: 0 <= i < |ds| && i != j ==> Key(ds[i].text) != Key(ds[j].text)
    ensures Key(ds[j].text) !in FrameKeys(ds[..j])
    ensures Key(ds[j].text) !in FrameKeys(ds[j + 1..])
  {
    var k := Key(ds[j].text);
    if k in FrameKeys(ds[..j]) {
      FrameKeysWitness(ds[..j], k);
      assert false;
    }
    if k in FrameKeys(ds[j + 1..]) {
      FrameKeysWitness(ds[j + 1..], k);
      assert false;
    }
  }

  /** Absorbing a frame is absorbing what comes before position `j`, then the
      detection at `j`, then what comes after it. */
  lemma AbsorbAround(t: Table, ds: seq<DetectedText>, j: int, now: Time)
    requires 0 <= j < |ds|
    ensures var first := Absorb(t, ds[..j], now);
            var step := Observe(first.table, ds[j], now);
            var last := Absorb(step.table, ds[j + 1..], now);
            && Absorb(t, ds, now).table == last.table
            && Absorb(t, ds, now).events == first.events + ToSeq(step.fired) + last.events
  {
    var pre, post := ds[..j], ds[j + 1..];
    assert ds == pre + [ds[j]] + post;
    AbsorbAppend(t, pre, [ds[j]], now);
    AbsorbAppend(t, pre + [ds[j]], post, now);
    AbsorbOne(Absorb(t, pre, now).table, ds[j], now);
  }

  /** The entry a frame leaves for a key it mentions once is the one that
      detection alone makes of the previous table. */
  lemma SoleSightingEntry(t: Table, ds: seq<DetectedText>, j: int, now: Time)
    requires WellFormed(t)
    requires 0 <= j < |ds|
    requires forall i :: 0 <= i < |ds| && i != j ==> Key(ds[i].text) != Key(ds[j].text)
    ensures var k := Key(ds[j].text);
            var s := Absorb(t, ds, now);
            k in s.table && s.table[k] == Observe(t, ds[j], now).table[k]
  {
    var first := Absorb(t, ds[..j], now);
    var middle := Observe(first.table, ds[j], now);
    AbsorbAround(t, ds, j, now);
    SightingsElsewhere(ds, j);
    AbsorbFacts(t, ds[..j], now);
    ObserveLocal(first.table, t, ds[j], now);
    ObserveFacts(first.table, ds[j], now);
    AbsorbFacts(middle.table, ds[j + 1..], now);
  }

  /** The announcements of a frame about a key it mentions once are the
      announcement, if any, of that one detection. */
  lemma SoleSightingEvents(t: Table, ds: seq<DetectedText>, j: int, now: Time)
    requires WellFormed(t)
    requires 0 <= j < |ds|
    requires forall i :: 0 <= i < |ds| && i != j ==> Key(ds[i].text) != Key(ds[j].text)
    ensures var k := Key(ds[j].text);
            Keyed(Absorb(t, ds, now).events, k) == ToSeq(Observe(t, ds[j], now).fired)
  {
    var k := Key(ds[j].text);
    var first := Absorb(t, ds[..j], now);
    var middle := Observe(first.table, ds[j], now);
    var last := Absorb(middle.table, ds[j + 1..], now);
    AbsorbAround(t, ds, j, now);
    SightingsElsewhere(ds, j);
    AbsorbFacts(t, ds[..j], now);
    AbsorbKeepsInvariant(t, ds[..j], now);
    ObserveFacts(first.table, ds[j], now);
    ObserveKeepsInvariant(first.table, ds[j], now);
    AbsorbKeepsInvariant(middle.table, ds[j + 1..], now);
    ObserveLocal(first.table, t, ds[j], now);
    KeyedNone(first.events, k);
    KeyedNone(last.events, k);
    KeyedAll(ToSeq(middle.fired), k);
    KeyedAppend(first.events, ToSeq(middle.fired), k);
    KeyedAppend(first.events + ToSeq(middle.fired), last.events, k);
  }

  /** A frame that mentions a key exactly once leaves that key's entry, and
      the announcements about it, exactly as the one matching detection
      processed against the table of the previous frame would. */
  lemma SoleSighting(t: Table, ds: seq<DetectedText>, j: int, now: Time)
    requires WellFormed(t)
    requires 0 <= j < |ds|
    requires forall i :: 0 <= i < |ds| && i != j ==> Key(ds[i].text) != Key(ds[j].text)
    ensures var k := Key(ds[j].text);
            var step := Observe(t, ds[j], now);
            var s := Ingest(t, ds, now);
            && k in s.table
            && s.table[k] == step.table[k]
            && Keyed(s.events, k) == ToSeq(step.fired)
  {
    SoleSightingEntry(t, ds, j, now);
    SoleSightingEvents(t, ds, j, now);
    AbsorbFacts(t, ds, now);
  }

  /** A key the table does not hold gets a fresh entry carrying the
      detection's text, box and confidence with a frame count of 1, and is
      not announced. */
  lemma FirstSighting(t: Table, ds: seq<DetectedText>, j: int, now: Time)
    requires WellFormed(t)
    requires 0 <= j < |ds|
    requires forall i :: 0 <= i < |ds| && i != j ==> Key(ds[i].text) != Key(ds[j].text)
    requires Key(ds[j].text) !in t
    ensures var k := Key(ds[j].text);
            var s := Ingest(t, ds, now);
            && k in s.table
            && s.table[k] == StableDetection(ds[j].text, ds[j].box, ds[j].confidence, 1, now)
            && Keyed(s.events, k) == []
  {
    SoleSighting(t, ds, j, now);
  }

  /** A tracked key seen again at a similar place counts one more frame and
      moves to the new box; its text and confidence stay those it was first
      stored with. It is announced exactly when its count becomes
      `RequiredFrames`. */
  lemma SimilarSighting(t: Table, ds: seq<DetectedText>, j: int, now: Time)
    requires WellFormed(t)
    requires 0 <= j < |ds|
    requires forall i :: 0 <= i < |ds| && i != j ==> Key(ds[i].text) != Key(ds[j].text)
    requires Key(ds[j].text) in t && Similar(t[Key(ds[j].text)].box, ds[j].box)
    ensures var k := Key(ds[j].text);
            var s := Ingest(t, ds, now);
            && k in s.table
            && s.table[k].frameCount == t[k].frameCount + 1
            && s.table[k].box == ds[j].box
            && s.table[k].text == t[k].text
            && s.table[k].confidence == t[k].confidence
            && s.table[k].lastSeen == now
            && Keyed(s.events, k) == (if s.table[k].frameCount == RequiredFrames then [s.table[k]] else [])
  {
    SoleSighting(t, ds, j, now);
  }

  /** A tracked key seen again somewhere else keeps its entry but starts
      counting again from 1 at the new box, and is not announced. */
  lemma DissimilarSighting(t: Table, ds: seq<DetectedText>, j: int, now: Time)
    requires WellFormed(t)
    requires 0 <= j < |ds|
    requires forall i :: 0 <= i < |ds| && i != j ==> Key(ds[i].text) != Key(ds[j].text)
    requires Key(ds[j].text) in t && !Similar(t[Key(ds[j].text)].box, ds[j].box)
    ensures var k := Key(ds[j].text);
            var s := Ingest(t, ds, now);
            && k in s.table
            && s.table[k].frameCount == 1
            && s.table[k].box == ds[j].box
            && s.table[k].text == t[k].text
            && s.table[k].confidence == t[k].confidence
            && s.table[k].lastSeen == now
            && Keyed(s.events, k) == []
  {
    SoleSighting(t, ds, j, now);
  }

  /** A key that one frame leaves out is forgotten: when a later frame shows
      it again it starts from a frame count of 1, whatever count it had. */
  lemma ReturningKeyStartsOver(t: Table, gap: seq<DetectedText>, gapAt: Time, ds: seq<DetectedText>, j: int, now: Time)
    requires WellFormed(t)
    requires 0 <= j < |ds|
    requires forall i :: 0 <= i < |ds| && i != j ==> Key(ds[i].text) != Key(ds[j].text)
    requires forall i :: 0 <= i < |gap| ==> Key(gap[i].text) != Key(ds[j].text)
    ensures var k := Key(ds[j].text);
            var s := Ingest(Ingest(t, gap, gapAt).table, ds, now);
            && k in s.table
            && s.table[k].frameCount == 1
            && Keyed(s.events, k) == []
  {
    var k := Key(ds[j].text);
    if k in FrameKeys(gap) {
      FrameKeysWitness(gap, k);
      assert false;
    }
    IngestFacts(t, gap, gapAt);
    FirstSighting(Ingest(t, gap, gapAt).table, ds, j, now);
  }

  /** The detections of a frame are processed in order against the table as
      it stands, so a text listed twice at the same place in one frame counts
      two frames' worth and is announced within that frame. */
  lemma RepeatedInOneFrame(t: Table, d: DetectedText, now: Time)
    requires Key(d.text) !in t
    ensures var e := StableDetection(d.text, d.box, d.confidence, 2, now);
            Ingest(t, [d, d], now) == Scan(map[Key(d.text) := e], [e])
  {
    var k := Key(d.text);
    assert [d, d][..1] == [d];
    AbsorbOne(t, d, now);
    SimilarReflexive(d.box);
    assert FrameKeys([d, d]) == {k} by {
      assert FrameKeys([d]) == {k} by {
        assert [d][..0] == [];
      }
    }
  }

  /** Every box matches itself. */
  lemma SimilarReflexive(a: Rect)
    ensures Similar(a, a)
  {
  }

  /** Similarity does not depend on which box is the tracked one. */
  lemma SimilarSymmetric(a: Rect, b: Rect)
    ensures Similar(a, b) == Similar(b, a)
  {
  }

  /** Tolerances are strict and per axis: moving a box sideways keeps the
      match exactly while the move is less than `PositionTolerance`, and
      growing it keeps the match exactly while the growth is less than
      `SizeTolerance`. */
  lemma ToleranceIsStrict(a: Rect, delta: real)
    ensures Similar(a, a.(x := a.x + delta)) <==> -PositionTolerance < delta < PositionTolerance
    ensures Similar(a, a.(y := a.y + delta)) <==> -PositionTolerance < delta < PositionTolerance
    ensures Similar(a, a.(width := a.width + delta)) <==> -SizeTolerance < delta < SizeTolerance
    ensures Similar(a, a.(height := a.height + delta)) <==> -SizeTolerance < delta < SizeTolerance
    ensures !Similar(a, a.(x := a.x + PositionTolerance)) && !Similar(a, a.(height := a.height - SizeTolerance))
  {
  }
}
