/**
 * The two records the stability tracker works with: one OCR reading of a
 * frame (`DetectedText`) and the entry the tracker keeps for a text key
 * across frames (`StableDetection`), plus the case-insensitive key.
 */
module Detections {

  /** A wall-clock reading, in whatever unit the caller uses. */
  type Time = int

  /** An axis-aligned box in frame-local coordinates. */
  datatype Rect = Rect(x: real, y: real, width: real, height: real)

  /** One recognised piece of text in a single frame. */
  datatype DetectedText = DetectedText(text: string, box: Rect, confidence: real, detectedAt: Time)

  /** What the tracker remembers about one key from frame to frame. */
  datatype StableDetection = StableDetection(text: string, box: Rect, confidence: real, frameCount: int, lastSeen: Time)

  predicate IsUpper(c: char) {
    'A' <= c <= 'Z'
  }

  /** Lower-cases one character (ASCII letters only). */
  function Lower(c: char): (l: char)
    ensures !IsUpper(l)
    ensures IsUpper(c) ==> l as int == c as int + 32
    ensures !IsUpper(c) ==> l == c
  {
    if IsUpper(c) then (c as int + 32) as char else c
  }

  /** The key under which a text is tracked: its lower-cased form. */
  function Key(text: string): (k: string)
    ensures |k| == |text|
    ensures forall i :: 0 <= i < |k| ==> !IsUpper(k[i])
    ensures forall i :: 0 <= i < |k| && !IsUpper(text[i]) ==> k[i] == text[i]
    ensures forall i :: 0 <= i < |k| ==> k[i] == Lower(text[i])
  {
    seq(|text|, i requires 0 <= i < |text| => Lower(text[i]))
  }

  /** Keys are already in normal form: taking the key of a key changes nothing. */
  lemma KeyIdempotent(text: string)
    ensures Key(Key(text)) == Key(text)
  {
  }

  /** Two texts share a key exactly when they differ only in the case of
      their letters: case is ignored, and nothing else is. */
  lemma KeyIgnoresCase(a: string, b: string)
    ensures Key(a) == Key(b) <==> |a| == |b| && forall i :: 0 <= i < |a| ==> Lower(a[i]) == Lower(b[i])
  {
  }

  /** Two letters that are different once lower-cased, such as 'K' and 'N',
      keep the texts they sit in apart. */
  lemma KeySeparates(a: string, b: string, i: int)
    requires 0 <= i < |a| && 0 <= i < |b|
    requires Lower(a[i]) != Lower(b[i])
    ensures Key(a) != Key(b)
  {
  }
}
