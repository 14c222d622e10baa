/**
 * The integer part of `getTextBoundingRect`: clamping the selection offsets
 * to the field's text, and splitting the text into the runs of the off-screen
 * mirror (before the selection, the measured selection, after it). The pixel
 * measurement itself is not modelled.
 */
module Geometry {

  /** A selection offset after `parseFloat`: a whole number, or not a number. */
  datatype Offset = Num(n: int) | NotANumber

  /** Clamped selection offsets. */
  datatype Selection = Selection(start: nat, end: nat)

  function Min(a: int, b: int): int
  {
    if a <= b then a else b
  }

  /** The start offset: not a number becomes 0, a negative one 0, one past the text its length. */
  function ClampStart(s: Offset, len: nat): (r: nat)
    ensures r <= len
    ensures s.Num? && 0 <= s.n <= len ==> r == s.n
    ensures (s.NotANumber? || s.n < 0) ==> r == 0
    ensures s.Num? && s.n > len ==> r == len
  {
    var start := if s.NotANumber? then 0 else s.n;
    if start < 0 then 0 else Min(len, start)
  }

  /** The end offset: not a number, or one before the clamped start, becomes that start. */
  function ClampEnd(e: Offset, start: nat, len: nat): (r: nat)
    requires start <= len
    ensures start <= r <= len
    ensures e.Num? && start <= e.n <= len ==> r == e.n
    ensures (e.NotANumber? || e.n < start) ==> r == start
    ensures e.Num? && e.n > len ==> r == len
  {
    var end := if e.NotANumber? || e.n < start then start else e.n;
    // The source's test for a negative end stays, although the end is never below the start.
    var clamped: int := if end < 0 then 0 else Min(len, end);
    clamped
  }

  /** Both offsets, clamped in the source's order: the end is compared with the clamped start. */
  function Clamp(s: Offset, e: Offset, len: nat): (r: Selection)
    ensures r.start <= r.end <= len
  {
    var start := ClampStart(s, len);
    Selection(start, ClampEnd(e, start, len))
  }

  /** Clamping offsets that are already clamped changes nothing. */
  lemma ClampIdempotent(s: Offset, e: Offset, len: nat)
    ensures var r := Clamp(s, e, len);
            Clamp(Num(r.start), Num(r.end), len) == r
  {
  }

  /**
   * A negative start behaves as 0, an end before the start as the start, and
   * a start that is not a number as 0.
   */
  lemma ClampExamples(len: nat, e: Offset)
    ensures Clamp(Num(-5), Num(3), len) == Clamp(Num(0), Num(3), len)
    ensures Clamp(Num(10), Num(2), len) == Clamp(Num(10), Num(10), len)
    ensures Clamp(NotANumber, e, len) == Clamp(Num(0), e, len)
  {
  }

  /** The text ends in a line break (`/[\n\r]$/`). */
  predicate EndsInLineBreak(t: string)
  {
    |t| > 0 && (t[|t| - 1] == '\n' || t[|t| - 1] == '\r')
  }

  /**
   * `appendPart(lo, hi)`: the text of one run, `text.substring(lo, hi)`, with
   * one space added when it ends in a line break.
   */
  function Piece(text: string, lo: nat, hi: nat): (r: string)
    requires lo <= hi <= |text|
    ensures |r| == hi - lo + (if EndsInLineBreak(text[lo..hi]) then 1 else 0)
    ensures r[..hi - lo] == text[lo..hi]
    ensures |r| > hi - lo ==> r[|r| - 1] == ' '
  {
    var t := text[lo..hi];
    if EndsInLineBreak(t) then t + " " else t
  }

  /** A run of the mirror, as the offsets `[lo, hi)` into the text. */
  datatype Span = Span(lo: nat, hi: nat)

  /**
   * The runs appended to the mirror, in order: the text before the selection
   * when the selection does not start at 0, the selection, and the text after
   * it when there is any.
   */
  function Spans(len: nat, sel: Selection): (r: seq<Span>)
    requires sel.start <= sel.end <= len
    ensures forall k :: 0 <= k < |r| ==> r[k].lo <= r[k].hi <= len
  {
    (if sel.start > 0 then [Span(0, sel.start)] else []) +
    [Span(sel.start, sel.end)] +
    (if len > sel.end then [Span(sel.end, len)] else [])
  }

  /** The index of the measured run among the spans. */
  function TargetIndex(sel: Selection): nat
  {
    if sel.start > 0 then 1 else 0
  }

  /** The texts of the spans, one after the other. */
  function Join(text: string, sp: seq<Span>): string
    requires forall k :: 0 <= k < |sp| ==> sp[k].lo <= sp[k].hi <= |text|
    decreases |sp|
  {
    if sp == [] then [] else text[sp[0].lo..sp[0].hi] + Join(text, sp[1..])
  }

  /**
   * The runs partition the text: they are contiguous, the first starts at 0,
   * the last ends at the text's length, so their texts concatenate back to
   * the text; every run but the measured one is non-empty, and the measured
   * one is exactly the selection.
   */
  lemma SpansPartitionText(text: string, sel: Selection)
    requires sel.start <= sel.end <= |text|
    ensures var sp := Spans(|text|, sel);
            var t := TargetIndex(sel);
            && t < |sp| && sp[t] == Span(sel.start, sel.end)
            && |sp| == 1 + (if sel.start > 0 then 1 else 0) + (if |text| > sel.end then 1 else 0)
            && sp[0].lo == 0 && sp[|sp| - 1].hi == |text|
            && (forall k :: 0 <= k < |sp| - 1 ==> sp[k].hi == sp[k + 1].lo)
            && (forall k :: 0 <= k < |sp| && k != t ==> sp[k].lo < sp[k].hi)
            && Join(text, sp) == text
  {
    JoinContiguous(text, Spans(|text|, sel));
  }

  /**
   * Spans laid end to end, each starting where the previous one ends, join
   * to the text from the first one's start to the last one's end.
   */
  lemma {:induction false} JoinContiguous(text: string, sp: seq<Span>)
    requires |sp| > 0
    requires forall k :: 0 <= k < |sp| ==> sp[k].lo <= sp[k].hi <= |text|
    requires forall k :: 0 <= k < |sp| - 1 ==> sp[k].hi == sp[k + 1].lo
    ensures sp[0].lo <= sp[|sp| - 1].hi && Join(text, sp) == text[sp[0].lo..sp[|sp| - 1].hi]
    decreases |sp|
  {
    var rest := sp[1..];
    if rest == [] {
      assert Join(text, sp) == text[sp[0].lo..sp[0].hi] + Join(text, rest);
    } else {
      assert forall k :: 0 <= k < |rest| - 1 ==> rest[k].hi == rest[k + 1].lo by {
        forall k | 0 <= k < |rest| - 1
          ensures rest[k].hi == rest[k + 1].lo
        {
          assert rest[k] == sp[k + 1] && rest[k + 1] == sp[k + 2];
        }
      }
      JoinContiguous(text, rest);
      var a, b, c := sp[0].lo, sp[0].hi, sp[|sp| - 1].hi;
      assert rest[0].lo == b && rest[|rest| - 1].hi == c;
      assert Join(text, sp) == text[a..b] + text[b..c];
      assert text[a..b] + text[b..c] == text[a..c];
    }
  }

  /** The runs of the mirror, and which of them is measured. */
  datatype Mirror = Mirror(runs: seq<string>, target: nat)

  /**
   * The mirror of the text for the given offsets: offsets clamped, then one
   * run per span, each padded by `appendPart`; the measured run is the
   * selection's piece.
   */
  function MirrorFor(text: string, s: Offset, e: Offset): (r: Mirror)
    ensures var sel := Clamp(s, e, |text|);
            |r.runs| == |Spans(|text|, sel)| &&
            r.target < |r.runs| && r.runs[r.target] == Piece(text, sel.start, sel.end) &&
            forall k :: 0 <= k < |r.runs| ==>
              r.runs[k] == Piece(text, Spans(|text|, sel)[k].lo, Spans(|text|, sel)[k].hi)
  {
    var sel := Clamp(s, e, |text|);
    var sp := Spans(|text|, sel);
    SpansPartitionText(text, sel);
    Mirror(seq(|sp|, k requires 0 <= k < |sp| => Piece(text, sp[k].lo, sp[k].hi)), TargetIndex(sel))
  }
}
