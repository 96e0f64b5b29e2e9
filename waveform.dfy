/** `WaveformView` of ui/waveform.py: the widget state (buffer, sample rate,
    samples per pixel, offset, marker ratio), the choice of samples that
    `paintEvent` draws, one per pixel column, and the marker set by a click.

    Samples are opaque values (`T`): the vertical scaling and the Qt drawing
    calls are not part of this model, only which sample lands in which
    column. The widget's width is a parameter of the events that read it. */
module Waveform {
  import opened Wrappers

  const DefaultRate: int := 44100
  const DefaultSamplesPerPixel: int := 256

  /** `max(1, int(samples_pp))`: the distance between two drawn samples. */
  function Step(samplesPerPixel: int): (step: int)
    ensures step >= 1
    ensures samplesPerPixel >= 1 ==> step == samplesPerPixel
  {
    if samplesPerPixel > 1 then samplesPerPixel else 1
  }

  function Min(a: int, b: int): int { if a <= b then a else b }

  /** `numpy.arange(start, stop, step)` for integers and a positive step. */
  function Arange(start: int, stop: int, step: int): (idx: seq<int>)
    requires step >= 1
    ensures forall k :: 0 <= k < |idx| ==> start <= idx[k] < stop
    decreases stop - start
  {
    if start >= stop then [] else [start] + Arange(start + step, stop, step)
  }

  /** The indices `paintEvent` draws:
      `arange(offset, min(len(data), offset + w*step), step)`. */
  function DrawIndices(offset: int, len: int, w: int, step: int): (idx: seq<int>)
    requires step >= 1
    ensures forall k :: 0 <= k < |idx| ==> offset <= idx[k] < len && idx[k] < offset + w * step
  {
    Arange(offset, Min(len, offset + w * step), step)
  }

  /** A point of the painter path: pixel column and the sample drawn there. */
  datatype Point<T> = Point(x: int, sample: T)

  /** What one `paintEvent` draws: the path and the column of the marker line. */
  datatype Frame<T> = Frame(trace: seq<Point<T>>, markerColumn: int)

  /** `enumerate(self.data[idx])`: drawn sample number `k` at column `k`. */
  function Trace<T>(data: seq<T>, offset: int, samplesPerPixel: int, w: int): (tr: seq<Point<T>>)
    requires offset >= 0
    ensures forall k :: 0 <= k < |tr| ==> tr[k].x == k && tr[k].sample in data
  {
    var idx := DrawIndices(offset, |data|, w, Step(samplesPerPixel));
    seq(|idx|, k requires 0 <= k < |idx| => Point(k, data[idx[k]]))
  }

  /** Python's `int(r)` on a float: truncation toward zero. */
  function Trunc(r: real): (i: int)
    ensures r >= 0.0 ==> i as real <= r < i as real + 1.0
    ensures r < 0.0 ==> i as real - 1.0 < r <= i as real
  {
    if r >= 0.0 then r.Floor else -((-r).Floor)
  }

  /** `int(self.marker_ratio * w)`: the column of the marker line. */
  function MarkerColumn(ratio: real, w: int): (c: int)
    ensures ratio * w as real >= 0.0 ==> c as real <= ratio * w as real < c as real + 1.0
  {
    Trunc(ratio * w as real)
  }

  /** `ev.position().x() / self.width()`: a click as a fraction of the width. */
  function ClickRatio(x: real, width: int): (ratio: real)
    requires width != 0
    ensures ratio * width as real == x
  {
    x / width as real
  }

  // ---------------------------------------------------------------------
  // Which samples are drawn

  /** `arange` yields `start, start+step, start+2*step, ...` and stops at the
      first of them that reaches `stop`. */
  lemma {:induction false} ArangeClosedForm(start: int, stop: int, step: int)
    requires step >= 1
    ensures forall k :: 0 <= k < |Arange(start, stop, step)| ==> Arange(start, stop, step)[k] == start + k * step
    ensures start + |Arange(start, stop, step)| * step >= stop
    decreases stop - start
  {
    if start < stop {
      var rest := Arange(start + step, stop, step);
      ArangeClosedForm(start + step, stop, step);
      assert start + step + |rest| * step == start + (|rest| + 1) * step;
      forall k | 1 <= k < |rest| + 1
        ensures Arange(start, stop, step)[k] == start + k * step
      {
        assert rest[k - 1] == start + step + (k - 1) * step;
      }
    }
  }

  /** The drawn indices strictly increase. */
  lemma {:induction false} ArangeIncreasing(start: int, stop: int, step: int)
    requires step >= 1
    ensures forall j, k :: 0 <= j < k < |Arange(start, stop, step)| ==>
      Arange(start, stop, step)[j] < Arange(start, stop, step)[k]
    decreases stop - start
  {
    if start < stop {
      var idx := Arange(start, stop, step);
      var rest := Arange(start + step, stop, step);
      ArangeIncreasing(start + step, stop, step);
      forall j, k | 0 <= j < k < |idx| ensures idx[j] < idx[k] {
        assert idx[k] == rest[k - 1];
        if j > 0 {
          assert idx[j] == rest[j - 1];
        }
      }
    }
  }

  lemma FactorAtMost(a: int, b: int, c: int)
    requires c > 0 && a * c <= b * c
    ensures a <= b
  {
    assert (b - a) * c == b * c - a * c;
  }

  lemma FactorLess(a: int, b: int, c: int)
    requires c > 0 && a * c < b * c
    ensures a < b
  {
    assert (b - a) * c == b * c - a * c;
  }

  /** With `w` steps' room below `stop` there are at least `w` indices;
      with `stop` within `w` steps of `start` there are at most `w`. */
  lemma {:induction false} ArangeLength(start: int, stop: int, step: int, w: int)
    requires step >= 1 && w >= 0
    ensures start + w * step <= stop ==> |Arange(start, stop, step)| >= w
    ensures stop <= start + w * step ==> |Arange(start, stop, step)| <= w
    decreases stop - start
  {
    if start < stop && w > 0 {
      assert start + step + (w - 1) * step == start + w * step;
      ArangeLength(start + step, stop, step, w - 1);
    } else if start < stop {
      assert w == 0;
    }
  }

  /** What `paintEvent` draws from a buffer, column by column: point `k` is
      in column `k` and shows sample `offset + k*step`; every drawn sample
      lies in the buffer and left of column `w`; drawing stops only at the
      end of the buffer or at column `w`. */
  lemma TraceColumns<T>(data: seq<T>, offset: int, samplesPerPixel: int, w: int)
    requires offset >= 0
    ensures var tr := Trace(data, offset, samplesPerPixel, w);
      forall k :: 0 <= k < |tr| ==>
        var i := offset + k * Step(samplesPerPixel);
        i < |data| && k < w && tr[k] == Point(k, data[i])
    ensures var tr := Trace(data, offset, samplesPerPixel, w);
      |tr| == w || offset + |tr| * Step(samplesPerPixel) >= |data| || w < 0
  {
    var step := Step(samplesPerPixel);
    var stop := Min(|data|, offset + w * step);
    var idx := Arange(offset, stop, step);
    ArangeClosedForm(offset, stop, step);
    var tr := Trace(data, offset, samplesPerPixel, w);
    forall k | 0 <= k < |tr|
      ensures offset + k * step < |data| && k < w && tr[k] == Point(k, data[offset + k * step])
    {
      assert idx[k] == offset + k * step;
      FactorLess(k, w, step);
    }
    if w >= 0 && offset + |tr| * step < |data| {
      ArangeLength(offset, stop, step, w);
      assert w * step <= |tr| * step;
      FactorAtMost(w, |tr|, step);
    }
  }

  /** How many points `paintEvent` draws: at most `w`; exactly `w` when the
      buffer holds `w` steps from the offset on; none when the offset is at or
      past the end of the buffer or the widget has no width. */
  lemma TraceLength<T>(data: seq<T>, offset: int, samplesPerPixel: int, w: int)
    requires offset >= 0
    ensures w >= 0 ==> |Trace(data, offset, samplesPerPixel, w)| <= w
    ensures w >= 0 && offset + w * Step(samplesPerPixel) <= |data| ==> |Trace(data, offset, samplesPerPixel, w)| == w
    ensures offset >= |data| || w <= 0 ==> |Trace(data, offset, samplesPerPixel, w)| == 0
  {
    var step := Step(samplesPerPixel);
    var stop := Min(|data|, offset + w * step);
    if w >= 0 {
      ArangeLength(offset, stop, step, w);
    }
    if w <= 0 {
      assert w * step <= 0;
    }
  }

  /** With the offset at 0 and 256 samples per pixel, as for the view's
      whole life, column `k` shows sample `256*k`, and drawing stops at
      column `w` or at the end of the buffer. */
  lemma DefaultTrace<T>(data: seq<T>, w: int)
    requires w >= 0
    ensures var tr := Trace(data, 0, DefaultSamplesPerPixel, w);
      (forall k :: 0 <= k < |tr| ==> 256 * k < |data| && tr[k] == Point(k, data[256 * k])) &&
      (|tr| == w || 256 * |tr| >= |data|)
  {
    TraceColumns(data, 0, DefaultSamplesPerPixel, w);
    var tr := Trace(data, 0, DefaultSamplesPerPixel, w);
    assert Step(DefaultSamplesPerPixel) == 256;
    forall k | 0 <= k < |tr| ensures 256 * k < |data| && tr[k] == Point(k, data[256 * k]) {
      assert 0 + k * Step(DefaultSamplesPerPixel) == 256 * k;
    }
  }

  // ---------------------------------------------------------------------
  // The marker

  /** A click inside the widget gives a ratio in [0, 1]. */
  lemma ClickRatioInside(x: real, width: int)
    requires width > 0 && 0.0 <= x <= width as real
    ensures 0.0 <= ClickRatio(x, width) <= 1.0
  {
  }

  lemma MulNonNegative(a: real, b: real)
    requires a >= 0.0 && b >= 0.0
    ensures a * b >= 0.0
  {
  }

  /** A ratio in [0, 1] puts the marker line in a column from 0 to `w`. */
  lemma MarkerInside(ratio: real, w: int)
    requires 0.0 <= ratio <= 1.0 && w >= 0
    ensures 0 <= MarkerColumn(ratio, w) <= w
  {
    var wr := w as real;
    MulNonNegative(1.0 - ratio, wr);
    MulNonNegative(ratio, wr);
    assert ratio * wr == wr - (1.0 - ratio) * wr;
  }

  /** Painted at the width it was clicked at, the marker line is in the
      column of the click, `int(x)`. */
  lemma MarkerAtClick(x: real, width: int)
    requires width != 0
    ensures MarkerColumn(ClickRatio(x, width), width) == Trunc(x)
  {
    assert ClickRatio(x, width) * width as real == x;
  }

  class WaveformView<T> {
    var data: Option<seq<T>>
    var sr: int
    var samplesPerPixel: int
    var offset: int
    var markerRatio: real

    /** Only `__init__` and `set_data` write `offset`, both to 0, and only
        `__init__` writes `samples_pp`: both hold for the view's whole life. */
    ghost predicate Valid()
      reads this
    {
      offset == 0 && samplesPerPixel == DefaultSamplesPerPixel
    }

    /** `__init__`: no buffer, 44100 Hz, 256 samples per pixel, marker at 0. */
    constructor ()
      ensures Valid()
      ensures data == None && sr == DefaultRate && markerRatio == 0.0
    {
      data := None;
      sr := DefaultRate;
      samplesPerPixel := DefaultSamplesPerPixel;
      offset := 0;
      markerRatio := 0.0;
    }

    /** `set_data`: stores the buffer and rate and moves offset and marker back to 0. */
    method SetData(d: seq<T>, rate: int)
      requires Valid()
      modifies this
      ensures Valid()
      ensures data == Some(d) && sr == rate
      ensures offset == 0 && markerRatio == 0.0
      ensures samplesPerPixel == old(samplesPerPixel)
    {
      data, sr := Some(d), rate;
      offset, markerRatio := 0, 0.0;
    }

    /** `paintEvent` for a widget `w` pixels wide: nothing without a buffer;
        otherwise the decimated trace and the marker column. */
    method Paint(w: int) returns (frame: Option<Frame<T>>)
      requires Valid()
      ensures data.None? ==> frame == None
      ensures data.Some? ==>
        frame == Some(Frame(Trace(data.value, offset, samplesPerPixel, w), MarkerColumn(markerRatio, w)))
    {
      if data.None? {
        return None;
      }
      var samples := data.value;
      var step := Step(samplesPerPixel);
      var idx := DrawIndices(offset, |samples|, w, step);
      var seg := seq(|idx|, k requires 0 <= k < |idx| => samples[idx[k]]);
      var path: seq<Point<T>> := [];
      for x := 0 to |seg|
        invariant |path| == x
        invariant forall k :: 0 <= k < x ==> path[k] == Point(k, seg[k])
      {
        path := path + [Point(x, seg[x])];
      }
      assert path == Trace(samples, offset, samplesPerPixel, w);
      frame := Some(Frame(path, MarkerColumn(markerRatio, w)));
    }

    /** `mousePressEvent` at column `x` of a widget `width` pixels wide:
        nothing without a buffer; otherwise the marker moves to `x / width`,
        which raises `ZeroDivisionError` (reported as `raised`) when the
        width is 0. */
    method MousePress(x: real, width: int) returns (raised: bool)
      requires Valid()
      modifies this
      ensures Valid()
      ensures raised <==> data.Some? && width == 0
      ensures markerRatio == if data.Some? && width != 0 then ClickRatio(x, width) else old(markerRatio)
      ensures data == old(data) && sr == old(sr)
      ensures offset == old(offset) && samplesPerPixel == old(samplesPerPixel)
    {
      if data.None? {
        return false;
      }
      if width == 0 {
        return true;
      }
      markerRatio := ClickRatio(x, width);
      return false;
    }
  }
}
