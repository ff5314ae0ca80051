/**
 * The batch script: for each annotation it seeks to the start, sizes a buffer for the annotated span
 * and fills it with a window that never runs past the end of the buffer.
 */
module Selector {
  import opened Wrappers
  import opened Sequences
  import opened Audio
  import opened Times
  import opened Annotations

  /**
   * The loop invariant of the collector: the part of `buffer` before the cursor already holds what the
   * finished buffer will, the part after it is still zero, and what is left to copy is `rest`.
   */
  ghost predicate Collecting<S>(buffer: seq<S>, i: nat, all: seq<S>, rest: seq<S>, zero: S)
  {
    && i <= |buffer|
    && Fill(all, |buffer|, zero) == buffer[..i] + Fill(rest, |buffer| - i, zero)
    && (forall j :: i <= j < |buffer| ==> buffer[j] == zero)
    && |rest| <= |all|
    && i == Min(|all| - |rest|, |buffer|)
  }

  lemma CollectingStart<S>(n: nat, all: seq<S>, zero: S)
    ensures Collecting(Repeat(n, zero), 0, all, all, zero)
  {
    assert Repeat(n, zero)[..0] == [];
  }

  /** Copying the window `[i, min(i + |f|, n))` from the next accepted frame keeps the invariant. */
  lemma CollectingWindow<S>(buffer: seq<S>, i: nat, all: seq<S>, f: seq<S>, rest: seq<S>, zero: S)
    requires Collecting(buffer, i, all, f + rest, zero)
    ensures var w := Min(i + |f|, |buffer|);
            Collecting(buffer[..i] + f[..w - i] + buffer[w..], w, all, rest, zero)
  {
    var n := |buffer|;
    var w := Min(i + |f|, n);
    var next := buffer[..i] + f[..w - i] + buffer[w..];
    FillCons(f, rest, n - i, zero);
    assert Min(|f|, n - i) == w - i;
    assert next[..w] == buffer[..i] + f[..w - i];
    forall j | w <= j < n ensures next[j] == zero {
      assert next[j] == buffer[j];
    }
  }

  /** Once nothing is left or the buffer is full, the buffer is the finished one. */
  lemma CollectingDone<S>(buffer: seq<S>, i: nat, all: seq<S>, rest: seq<S>, zero: S)
    requires Collecting(buffer, i, all, rest, zero)
    requires rest == [] || i >= |buffer|
    ensures buffer == Fill(all, |buffer|, zero)
    ensures i == Min(|all|, |buffer|)
  {
    if i < |buffer| {
      assert Fill(rest, |buffer| - i, zero) == buffer[i..];
    }
    assert buffer == buffer[..i] + buffer[i..];
  }

  /**
   * One frame of the inner loop (lines 91-103): a frame before `seek` is skipped; otherwise the
   * window `sample[i:window_end]`, `window_end = min(i + n, sample_length)`, receives the frame's first
   * `window_end - i` samples and the cursor moves to `window_end`.
   */
  method TakeFrame<S>(sample: array<S>, i: nat, frame: Frame<S>, seek: real,
                      ghost all: seq<S>, ghost rest: seq<Frame<S>>, zero: S)
    returns (next: nat)
    requires Collecting(sample[..], i, all, AcceptedSamples([frame] + rest, Some(seek)), zero)
    modifies sample
    ensures Collecting(sample[..], next, all, AcceptedSamples(rest, Some(seek)), zero)
    ensures i <= next <= sample.Length
    ensures frame.time < seek ==> next == i && sample[..] == old(sample[..])
    ensures frame.time >= seek ==>
              next == Min(i + |frame.samples|, sample.Length) &&
              sample[..] == old(sample[..i]) + frame.samples[..next - i] + old(sample[next..])
  {
    ghost var tail := AcceptedSamples(rest, Some(seek));
    AcceptedSamplesFrame(frame, rest, Some(seek));
    if frame.time < seek {
      assert [] + tail == tail;
      return i;
    }
    var windowEnd := Min(i + |frame.samples|, sample.Length);
    CollectingWindow(sample[..], i, all, frame.samples, tail, zero);
    var window := SliceTo(frame.samples, windowEnd - i);
    assert window == frame.samples[..windowEnd - i];
    var failure := AssignSlice(sample, i, windowEnd, window);
    next := windowEnd;
  }

  /** The frame loop of one packet (lines 83-103): every frame of the packet goes through `TakeFrame`. */
  method TakePacket<S>(sample: array<S>, i: nat, packet: seq<Frame<S>>, seek: real,
                       ghost all: seq<S>, ghost later: seq<Frame<S>>, zero: S)
    returns (next: nat)
    requires Collecting(sample[..], i, all, AcceptedSamples(packet + later, Some(seek)), zero)
    modifies sample
    ensures Collecting(sample[..], next, all, AcceptedSamples(later, Some(seek)), zero)
    ensures i <= next <= sample.Length
  {
    next := i;
    ghost var rest := packet + later;
    for q := 0 to |packet|
      invariant rest == packet[q..] + later
      invariant i <= next <= sample.Length
      invariant Collecting(sample[..], next, all, AcceptedSamples(rest, Some(seek)), zero)
    {
      assert rest == [packet[q]] + (packet[q + 1..] + later);
      rest := rest[1..];
      next := TakeFrame(sample, next, packet[q], seek, all, rest, zero);
    }
    assert packet[|packet|..] == [];
    assert rest == later;
  }

  /**
   * Lines 74-103 for one annotation: a zeroed buffer of `length` samples, filled from the packets the
   * container yields after the seek; the packet loop stops once the buffer is full.
   */
  method Collect<S>(packets: seq<seq<Frame<S>>>, seek: real, length: nat, zero: S)
    returns (sample: array<S>, i: nat)
    ensures fresh(sample)
    ensures sample[..] == Fill(AcceptedSamples(Flatten(packets), Some(seek)), length, zero)
    ensures i == Min(|AcceptedSamples(Flatten(packets), Some(seek))|, length)
  {
    sample := new S[length](_ => zero);
    i := 0;
    ghost var all := AcceptedSamples(Flatten(packets), Some(seek));
    ghost var rest := Flatten(packets);
    assert sample[..] == Repeat(length, zero);
    CollectingStart(length, all, zero);
    assert packets[0..] == packets;
    for p := 0 to |packets|
      invariant sample.Length == length
      invariant rest == Flatten(packets[p..])
      invariant Collecting(sample[..], i, all, AcceptedSamples(rest, Some(seek)), zero)
    {
      if i >= length {
        break;
      }
      FlattenAt(packets, p);
      i := TakePacket(sample, i, packets[p], seek, all, Flatten(packets[p + 1..]), zero);
      rest := Flatten(packets[p + 1..]);
    }
    CollectingDone(sample[..], i, all, AcceptedSamples(rest, Some(seek)), zero);
  }

  // ---------------------------------------------------------------- the main loop

  /** The error np.zeros raises for a negative buffer length. */
  datatype LengthError = NegativeLength(length: int)

  /** An annotation whose times have no milliseconds and no ticks, as every parsed annotation is. */
  predicate WholeRecord(rec: Record)
  {
    rec.start.milliseconds == 0 && rec.start.ticks == 0 && rec.end.milliseconds == 0 && rec.end.ticks == 0
  }

  /** Lines 49-71: the annotated span in seconds, end offset minus start offset, taken in whole seconds. */
  function Duration(rec: Record): (d: int)
    ensures WholeRecord(rec) ==> d as real == Seconds(rec.end) - Seconds(rec.start)
  {
    WholeSeconds(rec.end) - WholeSeconds(rec.start)
  }

  /**
   * Lines 73-75: the buffer holds `rate * duration` samples; np.zeros refuses a negative length.
   * An annotation that ends before it starts is an error unless the rate is zero.
   */
  function SampleLength(rate: nat, rec: Record): (r: Result<nat, LengthError>)
    ensures WholeRecord(rec) ==> (r.Ok? <==> rate == 0 || Seconds(rec.start) <= Seconds(rec.end))
    ensures WholeRecord(rec) && r.Ok? ==> r.value as real == rate as real * (Seconds(rec.end) - Seconds(rec.start))
    ensures r.Err? ==> r.error.length < 0
  {
    var n := rate * Duration(rec);
    if n < 0 then Err(NegativeLength(n)) else Ok(n)
  }

  /** Every annotation read from a file has whole seconds only. */
  lemma RecordsAreWhole(lines: seq<string>)
    ensures forall k :: 0 <= k < |Records(lines)| ==> WholeRecord(Records(lines)[k])
  {
    RecordsOfMatchingLines(lines);
  }

  /** What one iteration of the main loop leaves in `sample` for the annotation `rec`. */
  function Selection<S>(rec: Record, rate: nat, packets: seq<seq<Frame<S>>>, zero: S): (r: Result<seq<S>, LengthError>)
    ensures r.Ok? <==> SampleLength(rate, rec).Ok?
    ensures r.Ok? ==> |r.value| == SampleLength(rate, rec).value
  {
    match SampleLength(rate, rec)
    case Err(e) => Err(e)
    case Ok(length) => Ok(Fill(AcceptedSamples(Flatten(packets), Some(Seconds(rec.start))), length, zero))
  }

  /**
   * Lines 48-103: for each annotation in turn, the buffer filled from the packets demuxed after seeking
   * to its start (`demuxed[k]` for `times[k]`); the first negative length ends the run with an error.
   * The annotations are in whole seconds, as every one read from the file is (`RecordsAreWhole`).
   */
  method Run<S>(times: seq<Record>, rate: nat, demuxed: seq<seq<seq<Frame<S>>>>, zero: S)
    returns (buffers: seq<seq<S>>, failure: Option<LengthError>)
    requires |demuxed| == |times|
    requires forall k :: 0 <= k < |times| ==> WholeRecord(times[k])
    ensures |buffers| <= |times|
    ensures forall k :: 0 <= k < |buffers| ==> Selection(times[k], rate, demuxed[k], zero) == Ok(buffers[k])
    ensures failure.None? <==> |buffers| == |times|
    ensures failure.Some? ==> Selection(times[|buffers|], rate, demuxed[|buffers|], zero) == Err(failure.value)
  {
    buffers := [];
    for k := 0 to |times|
      invariant |buffers| == k
      invariant forall j :: 0 <= j < k ==> Selection(times[j], rate, demuxed[j], zero) == Ok(buffers[j])
    {
      var seek := Seconds(times[k].start);
      var length := SampleLength(rate, times[k]);
      if length.Err? {
        return buffers, Some(length.error);
      }
      var sample, _ := Collect(demuxed[k], seek, length.value, zero);
      buffers := buffers + [sample[..]];
    }
    failure := None;
  }
}
