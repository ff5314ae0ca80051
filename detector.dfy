/**
 * The collector of the interactive script (lines 100-133) as written: a frame that fits is copied
 * whole, and the frame that would overflow the buffer is cut with `frame_sample[:i - sample_length]`.
 */
module Detector {
  import opened Wrappers
  import opened Sequences
  import opened Audio

  function Prepend<S>(xs: seq<S>, r: Result<seq<S>, ShapeError>): Result<seq<S>, ShapeError>
  {
    if r.Ok? then Ok(xs + r.value) else r
  }

  /**
   * What lines 126-133 make of the accepted frames `frames` when `room` positions of the buffer are
   * left: the buffer from the cursor on, or the exception numpy raises in the overflow branch. A frame
   * that fits is copied and leaves less room; with no room left every frame is ignored; a frame longer
   * than the room is cut at `-room` from its end before being stored into the room.
   */
  function Outcome<S>(frames: seq<seq<S>>, room: nat, zero: S): (r: Result<seq<S>, ShapeError>)
    ensures r.Ok? ==> |r.value| == room
  {
    if frames == [] then Ok(Repeat(room, zero))
    else if room == 0 then Ok([])
    else if |frames[0]| > room then SliceValue(room, SliceTo(frames[0], -(room as int)))
    else Prepend(frames[0], Outcome(frames[1..], room - |frames[0]|, zero))
  }

  /** The first accepted frame that does not fit into the room left before it, with that room. */
  function Crossing<S>(frames: seq<seq<S>>, room: nat): Option<(seq<S>, nat)>
  {
    if frames == [] || room == 0 then None
    else if |frames[0]| > room then Some((frames[0], room))
    else Crossing(frames[1..], room - |frames[0]|)
  }

  /** A first frame longer than the room is cut and stored; the frames after it do not matter. */
  lemma OutcomeOverflow<S>(f: seq<S>, rest: seq<seq<S>>, room: nat, zero: S)
    requires 0 < room < |f|
    ensures Outcome([f] + rest, room, zero) == SliceValue(room, SliceTo(f, -(room as int)))
  {
    Cons(f, rest);
  }

  /**
   * The overflow branch on its own: the cut `frame[:-room]` keeps `n - room` samples, so numpy stores
   * it only when that is `room` (n == 2 * room) or 1 (a broadcast of the first sample); it stores the
   * first `room` samples, as a correct cut would, exactly when n == 2 * room or the broadcast happens
   * to repeat them.
   */
  lemma OverflowBranch<S>(f: seq<S>, rest: seq<seq<S>>, room: nat, zero: S)
    requires 0 < room < |f|
    ensures |SliceTo(f, -(room as int))| == |f| - room
    ensures Outcome([f] + rest, room, zero).Ok? <==> |f| == 2 * room || |f| == room + 1
    ensures Outcome([f] + rest, room, zero) == Ok(f[..room]) <==>
            |f| == 2 * room || (|f| == room + 1 && forall j :: 0 <= j < room ==> f[j] == f[0])
  {
    var cut := SliceTo(f, -(room as int));
    OutcomeOverflow(f, rest, room, zero);
    if |f| == room + 1 && |f| != 2 * room {
      assert SliceValue(room, cut) == Ok(Repeat(room, f[0]));
      if forall j :: 0 <= j < room ==> f[j] == f[0] {
        assert Repeat(room, f[0]) == f[..room];
      }
      if Repeat(room, f[0]) == f[..room] {
        forall j | 0 <= j < room ensures f[j] == f[0] {
          assert f[..room][j] == f[j];
        }
      }
    }
  }

  /** When every accepted sample fits, the detector leaves the samples followed by zeros. */
  lemma {:induction false} OutcomeWhenFits<S>(frames: seq<seq<S>>, room: nat, zero: S)
    requires |Flatten(frames)| <= room
    ensures Outcome(frames, room, zero) == Ok(Fill(Flatten(frames), room, zero))
  {
    if frames == [] {
      assert Fill([], room, zero) == Repeat(room, zero);
    } else {
      var f := frames[0];
      assert Flatten(frames) == f + Flatten(frames[1..]);
      if room > 0 {
        OutcomeWhenFits(frames[1..], room - |f|, zero);
        FillCons(f, Flatten(frames[1..]), room, zero);
        assert f[..|f|] == f;
      }
    }
  }

  /**
   * The detector leaves what the corrected collector leaves (the accepted samples cut to the buffer,
   * then zeros) exactly when no frame crosses the end of the buffer, or the crossing frame is twice as
   * long as the room it meets, or it is one longer and its first `room` samples are all equal; and it
   * raises exactly when a crossing frame has any length other than twice or one more than its room.
   */
  lemma {:induction false} OutcomeAgainstFill<S>(frames: seq<seq<S>>, room: nat, zero: S)
    ensures var c := Crossing(frames, room);
            Outcome(frames, room, zero).Ok? <==>
            c.None? || |c.value.0| == 2 * c.value.1 || |c.value.0| == c.value.1 + 1
    ensures var c := Crossing(frames, room);
            Outcome(frames, room, zero) == Ok(Fill(Flatten(frames), room, zero)) <==>
            c.None? || |c.value.0| == 2 * c.value.1 ||
            (|c.value.0| == c.value.1 + 1 && forall j :: 0 <= j < c.value.1 ==> c.value.0[j] == c.value.0[0])
  {
    if frames == [] {
      assert Fill([], room, zero) == Repeat(room, zero);
    } else if room == 0 {
    } else {
      var f := frames[0];
      var rest := frames[1..];
      assert frames == [f] + rest;
      assert Flatten(frames) == f + Flatten(rest);
      FillCons(f, Flatten(rest), room, zero);
      if |f| > room {
        OverflowBranch(f, rest, room, zero);
        assert Fill(Flatten(frames), room, zero) == f[..room];
      } else {
        OutcomeAgainstFill(rest, room - |f|, zero);
        assert f[..|f|] == f;
        var tail := Outcome(rest, room - |f|, zero);
        var want := Fill(Flatten(rest), room - |f|, zero);
        if tail.Ok? && f + tail.value == f + want {
          assert tail.value == (f + tail.value)[|f|..];
        }
      }
    }
  }

  /** A frame of three samples meeting one free position: the cut keeps two, and numpy raises. */
  lemma OverflowRaises()
    ensures Outcome([[1, 2, 3]], 1, 0) == Err(ShapeError(2, 1))
    ensures Fill(Flatten([[1, 2, 3]]), 1, 0) == [1]
  {
    assert [[1, 2, 3]][0] == [1, 2, 3];
    assert SliceTo([1, 2, 3], -1) == [1, 2];
    assert Flatten([[1, 2, 3]]) == [1, 2, 3];
  }

  /** A frame of four samples meeting three free positions: the cut keeps one, broadcast three times. */
  lemma OverflowBroadcasts()
    ensures Outcome([[1, 2, 3, 4]], 3, 0) == Ok([1, 1, 1])
    ensures Fill(Flatten([[1, 2, 3, 4]]), 3, 0) == [1, 2, 3]
  {
    assert [[1, 2, 3, 4]][0] == [1, 2, 3, 4];
    assert SliceTo([1, 2, 3, 4], -3) == [1];
    assert Repeat(3, 1) == [1, 1, 1];
    assert Flatten([[1, 2, 3, 4]]) == [1, 2, 3, 4];
  }

  /**
   * Lines 126-133 with the cut evidently intended at line 128, `frame_sample[:sample_length - i]`:
   * the same loop, with the crossing frame cut at `+room` instead of `-room`.
   */
  function FixedOutcome<S>(frames: seq<seq<S>>, room: nat, zero: S): Result<seq<S>, ShapeError>
  {
    if frames == [] then Ok(Repeat(room, zero))
    else if room == 0 then Ok([])
    else if |frames[0]| > room then SliceValue(room, SliceTo(frames[0], room))
    else Prepend(frames[0], FixedOutcome(frames[1..], room - |frames[0]|, zero))
  }

  /** With the corrected cut the detector never raises and always leaves the intended buffer. */
  lemma {:induction false} FixedOutcomeIsFill<S>(frames: seq<seq<S>>, room: nat, zero: S)
    ensures FixedOutcome(frames, room, zero) == Ok(Fill(Flatten(frames), room, zero))
  {
    if frames == [] {
      assert Fill([], room, zero) == Repeat(room, zero);
    } else if room > 0 {
      var f := frames[0];
      var rest := frames[1..];
      assert Flatten(frames) == f + Flatten(rest);
      FillCons(f, Flatten(rest), room, zero);
      if |f| > room {
        assert SliceTo(f, room) == f[..room];
        assert Fill(Flatten(frames), room, zero) == f[..room];
      } else {
        FixedOutcomeIsFill(rest, room - |f|, zero);
        assert f[..|f|] == f;
      }
    }
  }

  /**
   * The loop invariant of the collector: what the finished buffer (or the exception) will be is what
   * is before the cursor followed by the outcome of the frames left; after the cursor the buffer is
   * still zero; and the cursor counts the samples taken so far, up to the buffer's length.
   */
  ghost predicate Copying<S>(buffer: seq<S>, i: nat, goal: Result<seq<S>, ShapeError>,
                             rest: seq<seq<S>>, total: nat, zero: S)
  {
    && i <= |buffer|
    && goal == Prepend(buffer[..i], Outcome(rest, |buffer| - i, zero))
    && (forall j :: i <= j < |buffer| ==> buffer[j] == zero)
    && |Flatten(rest)| <= total
    && i == Min(total - |Flatten(rest)|, |buffer|)
  }

  lemma CopyingStart<S>(n: nat, frames: seq<seq<S>>, zero: S)
    ensures Copying(Repeat(n, zero), 0, Outcome(frames, n, zero), frames, |Flatten(frames)|, zero)
  {
    assert Repeat(n, zero)[..0] == [];
    var r := Outcome(frames, n, zero);
    if r.Ok? {
      assert [] + r.value == r.value;
    }
  }

  /** With no room left the outcome is the buffer as it stands. */
  lemma OutcomeNoRoom<S>(frames: seq<seq<S>>, zero: S)
    ensures Outcome(frames, 0, zero) == Ok([])
  {
  }

  /** A frame that fits (lines 131-133) is copied to `[i, i + n)` and the cursor moves past it. */
  lemma CopyingFits<S>(buffer: seq<S>, i: nat, goal: Result<seq<S>, ShapeError>,
                       f: seq<S>, rest: seq<seq<S>>, total: nat, zero: S)
    requires Copying(buffer, i, goal, [f] + rest, total, zero)
    requires i != |buffer| && i + |f| <= |buffer|
    ensures Copying(buffer[..i] + f + buffer[i + |f|..], i + |f|, goal, rest, total, zero)
  {
    var next := buffer[..i] + f + buffer[i + |f|..];
    assert ([f] + rest)[0] == f && ([f] + rest)[1..] == rest;
    var later := Outcome(rest, |buffer| - i - |f|, zero);
    assert Outcome([f] + rest, |buffer| - i, zero) == Prepend(f, later);
    if later.Ok? {
      assert buffer[..i] + (f + later.value) == (buffer[..i] + f) + later.value;
    }
    assert Flatten([f] + rest) == f + Flatten(rest);
    assert next[..i + |f|] == buffer[..i] + f;
    forall j | i + |f| <= j < |buffer| ensures next[j] == zero {
      assert next[j] == buffer[j];
    }
  }

  /** With the cursor at the end (line 126) a frame changes nothing. */
  lemma CopyingIgnored<S>(buffer: seq<S>, goal: Result<seq<S>, ShapeError>,
                          f: seq<S>, rest: seq<seq<S>>, total: nat, zero: S)
    requires Copying(buffer, |buffer|, goal, [f] + rest, total, zero)
    ensures Copying(buffer, |buffer|, goal, rest, total, zero)
  {
    FlattenCons(f, rest);
    OutcomeNoRoom([f] + rest, zero);
    OutcomeNoRoom(rest, zero);
  }

  /** A skipped frame (lines 115-118) is not among the accepted ones. */
  lemma CopyingSkipped<S>(buffer: seq<S>, i: nat, goal: Result<seq<S>, ShapeError>,
                          f: Frame<S>, rest: seq<Frame<S>>, seek: Option<real>, total: nat, zero: S)
    requires Skipped(f, seek)
    requires Copying(buffer, i, goal, Accepted([f] + rest, seek), total, zero)
    ensures Copying(buffer, i, goal, Accepted(rest, seek), total, zero)
  {
    assert ([f] + rest)[1..] == rest;
    assert Accepted([f] + rest, seek) == [] + Accepted(rest, seek);
    assert [] + Accepted(rest, seek) == Accepted(rest, seek);
  }

  /** What the overflow branch makes of the goal: the exception, or the prefix and the stored cut. */
  lemma OverflowGoal<S>(prefix: seq<S>, goal: Result<seq<S>, ShapeError>,
                        f: seq<S>, rest: seq<seq<S>>, room: nat, zero: S)
    requires 0 < room < |f|
    requires goal == Prepend(prefix, Outcome([f] + rest, room, zero))
    ensures var v := SliceValue(room, SliceTo(f, -(room as int)));
            if v.Err? then goal == Err(v.error) else goal == Ok(prefix + v.value)
  {
    OutcomeOverflow(f, rest, room, zero);
  }

  /**
   * The overflow branch (lines 127-130): the room `[i, L)` receives `SliceValue` of the cut frame, or
   * the exception is the outcome; either way no frame after it matters.
   */
  lemma CopyingOverflow<S>(buffer: seq<S>, i: nat, goal: Result<seq<S>, ShapeError>,
                           f: seq<S>, rest: seq<seq<S>>, total: nat, zero: S)
    requires Copying(buffer, i, goal, [f] + rest, total, zero)
    ensures i != |buffer| && i + |f| > |buffer| ==>
            var v := SliceValue(|buffer| - i, SliceTo(f, i - |buffer|));
            if v.Err? then goal == Err(v.error)
            else goal == Ok(buffer[..i] + v.value) && |Flatten(rest)| + |buffer| < total
  {
    assert goal == Prepend(buffer[..i], Outcome([f] + rest, |buffer| - i, zero));
    FlattenCons(f, rest);
    if i != |buffer| && i + |f| > |buffer| {
      var room := |buffer| - i;
      OverflowGoal(buffer[..i], goal, f, rest, room, zero);
      assert i - |buffer| == -(room as int);
    }
  }

  /** After the overflow the buffer is final, whatever frames are still to come. */
  lemma CopyingFinished<S>(buffer: seq<S>, goal: Result<seq<S>, ShapeError>,
                           rest: seq<seq<S>>, total: nat, zero: S)
    requires goal == Ok(buffer)
    requires |Flatten(rest)| + |buffer| <= total
    ensures Copying(buffer, |buffer|, goal, rest, total, zero)
  {
    assert buffer[..|buffer|] == buffer;
    OutcomeNoRoom(rest, zero);
    assert buffer + [] == buffer;
  }

  lemma CopyingDone<S>(buffer: seq<S>, i: nat, goal: Result<seq<S>, ShapeError>,
                       rest: seq<seq<S>>, total: nat, zero: S)
    requires Copying(buffer, i, goal, rest, total, zero)
    requires rest == [] || i >= |buffer|
    ensures goal == Ok(buffer)
    ensures i == Min(total, |buffer|)
  {
    if i < |buffer| {
      assert Repeat(|buffer| - i, zero) == buffer[i..];
    }
    assert buffer == buffer[..i] + buffer[i..];
  }

  /**
   * One frame of the inner loop (lines 115-133). A skipped frame, or any frame once the cursor is at
   * the end, changes nothing. A frame that fits is copied to `[i, i + n)` and the cursor moves past
   * it. A frame that does not fit takes the overflow branch: `overflowed` reports the `break` of line
   * 130, and `failure` the exception numpy raises when the cut frame cannot be stored into `[i, L)`.
   */
  method TakeFrame<S>(sample: array<S>, i: nat, frame: Frame<S>, seek: Option<real>,
                      ghost goal: Result<seq<S>, ShapeError>, ghost rest: seq<Frame<S>>,
                      ghost total: nat, zero: S)
    returns (next: nat, failure: Option<ShapeError>, overflowed: bool)
    requires Copying(sample[..], i, goal, Accepted([frame] + rest, seek), total, zero)
    modifies sample
    ensures Skipped(frame, seek) || i == sample.Length ==>
              next == i && failure.None? && !overflowed && sample[..] == old(sample[..])
    ensures !Skipped(frame, seek) && i < sample.Length && i + |frame.samples| <= sample.Length ==>
              next == i + |frame.samples| && failure.None? && !overflowed &&
              sample[..] == old(sample[..i]) + frame.samples + old(sample[i + |frame.samples|..])
    ensures !Skipped(frame, seek) && i < sample.Length && i + |frame.samples| > sample.Length ==>
              var v := SliceValue(sample.Length - i, SliceTo(frame.samples, i - sample.Length));
              overflowed && (failure.None? <==> v.Ok?) &&
              (v.Ok? ==> next == sample.Length && sample[..] == old(sample[..i]) + v.value)
    ensures failure.Some? ==> goal == Err(failure.value) && sample[..] == old(sample[..])
    ensures failure.None? && !overflowed ==> Copying(sample[..], next, goal, Accepted(rest, seek), total, zero)
    ensures failure.None? && overflowed ==>
              goal == Ok(sample[..]) && next == sample.Length &&
              |AcceptedSamples(rest, seek)| + sample.Length <= total
  {
    var length := sample.Length;
    next, failure, overflowed := i, None, false;
    if seek.Some? && frame.time < seek.value {
      CopyingSkipped(sample[..], i, goal, frame, rest, seek, total, zero);
      return;
    }
    AcceptedCons(frame, rest, seek);
    if i != length {
      if i + |frame.samples| > length {
        CopyingOverflow(sample[..], i, goal, frame.samples, Accepted(rest, seek), total, zero);
        ghost var before := sample[..];
        failure := AssignSlice(sample, i, length, SliceTo(frame.samples, i - length));
        overflowed := true;
        if failure.Some? {
          return;
        }
        assert before[length..] == [];
        next := length;
      } else {
        CopyingFits(sample[..], i, goal, frame.samples, Accepted(rest, seek), total, zero);
        failure := AssignSlice(sample, i, i + |frame.samples|, frame.samples);
        next := i + |frame.samples|;
      }
    } else {
      CopyingIgnored(sample[..], goal, frame.samples, Accepted(rest, seek), total, zero);
    }
  }

  /**
   * The frame loop of lines 107-133 for one packet. Frames are taken in order until the packet ends,
   * numpy raises, or the overflow branch breaks out of the loop.
   */
  method TakePacket<S>(sample: array<S>, i: nat, packet: seq<Frame<S>>, seek: Option<real>,
                       ghost goal: Result<seq<S>, ShapeError>, ghost later: seq<Frame<S>>,
                       ghost total: nat, zero: S)
    returns (next: nat, failure: Option<ShapeError>)
    requires Copying(sample[..], i, goal, Accepted(packet + later, seek), total, zero)
    modifies sample
    ensures failure.Some? ==> goal == Err(failure.value)
    ensures failure.None? ==> Copying(sample[..], next, goal, Accepted(later, seek), total, zero)
  {
    next, failure := i, None;
    ghost var rest := packet + later;
    assert packet[0..] == packet;
    for q := 0 to |packet|
      invariant failure.None?
      invariant rest == packet[q..] + later
      invariant Copying(sample[..], next, goal, Accepted(rest, seek), total, zero)
    {
      assert rest == [packet[q]] + (packet[q + 1..] + later);
      rest := rest[1..];
      var n, fail, overflowed := TakeFrame(sample, next, packet[q], seek, goal, rest, total, zero);
      if fail.Some? {
        return next, fail;
      }
      next := n;
      if overflowed {
        AcceptedSamplesAppend(packet[q + 1..], later, seek);
        CopyingFinished(sample[..], goal, Accepted(later, seek), total, zero);
        return;
      }
    }
    assert packet[|packet|..] == [];
    assert rest == later;
  }

  /**
   * Lines 83-84 and 100-133: a zeroed buffer of `length` samples filled from the packets; `failure` is
   * the exception of line 128, after which the script stops.
   */
  method Collect<S>(packets: seq<seq<Frame<S>>>, seek: Option<real>, length: nat, zero: S)
    returns (sample: array<S>, i: nat, failure: Option<ShapeError>)
    ensures fresh(sample) && sample.Length == length
    ensures failure.None? ==> Outcome(Accepted(Flatten(packets), seek), length, zero) == Ok(sample[..])
    ensures failure.Some? ==> Outcome(Accepted(Flatten(packets), seek), length, zero) == Err(failure.value)
    ensures failure.None? ==> i == Min(|AcceptedSamples(Flatten(packets), seek)|, length)
  {
    sample := new S[length](_ => zero);
    i := 0;
    failure := None;
    ghost var total := |AcceptedSamples(Flatten(packets), seek)|;
    ghost var goal := Outcome(Accepted(Flatten(packets), seek), length, zero);
    ghost var rest := Flatten(packets);
    assert sample[..] == Repeat(length, zero);
    CopyingStart(length, Accepted(Flatten(packets), seek), zero);
    assert packets[0..] == packets;
    for p := 0 to |packets|
      invariant sample.Length == length && failure.None?
      invariant rest == Flatten(packets[p..])
      invariant Copying(sample[..], i, goal, Accepted(rest, seek), total, zero)
    {
      if i >= length {
        break;
      }
      FlattenAt(packets, p);
      var next, fail := TakePacket(sample, i, packets[p], seek, goal, Flatten(packets[p + 1..]), total, zero);
      if fail.Some? {
        failure := fail;
        return;
      }
      i := next;
      rest := Flatten(packets[p + 1..]);
    }
    CopyingDone(sample[..], i, goal, Accepted(rest, seek), total, zero);
  }
}
