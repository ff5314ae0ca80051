/**
 * What the two sample collectors share: decoded frames, the seek filter, the zero-padded buffer they
 * are meant to produce, and the slice semantics of Python and numpy that the copy relies on.
 */
module Audio {
  import opened Wrappers
  import opened Sequences

  /** A decoded frame: its presentation time in seconds and the samples of its first channel plane. */
  datatype Frame<S> = Frame(time: real, samples: seq<S>)

  /** A frame earlier than the seek offset is skipped; without an offset none is. */
  predicate Skipped<S>(f: Frame<S>, seek: Option<real>)
  {
    seek.Some? && f.time < seek.value
  }

  function Flatten<T>(ss: seq<seq<T>>): seq<T>
  {
    if ss == [] then [] else ss[0] + Flatten(ss[1..])
  }

  /** The sample sequences of the frames that are not skipped, in stream order. */
  function Accepted<S>(frames: seq<Frame<S>>, seek: Option<real>): seq<seq<S>>
  {
    if frames == [] then []
    else (if Skipped(frames[0], seek) then [] else [frames[0].samples]) + Accepted(frames[1..], seek)
  }

  /** All samples of the frames that are not skipped, concatenated. */
  function AcceptedSamples<S>(frames: seq<Frame<S>>, seek: Option<real>): seq<S>
  {
    Flatten(Accepted(frames, seek))
  }

  function Repeat<S>(n: nat, x: S): (r: seq<S>)
    ensures |r| == n && forall j :: 0 <= j < n ==> r[j] == x
  {
    seq(n, _ => x)
  }

  /** The buffer of length n the collectors are meant to leave: xs cut to n, the rest still zero. */
  function Fill<S>(xs: seq<S>, n: nat, zero: S): (r: seq<S>)
    ensures |r| == n
    ensures forall j :: 0 <= j < n ==> r[j] == if j < |xs| then xs[j] else zero
  {
    var k := Min(|xs|, n);
    xs[..k] + Repeat(n - k, zero)
  }

  /** Python's `s[:stop]`: a negative stop counts back from the end, and the result is clipped to s. */
  function SliceTo<S>(s: seq<S>, stop: int): (r: seq<S>)
    ensures |r| <= |s| && r == s[..|r|]
    ensures stop >= 0 ==> |r| == Min(stop, |s|)
    ensures stop < 0 && -stop <= |s| ==> |r| == |s| + stop
    ensures stop < 0 && -stop > |s| ==> r == []
  {
    var end := if stop < 0 then (if |s| + stop < 0 then 0 else |s| + stop) else Min(stop, |s|);
    s[..end]
  }

  /** numpy's complaint "could not broadcast input array from shape (source,) into shape (target,)". */
  datatype ShapeError = ShapeError(source: nat, target: nat)

  /**
   * What numpy stores into a slice of `target` positions when `source` is assigned to it: a source of
   * the same length element by element, a one-element source broadcast to every position, and for any
   * other length the exception.
   */
  function SliceValue<S>(target: nat, source: seq<S>): (r: Result<seq<S>, ShapeError>)
    ensures r.Ok? <==> |source| == target || |source| == 1
    ensures r.Ok? ==> |r.value| == target
    ensures |source| == target ==> r == Ok(source)
    ensures |source| == 1 ==> r == Ok(Repeat(target, source[0]))
    ensures r.Err? ==> r.error == ShapeError(|source|, target)
  {
    if |source| == target then
      assert |source| == 1 ==> source == Repeat(target, source[0]);
      Ok(source)
    else if |source| == 1 then Ok(Repeat(target, source[0]))
    else Err(ShapeError(|source|, target))
  }

  /** numpy's `a[lo:hi] = source`: only positions lo to hi change, and only if the shapes agree. */
  method AssignSlice<S>(a: array<S>, lo: nat, hi: nat, source: seq<S>) returns (failure: Option<ShapeError>)
    requires lo <= hi <= a.Length
    modifies a
    ensures failure.None? <==> SliceValue(hi - lo, source).Ok?
    ensures failure.Some? ==> failure.value == SliceValue(hi - lo, source).error && a[..] == old(a[..])
    ensures failure.None? ==> a[..] == old(a[..lo]) + SliceValue(hi - lo, source).value + old(a[hi..])
  {
    var v := SliceValue(hi - lo, source);
    if v.Err? {
      return Some(v.error);
    }
    forall j | lo <= j < hi {
      a[j] := v.value[j - lo];
    }
    assert a[..] == old(a[..lo]) + v.value + old(a[hi..]) by {
      forall j | 0 <= j < a.Length ensures a[..][j] == (old(a[..lo]) + v.value + old(a[hi..]))[j] {
      }
    }
    failure := None;
  }

  // ---------------------------------------------------------------- lemmas

  lemma {:induction false} FlattenAppend<T>(a: seq<seq<T>>, b: seq<seq<T>>)
    ensures Flatten(a + b) == Flatten(a) + Flatten(b)
  {
    if a == [] {
      assert a + b == b;
    } else {
      assert (a + b)[1..] == a[1..] + b;
      FlattenAppend(a[1..], b);
    }
  }

  /** The first frame's samples come first. */
  lemma FlattenCons<S>(f: seq<S>, rest: seq<seq<S>>)
    ensures Flatten([f] + rest) == f + Flatten(rest)
  {
    assert ([f] + rest)[1..] == rest;
  }

  lemma FlattenAt<T>(ss: seq<seq<T>>, p: nat)
    requires p < |ss|
    ensures Flatten(ss[p..]) == ss[p] + Flatten(ss[p + 1..])
  {
    assert ss[p..][1..] == ss[p + 1..];
  }

  lemma {:induction false} AcceptedAppend<S>(a: seq<Frame<S>>, b: seq<Frame<S>>, seek: Option<real>)
    ensures Accepted(a + b, seek) == Accepted(a, seek) + Accepted(b, seek)
  {
    if a == [] {
      assert a + b == b;
    } else {
      assert (a + b)[1..] == a[1..] + b;
      AcceptedAppend(a[1..], b, seek);
    }
  }

  /** Stepping over one frame: a skipped frame contributes nothing, an accepted one its samples. */
  lemma AcceptedSamplesCons<S>(frames: seq<Frame<S>>, seek: Option<real>)
    requires frames != []
    ensures AcceptedSamples(frames, seek) ==
            (if Skipped(frames[0], seek) then [] else frames[0].samples) + AcceptedSamples(frames[1..], seek)
  {
    var head: seq<seq<S>> := if Skipped(frames[0], seek) then [] else [frames[0].samples];
    FlattenAppend(head, Accepted(frames[1..], seek));
    if !Skipped(frames[0], seek) {
      assert head[1..] == [];
    }
  }

  /** An accepted first frame is the first accepted sample sequence. */
  lemma AcceptedCons<S>(f: Frame<S>, rest: seq<Frame<S>>, seek: Option<real>)
    requires !Skipped(f, seek)
    ensures Accepted([f] + rest, seek) == [f.samples] + Accepted(rest, seek)
  {
    assert ([f] + rest)[1..] == rest;
  }

  /** The accepted samples of a frame followed by more frames. */
  lemma AcceptedSamplesFrame<S>(f: Frame<S>, rest: seq<Frame<S>>, seek: Option<real>)
    ensures AcceptedSamples([f] + rest, seek) ==
            (if Skipped(f, seek) then [] else f.samples) + AcceptedSamples(rest, seek)
  {
    AcceptedSamplesCons([f] + rest, seek);
    assert ([f] + rest)[0] == f && ([f] + rest)[1..] == rest;
  }

  lemma {:induction false} AcceptedSamplesAppend<S>(a: seq<Frame<S>>, b: seq<Frame<S>>, seek: Option<real>)
    ensures AcceptedSamples(a + b, seek) == AcceptedSamples(a, seek) + AcceptedSamples(b, seek)
  {
    AcceptedAppend(a, b, seek);
    FlattenAppend(Accepted(a, seek), Accepted(b, seek));
  }

  /** Filling from a sequence that starts with `f` copies what fits of `f` and fills the rest from the tail. */
  lemma FillCons<S>(f: seq<S>, rest: seq<S>, n: nat, zero: S)
    ensures Fill(f + rest, n, zero) == f[..Min(|f|, n)] + Fill(rest, n - Min(|f|, n), zero)
  {
    var m := Min(|f|, n);
    var lhs := Fill(f + rest, n, zero);
    var rhs := f[..m] + Fill(rest, n - m, zero);
    forall j | 0 <= j < n ensures lhs[j] == rhs[j] {
      if j >= m {
        assert rhs[j] == Fill(rest, n - m, zero)[j - m];
      }
    }
  }
}
