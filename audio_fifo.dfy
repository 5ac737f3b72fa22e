/** How the converter cuts resampled audio into encoder frames: samples go into
    a FIFO, every full frame is sent to the encoder as soon as it is available,
    and what is left at the end goes out as one shorter frame.  Each frame's
    timestamp is the number of samples sent before it. */
module AudioFifo {

  /** A frame handed to the encoder: its timestamp in samples and its samples. */
  datatype Frame<S> = Frame(pts: int, samples: seq<S>)

  /** All samples of a sequence of frames, in order. */
  function Samples<S>(fs: seq<Frame<S>>): seq<S> {
    if fs == [] then [] else fs[0].samples + Samples(fs[1..])
  }

  lemma {:induction false} SamplesAppend<S>(fs: seq<Frame<S>>, gs: seq<Frame<S>>)
    ensures Samples(fs + gs) == Samples(fs) + Samples(gs)
  {
    if fs == [] {
      assert fs + gs == gs;
    } else {
      assert (fs + gs)[1..] == fs[1..] + gs;
      SamplesAppend(fs[1..], gs);
    }
  }

  /** A stream of chunks joined together. */
  function Joined<S>(chunks: seq<seq<S>>): seq<S> {
    if chunks == [] then [] else Joined(chunks[..|chunks| - 1]) + chunks[|chunks| - 1]
  }

  /** The full frames the drain loop cuts from `xs`, the first stamped `pts`. */
  function Chop<S>(xs: seq<S>, n: nat, pts: int): seq<Frame<S>>
    requires n > 0
    decreases |xs|
  {
    if |xs| < n then [] else [Frame(pts, xs[..n])] + Chop(xs[n..], n, pts + n)
  }

  /** What the drain loop leaves in the FIFO. */
  function Leftover<S>(xs: seq<S>, n: nat): seq<S>
    requires n > 0
    decreases |xs|
  {
    if |xs| < n then xs else Leftover(xs[n..], n)
  }

  /** The full frames and the leftover together are exactly the input, and the
      leftover is shorter than a frame. */
  lemma {:induction false} ChopCovers<S>(xs: seq<S>, n: nat, pts: int)
    requires n > 0
    ensures Samples(Chop(xs, n, pts)) + Leftover(xs, n) == xs
    ensures |Leftover(xs, n)| < n
    decreases |xs|
  {
    if |xs| >= n {
      ChopStep(xs, n, pts);
      ChopCovers(xs[n..], n, pts + n);
      Glue(xs, n, Samples(Chop(xs[n..], n, pts + n)), Leftover(xs, n));
    }
  }

  /** One drain step: the first frame carries the first `n` samples. */
  lemma ChopStep<S>(xs: seq<S>, n: nat, pts: int)
    requires 0 < n <= |xs|
    ensures Samples(Chop(xs, n, pts)) == xs[..n] + Samples(Chop(xs[n..], n, pts + n))
    ensures Leftover(xs, n) == Leftover(xs[n..], n)
  {
    var rest := Chop(xs[n..], n, pts + n);
    var fs := [Frame(pts, xs[..n])] + rest;
    assert Chop(xs, n, pts) == fs;
    assert fs[1..] == rest;
  }

  /** The first `n` samples, then the rest split in two, make the whole. */
  lemma Glue<S>(xs: seq<S>, n: nat, a: seq<S>, b: seq<S>)
    requires n <= |xs| && a + b == xs[n..]
    ensures (xs[..n] + a) + b == xs
  {
    assert xs == xs[..n] + xs[n..];
  }

  /** Feeding more samples after a drain cuts the same frames as feeding them
      all at once: the drain does not depend on how the input was chunked. */
  lemma {:induction false} ChopAppend<S>(xs: seq<S>, ys: seq<S>, n: nat, pts: int)
    requires n > 0
    ensures Chop(xs + ys, n, pts)
            == Chop(xs, n, pts) + Chop(Leftover(xs, n) + ys, n, pts + |xs| - |Leftover(xs, n)|)
    ensures Leftover(xs + ys, n) == Leftover(Leftover(xs, n) + ys, n)
    decreases |xs|
  {
    if |xs| >= n {
      assert (xs + ys)[..n] == xs[..n];
      assert (xs + ys)[n..] == xs[n..] + ys;
      ChopAppend(xs[n..], ys, n, pts + n);
    }
  }

  /** The frames the whole conversion sends for the samples `xs`: the full ones,
      then the remainder as a last shorter frame when there is one. */
  function Frames<S>(xs: seq<S>, n: nat, pts: int): seq<Frame<S>>
    requires n > 0
  {
    var rest := Leftover(xs, n);
    Chop(xs, n, pts) + (if rest == [] then [] else [Frame(pts + |xs| - |rest|, rest)])
  }

  /** Every frame of Chop has exactly `n` samples and is stamped with the number
      of samples before it. */
  lemma {:induction false} ChopShape<S>(xs: seq<S>, n: nat, pts: int)
    requires n > 0
    ensures var fs := Chop(xs, n, pts);
            forall i :: 0 <= i < |fs| ==> |fs[i].samples| == n && fs[i].pts == pts + i * n
    decreases |xs|
  {
    if |xs| >= n {
      ChopShape(xs[n..], n, pts + n);
      var fs := Chop(xs, n, pts);
      forall i | 0 < i < |fs|
        ensures |fs[i].samples| == n && fs[i].pts == pts + i * n
      {
        assert fs[i] == Chop(xs[n..], n, pts + n)[i - 1];
      }
    }
  }

  /** The frames carry every sample once and in order; each holds between one
      and `n` samples, every one but the last exactly `n`; and each is stamped
      with the number of samples sent before it. */
  lemma FramesProperties<S>(xs: seq<S>, n: nat)
    requires n > 0
    ensures var fs := Frames(xs, n, 0);
            && Samples(fs) == xs
            && (forall i :: 0 <= i < |fs| ==> 0 < |fs[i].samples| <= n)
            && (forall i :: 0 <= i < |fs| - 1 ==> |fs[i].samples| == n)
            && (forall i :: 0 <= i < |fs| ==> fs[i].pts == |Samples(fs[..i])|)
  {
    var rest := Leftover(xs, n);
    var chop := Chop(xs, n, 0);
    var tail: seq<Frame<S>> := if rest == [] then [] else [Frame(|xs| - |rest|, rest)];
    var fs := Frames(xs, n, 0);
    ChopCovers(xs, n, 0);
    ChopShape(xs, n, 0);
    SamplesAppend(chop, tail);
    assert Samples(tail) == rest by {
      if rest != [] { assert tail[1..] == []; }
    }
    forall i | 0 <= i < |fs|
      ensures fs[i].pts == |Samples(fs[..i])|
    {
      if i < |chop| {
        assert fs[..i] == chop[..i];
        FullFramesLength(chop, n, i);
      } else {
        assert fs[..i] == chop;
      }
    }
  }

  /** `i` frames of exactly `n` samples hold i * n samples. */
  lemma {:induction false} FullFramesLength<S>(fs: seq<Frame<S>>, n: nat, i: nat)
    requires i <= |fs|
    requires forall k :: 0 <= k < |fs| ==> |fs[k].samples| == n
    ensures |Samples(fs[..i])| == i * n
  {
    if i > 0 {
      assert fs[..i][1..] == fs[1..][..i - 1];
      FullFramesLength(fs[1..], n, i - 1);
    }
  }

  /** The encoder side of the converter: the sample FIFO, the count of samples
      sent and the frames sent so far. */
  class Framer<S> {
    const frameSize: nat
    var fifo: seq<S>
    var samplesWritten: int
    var sent: seq<Frame<S>>

    /** The sample counter is the number of samples in the frames sent. */
    predicate Valid()
      reads this
    {
      frameSize > 0 && samplesWritten == |Samples(sent)|
    }

    constructor (frameSize: nat)
      requires frameSize > 0
      ensures this.frameSize == frameSize && fifo == [] && sent == [] && samplesWritten == 0
      ensures Valid()
    {
      this.frameSize := frameSize;
      fifo := [];
      samplesWritten := 0;
      sent := [];
    }

    /** Appends converted samples to the FIFO. */
    method Write(samples: seq<S>)
      requires Valid()
      modifies this`fifo
      ensures Valid()
      ensures fifo == old(fifo) + samples
    {
      fifo := fifo + samples;
    }

    /** Sends one frame per full frame in the FIFO, stamping each with the count
        of samples sent before it. */
    method Drain()
      requires Valid()
      modifies this`fifo, this`samplesWritten, this`sent
      ensures Valid()
      ensures sent == old(sent) + Chop(old(fifo), frameSize, old(samplesWritten))
      ensures fifo == Leftover(old(fifo), frameSize)
    {
      while |fifo| >= frameSize
        invariant Valid()
        invariant old(sent) + Chop(old(fifo), frameSize, old(samplesWritten))
                  == sent + Chop(fifo, frameSize, samplesWritten)
        invariant Leftover(fifo, frameSize) == Leftover(old(fifo), frameSize)
        decreases |fifo|
      {
        var frame := Frame(samplesWritten, fifo[..frameSize]);
        SamplesAppend(sent, [frame]);
        assert Samples([frame]) == frame.samples by { assert [frame][1..] == []; }
        assert [frame] + Chop(fifo[frameSize..], frameSize, samplesWritten + frameSize)
               == Chop(fifo, frameSize, samplesWritten);
        sent := sent + [frame];
        fifo := fifo[frameSize..];
        samplesWritten := samplesWritten + frameSize;
      }
    }

    /** Sends what is left in the FIFO as one last, shorter frame. */
    method FlushTail()
      requires Valid()
      modifies this`fifo, this`samplesWritten, this`sent
      ensures Valid()
      ensures fifo == []
      ensures sent == old(sent) + (if old(fifo) == [] then [] else [Frame(old(samplesWritten), old(fifo))])
    {
      var left := |fifo|;
      if left > 0 {
        var frame := Frame(samplesWritten, fifo);
        SamplesAppend(sent, [frame]);
        assert Samples([frame]) == frame.samples by { assert [frame][1..] == []; }
        sent := sent + [frame];
        fifo := [];
        samplesWritten := samplesWritten + left;
      }
    }
  }

  /** The framing of a whole conversion: each converted chunk is written to the
      FIFO and the FIFO drained, and the remainder is flushed at the end.  The
      frames sent are those of the joined samples, whatever the chunking. */
  method FrameStream<S>(chunks: seq<seq<S>>, frameSize: nat) returns (frames: seq<Frame<S>>)
    requires frameSize > 0
    ensures frames == Frames(Joined(chunks), frameSize, 0)
    ensures Samples(frames) == Joined(chunks)
  {
    var framer := new Framer<S>(frameSize);
    var i := 0;
    while i < |chunks|
      invariant 0 <= i <= |chunks|
      invariant framer.Valid() && framer.frameSize == frameSize
      invariant framer.sent == Chop(Joined(chunks[..i]), frameSize, 0)
      invariant framer.fifo == Leftover(Joined(chunks[..i]), frameSize)
    {
      var done := Joined(chunks[..i]);
      assert chunks[..i + 1][..i] == chunks[..i];
      assert Joined(chunks[..i + 1]) == done + chunks[i];
      ChopCovers(done, frameSize, 0);
      ChopAppend(done, chunks[i], frameSize, 0);
      framer.Write(chunks[i]);
      framer.Drain();
      i := i + 1;
    }
    assert chunks[..i] == chunks;
    ChopCovers(Joined(chunks), frameSize, 0);
    framer.FlushTail();
    frames := framer.sent;
    FramesProperties(Joined(chunks), frameSize);
  }
}
