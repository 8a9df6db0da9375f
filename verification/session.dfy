/** The `serialConnection` as the main program drives it: the constructor
    synchronizes once, then `get_samples` is called once per loop iteration
    and each sample is handed to the outlet, until an exit is requested or a
    call fails. */
module Session {
  import opened Stream
  import opened Conversion
  import opened ChannelReader
  import opened FrameDecoder
  import opened Synchronizer

  /** What a connection keeps between calls: the read position and the
      `channels` vector, whose contents `get_samples` returns. */
  datatype Connection = Connection(pos: nat, channels: seq<int>)

  /** The constructor: `channels.resize(16)` fills the vector with zeros,
      then `wait_for_stat_l` runs from the start of the (flushed) input. */
  function Open(src: seq<Byte>): (r: Result<Connection>)
    ensures r.Ok? <==> WaitForStatL(src, 0).Ok?
    ensures r.Ok? ==> r.value.pos == r.next == WaitForStatL(src, 0).next
    ensures r.Ok? ==> CODE_BYTES <= r.next <= |src|
    ensures r.Ok? ==> CodeAt(src, r.next - CODE_BYTES) == STAT_L
    ensures r.Ok? ==> r.value.channels == seq(CHANNELS, k => 0)
    ensures r.Err? ==> r.error == Io
  {
    match WaitForStatL(src, 0)
    case Err(e) => Err(e)
    case Ok(_, p) => Ok(Connection(p, seq(CHANNELS, k => 0)), p)
  }

  /** `get_samples`: one call of `fill_channels` on the connection; the
      sample returned is the connection's `channels` vector afterwards. */
  function GetSamples(src: seq<Byte>, conn: Connection): (r: Result<Connection>)
    requires |conn.channels| == CHANNELS
    ensures r.Ok? <==> && conn.pos + FRAME_BYTES <= |src|
                       && CodeAt(src, conn.pos + STAT_R_OFFSET) == STAT_R
                       && CodeAt(src, conn.pos + STAT_L_OFFSET) == STAT_L
    ensures r.Ok? ==> r.next == r.value.pos == conn.pos + FRAME_BYTES <= |src|
    ensures r.Ok? ==> |r.value.channels| == CHANNELS
    ensures r.Ok? ==> forall k :: 0 <= k < BANK ==>
              r.value.channels[k] == Transform(CodeAt(src, conn.pos + CODE_BYTES * k))
    ensures r.Ok? ==> forall k :: BANK <= k < CHANNELS ==>
              r.value.channels[k] == Transform(CodeAt(src, conn.pos + CODE_BYTES * (k + 1)))
    ensures r.Err? ==> r.error == FrameFailure(src, conn.pos)
  {
    match FillChannels(src, conn.pos, conn.channels)
    case Err(e) => Err(e)
    case Ok(sample, p) => Ok(Connection(p, sample), p)
  }

  /** Why the main loop stopped: the exit flag was seen between frames, or a
      call of `get_samples` failed. */
  datatype Stop = Requested | Failed(error: Error)

  /** The samples pushed to the outlet, the connection after the last call
      that succeeded (the starting one when none did), and why the loop
      stopped.  A failing call ends the loop by an exception, so what it
      left half-written in the connection is never read again. */
  datatype Pumped = Pumped(samples: seq<seq<int>>, last: Connection, stop: Stop)

  /** The main loop: `budget` iterations pass before the exit request is
      seen; each calls `get_samples` and pushes the sample.  The first
      failure ends the loop, and the samples pushed before it stay pushed. */
  function Pump(src: seq<Byte>, conn: Connection, budget: nat): (r: Pumped)
    requires |conn.channels| == CHANNELS
    decreases budget
    ensures |r.samples| <= budget
    ensures conn.pos <= |src| ==> r.last.pos <= |src|
    ensures r.stop == Requested <==> |r.samples| == budget
    ensures r.last.pos == conn.pos + FRAME_BYTES * |r.samples|
    ensures |r.last.channels| == CHANNELS
    ensures |r.samples| > 0 ==> r.last.channels == r.samples[|r.samples| - 1]
    ensures r.stop.Failed? ==> GetSamples(src, r.last).Err?
    ensures r.stop.Failed? ==> r.stop.error == FrameFailure(src, r.last.pos)
  {
    if budget == 0 then Pumped([], conn, Requested)
    else
      match GetSamples(src, conn)
      case Err(e) => Pumped([], conn, Failed(e))
      case Ok(next, _) =>
        var rest := Pump(src, next, budget - 1);
        var all := [next.channels] + rest.samples;
        assert |rest.samples| > 0 ==> all[|all| - 1] == rest.samples[|rest.samples| - 1];
        Pumped(all, rest.last, rest.stop)
  }

  /** Frames sent back to back, each followed by the STAT_L of the next. */
  function EncodeFrames(fs: seq<Frame>): (bs: seq<Byte>)
    requires forall i :: 0 <= i < |fs| ==> ValidFrame(fs[i])
    ensures |bs| == FRAME_BYTES * |fs|
  {
    if |fs| == 0 then [] else EncodeFrame(fs[0]) + EncodeFrames(fs[1..])
  }

  /** The readings of each frame, in order. */
  function AllLevels(fs: seq<Frame>): (samples: seq<seq<int>>)
    requires forall i :: 0 <= i < |fs| ==> ValidFrame(fs[i])
    ensures |samples| == |fs|
    ensures forall i :: 0 <= i < |fs| ==> samples[i] == Levels(fs[i])
  {
    if |fs| == 0 then [] else [Levels(fs[0])] + AllLevels(fs[1..])
  }

  /** The codes of the frames `fs` sit back to back from `pos`. */
  predicate FramesAt(src: seq<Byte>, pos: nat, fs: seq<Frame>)
    requires forall i :: 0 <= i < |fs| ==> ValidFrame(fs[i])
    decreases |fs|
  {
    |fs| == 0 || (FrameAt(src, pos, fs[0]) && FramesAt(src, pos + FRAME_BYTES, fs[1..]))
  }

  /** The encoding of a run of frames, placed anywhere in the stream, puts
      their codes there. */
  lemma {:induction false} EncodedFramesAt(pre: seq<Byte>, fs: seq<Frame>, post: seq<Byte>)
    requires forall i :: 0 <= i < |fs| ==> ValidFrame(fs[i])
    ensures FramesAt(pre + EncodeFrames(fs) + post, |pre|, fs)
    decreases |fs|
  {
    if |fs| > 0 {
      var head := EncodeFrame(fs[0]);
      var tail := EncodeFrames(fs[1..]);
      assert pre + EncodeFrames(fs) + post == pre + head + (tail + post);
      EncodedFrameAt(pre, fs[0], tail + post);
      assert pre + EncodeFrames(fs) + post == (pre + head) + tail + post;
      EncodedFramesAt(pre + head, fs[1..], post);
    }
  }

  /** Frames whose codes sit back to back from the connection's position
      yield, one per iteration, exactly their own readings, whatever came
      before them; the loop stops only for the exit request. */
  lemma {:induction false} PumpFrames(src: seq<Byte>, conn: Connection, fs: seq<Frame>)
    requires forall i :: 0 <= i < |fs| ==> ValidFrame(fs[i])
    requires |conn.channels| == CHANNELS
    requires FramesAt(src, conn.pos, fs)
    ensures Pump(src, conn, |fs|).samples == AllLevels(fs)
    ensures Pump(src, conn, |fs|).last.pos == conn.pos + FRAME_BYTES * |fs|
    ensures Pump(src, conn, |fs|).stop == Requested
    decreases |fs|
  {
    if |fs| > 0 {
      FrameSample(src, conn, fs[0]);
      var next := Connection(conn.pos + FRAME_BYTES, Levels(fs[0]));
      PumpFrames(src, next, fs[1..]);
      PumpStep(src, conn, |fs|);
      assert AllLevels(fs) == [Levels(fs[0])] + AllLevels(fs[1..]);
    }
  }

  /** A well-formed frame at the connection's position is what one call of
      `get_samples` returns. */
  lemma FrameSample(src: seq<Byte>, conn: Connection, f: Frame)
    requires ValidFrame(f) && FrameAt(src, conn.pos, f)
    requires |conn.channels| == CHANNELS
    ensures GetSamples(src, conn) == Ok(Connection(conn.pos + FRAME_BYTES, Levels(f)), conn.pos + FRAME_BYTES)
  {
    FrameDecodes(src, conn.pos, f, conn.channels);
  }

  /** Sample `v` is the readings of a well-formed frame whose codes sit at
      `pos`. */
  predicate SampleAt(src: seq<Byte>, pos: nat, v: seq<int>) {
    IsSample(v) && FrameAt(src, pos, FrameOf(v)) && v == Levels(FrameOf(v))
  }

  /** A sample `get_samples` returns is the readings of a well-formed frame
      whose codes sit where the call started. */
  lemma SampleIsFrame(src: seq<Byte>, conn: Connection)
    requires |conn.channels| == CHANNELS
    requires GetSamples(src, conn).Ok?
    ensures SampleAt(src, conn.pos, GetSamples(src, conn).value.channels)
  {
    var v := GetSamples(src, conn).value.channels;
    assert v == FillChannels(src, conn.pos, conn.channels).value;
    DecodedFrameAt(src, conn.pos, conn.channels);
    DecodedFrameIsEncoding(src, conn.pos, conn.channels);
  }

  /** The samples `vs` are the readings of frames whose codes sit back to
      back from `pos`. */
  predicate SamplesAt(src: seq<Byte>, pos: nat, vs: seq<seq<int>>) {
    forall i :: 0 <= i < |vs| ==> SampleAt(src, pos + FRAME_BYTES * i, vs[i])
  }

  /** The converse of `PumpFrames`: whatever the loop pushes is the readings
      of frames whose codes sit back to back from where it started. */
  lemma {:induction false} PumpedAreFrames(src: seq<Byte>, conn: Connection, budget: nat)
    requires |conn.channels| == CHANNELS
    ensures SamplesAt(src, conn.pos, Pump(src, conn, budget).samples)
    decreases budget
  {
    if |Pump(src, conn, budget).samples| > 0 {
      assert budget > 0 && GetSamples(src, conn).Ok?;
      PumpedAreFrames(src, GetSamples(src, conn).value, budget - 1);
      PumpSampleAt(src, conn, budget);
    }
  }

  /** The step of `PumpedAreFrames`: the sample of a successful first
      iteration joins the samples of the iterations after it. */
  lemma PumpSampleAt(src: seq<Byte>, conn: Connection, budget: nat)
    requires |conn.channels| == CHANNELS
    requires budget > 0 && GetSamples(src, conn).Ok?
    requires SamplesAt(src, GetSamples(src, conn).value.pos, Pump(src, GetSamples(src, conn).value, budget - 1).samples)
    ensures SamplesAt(src, conn.pos, Pump(src, conn, budget).samples)
  {
    var next := GetSamples(src, conn).value;
    SampleIsFrame(src, conn);
    PumpStep(src, conn, budget);
    ConsSamplesAt(src, conn.pos, next.pos, next.channels, Pump(src, next, budget - 1).samples);
  }

  /** A sample at `pos` in front of samples laid out from the next frame on. */
  lemma ConsSamplesAt(src: seq<Byte>, pos: nat, after: nat, v: seq<int>, rest: seq<seq<int>>)
    requires SampleAt(src, pos, v) && after == pos + FRAME_BYTES
    requires SamplesAt(src, after, rest)
    ensures SamplesAt(src, pos, [v] + rest)
  {
    var all := [v] + rest;
    forall i | 0 < i < |all|
      ensures SampleAt(src, pos + FRAME_BYTES * i, all[i])
    {
      assert all[i] == rest[i - 1];
      assert pos + FRAME_BYTES * i == after + FRAME_BYTES * (i - 1);
    }
  }

  /** One iteration of the loop that succeeds puts its sample in front of
      the samples of the iterations after it. */
  lemma PumpStep(src: seq<Byte>, conn: Connection, budget: nat)
    requires |conn.channels| == CHANNELS
    requires budget > 0 && GetSamples(src, conn).Ok?
    ensures var next := GetSamples(src, conn).value;
            var rest := Pump(src, next, budget - 1);
            Pump(src, conn, budget) == Pumped([next.channels] + rest.samples, rest.last, rest.stop)
  {
  }

  /** A run of well-formed frames sent anywhere in the stream yields each
      frame's readings in order. */
  lemma StreamRoundTrip(pre: seq<Byte>, fs: seq<Frame>, post: seq<Byte>, channels: seq<int>)
    requires forall i :: 0 <= i < |fs| ==> ValidFrame(fs[i])
    requires |channels| == CHANNELS
    ensures var r := Pump(pre + EncodeFrames(fs) + post, Connection(|pre|, channels), |fs|);
            && r.samples == AllLevels(fs)
            && r.last.pos == |pre| + FRAME_BYTES * |fs|
            && r.stop == Requested
  {
    EncodedFramesAt(pre, fs, post);
    PumpFrames(pre + EncodeFrames(fs) + post, Connection(|pre|, channels), fs);
  }

  /** The program from the start: open the connection, then run the main
      loop for `budget` iterations. */
  function Run(src: seq<Byte>, budget: nat): (r: Result<Pumped>)
    ensures r.Ok? <==> WaitForStatL(src, 0).Ok?
    ensures r.Ok? ==> |r.value.samples| <= budget && r.next == r.value.last.pos <= |src|
    ensures r.Ok? ==> r.value.last.pos == WaitForStatL(src, 0).next + FRAME_BYTES * |r.value.samples|
    ensures r.Ok? ==> (r.value.stop == Requested <==> |r.value.samples| == budget)
    ensures r.Ok? && r.value.stop.Failed? ==>
              |r.value.last.channels| == CHANNELS && GetSamples(src, r.value.last).Err?
    ensures r.Ok? && r.value.stop.Failed? ==> r.value.stop.error == FrameFailure(src, r.value.last.pos)
  {
    match Open(src)
    case Err(e) => Err(e)
    case Ok(conn, _) =>
      var pumped := Pump(src, conn, budget);
      Ok(pumped, pumped.last.pos)
  }

  /** What the program pushes is the readings of frames whose codes sit
      back to back from the STAT_L it locked on. */
  lemma RunSamplesAt(src: seq<Byte>, budget: nat)
    requires Run(src, budget).Ok?
    ensures SamplesAt(src, WaitForStatL(src, 0).next, Run(src, budget).value.samples)
  {
    PumpedAreFrames(src, Open(src).value, budget);
  }

  /** End to end: after one discarded byte and any noise free of 0xC0, a
      STAT_L and a run of well-formed frames, the program locks on that
      STAT_L and pushes every frame's readings in order. */
  lemma SessionRoundTrip(d: Byte, noise: seq<Byte>, fs: seq<Frame>, post: seq<Byte>)
    requires forall k :: 0 <= k < |noise| ==> noise[k] != MARKER_HIGH
    requires forall i :: 0 <= i < |fs| ==> ValidFrame(fs[i])
    ensures var src := [d] + noise + EncodeCode(STAT_L) + EncodeFrames(fs) + post;
            var r := Run(src, |fs|);
            && r.Ok?
            && r.value.samples == AllLevels(fs)
            && r.value.stop == Requested
            && r.next == |src| - |post|
  {
    var head := [d] + noise;
    var marker := EncodeCode(STAT_L);
    var src := head + marker + EncodeFrames(fs) + post;
    var q := |head|;
    assert src[q] == MARKER_HIGH && src[q + 1] == 0 && src[q + 2] == 0;
    assert forall k :: 0 < k < q ==> src[k] == noise[k - 1];
    LockAtFirstMarker(src, 0, q);
    assert src == (head + marker) + EncodeFrames(fs) + post;
    StreamRoundTrip(head + marker, fs, post, seq(CHANNELS, k => 0));
  }
}
