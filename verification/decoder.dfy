/** `fill_channels` / `get_samples`: decoding one frame of the ADS1299 stream.
    On the wire a frame is STAT_L, eight left-bank codes, STAT_R, eight
    right-bank codes; the decoder starts just after a STAT_L and consumes the
    STAT_L that opens the next frame. */
module FrameDecoder {
  import opened Stream
  import opened Conversion
  import opened ChannelReader

  /** Status marker that opens every frame. */
  const STAT_L: int := 0xC0_0000
  /** Status marker between the left and the right bank. */
  const STAT_R: int := 0xC0_000F
  /** Channels per bank, and channels in a sample. */
  const BANK: nat := 8
  const CHANNELS: nat := 16
  /** Bytes of one bank (eight codes), of a bank with its closing marker,
      and of one call (8 codes, STAT_R, 8 codes, STAT_L). */
  const BANK_BYTES: nat := 24
  const HALF_BYTES: nat := 27
  const FRAME_BYTES: nat := 54

  /** Offsets, relative to the start of a call, of the two markers. */
  const STAT_R_OFFSET: nat := BANK_BYTES
  const STAT_L_OFFSET: nat := HALF_BYTES + BANK_BYTES

  /** One of the two read loops of `fill_channels`: for i in [i, hi) a code
      is read and channels[i] is overwritten with its conversion.  Entries
      outside [i, hi) are left alone.  (Positions handed over by an earlier
      read lie inside the source.) */
  function FillBank(src: seq<Byte>, pos: nat, channels: seq<int>, i: nat, hi: nat): (r: Result<seq<int>>)
    requires i <= hi <= |channels|
    requires i < hi || pos <= |src|
    decreases |src| - pos
    ensures r.Ok? <==> pos + CODE_BYTES * (hi - i) <= |src|
    ensures r.Err? ==> r.error == Io
    ensures r.Ok? ==> r.next == pos + CODE_BYTES * (hi - i) && |r.value| == |channels|
    ensures r.Ok? ==> forall k :: 0 <= k < |channels| && !(i <= k < hi) ==> r.value[k] == channels[k]
    ensures r.Ok? ==> forall k :: i <= k < hi ==> r.value[k] == Transform(CodeAt(src, pos + CODE_BYTES * (k - i)))
  {
    if i == hi then
      Ok(channels, pos)
    else
      match GetCh(src, pos)
      case Err(e) => Err(e)
      case Ok(code, p) => FillBank(src, p, channels[i := Transform(code)], i + 1, hi)
  }

  /** A sanity check of `fill_channels`: one more code is read and compared,
      raw and not converted, with the marker expected there. */
  function CheckMarker(src: seq<Byte>, pos: nat, expected: int): (r: Result<()>)
    ensures r.Ok? <==> pos + CODE_BYTES <= |src| && CodeAt(src, pos) == expected
    ensures r.Ok? ==> r.next == pos + CODE_BYTES
    ensures |src| < pos + CODE_BYTES ==> r == Err(Io)
    ensures pos + CODE_BYTES <= |src| && CodeAt(src, pos) != expected ==>
              r == Err(UnexpectedMarker(expected, CodeAt(src, pos)))
  {
    match GetCh(src, pos)
    case Err(e) => Err(e)
    case Ok(code, p) =>
      if code != expected then Err(UnexpectedMarker(expected, code)) else Ok((), p)
  }

  /** The first half of `fill_channels`: the left bank into channels 0..7,
      then the STAT_R check. */
  function FillLeft(src: seq<Byte>, pos: nat, channels: seq<int>): (r: Result<seq<int>>)
    requires |channels| == CHANNELS
    ensures r.Ok? <==> pos + HALF_BYTES <= |src| && CodeAt(src, pos + BANK_BYTES) == STAT_R
    ensures r.Ok? ==> r.next == pos + HALF_BYTES && |r.value| == CHANNELS
    ensures r.Ok? ==> forall k :: 0 <= k < BANK ==> r.value[k] == Transform(CodeAt(src, pos + CODE_BYTES * k))
    ensures |src| < pos + HALF_BYTES ==> r == Err(Io)
    ensures pos + HALF_BYTES <= |src| && CodeAt(src, pos + BANK_BYTES) != STAT_R ==>
              r == Err(UnexpectedMarker(STAT_R, CodeAt(src, pos + BANK_BYTES)))
  {
    match FillBank(src, pos, channels, 0, BANK)
    case Err(e) => Err(e)
    case Ok(left, p) =>
      match CheckMarker(src, p, STAT_R)
      case Err(e) => Err(e)
      case Ok(_, q) => Ok(left, q)
  }

  /** The second half of `fill_channels`, entered just after STAT_R: the
      right bank into channels 8..15, then the STAT_L of the next frame. */
  function FillRight(src: seq<Byte>, pos: nat, channels: seq<int>): (r: Result<seq<int>>)
    requires |channels| == CHANNELS
    requires pos <= |src|
    ensures r.Ok? <==> pos + HALF_BYTES <= |src| && CodeAt(src, pos + BANK_BYTES) == STAT_L
    ensures r.Ok? ==> r.next == pos + HALF_BYTES && |r.value| == CHANNELS
    ensures r.Ok? ==> forall k :: 0 <= k < BANK ==> r.value[k] == channels[k]
    ensures r.Ok? ==> forall k :: BANK <= k < CHANNELS ==> r.value[k] == Transform(CodeAt(src, pos + CODE_BYTES * (k - BANK)))
    ensures |src| < pos + HALF_BYTES ==> r == Err(Io)
    ensures pos + HALF_BYTES <= |src| && CodeAt(src, pos + BANK_BYTES) != STAT_L ==>
              r == Err(UnexpectedMarker(STAT_L, CodeAt(src, pos + BANK_BYTES)))
  {
    match FillBank(src, pos, channels, BANK, CHANNELS)
    case Err(e) => Err(e)
    case Ok(all, p) =>
      match CheckMarker(src, p, STAT_L)
      case Err(e) => Err(e)
      case Ok(_, q) => Ok(all, q)
  }

  /** Why a call at `pos` fails when it does, in the order the checks are
      met: running out of bytes before STAT_R is a read error; a wrong STAT_R
      is reported after 27 bytes, before the right bank is read; then running
      out of bytes, and finally a wrong STAT_L. */
  function FrameFailure(src: seq<Byte>, pos: nat): Error
  {
    if |src| < pos + HALF_BYTES then Io
    else if CodeAt(src, pos + STAT_R_OFFSET) != STAT_R then
      UnexpectedMarker(STAT_R, CodeAt(src, pos + STAT_R_OFFSET))
    else if |src| < pos + FRAME_BYTES then Io
    else UnexpectedMarker(STAT_L, CodeAt(src, pos + STAT_L_OFFSET))
  }

  /** A wrong STAT_R is reported once the first 27 bytes are read: the
      outcome is fixed by them, and the right bank is never read. */
  lemma StatRFailureAfterHalf(src: seq<Byte>, pos: nat, channels: seq<int>)
    requires |channels| == CHANNELS
    requires pos + HALF_BYTES <= |src| && CodeAt(src, pos + STAT_R_OFFSET) != STAT_R
    ensures FillChannels(src, pos, channels) == Err(UnexpectedMarker(STAT_R, CodeAt(src, pos + STAT_R_OFFSET)))
    ensures FillChannels(src[..pos + HALF_BYTES], pos, channels) == FillChannels(src, pos, channels)
  {
    assert CodeAt(src[..pos + HALF_BYTES], pos + STAT_R_OFFSET) == CodeAt(src, pos + STAT_R_OFFSET);
  }

  /** `fill_channels`, whose result `get_samples` hands out: eight left-bank
      codes, the STAT_R check on the raw code, eight right-bank codes, the
      STAT_L check on the raw code.  On success every one of the 16 entries
      has been overwritten and the position has moved by exactly 54 bytes; a
      failed read or a wrong marker yields no sample at all. */
  function FillChannels(src: seq<Byte>, pos: nat, channels: seq<int>): (r: Result<seq<int>>)
    requires |channels| == CHANNELS
    ensures r.Ok? <==>
              && pos + FRAME_BYTES <= |src|
              && CodeAt(src, pos + STAT_R_OFFSET) == STAT_R
              && CodeAt(src, pos + STAT_L_OFFSET) == STAT_L
    ensures r.Ok? ==> r.next == pos + FRAME_BYTES && |r.value| == CHANNELS
    ensures r.Ok? ==> forall k :: 0 <= k < BANK ==> r.value[k] == Transform(CodeAt(src, pos + CODE_BYTES * k))
    ensures r.Ok? ==> forall k :: BANK <= k < CHANNELS ==> r.value[k] == Transform(CodeAt(src, pos + CODE_BYTES * (k + 1)))
    ensures r.Err? ==> r.error == FrameFailure(src, pos)
  {
    match FillLeft(src, pos, channels)
    case Err(e) => Err(e)
    case Ok(left, p) => FillRight(src, p, left)
  }

  /** One frame as the device sends it: the codes of the two banks. */
  datatype Frame = Frame(left: seq<int>, right: seq<int>)

  predicate AllCodes(cs: seq<int>) {
    forall k :: 0 <= k < |cs| ==> IsCode(cs[k])
  }

  predicate ValidFrame(f: Frame) {
    |f.left| == BANK && |f.right| == BANK && AllCodes(f.left) && AllCodes(f.right)
  }

  /** Codes sent back to back, three bytes each. */
  function EncodeCodes(cs: seq<int>): (bs: seq<Byte>)
    requires AllCodes(cs)
    ensures |bs| == CODE_BYTES * |cs|
    ensures forall k :: 0 <= k < |cs| ==> CodeAt(bs, CODE_BYTES * k) == cs[k]
  {
    if |cs| == 0 then []
    else
      var head := EncodeCode(cs[0]);
      var rest := EncodeCodes(cs[1..]);
      assert forall k :: 1 <= k < |cs| ==> CodeAt(head + rest, CODE_BYTES * k) == cs[k] by {
        forall k | 1 <= k < |cs|
          ensures CodeAt(head + rest, CODE_BYTES * k) == cs[k]
        {
          CodeAtShift(head, rest, [], CODE_BYTES * (k - 1));
          assert head + rest + [] == head + rest;
        }
      }
      head + rest
  }

  /** The 54 bytes a frame occupies after its own STAT_L: the left bank,
      STAT_R, the right bank, and the STAT_L that opens the next frame. */
  function EncodeFrame(f: Frame): (bs: seq<Byte>)
    requires ValidFrame(f)
    ensures |bs| == FRAME_BYTES
    ensures forall k :: 0 <= k < BANK ==> CodeAt(bs, CODE_BYTES * k) == f.left[k]
    ensures CodeAt(bs, STAT_R_OFFSET) == STAT_R
    ensures forall k :: 0 <= k < BANK ==> CodeAt(bs, HALF_BYTES + CODE_BYTES * k) == f.right[k]
    ensures CodeAt(bs, STAT_L_OFFSET) == STAT_L
  {
    var l := EncodeCodes(f.left);
    var sr := EncodeCode(STAT_R);
    var r := EncodeCodes(f.right);
    var sl := EncodeCode(STAT_L);
    assert forall k :: 0 <= k < BANK ==> CodeAt(l + sr + r + sl, CODE_BYTES * k) == f.left[k] by {
      forall k | 0 <= k < BANK
        ensures CodeAt(l + sr + r + sl, CODE_BYTES * k) == f.left[k]
      {
        CodeAtShift([], l, sr + r + sl, CODE_BYTES * k);
        assert [] + l + (sr + r + sl) == l + sr + r + sl;
      }
    }
    assert forall k :: 0 <= k < BANK ==> CodeAt(l + sr + r + sl, HALF_BYTES + CODE_BYTES * k) == f.right[k] by {
      forall k | 0 <= k < BANK
        ensures CodeAt(l + sr + r + sl, HALF_BYTES + CODE_BYTES * k) == f.right[k]
      {
        CodeAtShift(l + sr, r, sl, CODE_BYTES * k);
      }
    }
    CodeAtShift(l, sr, r + sl, 0);
    assert l + sr + (r + sl) == l + sr + r + sl;
    CodeAtShift(l + sr + r, sl, [], 0);
    assert l + sr + r + sl + [] == l + sr + r + sl;
    l + sr + r + sl
  }

  /** The readings of a bank of codes. */
  function Convert(cs: seq<int>): (readings: seq<int>)
    ensures |readings| == |cs|
  {
    seq(|cs|, k requires 0 <= k < |cs| => Transform(cs[k]))
  }

  /** The sample a frame yields: the converted left bank, then the converted
      right bank. */
  function Levels(f: Frame): (sample: seq<int>)
    requires ValidFrame(f)
    ensures |sample| == CHANNELS
  {
    Convert(f.left) + Convert(f.right)
  }

  /** The codes of frame `f` sit at `pos`: the left bank, STAT_R, the right
      bank, and the STAT_L that opens the next frame. */
  predicate FrameAt(src: seq<Byte>, pos: nat, f: Frame)
    requires ValidFrame(f)
  {
    && pos + FRAME_BYTES <= |src|
    && (forall k :: 0 <= k < BANK ==> CodeAt(src, pos + CODE_BYTES * k) == f.left[k])
    && CodeAt(src, pos + STAT_R_OFFSET) == STAT_R
    && (forall k :: 0 <= k < BANK ==> CodeAt(src, pos + HALF_BYTES + CODE_BYTES * k) == f.right[k])
    && CodeAt(src, pos + STAT_L_OFFSET) == STAT_L
  }

  /** One right-bank channel of a well-formed frame. */
  lemma RightReading(src: seq<Byte>, pos: nat, f: Frame, k: nat)
    requires ValidFrame(f) && FrameAt(src, pos, f)
    requires BANK <= k < CHANNELS
    ensures Transform(CodeAt(src, pos + CODE_BYTES * (k + 1))) == Levels(f)[k]
  {
    var j := k - BANK;
    assert pos + CODE_BYTES * (k + 1) == pos + HALF_BYTES + CODE_BYTES * j;
    assert CodeAt(src, pos + HALF_BYTES + CODE_BYTES * j) == f.right[j];
    assert Levels(f)[k] == Convert(f.right)[j];
  }

  /** The codes of a well-formed frame at `pos` decode to their conversions,
      whatever the channels held before, and the position ends exactly after
      the next frame's STAT_L. */
  lemma FrameDecodes(src: seq<Byte>, pos: nat, f: Frame, channels: seq<int>)
    requires ValidFrame(f) && FrameAt(src, pos, f)
    requires |channels| == CHANNELS
    ensures FillChannels(src, pos, channels) == Ok(Levels(f), pos + FRAME_BYTES)
  {
    var r := FillChannels(src, pos, channels);
    assert r.Ok?;
    forall k | 0 <= k < CHANNELS
      ensures r.value[k] == Levels(f)[k]
    {
      if k < BANK {
        assert CodeAt(src, pos + CODE_BYTES * k) == f.left[k];
      } else {
        RightReading(src, pos, f, k);
      }
    }
    assert r.value == Levels(f);
  }

  /** A frame's encoding placed anywhere in the stream puts its codes there. */
  lemma EncodedFrameAt(pre: seq<Byte>, f: Frame, post: seq<Byte>)
    requires ValidFrame(f)
    ensures FrameAt(pre + EncodeFrame(f) + post, |pre|, f)
  {
    var bs := EncodeFrame(f);
    forall j: nat | j + CODE_BYTES <= FRAME_BYTES
      ensures CodeAt(pre + bs + post, |pre| + j) == CodeAt(bs, j)
    {
      CodeAtShift(pre, bs, post, j);
    }
  }

  /** Round trip: a well-formed frame sent anywhere in the stream decodes to
      its converted codes. */
  lemma FrameRoundTrip(pre: seq<Byte>, f: Frame, post: seq<Byte>, channels: seq<int>)
    requires ValidFrame(f)
    requires |channels| == CHANNELS
    ensures FillChannels(pre + EncodeFrame(f) + post, |pre|, channels) == Ok(Levels(f), |pre| + FRAME_BYTES)
  {
    EncodedFrameAt(pre, f, post);
    FrameDecodes(pre + EncodeFrame(f) + post, |pre|, f, channels);
  }

  /** Two byte strings that hold the same code at every code boundary are
      equal. */
  lemma SameCodesSameBytes(a: seq<Byte>, b: seq<Byte>, n: nat)
    requires |a| == |b| == CODE_BYTES * n
    requires forall q :: 0 <= q < n ==> CodeAt(a, CODE_BYTES * q) == CodeAt(b, CODE_BYTES * q)
    ensures a == b
  {
    forall i | 0 <= i < |a|
      ensures a[i] == b[i]
    {
      var q := i / CODE_BYTES;
      var p := CODE_BYTES * q;
      assert CodeAt(a, p) == CodeAt(b, p);
      EncodeCodeAt(a, p);
      EncodeCodeAt(b, p);
      assert a[i] == a[p..p + CODE_BYTES][i - p];
      assert b[i] == b[p..p + CODE_BYTES][i - p];
    }
  }

  /** The code at `j` inside a slice is the code at `pos + j` of the whole. */
  lemma CodeAtOfSlice(src: seq<Byte>, pos: nat, len: nat, j: nat)
    requires pos + len <= |src| && j + CODE_BYTES <= len
    ensures CodeAt(src[pos..pos + len], j) == CodeAt(src, pos + j)
  {
  }

  /** A sample as the decoder produces it: sixteen readings, each in the
      signed 24-bit range. */
  predicate IsSample(s: seq<int>) {
    |s| == CHANNELS && forall k :: 0 <= k < CHANNELS ==> -SIGN_BIT <= s[k] < SIGN_BIT
  }

  /** The frame whose readings are `sample`: each reading turned back into
      the code the device sent. */
  function FrameOf(sample: seq<int>): (f: Frame)
    requires IsSample(sample)
    ensures ValidFrame(f)
    ensures forall k :: 0 <= k < BANK ==> f.left[k] == ToCode(sample[k])
    ensures forall k :: 0 <= k < BANK ==> f.right[k] == ToCode(sample[BANK + k])
  {
    var left := seq(BANK, k requires 0 <= k < BANK => ToCode(sample[k]));
    var right := seq(BANK, k requires 0 <= k < BANK => ToCode(sample[BANK + k]));
    assert forall k :: 0 <= k < BANK ==> left[k] == ToCode(sample[k]) && IsCode(left[k]);
    assert forall k :: 0 <= k < BANK ==> right[k] == ToCode(sample[BANK + k]) && IsCode(right[k]);
    Frame(left, right)
  }

  /** Readings of the left bank, turned back into codes, are the codes. */
  lemma LeftReadingsToCodes(src: seq<Byte>, pos: nat, v: seq<int>)
    requires pos + FRAME_BYTES <= |src| && IsSample(v)
    requires forall k :: 0 <= k < BANK ==> v[k] == Transform(CodeAt(src, pos + CODE_BYTES * k))
    ensures forall k :: 0 <= k < BANK ==> FrameOf(v).left[k] == CodeAt(src, pos + CODE_BYTES * k)
  {
    forall k | 0 <= k < BANK
      ensures FrameOf(v).left[k] == CodeAt(src, pos + CODE_BYTES * k)
    {
      CodeRoundTrip(CodeAt(src, pos + CODE_BYTES * k));
    }
  }

  /** Readings of the right bank, turned back into codes, are the codes. */
  lemma RightReadingsToCodes(src: seq<Byte>, pos: nat, v: seq<int>)
    requires pos + FRAME_BYTES <= |src| && IsSample(v)
    requires forall k :: BANK <= k < CHANNELS ==> v[k] == Transform(CodeAt(src, pos + CODE_BYTES * (k + 1)))
    ensures forall k :: 0 <= k < BANK ==> FrameOf(v).right[k] == CodeAt(src, pos + HALF_BYTES + CODE_BYTES * k)
  {
    forall k | 0 <= k < BANK
      ensures FrameOf(v).right[k] == CodeAt(src, pos + HALF_BYTES + CODE_BYTES * k)
    {
      var k' := BANK + k;
      assert v[k'] == Transform(CodeAt(src, pos + CODE_BYTES * (k' + 1)));
      assert pos + CODE_BYTES * (k' + 1) == pos + HALF_BYTES + CODE_BYTES * k;
      CodeRoundTrip(CodeAt(src, pos + HALF_BYTES + CODE_BYTES * k));
    }
  }

  /** When a frame decodes, the codes of the frame its sample describes sit
      at `pos`. */
  lemma DecodedFrameAt(src: seq<Byte>, pos: nat, channels: seq<int>)
    requires |channels| == CHANNELS
    requires FillChannels(src, pos, channels).Ok?
    ensures FrameAt(src, pos, FrameOf(FillChannels(src, pos, channels).value))
  {
    var v := FillChannels(src, pos, channels).value;
    LeftReadingsToCodes(src, pos, v);
    RightReadingsToCodes(src, pos, v);
  }

  /** The bytes under a frame's codes are the frame's encoding. */
  lemma FrameAtIsEncoding(src: seq<Byte>, pos: nat, f: Frame)
    requires ValidFrame(f) && FrameAt(src, pos, f)
    ensures src[pos..pos + FRAME_BYTES] == EncodeFrame(f)
  {
    var a := src[pos..pos + FRAME_BYTES];
    var b := EncodeFrame(f);
    forall q | 0 <= q < FRAME_BYTES / CODE_BYTES
      ensures CodeAt(a, CODE_BYTES * q) == CodeAt(b, CODE_BYTES * q)
    {
      CodeAtOfSlice(src, pos, FRAME_BYTES, CODE_BYTES * q);
      if BANK < q < 2 * BANK + 1 {
        var k := q - BANK - 1;
        assert CODE_BYTES * q == HALF_BYTES + CODE_BYTES * k;
        assert CodeAt(b, HALF_BYTES + CODE_BYTES * k) == f.right[k];
        assert CodeAt(src, pos + HALF_BYTES + CODE_BYTES * k) == f.right[k];
      }
    }
    SameCodesSameBytes(a, b, FRAME_BYTES / CODE_BYTES);
  }

  /** The converse round trip: when a frame decodes, the 54 bytes consumed
      are exactly the encoding of the frame its sample describes.  So a
      successful decode loses nothing, and the sample determines the bytes. */
  lemma DecodedFrameIsEncoding(src: seq<Byte>, pos: nat, channels: seq<int>)
    requires |channels| == CHANNELS
    requires FillChannels(src, pos, channels).Ok?
    ensures var v := FillChannels(src, pos, channels).value;
            && v == Levels(FrameOf(v))
            && src[pos..pos + FRAME_BYTES] == EncodeFrame(FrameOf(v))
  {
    var v := FillChannels(src, pos, channels).value;
    DecodedFrameAt(src, pos, channels);
    FrameDecodes(src, pos, FrameOf(v), channels);
    FrameAtIsEncoding(src, pos, FrameOf(v));
  }

  /** A call depends on nothing but the 54 bytes at `pos`: cutting them out
      of the stream, and forgetting what the channels held, changes nothing. */
  lemma FillChannelsLocal(src: seq<Byte>, pos: nat, channels: seq<int>, channels': seq<int>)
    requires |channels| == CHANNELS && |channels'| == CHANNELS
    requires pos + FRAME_BYTES <= |src|
    ensures var r, r' := FillChannels(src, pos, channels), FillChannels(src[pos..pos + FRAME_BYTES], 0, channels');
            && (r.Ok? <==> r'.Ok?)
            && (r.Ok? ==> r.value == r'.value && r'.next == FRAME_BYTES)
            && (r.Err? ==> r.error == r'.error)
  {
    var cut := src[pos..pos + FRAME_BYTES];
    var r, r' := FillChannels(src, pos, channels), FillChannels(cut, 0, channels');
    CodeAtOfSlice(src, pos, FRAME_BYTES, STAT_R_OFFSET);
    CodeAtOfSlice(src, pos, FRAME_BYTES, STAT_L_OFFSET);
    if r.Ok? {
      forall k | 0 <= k < CHANNELS
        ensures r.value[k] == r'.value[k]
      {
        if k < BANK {
          CodeAtOfSlice(src, pos, FRAME_BYTES, CODE_BYTES * k);
        } else {
          CodeAtOfSlice(src, pos, FRAME_BYTES, CODE_BYTES * (k + 1));
        }
      }
    }
  }
}
