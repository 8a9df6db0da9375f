/** `wait_for_stat_l`: locking onto the stream by finding the bytes
    0xC0 0x00 0x00 of a STAT_L marker.  Each round of the outer loop reads and
    discards one byte, skips bytes up to and including the next 0xC0, and
    reads two more bytes; the lock holds when both are zero, otherwise a new
    round starts.  A round that runs out of bytes is a read error. */
module Synchronizer {
  import opened Stream
  import opened ChannelReader
  import opened FrameDecoder

  /** The high byte of both status markers. */
  const MARKER_HIGH: Byte := 0xC0

  /** The inner loop `while ((dat = serialGetchar()) != 0xC0);`: the index of
      the first 0xC0 at or after `pos`, with the position just after it. */
  function ScanHigh(src: seq<Byte>, pos: nat): (r: Result<nat>)
    decreases |src| - pos
    ensures r.Ok? ==> pos <= r.value < |src| && src[r.value] == MARKER_HIGH && r.next == r.value + 1
    ensures r.Ok? ==> forall k :: pos <= k < r.value ==> src[k] != MARKER_HIGH
    ensures r.Err? <==> forall k :: pos <= k < |src| ==> src[k] != MARKER_HIGH
    ensures r.Err? ==> r.error == Io
  {
    match ReadByte(src, pos)
    case Err(e) => Err(e)
    case Ok(b, p) => if b == MARKER_HIGH then Ok(pos, p) else ScanHigh(src, p)
  }

  /** How a round of the outer loop ends. */
  datatype Round = Locked | NearMiss(dat2: Byte, dat3: Byte)

  /** One round of the outer loop: a discarded byte, the scan for 0xC0, and
      the two bytes after it. */
  function SyncRound(src: seq<Byte>, pos: nat): (r: Result<Round>)
    ensures r.Ok? ==> pos + 4 <= r.next <= |src|
    ensures r.Ok? ==> src[r.next - 3] == MARKER_HIGH
    ensures r.Ok? ==> forall k :: pos < k < r.next - 3 ==> src[k] != MARKER_HIGH
    ensures r.Ok? ==> (r.value.Locked? <==> src[r.next - 2] == 0 && src[r.next - 1] == 0)
    ensures r.Ok? && r.value.NearMiss? ==> r.value == NearMiss(src[r.next - 2], src[r.next - 1])
    ensures r.Err? <==> forall k :: pos < k < |src| - 2 ==> src[k] != MARKER_HIGH
    ensures r.Err? ==> r.error == Io
  {
    match ReadByte(src, pos)
    case Err(e) => Err(e)
    case Ok(_, p) =>
      match ScanHigh(src, p)
      case Err(e) => Err(e)
      case Ok(_, p1) =>
        match ReadByte(src, p1)
        case Err(e) => Err(e)
        case Ok(dat2, p2) =>
          match ReadByte(src, p2)
          case Err(e) => Err(e)
          case Ok(dat3, p3) =>
            if dat2 == 0 && dat3 == 0 then Ok(Locked, p3) else Ok(NearMiss(dat2, dat3), p3)
  }

  /** `wait_for_stat_l`: rounds until one locks.  On success the three bytes
      just consumed are 0xC0 0x00 0x00, so the position sits right after a
      STAT_L; the only failure is running out of bytes. */
  function WaitForStatL(src: seq<Byte>, pos: nat): (r: Result<()>)
    decreases |src| - pos
    ensures r.Ok? ==> pos + 4 <= r.next <= |src|
    ensures r.Ok? ==> src[r.next - 3] == MARKER_HIGH && src[r.next - 2] == 0 && src[r.next - 1] == 0
    ensures r.Ok? ==> CodeAt(src, r.next - CODE_BYTES) == STAT_L
    ensures r.Err? ==> r.error == Io
  {
    match SyncRound(src, pos)
    case Err(e) => Err(e)
    case Ok(Locked, p) => Ok((), p)
    case Ok(NearMiss(_, _), p) => WaitForStatL(src, p)
  }

  /** Lock on the first marker: when the first 0xC0 after the discarded byte
      starts 0xC0 0x00 0x00, the first round locks right after it. */
  lemma LockAtFirstMarker(src: seq<Byte>, pos: nat, q: nat)
    requires pos < q && q + 3 <= |src|
    requires forall k :: pos < k < q ==> src[k] != MARKER_HIGH
    requires src[q] == MARKER_HIGH && src[q + 1] == 0 && src[q + 2] == 0
    ensures SyncRound(src, pos) == Ok(Locked, q + 3)
    ensures WaitForStatL(src, pos) == Ok((), q + 3)
  {
  }

  /** A near miss never locks: after 0xC0 followed by anything but 0x00 0x00
      the search goes on from the position after the third byte, and that
      next byte is discarded, so the 0xC0 of the eventual lock lies beyond
      it. */
  lemma NearMissSkipsNextByte(src: seq<Byte>, pos: nat)
    requires SyncRound(src, pos).Ok? && SyncRound(src, pos).value.NearMiss?
    ensures var p := SyncRound(src, pos).next;
            && !(src[p - 2] == 0 && src[p - 1] == 0)
            && WaitForStatL(src, pos) == WaitForStatL(src, p)
            && (WaitForStatL(src, pos).Ok? ==> WaitForStatL(src, pos).next - 3 > p)
  {
  }

  /** The discarded byte in action: a true STAT_L right behind a near miss
      is not seen, and this stream never locks. */
  lemma QuirkMissesAdjacentMarker()
    ensures SyncRound([0x00, 0xC0, 0x01, 0x00, 0xC0, 0x00, 0x00], 0) == Ok(NearMiss(0x01, 0x00), 4)
    ensures WaitForStatL([0x00, 0xC0, 0x01, 0x00, 0xC0, 0x00, 0x00], 0) == Err(Io)
  {
    var src: seq<Byte> := [0x00, 0xC0, 0x01, 0x00, 0xC0, 0x00, 0x00];
    assert ScanHigh(src, 1) == Ok(1, 2);
    assert SyncRound(src, 0) == Ok(NearMiss(0x01, 0x00), 4);
    assert ScanHigh(src, 5) == Err(Io);
    assert SyncRound(src, 4) == Err(Io);
  }

  /** A round that completes on a prefix of the stream completes the same way
      on the whole stream: it depends only on the bytes it consumed. */
  lemma SyncRoundExtend(src: seq<Byte>, more: seq<Byte>, pos: nat)
    requires SyncRound(src, pos).Ok?
    ensures SyncRound(src + more, pos) == SyncRound(src, pos)
  {
    var r := SyncRound(src, pos);
    assert (src + more)[r.next - 3] == MARKER_HIGH;
  }

  /** The byte source is endless; the model sees a finite prefix of it.  A
      lock found on a prefix is the lock found on the whole stream. */
  lemma {:induction false} WaitForStatLExtend(src: seq<Byte>, more: seq<Byte>, pos: nat)
    requires WaitForStatL(src, pos).Ok?
    ensures WaitForStatL(src + more, pos) == WaitForStatL(src, pos)
    decreases |src| - pos
  {
    SyncRoundExtend(src, more, pos);
    var r := SyncRound(src, pos);
    if r.value.NearMiss? {
      WaitForStatLExtend(src, more, r.next);
    }
  }

  /** `wait_for_stat_l` with its two loops as written, reading one byte at a
      time; it agrees with `WaitForStatL`.  `locked` is false when the source
      runs out. */
  method WaitForStatLLoop(src: seq<Byte>, pos: nat) returns (locked: bool, next: nat)
    ensures locked <==> WaitForStatL(src, pos).Ok?
    ensures locked ==> next == WaitForStatL(src, pos).next
  {
    next := pos;
    while true
      invariant WaitForStatL(src, next) == WaitForStatL(src, pos)
      decreases |src| - next
    {
      var round := next;
      // the byte read into `dat` and never looked at
      if next >= |src| {
        return false, next;
      }
      next := next + 1;
      // skip up to and including the next 0xC0
      while true
        invariant round < next
        invariant ScanHigh(src, next) == ScanHigh(src, round + 1)
        decreases |src| - next
      {
        if next >= |src| {
          return false, next;
        }
        var dat := src[next];
        next := next + 1;
        if dat == MARKER_HIGH {
          break;
        }
      }
      assert ScanHigh(src, round + 1) == Ok(next - 1, next);
      if next >= |src| {
        return false, next;
      }
      var dat2 := src[next];
      next := next + 1;
      if next >= |src| {
        return false, next;
      }
      var dat3 := src[next];
      next := next + 1;
      if dat2 == 0 && dat3 == 0 {
        return true, next;
      }
    }
  }
}
