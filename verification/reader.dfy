/** `get_ch`: reading one raw 24-bit channel code as three bytes, most
    significant byte first. */
module ChannelReader {
  import opened Stream
  import opened Conversion

  /** Bytes per channel code. */
  const CODE_BYTES: nat := 3

  /** 256^n. */
  function Pow256(n: nat): (r: nat)
    ensures r > 0
  {
    if n == 0 then 1 else 0x100 * Pow256(n - 1)
  }

  /** The number whose base-256 digits, most significant first, are the
      `count` bytes of `src` from `pos` on. */
  function BigEndian(src: seq<Byte>, pos: nat, count: nat): (r: nat)
    requires pos + count <= |src|
    ensures r < Pow256(count)
    decreases |src| - pos
  {
    if count == 0 then 0
    else
      var p := Pow256(count - 1);
      MulMonotone(src[pos], 0xFF, p);
      src[pos] * p + BigEndian(src, pos + 1, count - 1)
  }

  /** Multiplying by a natural number keeps the order. */
  lemma MulMonotone(a: nat, b: nat, p: nat)
    requires a <= b
    ensures a * p <= b * p
  {
  }

  /** Shifting a byte in below `acc` and then by `q` more places is shifting
      `acc` one place further and adding the byte's weight. */
  lemma ShiftStep(acc: int, b: int, q: int)
    ensures (acc * 0x100 + b) * q == acc * (0x100 * q) + b * q
  {
  }

  /** The code held by the three bytes at `p`. */
  function CodeAt(src: seq<Byte>, p: nat): (c: int)
    requires p + CODE_BYTES <= |src|
    ensures IsCode(c)
  {
    src[p] as int * 0x1_0000 + src[p + 1] as int * 0x100 + src[p + 2] as int
  }

  /** The body of the read loop of `get_ch`: `count` more bytes are read and
      each is shifted in below the bits gathered so far in `acc`.  A failed
      read ends the loop with an error.  (Once the loop has run, `pos` is a
      position just after a byte that was read, hence inside the source.) */
  function ShiftIn(src: seq<Byte>, pos: nat, count: nat, acc: int): (r: Result<int>)
    requires count > 0 || pos <= |src|
    decreases |src| - pos
    ensures r.Ok? <==> pos + count <= |src|
    ensures r.Ok? ==> r.next == pos + count
    ensures r.Ok? ==> r.value == acc * Pow256(count) + BigEndian(src, pos, count)
    ensures r.Err? ==> r.error == Io
  {
    if count == 0 then Ok(acc, pos)
    else
      match ReadByte(src, pos)
      case Err(e) => Err(e)
      case Ok(b, p) =>
        var r := ShiftIn(src, p, count - 1, acc * 0x100 + b);
        assert r.Ok? ==> r.value == acc * Pow256(count) + BigEndian(src, pos, count) by {
          if r.Ok? {
            ShiftStep(acc, b, Pow256(count - 1));
          }
        }
        r
  }

  /** `get_ch`: three reads, each shifted into the result.  On success the
      position has moved by exactly three bytes and the code is the
      big-endian value of those bytes; a failed read is an error, never a
      code. */
  function GetCh(src: seq<Byte>, pos: nat): (r: Result<int>)
    ensures r.Ok? <==> pos + CODE_BYTES <= |src|
    ensures r.Ok? ==> r.next == pos + CODE_BYTES && IsCode(r.value)
    ensures r.Ok? ==> r.value == CodeAt(src, pos)
    ensures r.Err? ==> r.error == Io
  {
    var r := ShiftIn(src, pos, CODE_BYTES, 0);
    assert r.Ok? ==> r.value == CodeAt(src, pos) by {
      if r.Ok? {
        assert BigEndian(src, pos + 2, 1) == src[pos + 2] as int;
        assert BigEndian(src, pos + 1, 2) == src[pos + 1] as int * 0x100 + src[pos + 2] as int;
      }
    }
    r
  }

  /** `(res << 8) | inByte` on the 32-bit accumulator equals the arithmetic
      step `res * 256 + inByte` used by `ShiftIn`, as long as the previous
      bytes fit in 16 bits and the new byte in 8. */
  lemma ShiftOrIsMulAdd(res: bv32, inByte: bv32)
    requires res < 0x1_0000 && inByte < 0x100
    ensures (res << 8) | inByte == res * 0x100 + inByte
  {
  }

  /** The three bytes, most significant first, that the device sends for a
      code. */
  function EncodeCode(c: int): (bs: seq<Byte>)
    requires IsCode(c)
    ensures |bs| == CODE_BYTES
    ensures CodeAt(bs, 0) == c
  {
    [c / 0x1_0000, (c / 0x100) % 0x100, c % 0x100]
  }

  /** Encoding the code found at `p` reproduces the bytes found there. */
  lemma EncodeCodeAt(src: seq<Byte>, p: nat)
    requires p + CODE_BYTES <= |src|
    ensures EncodeCode(CodeAt(src, p)) == src[p..p + CODE_BYTES]
  {
  }

  /** The code at an offset inside a middle piece of a concatenation is the
      code of that piece. */
  lemma CodeAtShift(pre: seq<Byte>, mid: seq<Byte>, post: seq<Byte>, j: nat)
    requires j + CODE_BYTES <= |mid|
    ensures CodeAt(pre + mid + post, |pre| + j) == CodeAt(mid, j)
  {
  }

  /** Round trip: a code sent as three bytes anywhere in the stream is read
      back unchanged, consuming exactly those bytes. */
  lemma GetChRoundTrip(pre: seq<Byte>, c: int, post: seq<Byte>)
    requires IsCode(c)
    ensures GetCh(pre + EncodeCode(c) + post, |pre|) == Ok(c, |pre| + CODE_BYTES)
  {
    CodeAtShift(pre, EncodeCode(c), post, 0);
  }
}
