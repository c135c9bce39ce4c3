// The bounded byte FIFO of Buffer.c (`FIFO_BUF`): an external array, the last
// written index (-1 when empty), the array length and the remaining space.
module Fifo {
  import opened Base

  class FifoBuf {
    /** `pui8_bufPtr`: the external buffer. */
    var buf: array<uint8>
    /** `i16_bufIdx`: the last written index, -1 when empty. */
    var idx: int16
    /** `ui8_bufLen`. */
    var bufLen: uint8
    /** `ui8_bufSpace`. */
    var space: uint8
    /** `b_ovfl`. */
    var ovfl: bool

    /** The length field describes the attached array. */
    ghost predicate Valid()
      reads this
    {
      buf.Length == bufLen
    }

    /**
     * The index/space invariant: every slot is either written (up to `idx`) or free.
     * `flushBuf` establishes it; `putElem` and `increaseBufIdx` keep it.
     */
    ghost predicate Consistent()
      reads this
    {
      -1 <= idx && space + idx + 1 == bufLen
    }

    /** The bytes written since the last flush. */
    ghost function Contents(): (s: seq<uint8>)
      reads this, buf
      requires Valid() && Consistent()
      ensures |s| + space == bufLen
    {
      buf[..idx + 1]
    }

    /** A FIFO over `arr` as `FIFO_BUF_DEFAULT` leaves it once its pointer and length are set. */
    constructor (arr: array<uint8>)
      requires arr.Length < 0x100
      ensures Valid() && buf == arr && bufLen == arr.Length
      ensures idx == 0 && space == 0 && !ovfl
    {
      buf := arr;
      bufLen := arr.Length;
      idx := 0;
      space := 0;
      ovfl := false;
    }

    /** `putElem` (Buffer.c:18-29). */
    method PutElem(d: uint8)
      requires Valid() && Consistent()
      modifies this, buf
      ensures Valid() && Consistent() && buf == old(buf) && bufLen == old(bufLen)
      ensures old(space) > 0 ==>
        space == old(space) - 1 && idx == old(idx) + 1 && ovfl == old(ovfl) &&
        buf[..] == old(buf[..])[idx := d] && Contents() == old(Contents()) + [d]
      ensures old(space) == 0 ==>
        ovfl && space == old(space) && idx == old(idx) && buf[..] == old(buf[..])
    {
      if space > 0 {
        space := space - 1;
        idx := idx + 1;
        buf[idx] := d;
        assert buf[..idx + 1] == old(buf[..])[..idx] + [d];
      } else {
        ovfl := true;
      }
    }

    /**
     * `readBuf` (Buffer.c:32-41): the number of stored bytes, as a `uint8_t`, and the
     * offset the target pointer is set to (the start of the buffer).
     */
    method ReadBuf() returns (size: uint8, target: nat)
      requires Valid()
      ensures size == ToUint8(idx + 1) && target == 0
      ensures Consistent() ==> size == |Contents()|
    {
      size := ToUint8(idx + 1);
      target := 0;
    }

    /** `flushBuf` (Buffer.c:44-49). */
    method FlushBuf()
      requires Valid()
      modifies this
      ensures Valid() && Consistent() && buf == old(buf) && bufLen == old(bufLen)
      ensures idx == -1 && space == bufLen && !ovfl
      ensures Contents() == []
    {
      idx := -1;
      space := bufLen;
      ovfl := false;
    }

    /**
     * `getNextFreeBufSpace` (Buffer.c:52-63): on success the offset of the first free
     * element; otherwise the caller's pointer is left alone (`None`).
     */
    method GetNextFreeBufSpace() returns (ok: bool, target: Option<nat>)
      requires Valid() && Consistent()
      ensures ok <==> space > 0
      ensures ok ==> target == Some(idx + 1) && idx + 1 < bufLen && idx + 1 == |Contents()|
      ensures !ok ==> target == None
    {
      ok := false;
      target := None;
      if space > 0 {
        target := Some(idx + 1);
        ok := true;
      }
    }

    /** `increaseBufIdx` (Buffer.c:66-79): claims `size` bytes written through that pointer. */
    method IncreaseBufIdx(size: uint8) returns (ok: bool)
      requires Valid() && Consistent()
      modifies this
      ensures Valid() && Consistent() && buf == old(buf) && bufLen == old(bufLen) && ovfl == old(ovfl)
      ensures ok <==> old(idx) + size < bufLen
      ensures ok ==> idx == old(idx) + size && space == old(space) - size
      ensures !ok ==> idx == old(idx) && space == old(space)
    {
      ok := false;
      if idx + size < bufLen {
        idx := idx + size;
        space := space - size;
        ok := true;
      }
    }

    /** `getActualIdx` (Buffer.c:82-85). */
    method GetActualIdx() returns (r: int16)
      requires Valid() && Consistent()
      ensures r == idx && r + 1 == |Contents()|
    {
      r := idx;
    }
  }
}
