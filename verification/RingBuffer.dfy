/**
 The byte queue of ringbuffer/unlock_ringbuffer.cpp: a power-of-two array addressed by two
 free-running 32-bit indices. The class refines a bounded first-in first-out queue.
 */
module RingBuffer {
  import opened Bytes
  import opened Words

  // ---------------------------------------------------------------- slots of the array

  function Slot(start: nat, i: int, size: nat): (k: nat)
    requires 0 < size
    ensures k < size
  {
    (start + i) % size
  }

  /** How far slot k lies after the slot of index start, going round. */
  function Offset(k: nat, start: nat, size: nat): (i: nat)
    requires 0 < size
    ensures i < size
  {
    (k - start) % size
  }

  lemma OffsetOfSlot(start: nat, base: nat, i: int, size: nat)
    requires 0 < size
    ensures Offset(Slot(start, i, size), base, size) == (start + i - base) % size
  {
    ModShift(start + i, base, size);
  }

  lemma ModShift(x: int, y: int, d: nat)
    requires 0 < d
    ensures (x % d - y) % d == (x - y) % d
  {
    var q := x / d;
    var s := (x % d - y) / d;
    assert x == q * d + x % d;
    assert x % d - y == s * d + (x % d - y) % d;
    assert (q + s) * d == q * d + s * d;
    ModUnique(x - y, d, q + s, (x % d - y) % d);
  }

  lemma SmallMod(x: int, d: nat)
    requires 0 < d && -(d as int) <= x < d
    ensures x % d == if x < 0 then x + d else x
  {
    if x < 0 {
      ModUnique(x, d, -1, x + d);
    } else {
      ModUnique(x, d, 0, x);
    }
  }

  /** The n slots from index start on, in order. */
  function Window(buf: seq<byte>, start: nat, n: nat): (w: seq<byte>)
    requires n <= |buf|
    ensures |w| == n
  {
    seq(n, i requires 0 <= i < n => buf[Slot(start, i, |buf|)])
  }

  /** The array after data has been written to the slots from index start on, going round. */
  function Written(buf: seq<byte>, start: nat, data: seq<byte>): (buf': seq<byte>)
    requires |data| <= |buf|
    ensures |buf'| == |buf|
  {
    seq(|buf|, k requires 0 <= k < |buf| =>
      var i := Offset(k, start, |buf|); if i < |data| then data[i] else buf[k])
  }

  /** Writing after a window extends it by what was written and leaves the rest of it alone. */
  lemma WindowExtends(buf: seq<byte>, start: nat, used: nat, data: seq<byte>)
    requires used + |data| <= |buf|
    ensures Window(Written(buf, start + used, data), start, used + |data|) == Window(buf, start, used) + data
  {
    var buf' := Written(buf, start + used, data);
    var size := |buf|;
    forall i | 0 <= i < used + |data|
      ensures Window(buf', start, used + |data|)[i] == (Window(buf, start, used) + data)[i]
    {
      OffsetOfSlot(start, start + used, i, size);
      SmallMod(i - used, size);
    }
  }

  /** Taking from the front of a window leaves the window that starts further on. */
  lemma WindowSplits(buf: seq<byte>, start: nat, used: nat, n: nat)
    requires n <= used <= |buf|
    ensures Window(buf, start, used) == Window(buf, start, n) + Window(buf, start + n, used - n)
  {
  }

  /** Up to the end of the array a window lies there in one piece. */
  lemma FrontInPlace(buf: seq<byte>, start: nat, used: nat, at: nat)
    requires 0 < |buf| && used <= |buf| && at == start % |buf|
    ensures var n := Min(used, |buf| - at); buf[at..at + n] == Window(buf, start, used)[..n]
  {
    var n := Min(used, |buf| - at);
    forall i | 0 <= i < n
      ensures buf[at..at + n][i] == Window(buf, start, used)[i]
    {
      ModStep(start, i, |buf|);
    }
  }

  // ---------------------------------------------------------------- free-running 32-bit indices

  /** The capacities the constructor can arrive at. */
  ghost predicate IsCapacity(size: nat) {
    size == 0 || exists k: nat :: k <= 31 && size == Pow2(k)
  }

  /** Bytes held between the indices, however often they have wrapped. */
  function Used(nIn: word, nOut: word): nat {
    (nIn - nOut) % WRAP
  }

  lemma MaskIsMod(x: word, size: nat)
    requires IsCapacity(size) && 0 < size
    ensures And(x, (size - 1) % WRAP) == x % size < size
  {
    var k: nat :| k <= 31 && size == Pow2(k);
    MaskInWord(k);
    AndMask(x, k);
  }

  lemma MaskInWord(k: nat)
    requires k <= 31
    ensures 0 < Pow2(k) && (Pow2(k) - 1) % WRAP == Pow2(k) - 1
  {
    Pow2Positive(k);
    Pow2Of31();
    Pow2Monotone(k, 31);
  }

  lemma CapacityMod(x: int, size: nat)
    requires IsCapacity(size) && 0 < size
    ensures (x % WRAP) % size == x % size
  {
    var k: nat :| k <= 31 && size == Pow2(k);
    WrapMod(x, k);
  }

  /** Letting an index wrap at 2^32 does not move its slot. */
  lemma SlotWraps(x: nat, i: nat, size: nat)
    requires IsCapacity(size) && 0 < size
    ensures Slot(x % WRAP, i, size) == Slot(x, i, size)
  {
    CapacityMod(x, size);
    SlotSame(x % WRAP, x, i, size);
  }

  lemma SlotSame(x: nat, y: nat, i: nat, d: nat)
    requires 0 < d && x % d == y % d
    ensures Slot(x, i, d) == Slot(y, i, d)
  {
    ModPlus(x, i, d);
    ModPlus(y, i, d);
  }

  lemma ModPlus(x: int, i: int, d: nat)
    requires 0 < d
    ensures (x % d + i) % d == (x + i) % d
  {
    ModShift(x, 0 - i, d);
  }

  lemma WindowWraps(buf: seq<byte>, x: nat, n: nat)
    requires IsCapacity(|buf|) && n <= |buf|
    ensures Window(buf, x % WRAP, n) == Window(buf, x, n)
  {
    if |buf| != 0 {
      forall i | 0 <= i < n
        ensures Window(buf, x % WRAP, n)[i] == Window(buf, x, n)[i]
      {
        SlotWraps(x, i, |buf|);
      }
    }
  }

  lemma WrittenWraps(buf: seq<byte>, x: nat, data: seq<byte>)
    requires IsCapacity(|buf|) && |data| <= |buf|
    ensures Written(buf, x % WRAP, data) == Written(buf, x, data)
  {
    if |buf| != 0 {
      forall k | 0 <= k < |buf|
        ensures Offset(k, x % WRAP, |buf|) == Offset(k, x, |buf|)
      {
        OffsetWraps(k, x, |buf|);
      }
    }
  }

  lemma OffsetWraps(k: nat, x: nat, size: nat)
    requires IsCapacity(size) && 0 < size
    ensures Offset(k, x % WRAP, size) == Offset(k, x, size)
  {
    CapacityMod(x, size);
    OffsetSame(k, x % WRAP, x, size);
  }

  lemma OffsetSame(k: nat, x: nat, y: nat, d: nat)
    requires 0 < d && x % d == y % d
    ensures Offset(k, x, d) == Offset(k, y, d)
  {
    ModDifference(k, x, d);
    ModDifference(k, y, d);
  }

  lemma ModDifference(k: int, x: int, d: nat)
    requires 0 < d
    ensures (k - x % d) % d == (k - x) % d
  {
    var q := x / d;
    var s := (k - x) / d;
    assert x == q * d + x % d;
    assert k - x == s * d + (k - x) % d;
    assert (q + s) * d == q * d + s * d;
    ModUnique(k - x % d, d, q + s, (k - x) % d);
  }

  lemma UsedAfterPut(nIn: word, nOut: word, n: nat)
    requires Used(nIn, nOut) + n < WRAP
    ensures Used((nIn + n) % WRAP, nOut) == Used(nIn, nOut) + n
  {
  }

  lemma UsedAfterGet(nIn: word, nOut: word, n: nat)
    requires n <= Used(nIn, nOut)
    ensures Used(nIn, (nOut + n) % WRAP) == Used(nIn, nOut) - n
  {
  }

  // ---------------------------------------------------------------- rounding the capacity up

  /** The least power of two that val fits in, or 0 where that is 0 or does not fit 32 bits. */
  ghost predicate IsRoundUp(val: word, r: nat) {
    if val == 0 || 0x8000_0000 < val then r == 0
    else IsPow2(r) && val <= r && forall k: nat :: val <= Pow2(k) ==> r <= Pow2(k)
  }

  /** So it is a power of two, less than twice what is to fit, except where there is none. */
  lemma RoundUpBounds(val: word, r: nat)
    ensures IsRoundUp(val, r) <==>
              if 1 <= val <= 0x8000_0000 then IsPow2(r) && val <= r < 2 * val else r == 0
  {
    if 1 <= val <= 0x8000_0000 && IsPow2(r) && val <= r {
      var k: nat :| r == Pow2(k);
      if k != 0 {
        var half := Pow2(k - 1);
        assert r == 2 * half && (IsRoundUp(val, r) ==> half < val);
      }
      if r < 2 * val {
        forall j: nat | val <= Pow2(j)
          ensures r <= Pow2(j)
        {
          Pow2Monotone(if j < k then j else k, if j < k then k - 1 else j);
        }
      }
    }
  }

  predicate IsPowerOf2(n: word) {
    n != 0 && And(n, n - 1) == 0
  }

  lemma PowerRoundsToItself(n: word)
    requires n != 0 && IsPow2(n)
    ensures IsRoundUp(n, n) && IsCapacity(n)
  {
    var j: nat :| n == Pow2(j);
    Pow2Of31();
    if 31 < j {
      Pow2Monotone(32, j);
    }
    if j < 31 {
      Pow2Monotone(j, 31);
    }
  }

  lemma RoundUpIsCapacity(val: word, r: nat)
    requires IsRoundUp(val, r)
    ensures IsCapacity(r) && r <= 0x8000_0000
  {
    Pow2Of31();
    if r != 0 {
      var j: nat :| r == Pow2(j);
      if 31 < j {
        Pow2Monotone(32, j);
      }
    }
  }

  method RoundupPowerOfTwo(val: word) returns (r: word)
    ensures IsRoundUp(val, r)
  {
    if And(val, (val - 1) % WRAP) == 0 {
      ReturnsPower(val);
      return val;
    }
    IsNoPower(val);
    var andv, j := HighestBit(val);
    r := (andv * 2) % WRAP;
    NextPower(val, j, andv);
  }

  // The topmost bit of a word.
  const TOP_BIT: nat := 31

  method TopmostBit(val: word) returns (andv: word)
    ensures andv == Pow2(TOP_BIT) && val < 2 * andv && (And(andv, val) == 0 <==> val < andv)
  {
    var maxulong: word := WRAP - 1;
    TopBit(val);
    andv := maxulong - And(maxulong, maxulong / 2);
  }

  /** The loop: a single bit moves down from the top until it meets the highest bit of val. */
  method HighestBit(val: word) returns (andv: word, ghost j: nat)
    requires 0 < val
    ensures IsPow2(andv) && andv <= val < 2 * andv
    ensures j <= TOP_BIT && andv == Pow2(j)
  {
    j := TOP_BIT;
    andv := TopmostBit(val);
    while And(andv, val) == 0
      invariant j <= TOP_BIT && andv == Pow2(j) && val < 2 * andv
      invariant And(andv, val) == 0 <==> val < andv
      decreases j
    {
      NextBit(j, val);
      andv := andv / 2;
      j := j - 1;
    }
  }

  lemma NextBit(j: nat, val: word)
    requires 0 < val < Pow2(j)
    ensures 0 < j && Pow2(j) / 2 == Pow2(j - 1) && val < 2 * Pow2(j - 1)
    ensures And(Pow2(j - 1), val) == 0 <==> val < Pow2(j - 1)
  {
    AndTopBit(j - 1, val);
  }

  lemma ReturnsPower(val: word)
    requires And(val, (val - 1) % WRAP) == 0
    ensures IsRoundUp(val, val)
  {
    if val != 0 {
      PowerTest(val);
      PowerRoundsToItself(val);
    }
  }

  lemma IsNoPower(val: word)
    requires And(val, (val - 1) % WRAP) != 0
    ensures 0 < val && !IsPow2(val)
  {
    PowerTest(val);
  }

  lemma TopBit(val: word)
    ensures var m: nat := WRAP - 1; And(m, m / 2) <= m && m - And(m, m / 2) == Pow2(31)
    ensures val < 2 * Pow2(31) && (And(Pow2(31), val) == 0 <==> val < Pow2(31))
  {
    Pow2Of31();
    AndMask(WRAP - 1, 31);
    AndTopBit(31, val);
  }

  lemma NextPower(val: word, j: nat, andv: nat)
    requires j <= 31 && andv == Pow2(j) <= val < 2 * andv && !IsPow2(val)
    ensures IsRoundUp(val, (andv * 2) % WRAP)
  {
    Pow2Of31();
    assert val != Pow2(j);
    assert 2 * Pow2(j) == Pow2(j + 1);
    if j < 31 {
      Pow2Monotone(j, 30);
      forall k: nat | val <= Pow2(k)
        ensures 2 * Pow2(j) <= Pow2(k)
      {
        if k <= j {
          Pow2Monotone(k, j);
        } else {
          Pow2Monotone(j + 1, k);
        }
      }
    }
  }

  // ---------------------------------------------------------------- the class

  /** memcpy between different arrays. */
  method MemCpy(dst: array<byte>, at: nat, src: array<byte>, from: nat, n: nat)
    requires dst != src && at + n <= dst.Length && from + n <= src.Length
    modifies dst
    ensures forall k :: 0 <= k < dst.Length ==>
              dst[k] == if at <= k < at + n then src[from + (k - at)] else old(dst[k])
  {
    for i := 0 to n
      invariant forall k :: 0 <= k < dst.Length ==>
                  dst[k] == if at <= k < at + i then src[from + (k - at)] else old(dst[k])
    {
      dst[at + i] := src[from + i];
    }
  }

  class UnlockRingBuffer {
    var mpBuffer: array<byte>
    const mnSize: word
    var mnIn: word
    var mnOut: word

    ghost predicate Valid()
      reads this
    {
      && IsCapacity(mnSize)
      && mpBuffer.Length == mnSize
      && Used(mnIn, mnOut) <= mnSize
      && (mnSize == 0 ==> mnIn == mnOut == 0)
    }

    /** The bytes queued, oldest first. */
    ghost function Contents(): (s: seq<byte>)
      requires Valid()
      reads this, mpBuffer
      ensures |s| == Used(mnIn, mnOut)
    {
      Window(mpBuffer[..], mnOut, Used(mnIn, mnOut))
    }

    /** nSize is a C int, converted to an unsigned word; the array is allocated by Init. */
    constructor (nSize: int)
      requires -0x8000_0000 <= nSize < 0x8000_0000
      ensures IsRoundUp(nSize % WRAP, mnSize) && IsCapacity(mnSize)
      ensures mnIn == mnOut == 0 && mpBuffer.Length == 0 && fresh(mpBuffer)
    {
      var val: word := nSize % WRAP;
      if !IsPowerOf2(val) {
        var r := RoundupPowerOfTwo(val);
        mnSize := r;
      } else {
        PowerTest(val);
        PowerRoundsToItself(val);
        mnSize := val;
      }
      mnIn, mnOut := 0, 0;
      mpBuffer := new byte[0];
      new;
      RoundUpIsCapacity(val, mnSize);
    }

    method Init() returns (ok: bool)
      requires IsCapacity(mnSize)
      modifies this
      ensures ok && Valid() && fresh(mpBuffer) && Contents() == []
    {
      mpBuffer := new byte[mnSize](_ => 0);
      mnIn, mnOut := 0, 0;
      ok := true;
    }

    /** The number of bytes queued. */
    function Size(): (n: nat)
      requires Valid()
      reads this, mpBuffer
      ensures n == |Contents()|
    {
      (mnIn - mnOut) % WRAP
    }

    /**
     Where the oldest byte lies in the array. From there up to the end of the array the queue
     can be read in place; what lies beyond the array's end is not part of it.
     */
    method GetData() returns (at: int)
      requires Valid()
      ensures at == -1 <==> mnSize == 0
      ensures at != -1 ==>
                && 0 <= at < mnSize
                && var n := Min(|Contents()|, mnSize - at); mpBuffer[at..at + n] == Contents()[..n]
    {
      if mnSize <= 0 {
        return -1;
      }
      at := And(mnOut, (mnSize - 1) % WRAP);
      MaskIsMod(mnOut, mnSize);
      FrontInPlace(mpBuffer[..], mnOut, Used(mnIn, mnOut), at);
    }

    /** The two block copies of put: up to the end of the array, then from its beginning. */
    method CopyIn(buffer: array<byte>, len: nat)
      requires Valid() && buffer != mpBuffer && 0 < mnSize && len <= mnSize && len <= buffer.Length
      modifies mpBuffer
      ensures mpBuffer[..] == Written(old(mpBuffer[..]), mnIn, buffer[..len])
    {
      ghost var was := mpBuffer[..];
      var mask := And(mnIn, (mnSize - 1) % WRAP);
      MaskIsMod(mnIn, mnSize);
      var l := Min(len, mnSize - mask);
      MemCpy(mpBuffer, mask, buffer, 0, l);
      MemCpy(mpBuffer, 0, buffer, l, len - l);
      CopiesWrite(was, mpBuffer[..], mnIn, buffer[..len], mask, l);
    }

    /** The two block copies of get. */
    method CopyOut(buffer: array<byte>, len: nat)
      requires Valid() && buffer != mpBuffer && 0 < mnSize && len <= mnSize && len <= buffer.Length
      modifies buffer
      ensures buffer[..len] == Window(mpBuffer[..], mnOut, len)
      ensures buffer[len..] == old(buffer[len..])
    {
      var mask := And(mnOut, (mnSize - 1) % WRAP);
      MaskIsMod(mnOut, mnSize);
      var l := Min(len, mnSize - mask);
      MemCpy(buffer, 0, mpBuffer, mask, l);
      MemCpy(buffer, l, mpBuffer, 0, len - l);
      CopiesRead(mpBuffer[..], mnOut, buffer[..len], mask, l);
    }

    /** Appends as many leading bytes of the argument as fit, and says how many. */
    method Put(buffer: array<byte>, nLen: word) returns (len: word)
      requires Valid() && buffer != mpBuffer && nLen <= buffer.Length
      modifies mpBuffer, this`mnIn
      ensures Valid()
      ensures len == Min(nLen, mnSize - old(|Contents()|))
      ensures Contents() == old(Contents()) + buffer[..len]
    {
      len := Min(nLen, (mnSize - mnIn + mnOut) % WRAP);
      assert (mnSize - mnIn + mnOut) % WRAP == mnSize - Used(mnIn, mnOut);
      if mnSize == 0 {
        return;
      }
      PutExtends(mpBuffer[..], mnIn, mnOut, buffer[..len]);
      CopyIn(buffer, len);
      mnIn := (mnIn + len) % WRAP;
    }

    /** Removes as many of the oldest bytes as were asked for and are there, in order. */
    method Get(buffer: array<byte>, nLen: word) returns (len: word)
      requires Valid() && buffer != mpBuffer && nLen <= buffer.Length
      modifies buffer, this`mnOut
      ensures Valid()
      ensures len == Min(nLen, old(|Contents()|))
      ensures old(Contents()) == buffer[..len] + Contents()
      ensures buffer[len..] == old(buffer[len..])
    {
      len := Min(nLen, (mnIn - mnOut) % WRAP);
      if mnSize == 0 {
        return;
      }
      GetSplits(mpBuffer[..], mnIn, mnOut, len);
      CopyOut(buffer, len);
      mnOut := (mnOut + len) % WRAP;
    }
  }

  /** Writing at the in index and advancing it appends to the window, across both wrap-arounds. */
  lemma PutExtends(buf: seq<byte>, nIn: word, nOut: word, data: seq<byte>)
    requires IsCapacity(|buf|) && |buf| < WRAP && Used(nIn, nOut) + |data| <= |buf|
    ensures var nIn' := (nIn + |data|) % WRAP;
            && Used(nIn', nOut) == Used(nIn, nOut) + |data|
            && Window(Written(buf, nIn, data), nOut, Used(nIn', nOut)) == Window(buf, nOut, Used(nIn, nOut)) + data
  {
    var used := Used(nIn, nOut);
    UsedAfterPut(nIn, nOut, |data|);
    InAfterOut(nIn, nOut);
    WrittenWraps(buf, nOut + used, data);
    WindowExtends(buf, nOut, used, data);
  }

  lemma InAfterOut(nIn: word, nOut: word)
    ensures (nOut + Used(nIn, nOut)) % WRAP == nIn
  {
  }

  /** Advancing the out index takes exactly the front of the window. */
  lemma GetSplits(buf: seq<byte>, nIn: word, nOut: word, n: nat)
    requires IsCapacity(|buf|) && n <= Used(nIn, nOut) <= |buf|
    ensures var nOut' := (nOut + n) % WRAP;
            && Used(nIn, nOut') == Used(nIn, nOut) - n
            && Window(buf, nOut, Used(nIn, nOut)) == Window(buf, nOut, n) + Window(buf, nOut', Used(nIn, nOut'))
  {
    UsedAfterGet(nIn, nOut, n);
    WindowWraps(buf, nOut + n, Used(nIn, nOut) - n);
    WindowSplits(buf, nOut, Used(nIn, nOut), n);
  }

  /** The two block copies of put write the slots from the in index on, going round. */
  lemma CopiesWrite(was: seq<byte>, now: seq<byte>, start: nat, data: seq<byte>, mask: nat, l: nat)
    requires |was| == |now| && |data| <= |was| && 0 < |was|
    requires mask == start % |was| && l == Min(|data|, |was| - mask)
    requires forall k :: 0 <= k < |was| ==>
               now[k] == if k < |data| - l then data[l + k]
                         else if mask <= k < mask + l then data[k - mask] else was[k]
    ensures now == Written(was, start, data)
  {
    forall k | 0 <= k < |was|
      ensures now[k] == Written(was, start, data)[k]
    {
      ModDifference(k, start, |was|);
      SmallMod(k - mask, |was|);
    }
  }

  /** The two block copies of get read the slots from the out index on, going round. */
  lemma CopiesRead(buf: seq<byte>, start: nat, data: seq<byte>, mask: nat, l: nat)
    requires |data| <= |buf| && 0 < |buf|
    requires mask == start % |buf| && l == Min(|data|, |buf| - mask)
    requires forall i :: 0 <= i < |data| ==> data[i] == if i < l then buf[mask + i] else buf[i - l]
    ensures data == Window(buf, start, |data|)
  {
    forall i | 0 <= i < |data|
      ensures data[i] == Window(buf, start, |data|)[i]
    {
      ModStep(start, i, |buf|);
    }
  }
}
