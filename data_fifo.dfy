// The data FIFO of the scheduler (utility/cos_data_fifo.h and
// utility/cos_data_fifo.c): a ring buffer of `maxSlots` slots of `slotSize`
// bytes each, with a read index, a write index and a count of used slots, all
// unsigned 8-bit, and two semaphores that block readers of an empty and
// writers of a full FIFO.
//
// The ring is specified on values in slot units (`Ring`), without modular
// arithmetic; the class keeps the byte indices of the C struct and is proved
// to move them exactly as the value model moves its slots.

module DataFifo {
  import opened CosTypes
  import opened TaskList
  import opened Semaphore

  // ---------------------------------------------------------------------------
  // Arithmetic of the 8-bit byte indices

  lemma ModSmall(x: int, d: int)
    requires 0 <= x < d
    ensures x % d == x
  {
  }

  lemma ModSelf(d: int)
    requires d > 0
    ensures d % d == 0
  {
  }

  lemma MulLt(a: nat, b: nat, s: nat)
    requires a < b && s >= 1
    ensures a * s < b * s
  {
    assert b * s == a * s + (b - a) * s;
  }

  lemma MulLe(a: nat, b: nat, s: nat)
    requires a <= b
    ensures a * s <= b * s
  {
    assert b * s == a * s + (b - a) * s;
  }

  /** The slot after slot `j` of `m`, wrapping from the last to the first. */
  function NextSlot(j: nat, m: nat): (k: nat)
    requires j < m
    ensures k < m
    ensures k == 0 <==> j == m - 1
  {
    if j + 1 == m then 0 else j + 1
  }

  lemma MulPos(a: nat, b: nat)
    requires a > 0 && b > 0
    ensures a * b > 0
  {
    MulLe(1, a, b);
  }

  lemma ModLe(x: nat, n: nat)
    requires n > 0
    ensures x % n <= x
  {
    if x < n {
      ModSmall(x, n);
    }
  }

  /**
   * `i += slotSize; i %= (maxSlots * slotSize);` on a uint8_t index `i`:
   * the sum is truncated to 8 bits before the reduction.
   */
  function AdvanceAsWritten(i: uint8, slotSize: uint8, maxSlots: uint8): uint8
    requires slotSize > 0 && maxSlots > 0
  {
    var sum: nat := (i as nat + slotSize as nat) % 0x100;
    var size: nat := maxSlots as nat * slotSize as nat;
    MulPos(maxSlots as nat, slotSize as nat);
    ModLe(sum, size);
    sum % size
  }

  /** The intended advance: to the start of the next slot of the ring. */
  function Advance(i: nat, slotSize: nat, maxSlots: nat): nat
    requires slotSize > 0 && maxSlots > 0
  {
    MulPos(maxSlots, slotSize);
    (i + slotSize) % (maxSlots * slotSize)
  }

  lemma WrapStep(x: int, n: int)
    requires 0 < x <= n <= 0x100
    ensures (x % 0x100) % n == if x == n then 0 else x
  {
    if x < 0x100 {
      ModSmall(x, 0x100);
      if x < n {
        ModSmall(x, n);
      } else {
        ModSelf(n);
      }
    }
  }

  /**
   * As long as the whole buffer fits the 8-bit index, advancing the byte
   * index of slot `j` lands on the start of the next slot, both with the
   * truncating C arithmetic and with the intended one.
   */
  lemma {:induction false} AdvanceNextSlot(j: nat, s: nat, m: nat)
    requires j < m < 0x100 && 1 <= s < 0x100 && m * s <= 0x100
    ensures j * s < 0x100 && m * s > 0
    ensures AdvanceAsWritten(j * s, s, m) == NextSlot(j, m) * s
    ensures Advance(j * s, s, m) == NextSlot(j, m) * s
  {
    MulLt(j, m, s);
    MulPos(m, s);
    assert j * s + s == (j + 1) * s;
    if j + 1 < m {
      MulLt(j + 1, m, s);
      ModSmall((j + 1) * s, m * s);
    } else {
      ModSelf(m * s);
    }
    WrapStep((j + 1) * s, m * s);
  }

  /**
   * The documentation allows 1..255 slots of 1..255 bytes, but the 8-bit
   * index cannot reach past byte 255: with three slots of 100 bytes the
   * write index after the third slot (byte 200) truncates 300 to 44 instead
   * of wrapping to 0, so the next slot is written across slot 0 and slot 1.
   */
  lemma IndexTruncationCounterexample()
    ensures AdvanceAsWritten(200, 100, 3) == 44
    ensures Advance(200, 100, 3) == 0
    ensures 44 % 100 != 0
  {
  }

  // ---------------------------------------------------------------------------
  // The ring buffer as a value, in slot units

  /** `buf` holds `maxSlots` slots of `slotSize` bytes; `used` slots are filled, the oldest at slot `head`. */
  datatype Ring = Ring(buf: seq<bv8>, maxSlots: nat, slotSize: nat, head: nat, used: nat)

  ghost predicate RingInv(q: Ring)
  {
    && q.slotSize >= 1
    && |q.buf| == q.maxSlots * q.slotSize
    && q.used <= q.maxSlots
    && (q.head < q.maxSlots || q.head == q.maxSlots == 0)
  }

  /** The slot that holds the `k`-th oldest element (for `k == used`: the slot the next write fills). */
  function SlotOf(q: Ring, k: nat): (j: nat)
    requires RingInv(q) && k <= q.maxSlots
    ensures q.maxSlots > 0 ==> j < q.maxSlots
  {
    if q.head + k < q.maxSlots then q.head + k else q.head + k - q.maxSlots
  }

  /** The `s` bytes of slot `j` of a buffer. */
  function SlotRange(buf: seq<bv8>, j: nat, s: nat): (b: seq<bv8>)
    requires j * s + s <= |buf|
    ensures |b| == s
  {
    buf[j * s .. j * s + s]
  }

  /** The bytes of slot `j`. */
  function SlotBytes(q: Ring, j: nat): (b: seq<bv8>)
    requires RingInv(q) && j < q.maxSlots
    ensures |b| == q.slotSize
  {
    MulLe(j + 1, q.maxSlots, q.slotSize);
    assert (j + 1) * q.slotSize == j * q.slotSize + q.slotSize;
    SlotRange(q.buf, j, q.slotSize)
  }

  /** The stored elements, oldest first. */
  ghost function Contents(q: Ring): (c: seq<seq<bv8>>)
    requires RingInv(q)
    ensures |c| == q.used
  {
    seq(q.used, k requires 0 <= k < q.used => SlotBytes(q, SlotOf(q, k)))
  }

  /** `buf` with `d` copied over it from position `at` (a memcpy). */
  function Splice(buf: seq<bv8>, at: nat, d: seq<bv8>): (r: seq<bv8>)
    requires at + |d| <= |buf|
    ensures |r| == |buf|
  {
    buf[..at] + d + buf[at + |d|..]
  }

  /** _qWriteSingleSlot when a slot is free: `d` goes into the slot after the newest element. */
  function RingWrite(q: Ring, d: seq<bv8>): Ring
    requires RingInv(q) && q.used < q.maxSlots && |d| == q.slotSize
  {
    var j := SlotOf(q, q.used);
    MulLe(j + 1, q.maxSlots, q.slotSize);
    assert (j + 1) * q.slotSize == j * q.slotSize + q.slotSize;
    q.(buf := Splice(q.buf, j * q.slotSize, d), used := q.used + 1)
  }

  /** _qReadSingleSlot when an element is stored: the oldest element leaves. */
  function RingPop(q: Ring): Ring
    requires RingInv(q) && q.used > 0
  {
    q.(head := NextSlot(q.head, q.maxSlots), used := q.used - 1)
  }

  /** The bytes _qReadSingleSlot hands out: those of the oldest slot. */
  function RingFront(q: Ring): seq<bv8>
    requires RingInv(q) && q.used > 0
  {
    SlotBytes(q, q.head)
  }

  /** Slot `j` lies inside the buffer. */
  lemma SlotFits(q: Ring, j: nat)
    requires RingInv(q) && j < q.maxSlots
    ensures j * q.slotSize + q.slotSize <= |q.buf|
  {
    MulLe(j + 1, q.maxSlots, q.slotSize);
    assert (j + 1) * q.slotSize == j * q.slotSize + q.slotSize;
  }

  /** Different elements live in different slots. */
  lemma SlotsDistinct(q: Ring, k1: nat, k2: nat)
    requires RingInv(q) && k1 < k2 <= q.maxSlots && k2 - k1 < q.maxSlots
    ensures SlotOf(q, k1) != SlotOf(q, k2)
  {
  }

  /** A memcpy leaves every range it does not overlap as it was. */
  lemma SpliceOutside(buf: seq<bv8>, at: nat, d: seq<bv8>, lo: nat, hi: nat)
    requires at + |d| <= |buf| && lo <= hi <= |buf|
    requires hi <= at || at + |d| <= lo
    ensures Splice(buf, at, d)[lo..hi] == buf[lo..hi]
  {
    var r := Splice(buf, at, d);
    forall i | lo <= i < hi
      ensures r[i] == buf[i]
    {
      if i < at {
        assert r[i] == buf[..at][i];
      } else {
        assert r[i] == buf[at + |d|..][i - at - |d|];
      }
    }
  }

  /** A memcpy into slot `b` leaves the bytes of every other slot as they were. */
  lemma SpliceOtherSlot(buf: seq<bv8>, s: nat, b: nat, d: seq<bv8>, a: nat)
    requires a != b && |d| == s && a * s + s <= |buf| && b * s + s <= |buf|
    ensures SlotRange(Splice(buf, b * s, d), a, s) == SlotRange(buf, a, s)
  {
    SlotsApart(a, b, s);
    SpliceOutside(buf, b * s, d, a * s, a * s + s);
  }

  /** The byte ranges of two different slots do not overlap. */
  lemma SlotsApart(a: nat, b: nat, s: nat)
    requires a != b
    ensures a * s + s <= b * s || b * s + s <= a * s
  {
    if a < b {
      MulLe(a + 1, b, s);
      assert (a + 1) * s == a * s + s;
    } else {
      MulLe(b + 1, a, s);
      assert (b + 1) * s == b * s + s;
    }
  }

  /** The memcpy into slot `b` puts `d` there. */
  lemma {:induction false} SpliceSameSlot(q: Ring, b: nat, d: seq<bv8>)
    requires RingInv(q) && b < q.maxSlots && |d| == q.slotSize
    requires b * q.slotSize + q.slotSize <= |q.buf|
    ensures SlotBytes(q.(buf := Splice(q.buf, b * q.slotSize, d)), b) == d
  {
    var s := q.slotSize;
    var q' := q.(buf := Splice(q.buf, b * s, d));
    forall i | 0 <= i < s
      ensures SlotBytes(q', b)[i] == d[i]
    {
      assert SlotBytes(q', b)[i] == q'.buf[b * s + i];
    }
  }

  /** A write appends its bytes as the newest element and keeps the ring well formed. */
  lemma {:induction false} RingWriteAppends(q: Ring, d: seq<bv8>)
    requires RingInv(q) && q.used < q.maxSlots && |d| == q.slotSize
    ensures RingInv(RingWrite(q, d))
    ensures Contents(RingWrite(q, d)) == Contents(q) + [d]
  {
    var q' := RingWrite(q, d);
    var b := SlotOf(q, q.used);
    MulLe(b + 1, q.maxSlots, q.slotSize);
    assert (b + 1) * q.slotSize == b * q.slotSize + q.slotSize;
    assert q' == q.(buf := Splice(q.buf, b * q.slotSize, d), used := q.used + 1);
    forall k | 0 <= k < q'.used
      ensures Contents(q')[k] == (Contents(q) + [d])[k]
    {
      assert SlotOf(q', k) == SlotOf(q, k);
      if k < q.used {
        SlotsDistinct(q, k, q.used);
        SlotFits(q, SlotOf(q, k));
        SpliceOtherSlot(q.buf, q.slotSize, b, d, SlotOf(q, k));
      } else {
        SpliceSameSlot(q, b, d);
      }
    }
  }

  /** A read hands out the oldest element and removes it, keeping the ring well formed. */
  lemma {:induction false} RingPopFront(q: Ring)
    requires RingInv(q) && q.used > 0
    ensures RingInv(RingPop(q))
    ensures RingFront(q) == Contents(q)[0]
    ensures Contents(RingPop(q)) == Contents(q)[1..]
  {
    var q' := RingPop(q);
    forall k | 0 <= k < q'.used
      ensures SlotOf(q', k) == SlotOf(q, k + 1)
    {
    }
  }

  /** Writes each element of `ds` in turn. */
  function WriteAll(q: Ring, ds: seq<seq<bv8>>): (r: Ring)
    requires RingInv(q) && q.used + |ds| <= q.maxSlots
    requires forall i :: 0 <= i < |ds| ==> |ds[i]| == q.slotSize
    ensures RingInv(r) && r.used == q.used + |ds|
    decreases |ds|
  {
    if ds == [] then q
    else
      RingWriteAppends(q, ds[0]);
      WriteAll(RingWrite(q, ds[0]), ds[1..])
  }

  /** The elements `k` reads hand out, in order. */
  function ReadAll(q: Ring, k: nat): seq<seq<bv8>>
    requires RingInv(q) && k <= q.used
    decreases k
  {
    if k == 0 then []
    else
      RingPopFront(q);
      [RingFront(q)] + ReadAll(RingPop(q), k - 1)
  }

  lemma {:induction false} WriteAllAppends(q: Ring, ds: seq<seq<bv8>>)
    requires RingInv(q) && q.used + |ds| <= q.maxSlots
    requires forall i :: 0 <= i < |ds| ==> |ds[i]| == q.slotSize
    ensures RingInv(WriteAll(q, ds))
    ensures Contents(WriteAll(q, ds)) == Contents(q) + ds
    decreases |ds|
  {
    if ds != [] {
      RingWriteAppends(q, ds[0]);
      WriteAllAppends(RingWrite(q, ds[0]), ds[1..]);
      assert Contents(q) + [ds[0]] + ds[1..] == Contents(q) + ds;
    }
  }

  lemma {:induction false} ReadAllTakes(q: Ring, k: nat)
    requires RingInv(q) && k <= q.used
    ensures ReadAll(q, k) == Contents(q)[..k]
    decreases k
  {
    if k > 0 {
      RingPopFront(q);
      ReadAllTakes(RingPop(q), k - 1);
      assert Contents(q)[..k] == [Contents(q)[0]] + Contents(q)[1..][..k - 1];
    }
  }

  /**
   * First in, first out: whatever was stored before, and whatever fits,
   * reading everything back yields the old elements followed by the new
   * ones in the order they were written.
   */
  lemma FifoOrder(q: Ring, ds: seq<seq<bv8>>)
    requires RingInv(q) && q.used + |ds| <= q.maxSlots
    requires forall i :: 0 <= i < |ds| ==> |ds[i]| == q.slotSize
    ensures RingInv(WriteAll(q, ds))
    ensures ReadAll(WriteAll(q, ds), q.used + |ds|) == Contents(q) + ds
  {
    WriteAllAppends(q, ds);
    ReadAllTakes(WriteAll(q, ds), q.used + |ds|);
  }

  // ---------------------------------------------------------------------------
  // CosFifo_t

  /** CosFifo_t. `head` is the slot number of `rIndex`, kept as ghost state. */
  class CosFifo {
    var buffer: array?<bv8>
    var maxSlots: uint8
    var slotSize: uint8
    var rIndex: uint8
    var wIndex: uint8
    var usedSlots: uint8
    var isInitialized: uint8
    const rSema: CosSema
    const wSema: CosSema
    ghost var head: nat

    /** The two semaphores are well formed and share nothing with each other or with the FIFO. */
    ghost predicate SemasValid()
      reads this`buffer, rSema, wSema, rSema.waiting, wSema.waiting, rSema.waiting.Repr, wSema.waiting.Repr
    {
      && rSema.Valid() && wSema.Valid() && rSema != wSema
      && rSema.waiting.Repr !! wSema.waiting.Repr
      && rSema !in wSema.waiting.Repr && wSema !in rSema.waiting.Repr
      && this !in rSema.waiting.Repr && this !in wSema.waiting.Repr
      && (buffer != null ==> buffer !in rSema.waiting.Repr && buffer !in wSema.waiting.Repr)
    }

    /** The ring the fields describe. */
    ghost function AsRing(): Ring
      reads this, buffer
      requires buffer != null
    {
      Ring(buffer[..], maxSlots, slotSize, head, usedSlots)
    }

    /**
     * An initialised FIFO with a buffer is a well-formed ring whose bytes fit
     * the 8-bit indices; the read index is the byte offset of the oldest
     * slot and the write index that of the slot after the newest.
     */
    ghost predicate RingValid()
      reads this, buffer
    {
      isInitialized != 0 && buffer != null ==> RingOk()
    }

    ghost predicate RingOk()
      reads this, buffer
      requires buffer != null
    {
        && RingInv(AsRing())
        && maxSlots * slotSize <= 0x100 && maxSlots <= 0x7F
        && rIndex == head * slotSize
        && wIndex == SlotOf(AsRing(), usedSlots) * slotSize
    }

    ghost predicate Valid()
      reads this, buffer, rSema, wSema, rSema.waiting, wSema.waiting, rSema.waiting.Repr, wSema.waiting.Repr
    {
      SemasValid() && RingValid()
    }

    /** A zero-initialised CosFifo_t variable: not initialised, no buffer. */
    constructor ()
      ensures Valid() && isInitialized == 0 && buffer == null
      ensures fresh(rSema.waiting.Repr) && fresh(wSema.waiting.Repr)
    {
      buffer := null;
      maxSlots, slotSize, rIndex, wIndex, usedSlots, isInitialized := 0, 0, 0, 0, 0, 0;
      head := 0;
      rSema := new CosSema();
      wSema := new CosSema();
    }

    /**
     * COS_FifoCreate: `granted` tells whether malloc granted the buffer of
     * `size * nSlots` bytes. Without it the buffer pointer becomes NULL and
     * 255 (the uint8_t -1) is returned; otherwise the FIFO is empty and
     * initialised, nothing is readable (rSema at 0) and `nSlots` slots are
     * free (wSema at nSlots). COS_SemCreate cannot fail.
     */
    method Create(size: uint8, nSlots: uint8, granted: bool) returns (r: uint8)
      requires Valid()
      requires 1 <= size && size * nSlots <= 0x100 && nSlots <= 0x7F
      modifies this, rSema, rSema.waiting, wSema, wSema.waiting
      ensures Valid()
      ensures !granted ==> r == 0xFF && buffer == null && isInitialized == old(isInitialized)
      ensures !granted ==> rSema.State() == old(rSema.State()) && wSema.State() == old(wSema.State())
      ensures !granted ==>
        && maxSlots == old(maxSlots) && slotSize == old(slotSize) && rIndex == old(rIndex)
        && wIndex == old(wIndex) && usedSlots == old(usedSlots) && head == old(head)
      ensures granted ==>
        && r == 0 && isInitialized == 1 && buffer != null && fresh(buffer)
        && maxSlots == nSlots && slotSize == size && rIndex == 0 && wIndex == 0
        && Contents(AsRing()) == []
        && rSema.State() == SemState(0, []) && wSema.State() == SemState(nSlots, [])
    {
      if !granted {
        buffer := null;
        return 0xFF;
      }
      NewRing(size, nSlots);
      CreateSemas(nSlots as int8);
      isInitialized := 1;
      r := 0;
    }

    /** The two COS_SemCreate calls of COS_FifoCreate: nothing to read, `nFree` slots to write. */
    method CreateSemas(nFree: int8)
      requires SemasValid()
      modifies rSema, rSema.waiting, wSema, wSema.waiting
      ensures SemasValid()
      ensures rSema.waiting.Repr == old(rSema.waiting.Repr) && wSema.waiting.Repr == old(wSema.waiting.Repr)
      ensures rSema.State() == SemState(0, []) && wSema.State() == SemState(nFree, [])
    {
      var _ := rSema.Create(0);
      var _ := wSema.Create(nFree);
    }

    /**
     * COS_FifoDestroy: 255 for a FIFO that is not initialised; otherwise the
     * buffer is freed, the FIFO is marked uninitialised and both waiting
     * lists are emptied (the counters stay), and 0 is returned.
     */
    method Destroy() returns (r: uint8)
      requires Valid()
      modifies this`buffer, this`isInitialized, rSema.waiting, wSema.waiting
      ensures Valid()
      ensures old(isInitialized) == 0 ==> r == 0xFF && unchanged(this)
      ensures old(isInitialized) == 0 ==> rSema.State() == old(rSema.State()) && wSema.State() == old(wSema.State())
      ensures old(isInitialized) != 0 ==>
        && r == 0 && buffer == null && isInitialized == 0
        && rSema.State() == SemState(old(rSema.count), []) && wSema.State() == SemState(old(wSema.count), [])
    {
      if isInitialized == 0 {
        return 0xFF;
      }
      if buffer != null {
        buffer := null;
      }
      isInitialized := 0;
      var _ := rSema.Destroy();
      var _ := wSema.Destroy();
      r := 0;
    }

    /** COS_FifoIsEmpty: -1 when not initialised, else 1 exactly when nothing is stored. */
    function IsEmpty(): (r: int8)
      reads this, buffer
      requires RingValid()
      ensures r == -1 <==> isInitialized == 0
      ensures isInitialized != 0 ==> (r == 1 <==> usedSlots == 0) && (r == 0 <==> usedSlots != 0)
      ensures isInitialized != 0 && buffer != null ==> (r == 1 <==> Contents(AsRing()) == [])
    {
      if isInitialized == 0 then -1
      else if usedSlots == 0 then 1
      else 0
    }

    /** COS_FifoIsFull: -1 when not initialised, else 1 exactly when every slot is in use. */
    function IsFull(): (r: int8)
      reads this, buffer
      requires RingValid()
      ensures r == -1 <==> isInitialized == 0
      ensures isInitialized != 0 ==> (r == 1 <==> usedSlots == maxSlots) && (r == 0 <==> usedSlots != maxSlots)
      ensures isInitialized != 0 && buffer != null ==> (r == 1 <==> |Contents(AsRing())| == maxSlots)
    {
      if isInitialized == 0 then -1
      else if usedSlots == maxSlots then 1
      else 0
    }

    /** COS_FifoGetUsedSlots: the number of stored elements. */
    function GetUsedSlots(): (n: uint8)
      reads this, buffer
      requires RingValid()
      ensures isInitialized != 0 && buffer != null ==> n == |Contents(AsRing())|
    {
      usedSlots
    }

    /** COS_FifoGetMaxSlots: the capacity in slots. */
    function GetMaxSlots(): (n: uint8)
      reads this, buffer
      requires RingValid()
      ensures isInitialized != 0 && buffer != null ==> |Contents(AsRing())| <= n && buffer.Length == n * slotSize
    {
      maxSlots
    }

    /** COS_FifoGetSlotSize: the size of every stored element. */
    function GetSlotSize(): (n: uint8)
      reads this, buffer
      requires RingValid()
      ensures isInitialized != 0 && buffer != null ==> forall e :: e in Contents(AsRing()) ==> |e| == n
    {
      slotSize
    }

    /**
     * _qWriteSingleSlot: -1 when not initialised; 0 when full, changing
     * nothing; otherwise the slot's bytes are copied in after the newest
     * element, the write index moves to the next slot, the count rises and
     * rSema is signalled, waking the reader that blocked last, and 1 is
     * returned.
     */
    method Write(heap: TaskHeap, data: seq<bv8>) returns (r: int8)
      requires Valid() && heap !in rSema.waiting.Repr && heap !in wSema.waiting.Repr
      requires isInitialized != 0 ==> buffer != null
      requires isInitialized != 0 && usedSlots < maxSlots ==>
        && |data| == slotSize && rSema.count < 0x7F
        && (rSema.waiting.tasks != [] ==> rSema.waiting.tasks[0] in heap.tasks)
      modifies this`wIndex, this`usedSlots, this`head, buffer, rSema, rSema.waiting.Repr, heap
      ensures Valid() && wSema.State() == old(wSema.State())
      ensures r == (if old(isInitialized) == 0 then -1 else if old(usedSlots) >= old(maxSlots) then 0 else 1)
      ensures r == -1 <==> old(isInitialized) == 0
      ensures r == 0 <==> old(isInitialized) != 0 && old(usedSlots) >= maxSlots
      ensures r != 1 ==> unchanged(this) && rSema.State() == old(rSema.State()) && heap.tasks == old(heap.tasks)
      ensures r != 1 && buffer != null ==> buffer[..] == old(buffer[..])
      ensures r == 1 ==> old(buffer) != null && old(isInitialized) != 0 && old(usedSlots) < old(maxSlots)
      ensures r == 1 ==>
        && AsRing() == RingWrite(old(AsRing()), data)
        && Contents(AsRing()) == old(Contents(AsRing())) + [data]
        && rSema.State() == SignalStep(old(rSema.State()))
      ensures r == 1 && Woken(old(rSema.State())).None? ==> heap.tasks == old(heap.tasks)
      ensures r == 1 && Woken(old(rSema.State())).Some? ==>
        var t := Woken(old(rSema.State())).value;
        heap.tasks == old(heap.tasks)[t := old(heap.tasks[t]).(state := Ready)]
    {
      if isInitialized == 0 {
        return -1;
      }
      if usedSlots >= maxSlots {
        return 0;
      }
      r := 1;
      PutSlot(data);
      var _ := rSema.Signal(heap);
    }

    /**
     * _qReadSingleSlot: -1 when not initialised; 0 when empty, changing
     * nothing; otherwise the bytes of the oldest slot are handed out, the
     * read index moves to the next slot, the count drops and wSema is
     * signalled, waking the writer that blocked last, and 1 is returned.
     */
    method Read(heap: TaskHeap) returns (r: int8, data: seq<bv8>)
      requires Valid() && heap !in rSema.waiting.Repr && heap !in wSema.waiting.Repr
      requires isInitialized != 0 ==> buffer != null
      requires isInitialized != 0 && usedSlots > 0 ==>
        && wSema.count < 0x7F
        && (wSema.waiting.tasks != [] ==> wSema.waiting.tasks[0] in heap.tasks)
      modifies this`rIndex, this`usedSlots, this`head, wSema, wSema.waiting.Repr, heap
      ensures Valid() && rSema.State() == old(rSema.State())
      ensures r == (if old(isInitialized) == 0 then -1 else if old(usedSlots) == 0 then 0 else 1)
      ensures buffer != null ==> buffer[..] == old(buffer[..])
      ensures r == -1 <==> old(isInitialized) == 0
      ensures r == 0 <==> old(isInitialized) != 0 && old(usedSlots) == 0
      ensures r != 1 ==> unchanged(this) && wSema.State() == old(wSema.State()) && heap.tasks == old(heap.tasks) && data == []
      ensures r == 1 ==> old(buffer) != null && old(isInitialized) != 0 && old(usedSlots) > 0
      ensures r == 1 ==>
        && AsRing() == RingPop(old(AsRing())) && data == RingFront(old(AsRing()))
        && [data] + Contents(AsRing()) == old(Contents(AsRing()))
        && wSema.State() == SignalStep(old(wSema.State()))
      ensures r == 1 && Woken(old(wSema.State())).None? ==> heap.tasks == old(heap.tasks)
      ensures r == 1 && Woken(old(wSema.State())).Some? ==>
        var t := Woken(old(wSema.State())).value;
        heap.tasks == old(heap.tasks)[t := old(heap.tasks[t]).(state := Ready)]
    {
      data := [];
      if isInitialized == 0 {
        return -1, data;
      }
      if usedSlots <= 0 {
        return 0, data;
      }
      r := 1;
      data := TakeSlot();
      var _ := wSema.Signal(heap);
    }

    /** The buffer and index assignments of COS_FifoCreate after a granted malloc. */
    method NewRing(size: uint8, nSlots: uint8)
      requires 1 <= size && size * nSlots <= 0x100 && nSlots <= 0x7F
      modifies this`buffer, this`maxSlots, this`slotSize, this`rIndex, this`wIndex, this`usedSlots, this`head
      ensures buffer != null && fresh(buffer) && RingOk() && AsRing() == Ring(buffer[..], nSlots, size, 0, 0)
      ensures maxSlots == nSlots && slotSize == size && rIndex == 0 && wIndex == 0 && usedSlots == 0
    {
      buffer := new bv8[size * nSlots];
      assert buffer.Length == nSlots * size;
      maxSlots := nSlots;
      slotSize := size;
      rIndex := 0;
      wIndex := 0;
      usedSlots := 0;
      head := 0;
    }

    /** The memcpy and index updates of _qWriteSingleSlot when a slot is free. */
    method PutSlot(data: seq<bv8>)
      requires RingValid() && isInitialized != 0 && buffer != null
      requires usedSlots < maxSlots && |data| == slotSize
      modifies buffer, this`wIndex, this`usedSlots
      ensures RingValid()
      ensures AsRing() == RingWrite(old(AsRing()), data)
      ensures Contents(AsRing()) == old(Contents(AsRing())) + [data]
    {
      ghost var q := AsRing();
      ghost var j := SlotOf(q, usedSlots);
      AdvanceNextSlot(j, slotSize, maxSlots);
      SlotFits(q, j);
      CopyIn(data);
      wIndex := (wIndex + slotSize) % 0x100;
      wIndex := wIndex % (maxSlots * slotSize);
      usedSlots := usedSlots + 1;
      RingWriteAppends(q, data);
    }

    /** memcpy(&buffer[wIndex], data, |data|). */
    method CopyIn(data: seq<bv8>)
      requires buffer != null && wIndex + |data| <= buffer.Length
      modifies buffer
      ensures buffer[..] == Splice(old(buffer[..]), wIndex, data)
    {
      forall i | 0 <= i < |data| {
        buffer[wIndex + i] := data[i];
      }
    }

    /** The memcpy and index updates of _qReadSingleSlot when a slot is filled. */
    method TakeSlot() returns (data: seq<bv8>)
      requires RingValid() && isInitialized != 0 && buffer != null && usedSlots > 0
      modifies this`rIndex, this`usedSlots, this`head
      ensures RingValid()
      ensures AsRing() == RingPop(old(AsRing())) && data == RingFront(old(AsRing()))
      ensures [data] + Contents(AsRing()) == old(Contents(AsRing()))
    {
      ghost var q := AsRing();
      AdvanceNextSlot(head, slotSize, maxSlots);
      SlotFits(q, head);
      data := buffer[rIndex .. rIndex + slotSize];
      assert data == RingFront(q);
      rIndex := (rIndex + slotSize) % 0x100;
      rIndex := rIndex % (maxSlots * slotSize);
      usedSlots := usedSlots - 1;
      head := NextSlot(head, maxSlots);
      RingPopFront(q);
    }

    /**
     * The first half of COS_FifoBlockingWriteSingleSlot: COS_SEM_WAIT on
     * wSema. The write itself (`Write`) follows when the task runs again.
     */
    method BlockingWriteWait(heap: TaskHeap, t: TaskId, line: uint16)
      requires Valid() && heap !in wSema.waiting.Repr && t in heap.tasks && wSema.count > -0x80
      modifies wSema, wSema.waiting, heap
      ensures Valid() && rSema.State() == old(rSema.State())
      ensures wSema.State() == WaitStep(old(wSema.State()), t)
      ensures heap.tasks == old(heap.tasks)[t := old(heap.tasks[t]).(
        lineCnt := line,
        state := if old(wSema.count) <= 0 then Blocked else old(heap.tasks[t].state))]
    {
      wSema.Wait(heap, t, line);
    }

    /**
     * The first half of COS_FifoBlockingReadSingleSlot: COS_SEM_WAIT on
     * rSema. The read itself (`Read`) follows when the task runs again.
     */
    method BlockingReadWait(heap: TaskHeap, t: TaskId, line: uint16)
      requires Valid() && heap !in rSema.waiting.Repr && t in heap.tasks && rSema.count > -0x80
      modifies rSema, rSema.waiting, heap
      ensures Valid() && wSema.State() == old(wSema.State())
      ensures rSema.State() == WaitStep(old(rSema.State()), t)
      ensures heap.tasks == old(heap.tasks)[t := old(heap.tasks[t]).(
        lineCnt := line,
        state := if old(rSema.count) <= 0 then Blocked else old(heap.tasks[t].state))]
    {
      rSema.Wait(heap, t, line);
    }
  }
}
