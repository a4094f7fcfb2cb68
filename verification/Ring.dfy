/**
 The data movement of the ring and the single-threaded effect of its calls: the copy
 loops over real arrays, and the single-producer enqueue and single-consumer dequeue
 with their return codes.
 */
module Ring {
  import opened Words

  function MaskOf(k: nat): nat { Pow2(k) - 1 }

  /** The slot of the i-th object of a transfer that starts at word `head`. */
  function Slot(k: nat, head: u32, i: nat): nat
  {
    And(Wrap(head + i), MaskOf(k))
  }

  lemma SlotIs(k: nat, head: u32, i: nat)
    requires k <= 27
    ensures Slot(k, head, i) == (head + i) % Pow2(k) < Pow2(k)
  {
    WrappedMask(head + i, k);
  }

  /** Storing the first n objects one position after the other. */
  ghost function Stored<T>(s: seq<T>, k: nat, head: u32, objs: seq<T>, n: nat): (r: seq<T>)
    requires k <= 27 && |s| == Pow2(k) && n <= |objs|
    ensures |r| == |s|
  {
    if n == 0 then s
    else
      SlotIs(k, head, n - 1);
      Stored(s, k, head, objs, n - 1)[Slot(k, head, n - 1) := objs[n - 1]]
  }

  /** The objects found at n positions from `head`. */
  ghost function Loaded<T>(s: seq<T>, k: nat, head: u32, n: nat): (r: seq<T>)
    requires k <= 27 && |s| == Pow2(k)
    ensures |r| == n
  {
    if n == 0 then []
    else
      SlotIs(k, head, n - 1);
      Loaded(s, k, head, n - 1) + [s[Slot(k, head, n - 1)]]
  }

  /** The first n entries of the table are loaded from the ring, the others are as they were. */
  ghost predicate Filled<T>(table: seq<T>, was: seq<T>, ring: seq<T>, k: nat, head: u32, n: nat)
    requires k <= 27 && |ring| == Pow2(k)
  {
    n <= |table| == |was| && table[..n] == Loaded(ring, k, head, n) && table[n..] == was[n..]
  }

  lemma DistinctSlots(k: nat, head: u32, i: nat, j: nat)
    requires k <= 27 && i != j && i < Pow2(k) && j < Pow2(k)
    ensures Slot(k, head, i) != Slot(k, head, j)
  {
    SlotIs(k, head, i);
    SlotIs(k, head, j);
    ModDistinct(head + i, head + j, Pow2(k));
  }

  /** Exactly the slots of the transfer are written, each with its own object. */
  lemma {:induction false} StoredAt<T>(s: seq<T>, k: nat, head: u32, objs: seq<T>, n: nat)
    requires k <= 27 && |s| == Pow2(k) && n <= |objs| && n <= Pow2(k)
    ensures forall i :: 0 <= i < n ==>
              Slot(k, head, i) < |s| && Stored(s, k, head, objs, n)[Slot(k, head, i)] == objs[i]
    ensures forall j :: 0 <= j < |s| && (forall i :: 0 <= i < n ==> Slot(k, head, i) != j) ==>
              Stored(s, k, head, objs, n)[j] == s[j]
  {
    if n == 0 {
    } else {
      StoredAt(s, k, head, objs, n - 1);
      SlotIs(k, head, n - 1);
      forall i | 0 <= i < n - 1
        ensures Slot(k, head, i) != Slot(k, head, n - 1)
      {
        DistinctSlots(k, head, i, n - 1);
      }
    }
  }

  lemma {:induction false} LoadedAt<T>(s: seq<T>, k: nat, head: u32, n: nat)
    requires k <= 27 && |s| == Pow2(k)
    ensures forall i :: 0 <= i < n ==>
              Slot(k, head, i) < |s| && Loaded(s, k, head, n)[i] == s[Slot(k, head, i)]
  {
    if n == 0 {
    } else {
      LoadedAt(s, k, head, n - 1);
      SlotIs(k, head, n - 1);
    }
  }

  /** Reading back what was stored gives the stored objects, at any head and across the wrap. */
  lemma StoreLoad<T>(s: seq<T>, k: nat, head: u32, objs: seq<T>, n: nat)
    requires k <= 27 && |s| == Pow2(k) && n <= |objs| && n <= Pow2(k)
    ensures Loaded(Stored(s, k, head, objs, n), k, head, n) == objs[..n]
  {
    StoredAt(s, k, head, objs, n);
    LoadedAt(Stored(s, k, head, objs, n), k, head, n);
  }

  /** The running index of the copy loops: first up to the end of the array, then from 0. */
  lemma RunningIndex(k: nat, head: u32, i: nat)
    requires k <= 27 && i <= Pow2(k)
    ensures var idx := And(head, MaskOf(k));
            && idx < Pow2(k)
            && (idx + i < Pow2(k) ==> Slot(k, head, i) == idx + i)
            && (Pow2(k) <= idx + i < 2 * Pow2(k) ==> Slot(k, head, i) == idx + i - Pow2(k))
  {
    var m, idx := Pow2(k), head % Pow2(k);
    AndMask(head, k);
    SlotIs(k, head, i);
    DivMod(head, m);
    if idx + i < m {
      ModUnique(head + i, m, head / m, idx + i);
    } else if idx + i < 2 * m {
      assert (head / m + 1) * m == (head / m) * m + m;
      ModUnique(head + i, m, head / m + 1, idx + i - m);
    }
  }

  /** ENQUEUE_PTRS: unrolled by four when the transfer stays clear of the end of the array. */
  method EnqueuePtrs<T>(k: nat, ring: array<T>, objs: seq<T>, head: u32, n: nat)
    requires k <= 27 && ring.Length == Pow2(k) && n < Pow2(k) && n <= |objs|
    modifies ring
    ensures ring[..] == Stored(old(ring[..]), k, head, objs, n)
  {
    RunningIndex(k, head, 0);
    if And(head, MaskOf(k)) + n < ring.Length {
      EnqueueUnrolled(k, ring, objs, head, n);
    } else {
      EnqueueWrapped(k, ring, objs, head, n);
    }
  }

  method EnqueueUnrolled<T>(k: nat, ring: array<T>, objs: seq<T>, head: u32, n: nat)
    requires k <= 27 && ring.Length == Pow2(k) && n < Pow2(k) && n <= |objs|
    requires And(head, MaskOf(k)) + n < Pow2(k)
    modifies ring
    ensures ring[..] == Stored(old(ring[..]), k, head, objs, n)
  {
    ghost var was := ring[..];
    var first, rest := And(head, MaskOf(k)), n % 4;
    var i, idx := EnqueueFours(k, ring, was, objs, head, first, n - rest, n / 4);
    EnqueueRest(k, ring, was, objs, head, first, i, idx, rest);
  }

  /** The unrolled loop, which stops at a multiple of four. */
  method EnqueueFours<T>(k: nat, ring: array<T>, ghost was: seq<T>, objs: seq<T>, ghost head: u32, first: nat,
                         m: nat, ghost q: nat)
    returns (i: nat, idx: nat)
    requires k <= 27 && ring.Length == Pow2(k) && m == 4 * q <= |objs| && was == ring[..]
    requires first == And(head, MaskOf(k)) && first + m < Pow2(k)
    modifies ring
    ensures i == m && idx == first + m && ring[..] == Stored(was, k, head, objs, m)
  {
    i, idx := 0, first;
    ghost var j := 0;
    while i < m
      invariant i == 4 * j && j <= q && idx == first + i
      invariant ring[..] == Stored(was, k, head, objs, i)
    {
      PutFour(k, ring, was, objs, head, first, i, idx);
      i, idx, j := i + 4, idx + 4, j + 1;
    }
  }

  /** The body of the unrolled loop. */
  method PutFour<T>(k: nat, ring: array<T>, ghost was: seq<T>, objs: seq<T>, ghost head: u32, ghost first: nat,
                    i: nat, idx: nat)
    requires k <= 27 && ring.Length == Pow2(k) == |was| && i + 4 <= |objs|
    requires first == And(head, MaskOf(k)) && idx == first + i && first + i + 4 <= Pow2(k)
    requires ring[..] == Stored(was, k, head, objs, i)
    modifies ring
    ensures ring[..] == Stored(was, k, head, objs, i + 4)
  {
    Put(k, ring, was, objs, head, first, i, idx);
    Put(k, ring, was, objs, head, first, i + 1, idx + 1);
    Put(k, ring, was, objs, head, first, i + 2, idx + 2);
    Put(k, ring, was, objs, head, first, i + 3, idx + 3);
  }

  /** The fall-through switch after the unrolled loop. */
  method EnqueueRest<T>(k: nat, ring: array<T>, ghost was: seq<T>, objs: seq<T>, ghost head: u32, ghost first: nat,
                        i0: nat, idx0: nat, rest: nat)
    requires k <= 27 && ring.Length == Pow2(k) == |was| && i0 + rest <= |objs| && rest < 4
    requires first == And(head, MaskOf(k)) && idx0 == first + i0 && first + i0 + rest < Pow2(k)
    requires ring[..] == Stored(was, k, head, objs, i0)
    modifies ring
    ensures ring[..] == Stored(was, k, head, objs, i0 + rest)
  {
    var i, idx := i0, idx0;
    if rest == 3 {
      Put(k, ring, was, objs, head, first, i, idx);
      i, idx := i + 1, idx + 1;
    }
    assert i + (if rest >= 2 then 2 else rest) == i0 + rest;
    if rest >= 2 {
      Put(k, ring, was, objs, head, first, i, idx);
      i, idx := i + 1, idx + 1;
    }
    assert i + (if rest >= 1 then 1 else 0) == i0 + rest;
    if rest >= 1 {
      Put(k, ring, was, objs, head, first, i, idx);
    }
  }

  method EnqueueWrapped<T>(k: nat, ring: array<T>, objs: seq<T>, head: u32, n: nat)
    requires k <= 27 && ring.Length == Pow2(k) && n < Pow2(k) && n <= |objs|
    requires And(head, MaskOf(k)) < Pow2(k) <= And(head, MaskOf(k)) + n
    modifies ring
    ensures ring[..] == Stored(old(ring[..]), k, head, objs, n)
  {
    ghost var was := ring[..];
    var size := ring.Length;
    var idx := And(head, MaskOf(k));
    ghost var first := idx;
    var i := 0;
    while idx < size
      invariant first <= idx <= size && idx == first + i
      invariant ring[..] == Stored(was, k, head, objs, i)
    {
      Put(k, ring, was, objs, head, first, i, idx);
      i, idx := i + 1, idx + 1;
    }
    idx := 0;
    while i < n
      invariant i <= n && 0 <= idx == first + i - size
      invariant ring[..] == Stored(was, k, head, objs, i)
    {
      Put(k, ring, was, objs, head, first, i, idx);
      i, idx := i + 1, idx + 1;
    }
  }

  /** One assignment of the loops: `ring[idx] = obj_table[i]`. */
  method Put<T>(k: nat, ring: array<T>, ghost was: seq<T>, objs: seq<T>, ghost head: u32, ghost first: nat, i: nat,
                idx: nat)
    requires k <= 27 && ring.Length == Pow2(k) == |was| && i < |objs| && i < Pow2(k)
    requires first == And(head, MaskOf(k)) && idx < Pow2(k) && (idx == first + i || idx == first + i - Pow2(k))
    requires ring[..] == Stored(was, k, head, objs, i)
    modifies ring
    ensures ring[..] == Stored(was, k, head, objs, i + 1)
  {
    RunningIndex(k, head, i);
    ring[idx] := objs[i];
    assert ring[..] == Stored(was, k, head, objs, i)[idx := objs[i]];
  }

  /** DEQUEUE_PTRS: the same loops in the other direction. */
  method DequeuePtrs<T>(k: nat, ring: array<T>, table: array<T>, head: u32, n: nat)
    requires k <= 27 && ring.Length == Pow2(k) && n < Pow2(k) && n <= table.Length && ring != table
    modifies table
    ensures Filled(table[..], old(table[..]), ring[..], k, head, n)
  {
    RunningIndex(k, head, 0);
    if And(head, MaskOf(k)) + n < ring.Length {
      DequeueUnrolled(k, ring, table, head, n);
    } else {
      DequeueWrapped(k, ring, table, head, n);
    }
  }

  method DequeueUnrolled<T>(k: nat, ring: array<T>, table: array<T>, head: u32, n: nat)
    requires k <= 27 && ring.Length == Pow2(k) && n < Pow2(k) && n <= table.Length && ring != table
    requires And(head, MaskOf(k)) + n < Pow2(k)
    modifies table
    ensures Filled(table[..], old(table[..]), ring[..], k, head, n)
  {
    ghost var was := table[..];
    var first, rest := And(head, MaskOf(k)), n % 4;
    var i, idx := DequeueFours(k, ring, table, was, head, first, n - rest, n / 4);
    DequeueRest(k, ring, table, was, head, first, i, idx, rest);
  }

  /** The unrolled loop, which stops at a multiple of four. */
  method DequeueFours<T>(k: nat, ring: array<T>, table: array<T>, ghost was: seq<T>, ghost head: u32, first: nat,
                         m: nat, ghost q: nat)
    returns (i: nat, idx: nat)
    requires k <= 27 && ring.Length == Pow2(k) && m == 4 * q <= table.Length && ring != table && was == table[..]
    requires first == And(head, MaskOf(k)) && first + m < Pow2(k)
    modifies table
    ensures i == m && idx == first + m && Filled(table[..], was, ring[..], k, head, m)
  {
    i, idx := 0, first;
    ghost var j := 0;
    while i < m
      invariant i == 4 * j && j <= q && idx == first + i
      invariant Filled(table[..], was, ring[..], k, head, i)
    {
      GetFour(k, ring, table, was, head, first, i, idx);
      i, idx, j := i + 4, idx + 4, j + 1;
    }
  }

  /** The fall-through switch after the unrolled loop. */
  method DequeueRest<T>(k: nat, ring: array<T>, table: array<T>, ghost was: seq<T>, ghost head: u32, ghost first: nat,
                        i0: nat, idx0: nat, rest: nat)
    requires k <= 27 && ring.Length == Pow2(k) && i0 + rest <= table.Length == |was| && ring != table && rest < 4
    requires first == And(head, MaskOf(k)) && idx0 == first + i0 && first + i0 + rest < Pow2(k)
    requires Filled(table[..], was, ring[..], k, head, i0)
    modifies table
    ensures Filled(table[..], was, ring[..], k, head, i0 + rest)
  {
    var i, idx := i0, idx0;
    if rest == 3 {
      Get(k, ring, table, was, head, first, i, idx);
      i, idx := i + 1, idx + 1;
    }
    if rest >= 2 {
      Get(k, ring, table, was, head, first, i, idx);
      i, idx := i + 1, idx + 1;
    }
    if rest >= 1 {
      Get(k, ring, table, was, head, first, i, idx);
      i, idx := i + 1, idx + 1;
    }
  }

  method DequeueWrapped<T>(k: nat, ring: array<T>, table: array<T>, head: u32, n: nat)
    requires k <= 27 && ring.Length == Pow2(k) && n < Pow2(k) && n <= table.Length && ring != table
    requires And(head, MaskOf(k)) < Pow2(k) <= And(head, MaskOf(k)) + n
    modifies table
    ensures Filled(table[..], old(table[..]), ring[..], k, head, n)
  {
    ghost var was := table[..];
    var size := ring.Length;
    var idx := And(head, MaskOf(k));
    ghost var first := idx;
    var i := 0;
    while idx < size
      invariant first <= idx <= size && idx == first + i
      invariant Filled(table[..], was, ring[..], k, head, i)
    {
      Get(k, ring, table, was, head, first, i, idx);
      i, idx := i + 1, idx + 1;
    }
    idx := 0;
    while i < n
      invariant i <= n && 0 <= idx == first + i - size
      invariant Filled(table[..], was, ring[..], k, head, i)
    {
      Get(k, ring, table, was, head, first, i, idx);
      i, idx := i + 1, idx + 1;
    }
  }

  /** The body of the unrolled loop. */
  method GetFour<T>(k: nat, ring: array<T>, table: array<T>, ghost was: seq<T>, ghost head: u32, ghost first: nat,
                    i: nat, idx: nat)
    requires k <= 27 && ring.Length == Pow2(k) && i + 4 <= table.Length == |was| && ring != table
    requires first == And(head, MaskOf(k)) && idx == first + i && idx + 4 <= Pow2(k)
    requires Filled(table[..], was, ring[..], k, head, i)
    modifies table
    ensures Filled(table[..], was, ring[..], k, head, i + 4)
  {
    Get(k, ring, table, was, head, first, i, idx);
    Get(k, ring, table, was, head, first, i + 1, idx + 1);
    Get(k, ring, table, was, head, first, i + 2, idx + 2);
    Get(k, ring, table, was, head, first, i + 3, idx + 3);
  }

  /** One assignment of the loops: `obj_table[i] = ring[idx]`. */
  method Get<T>(k: nat, ring: array<T>, table: array<T>, ghost was: seq<T>, ghost head: u32, ghost first: nat, i: nat,
                idx: nat)
    requires k <= 27 && ring.Length == Pow2(k) && i < table.Length == |was| && i < Pow2(k) && ring != table
    requires first == And(head, MaskOf(k)) && idx < Pow2(k) && (idx == first + i || idx == first + i - Pow2(k))
    requires Filled(table[..], was, ring[..], k, head, i)
    modifies table
    ensures Filled(table[..], was, ring[..], k, head, i + 1)
  {
    RunningIndex(k, head, i);
    ghost var t := table[..];
    table[i] := ring[idx];
    assert table[..] == t[i := ring[idx]];
    assert table[..][..i + 1] == t[..i] + [ring[idx]];
    assert table[..][i + 1..] == t[i..][1..] == was[i..][1..] == was[i + 1..];
  }

  // ---------------------------------------------------------------- whole calls, one caller per side

  const ENOBUFS: int := 105
  const EDQUOT: int := 122
  const ENOENT: int := 2
  const EINVAL: int := 22

  /** (int)(n | ODPH_RING_QUOT_EXCEED): bit 31 set, read as a signed 32-bit integer. */
  function QuotaExceeded(n: nat): int { n - 0x8000_0000 }

  lemma SameSlot(k: nat, head: u32, n: nat, i: nat)
    ensures Slot(k, Wrap(head + n), i) == Slot(k, head, n + i)
  {
    WrapPlus(head + n, i);
  }

  /** No slot behind n objects is the slot of one of them. */
  lemma BehindContents(k: nat, front: u32, n: nat, back: u32, m: nat, i: nat)
    requires k <= 27 && n + m < Pow2(k) && i < n && back == Wrap(front + n)
    ensures forall j :: 0 <= j < m ==> Slot(k, back, j) != Slot(k, front, i)
  {
    forall j | 0 <= j < m
      ensures Slot(k, back, j) != Slot(k, front, i)
    {
      SameSlot(k, front, n, j);
      DistinctSlots(k, front, n + j, i);
    }
  }

  /** Storing behind the n objects already there appends to what is loaded from the front. */
  lemma Append<T>(s: seq<T>, k: nat, front: u32, n: nat, objs: seq<T>, m: nat)
    requires k <= 27 && |s| == Pow2(k) && m <= |objs| && n + m < Pow2(k)
    ensures Loaded(Stored(s, k, Wrap(front + n), objs, m), k, front, n + m) == Loaded(s, k, front, n) + objs[..m]
  {
    var back := Wrap(front + n);
    var s' := Stored(s, k, back, objs, m);
    StoredAt(s, k, back, objs, m);
    LoadedAt(s, k, front, n);
    LoadedAt(s', k, front, n + m);
    forall i | 0 <= i < n
      ensures s'[Slot(k, front, i)] == s[Slot(k, front, i)]
    {
      BehindContents(k, front, n, back, m, i);
    }
    forall i | 0 <= i < n + m
      ensures Loaded(s', k, front, n + m)[i] == (Loaded(s, k, front, n) + objs[..m])[i]
    {
      if i >= n { SameSlot(k, front, n, i - n); }
    }
  }

  /** Skipping m objects at the front leaves the others in order. */
  lemma Drop<T>(s: seq<T>, k: nat, front: u32, n: nat, m: nat)
    requires k <= 27 && |s| == Pow2(k) && m <= n
    ensures Loaded(s, k, front, n)[..m] == Loaded(s, k, front, m)
    ensures Loaded(s, k, front, n)[m..] == Loaded(s, k, Wrap(front + m), n - m)
  {
    LoadedAt(s, k, front, n);
    LoadedAt(s, k, front, m);
    LoadedAt(s, k, Wrap(front + m), n - m);
    forall i | 0 <= i < n - m
      ensures Loaded(s, k, front, n)[m..][i] == Loaded(s, k, Wrap(front + m), n - m)[i]
    {
      SameSlot(k, front, m, i);
    }
  }

  /** The 32-bit differences of the calls, exact however often the counters have wrapped. */
  lemma RoomExact(k: nat, front: u32, n: nat)
    requires k <= 27 && n < Pow2(k)
    ensures Wrap(MaskOf(k) + front - Wrap(front + n)) == MaskOf(k) - n
    ensures Wrap(Wrap(front + n) - front) == n
  {
    var size := Pow2(k);
    assert size < U32 by { Pow2Small(); Pow2Monotone(k, 27); }
    RoomWithin(size - 1, front, n);
  }

  lemma RoomWithin(mask: nat, front: u32, n: nat)
    requires n <= mask < U32
    ensures Wrap(mask + front - Wrap(front + n)) == mask - n
    ensures Wrap(Wrap(front + n) - front) == n
  {
    assert Wrap(front) == front;
    assert Wrap(mask + Wrap(front) - Wrap(front + n)) == mask - n by {
      ExactDifference(mask, front, front + n);
    }
    assert Wrap(Wrap(front + n) - Wrap(front)) == n by {
      ExactDifference(0, front + n, front);
    }
  }

  lemma HeadAdvanced(front: u32, len: nat, n: nat)
    ensures Wrap(Wrap(front + len) + n) == Wrap(front + (len + n))
  {
    WrapPlus(front + len, n);
  }

  class RingBuffer<T> {
    const k: nat
    const slots: array<T>
    var prodHead: u32
    var prodTail: u32
    var consHead: u32
    var consTail: u32
    var watermark: nat
    ghost var contents: seq<T>

    ghost predicate Valid()
      reads this, slots
    {
      && k <= 27 && slots.Length == Pow2(k)
      && prodHead == prodTail == Wrap(consHead + |contents|)
      && consHead == consTail
      && |contents| < Pow2(k)
      && contents == Loaded(slots[..], k, consHead, |contents|)
    }

    /** Empty, with water marking disabled. */
    constructor (k: nat, memory: array<T>)
      requires k <= 27 && memory.Length == Pow2(k)
      ensures Valid() && contents == [] && this.k == k && slots == memory && watermark == Pow2(k)
    {
      this.k, slots, watermark, contents := k, memory, Pow2(k), [];
      prodHead, prodTail, consHead, consTail := 0, 0, 0, 0;
    }

    method SetWaterMark(count: nat) returns (ret: int)
      requires Valid()
      modifies this`watermark
      ensures Valid()
      ensures ret == if count >= Pow2(k) then -EINVAL else 0
      ensures watermark == if count >= Pow2(k) then old(watermark) else if count == 0 then Pow2(k) else count
    {
      if count >= slots.Length { return -EINVAL; }
      watermark := if count == 0 then slots.Length else count;
      return 0;
    }

    /** __odph_ring_sp_do_enqueue */
    method SpDoEnqueue(objs: seq<T>, fixed: bool) returns (ret: int, ghost m: nat)
      requires Valid()
      modifies this, slots
      ensures Valid() && consHead == old(consHead) && watermark == old(watermark)
      ensures m == var room := MaskOf(k) - |old(contents)|;
                   if |objs| <= room then |objs| else if fixed then 0 else room
      ensures contents == old(contents) + objs[..m]
      ensures fixed && m < |objs| ==> ret == -ENOBUFS
      ensures !fixed && m < |objs| && m == 0 ==> ret == 0
      ensures m == |objs| || (!fixed && m > 0) ==>
                ret == if |contents| >= watermark then (if fixed then -EDQUOT else QuotaExceeded(m))
                       else (if fixed then 0 else m)
    {
      var n := |objs|;
      var mask := slots.Length - 1;
      var free := Wrap(mask + consTail - prodHead);
      RoomExact(k, consHead, |contents|);
      if n > free {
        if fixed { return -ENOBUFS, 0; }
        if free == 0 { return 0, 0; }
        n := free;
      }
      m := n;
      Store(objs, n);
      if mask + 1 - free + n > watermark {
        ret := if fixed then -EDQUOT else QuotaExceeded(n);
      } else {
        ret := if fixed then 0 else n;
      }
    }

    /** Move the head, copy, move the tail. */
    method Store(objs: seq<T>, n: nat)
      requires Valid() && n <= |objs| && |contents| + n < Pow2(k)
      modifies this, slots
      ensures Valid() && consHead == old(consHead) && watermark == old(watermark)
      ensures contents == old(contents) + objs[..n]
    {
      var head := prodHead;
      var next := Wrap(head + n);
      ghost var len := |contents|;
      HeadAdvanced(consHead, len, n);
      prodHead := next;
      CopyIn(objs, n, head, consHead, len);
      prodTail := next;
      contents := contents + objs[..n];
    }

    /** The copy behind the stored objects. */
    method CopyIn(objs: seq<T>, n: nat, head: u32, ghost front: u32, ghost len: nat)
      requires k <= 27 && slots.Length == Pow2(k) && n <= |objs| && len + n < Pow2(k) && head == Wrap(front + len)
      modifies slots
      ensures Loaded(slots[..], k, front, len + n) == Loaded(old(slots[..]), k, front, len) + objs[..n]
    {
      Append(slots[..], k, front, len, objs, n);
      EnqueuePtrs(k, slots, objs, head, n);
    }

    /** __odph_ring_sc_do_dequeue */
    method ScDoDequeue(table: array<T>, n: nat, fixed: bool) returns (ret: int, ghost m: nat)
      requires Valid() && n <= table.Length && table != slots
      modifies this, table
      ensures Valid() && watermark == old(watermark)
      ensures m == if n <= |old(contents)| then n else if fixed then 0 else |old(contents)|
      ensures m <= table.Length && table[..m] == old(contents)[..m] && table[m..] == old(table[m..])
      ensures contents == old(contents)[m..]
      ensures ret == if fixed then (if m < n then -ENOENT else 0) else m
    {
      var want := n;
      var entries := Wrap(prodTail - consHead);
      RoomExact(k, consHead, |contents|);
      if want > entries {
        if fixed { return -ENOENT, 0; }
        if entries == 0 { return 0, 0; }
        want := entries;
      }
      m := want;
      Load(table, want);
      ret := if fixed then 0 else want;
    }

    method Load(table: array<T>, n: nat)
      requires Valid() && n <= table.Length && n <= |contents| && table != slots
      modifies this, table
      ensures Valid() && watermark == old(watermark)
      ensures table[..n] == old(contents)[..n] && table[n..] == old(table[n..])
      ensures contents == old(contents)[n..]
    {
      var head := consHead;
      var next := Wrap(head + n);
      HeadAdvanced(head, n, |contents| - n);
      consHead := next;
      Drop(slots[..], k, head, |contents|, n);
      CopyOut(table, n, head);
      consTail := next;
      contents := contents[n..];
    }

    method CopyOut(table: array<T>, n: nat, head: u32)
      requires k <= 27 && slots.Length == Pow2(k) && n < Pow2(k) && n <= table.Length && table != slots
      modifies table
      ensures table[..n] == Loaded(slots[..], k, head, n) && table[n..] == old(table[n..])
    {
      ghost var was := table[..];
      DequeuePtrs(k, slots, table, head, n);
      assert table[..n] == table[..][..n] && table[n..] == table[..][n..] == was[n..];
    }
  }
}
