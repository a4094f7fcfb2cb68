/**
 What the invariant of the ring protocol means for its callers, and what the observers and
 the check at creation tell.
 */
module RingTheorems {
  import opened Words
  import opened RingProtocol
  import Ring

  // ---------------------------------------------------------------- every run

  /** What the ring needs from its users; a ring of one slot never holds anything and needs nothing. */
  ghost predicate Safe(c: Config, gap: nat)
  {
    c.k == 0 || Careful(c, gap)
  }

  /**
   In every state of every run: the counters are ordered, the words are the positions
   modulo 2^32, and the objects returned by dequeues are the first objects reserved by
   enqueues, in reservation order, none lost, repeated or read early.
   */
  lemma RingSafety<T(!new)>(c: Config, gap: nat, run: seq<State<T>>, i: nat)
    requires c.Valid() && Safe(c, gap) && IsRun(c, gap, run) && i < |run|
    ensures Ordered(c, run[i]) && Tracks(run[i].prod) && Tracks(run[i].cons)
    ensures run[i].delivered <= run[i].log && |run[i].delivered| == run[i].cons.tl
    ensures Covered(run[i], Producer) && Covered(run[i], Consumer)
  {
    assert IsRun(c, gap, run[..i + 1]);
    if c.k == 0 {
      StillRun(c, gap, run[..i + 1]);
    } else {
      RunInv(c, gap, run[..i + 1]);
    }
  }

  /** A dequeue call hands out exactly the objects reserved at its positions. */
  lemma DequeueReturns<T>(c: Config, s: State<T>, t: nat)
    requires c.Valid() && Inv(c, s) && t < |s.procs| && Enabled(c, s, t, Publish) && s.procs[t].role.Consumer?
    ensures s.procs[t].start == s.cons.tl == |s.delivered| && s.cons.tl + s.procs[t].n <= s.prod.tl <= |s.log|
    ensures s.procs[t].table == s.log[s.cons.tl..s.cons.tl + s.procs[t].n]
    ensures Apply(c, s, t, Publish).delivered == s.log[..s.cons.tl + s.procs[t].n]
  {
    assert ProcOk(c, s, t, s.procs[t]);
    PublishStep(c, s, t);
  }

  /** No slot is ever in the hands of two threads, whatever their roles. */
  lemma NoSharedSlot<T>(c: Config, s: State<T>, t: nat, u: nat, i: nat, j: nat)
    requires c.Valid() && Inv(c, s) && t < |s.procs| && u < |s.procs| && t != u
    requires s.procs[t].Copying? || s.procs[t].Publishing?
    requires s.procs[u].Copying? || s.procs[u].Publishing?
    requires i < s.procs[t].n && j < s.procs[u].n
    ensures Slot(c, s.procs[t].head, i) != Slot(c, s.procs[u].head, j)
  {
    var p, q := s.procs[t], s.procs[u];
    var a, b := p.start + i, q.start + j;
    InWindow(c, s, t, i);
    InWindow(c, s, u, j);
    assert a != b;
    SlotOfPosition(c, p, i);
    SlotOfPosition(c, q, j);
    ModDistinct(a, b, c.Size());
  }

  lemma InWindow<T>(c: Config, s: State<T>, t: nat, i: nat)
    requires Inv(c, s) && t < |s.procs| && (s.procs[t].Copying? || s.procs[t].Publishing?) && i < s.procs[t].n
    ensures s.cons.tl <= s.procs[t].start + i < s.prod.hd <= s.cons.tl + c.Mask()
    ensures s.procs[t].role.Consumer? ==> s.procs[t].start + i < s.prod.tl
    ensures s.procs[t].role.Producer? ==> s.prod.tl <= s.procs[t].start + i
    ensures s.procs[t].start + i < |s.Of(s.procs[t].role).owner|
    ensures s.Of(s.procs[t].role).owner[s.procs[t].start + i] == t
    ensures s.procs[t].head == Wrap(s.procs[t].start)
  {
    assert ProcOk(c, s, t, s.procs[t]);
  }

  /**
   A refusal is honest: when the opposite tail was loaded, fewer objects than asked for
   were really available, and none at all if the call accepts any number.
   */
  ghost predicate Honest<T>(p: Proc<T>)
    requires p.TailRead?
  {
    0 <= p.room < p.max && (!p.fixed ==> p.room == 0)
  }

  /** The opposite tail was loaded at most `gap` positions ahead of the head loaded before it. */
  ghost predicate Close<T>(c: Config, gap: nat, p: Proc<T>)
    requires p.TailRead?
  {
    c.Lead(p.role) + p.opos - p.hpos <= gap
  }

  lemma RefusalHonest<T>(c: Config, s: State<T>, t: nat)
    requires c.Valid() && Inv(c, s) && t < |s.procs| && Enabled(c, s, t, Refuse)
    requires c.Single(s.procs[t].role) || Close(c, U32 - 1, s.procs[t])
    ensures Honest(s.procs[t])
  {
    var p := s.procs[t];
    assert ProcOk(c, s, t, p);
    MaskBound(c);
    ExactDifference(c.Lead(p.role), p.opos, p.hpos);
  }

  /**
   The slot steps of one thread, taken together, are the copy loop of the source: a
   producer leaves the slots as the enqueue loop does, a consumer has read what the
   dequeue loop reads.
   */
  ghost function AfterCopies<T>(c: Config, s: State<T>, t: nat, m: nat): (r: State<T>)
    requires c.Valid() && t < |s.procs| && |s.slots| == c.Size()
    requires s.procs[t].Copying? && s.procs[t].done == 0 && m <= s.procs[t].n
    requires if s.procs[t].role.Producer? then |s.procs[t].table| == s.procs[t].n else s.procs[t].table == []
    ensures |r.procs| == |s.procs| && r.procs == s.procs[t := r.procs[t]] && r.procs[t].Copying? && r.procs[t].done == m
    ensures s.procs[t].role.Producer? ==>
              r.procs[t] == s.procs[t].(done := m) &&
              r.slots == Ring.Stored(s.slots, c.k, s.procs[t].head, s.procs[t].table, m)
    ensures s.procs[t].role.Consumer? ==>
              r.slots == s.slots &&
              r.procs[t] == s.procs[t].(done := m, table := Ring.Loaded(s.slots, c.k, s.procs[t].head, m))
  {
    if m == 0 then s else Apply(c, AfterCopies(c, s, t, m - 1), t, Copy)
  }

  /** A side with reservations in progress is never stuck: the oldest one can move. */
  lemma OldestCanMove<T>(c: Config, s: State<T>, r: Role)
    requires c.Valid() && Inv(c, s) && s.Of(r).tl < s.Of(r).hd
    ensures s.Of(r).owner[s.Of(r).tl] < |s.procs|
    ensures exists a :: (a == Copy || a == SeeTail || a == Publish) && Enabled(c, s, s.Of(r).owner[s.Of(r).tl], a)
  {
    var d := s.Of(r);
    var t := d.owner[d.tl];
    var p := s.procs[t];
    assert ProcOk(c, s, t, p);
    if p.Publishing? {
      assert Enabled(c, s, t, Publish);
    } else if p.done < p.n {
      assert Enabled(c, s, t, Copy);
    } else {
      assert Enabled(c, s, t, SeeTail);
    }
  }

  // ---------------------------------------------------------------- the observers

  /** odph_ring_count */
  function Count<T>(c: Config, s: State<T>): nat { And(Wrap(s.prod.tail - s.cons.tail), c.Mask()) }

  /** odph_ring_free_count */
  function FreeCount<T>(c: Config, s: State<T>): nat { And(Wrap(s.cons.tail - s.prod.tail - 1), c.Mask()) }

  /** odph_ring_full */
  predicate Full<T>(c: Config, s: State<T>) { And(Wrap(s.cons.tail - s.prod.tail - 1), c.Mask()) == 0 }

  /** odph_ring_empty */
  predicate Empty<T>(c: Config, s: State<T>) { s.cons.tail == s.prod.tail }

  /** The observers agree with the positions and with each other across counter wraps. */
  lemma ObserversExact<T>(c: Config, s: State<T>)
    requires c.Valid() && Inv(c, s)
    ensures Count(c, s) == s.prod.tl - s.cons.tl
    ensures Count(c, s) + FreeCount(c, s) == c.Mask()
    ensures Full(c, s) <==> s.prod.tl == s.cons.tl + c.Mask()
    ensures Empty(c, s) <==> s.prod.tl == s.cons.tl
  {
    var n := s.prod.tl - s.cons.tl;
    MaskBound(c);
    MaskedDifference(c, s.prod.tl, s.cons.tl, 0);
    MaskedDifference(c, s.cons.tl, s.prod.tl, 1);
    ModUnique(n, c.Size(), 0, n);
    ModUnique(-1 - n, c.Size(), -1, c.Mask() - n);
    if Empty(c, s) {
      ModInjective(s.cons.tl, s.prod.tl, U32);
    }
  }

  lemma MaskedDifference(c: Config, a: nat, b: nat, d: nat)
    requires c.Valid()
    ensures And(Wrap(Wrap(a) - Wrap(b) - d), c.Mask()) == (a - b - d) % c.Size()
  {
    WrapArith(0 - d, a, b);
    var x := Wrap(a - b - d);
    AndMask(x, c.k);
    Pow2Small();
    Pow2Add(32 - c.k, c.k);
    ModOfMultiple(a - b - d, Pow2(32 - c.k), c.Size());
  }

  // ---------------------------------------------------------------- creation

  /** The size check of odph_ring_create. */
  predicate CreateAccepts(count: u32)
  {
    And(Wrap(count - 1), count) == 0 && count <= 0x0fffffff
  }

  /**
   The sizes the check lets through are the powers of two up to 2^27, and also zero,
   for which there is no ring: a mask of 2^32 - 1 over no slots.
   */
  lemma CreateAcceptsExactly(count: u32)
    ensures CreateAccepts(count) <==> count == 0 || exists k: nat :: k <= 27 && Pow2(k) == count
  {
    if count > 0 {
      assert Wrap(count - 1) == count - 1;
      PowerTest(count);
      if k: nat :| Pow2(k) == count {
        Pow2Bound(k);
        assert CreateAccepts(count) <==> k <= 27;
        forall j: nat | Pow2(j) == count
          ensures CreateAccepts(count) <==> j <= 27
        {
          Pow2Bound(j);
        }
      }
    }
  }

  lemma Pow2Bound(k: nat)
    ensures Pow2(k) <= 0x0fffffff <==> k <= 27
  {
    Pow2Small();
    Pow2Monotone(28, k);
    Pow2Monotone(k, 27);
  }
}
