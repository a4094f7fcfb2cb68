/**
 What the ring needs from its users, exactly.  An empty request, or a swap against a head
 that came round by 2^32 positions since it was loaded, breaks a ring that has a side with
 several users; rings with one user per side, and rings of one slot, stand both.
 */
module RingLimits {
  import opened Sequences
  import opened Words
  import opened RingProtocol
  import opened RingTheorems

  /** At least two slots, and a side with several users. */
  ghost predicate Shared(c: Config)
  {
    c.Valid() && c.k >= 1 && !(c.spEnq && c.scDeq)
  }

  lemma Extend<T(!new)>(c: Config, gap: nat, run: seq<State<T>>, t: nat, a: Action<T>) returns (longer: seq<State<T>>)
    requires c.k <= 32 && IsRun(c, gap, run) && t < |Last(run).procs|
    requires Enabled(c, Last(run), t, a) && Timely(c, gap, Last(run), t, a)
    ensures IsRun(c, gap, longer) && Last(longer) == Apply(c, Last(run), t, a)
  {
    var s := Apply(c, Last(run), t, a);
    assert Next(c, gap, Last(run), s);
    longer := run + [s];
    forall i | 0 <= i < |longer| - 1
      ensures Next(c, gap, longer[i], longer[i + 1])
    {
      if i < |run| - 1 {
        assert longer[i] == run[i] && longer[i + 1] == run[i + 1];
      }
    }
  }

  /** Longer gaps allow more runs. */
  lemma Widen<T(!new)>(c: Config, gap: nat, wide: nat, run: seq<State<T>>)
    requires c.k <= 32 && IsRun(c, gap, run) && gap <= wide
    ensures IsRun(c, wide, run)
  {
    forall i | 0 <= i < |run| - 1
      ensures Next(c, wide, run[i], run[i + 1])
    {
      var s, s' := run[i], run[i + 1];
      assert Next(c, gap, s, s');
      var t: nat, a :| t < |s.procs| && Enabled(c, s, t, a) && Timely(c, gap, s, t, a) && s' == Apply(c, s, t, a);
      assert Timely(c, wide, s, t, a);
    }
  }

  /** Thread 0 is parked in `a`, thread 1 is idle, everything up to p is enqueued and up to q dequeued. */
  ghost predicate Calm<T>(c: Config, s: State<T>, a: Proc<T>, p: nat, q: nat)
  {
    && s.prod.hd == s.prod.tl == p && s.prod.head == s.prod.tail == Wrap(p)
    && s.cons.hd == s.cons.tl == q && s.cons.head == s.cons.tail == Wrap(q)
    && |s.slots| == c.Size() && s.procs == [a, Idle]
  }

  /** Thread 1 may use side r. */
  predicate Open<T>(c: Config, a: Proc<T>, r: Role)
  {
    c.Single(r) ==> !Engaged(a, r)
  }

  lemma SizeFacts(c: Config)
    requires c.Valid() && c.k >= 1
    ensures 1 <= c.Mask() < 0x800_0000
  {
    MaskBound(c);
    assert Pow2(c.k) == 2 * Pow2(c.k - 1);
  }

  /** Thread t enters a call and loads both counters. */
  lemma LoadBoth<T(!new)>(c: Config, gap: nat, run: seq<State<T>>, t: nat, r: Role, table: seq<T>, n: nat)
    returns (longer: seq<State<T>>)
    requires c.k <= 32 && IsRun(c, gap, run) && t < |Last(run).procs|
    requires Enabled(c, Last(run), t, Begin(r, n, true, table))
    ensures IsRun(c, gap, longer)
    ensures var s := Last(run);
            Last(longer) == s.(procs := s.procs[t :=
              TailRead(r, n, true, table, s.Of(r).head, s.Of(r).hd, s.Opp(r).tail, s.Opp(r).tl,
                       c.Lead(r) + s.Opp(r).tl - s.Of(r).hd)])
  {
    longer := Extend(c, gap, run, t, Begin(r, n, true, table));
    longer := Extend(c, gap, longer, t, LoadHead);
    longer := Extend(c, gap, longer, t, LoadOpposite);
  }

  /** Thread 1 enters a call and reserves n positions. */
  lemma ReserveSome<T(!new)>(c: Config, gap: nat, run: seq<State<T>>, a: Proc<T>, p: nat, q: nat, r: Role,
                             table: seq<T>, n: nat)
    returns (longer: seq<State<T>>)
    requires c.Valid() && c.k >= 1 && IsRun(c, gap, run) && Calm(c, Last(run), a, p, q) && Open(c, a, r) && n >= 1
    requires if r.Producer? then |table| == n && p + n <= q + c.Mask() && q <= p
             else table == [] && q + n <= p <= q + c.Mask()
    ensures IsRun(c, gap, longer)
    ensures Last(longer).procs ==
            [a, Copying(r, n, if r.Producer? then table else [], Last(run).Of(r).head, Last(run).Of(r).hd, 0)]
    ensures Last(longer).Of(r).hd == Last(run).Of(r).hd + n && Last(longer).Of(r).head == Wrap(Last(run).Of(r).hd + n)
    ensures Last(longer).Of(r).tl == Last(run).Of(r).tl && Last(longer).Of(r).tail == Last(run).Of(r).tail
    ensures Last(longer).Opp(r) == Last(run).Opp(r) && |Last(longer).slots| == c.Size()
  {
    var s := Last(run);
    SizeFacts(c);
    longer := LoadBoth(c, gap, run, 1, r, table, n);
    ExactDifference(c.Lead(r), s.Opp(r).tl, s.Of(r).hd);
    assert Granted(c, Last(longer).procs[1]) == n;
    longer := Extend(c, gap, longer, 1, Reserve);
    WrapPlus(s.Of(r).hd, n);
    if r.Producer? { assert table[..n] == table; }
  }

  /** Thread 1 moves one object through its side of the ring. */
  lemma MoveOne<T(!new)>(c: Config, gap: nat, run: seq<State<T>>, a: Proc<T>, p: nat, q: nat, r: Role, x: T)
    returns (longer: seq<State<T>>)
    requires c.Valid() && c.k >= 1 && IsRun(c, gap, run) && Calm(c, Last(run), a, p, q) && Open(c, a, r)
    requires if r.Producer? then p == q else p == q + 1
    ensures IsRun(c, gap, longer)
    ensures if r.Producer? then Calm(c, Last(longer), a, p + 1, q) else Calm(c, Last(longer), a, p, q + 1)
  {
    SizeFacts(c);
    longer := ReserveSome(c, gap, run, a, p, q, r, if r.Producer? then [x] else [], 1);
    longer := Extend(c, gap, longer, 1, Copy);
    longer := Extend(c, gap, longer, 1, SeeTail);
    longer := Extend(c, gap, longer, 1, Publish);
    WrapPlus(Last(run).Of(r).hd, 1);
  }

  /** One object after the other goes through an otherwise empty ring. */
  lemma {:induction false} Pump<T(!new)>(c: Config, gap: nat, run: seq<State<T>>, a: Proc<T>, m: nat, n: nat, x: T)
    returns (longer: seq<State<T>>)
    requires c.Valid() && c.k >= 1 && IsRun(c, gap, run) && Calm(c, Last(run), a, m, m) && m <= n
    requires Open(c, a, Producer) && Open(c, a, Consumer)
    ensures IsRun(c, gap, longer) && Calm(c, Last(longer), a, n, n)
    decreases n - m
  {
    if m == n {
      longer := run;
    } else {
      longer := Pump(c, gap, run, a, m, n - 1, x);
      longer := MoveOne(c, gap, longer, a, n - 1, n - 1, Producer, x);
      longer := MoveOne(c, gap, longer, a, n, n - 1, Consumer, x);
    }
  }

  function Fresh<T>(c: Config, x: T): (s: State<T>)
    ensures Init(c, s)
  {
    State(Side(0, 0, 0, 0, []), Side(0, 0, 0, 0, []), seq(c.Size(), i => x), [Idle, Idle], [], [])
  }

  // ---------------------------------------------------------------- laps

  /**
   A producer has loaded an empty ring and waits with its swap; the others bring the head
   back to the same word with the ring full, and the swap succeeds.
   */
  lemma ProducerLap<T(!new)>(c: Config, x: T) returns (run: seq<State<T>>)
    requires c.Valid() && c.k >= 1 && !c.spEnq
    ensures IsRun(c, U32, run) && !Ordered(c, Last(run))
  {
    SizeFacts(c);
    run := [Fresh(c, x)];
    run := LoadBoth(c, U32, run, 0, Producer, [x], 1);
    var a := Last(run).procs[0];
    assert Available(c, a) == c.Mask();
    var n := U32 - c.Mask();
    run := Pump(c, U32, run, a, 0, n, x);
    run := ReserveSome(c, U32, run, a, n, n, Producer, seq(c.Mask(), i => x), c.Mask());
    run := Extend(c, U32, run, 0, Reserve);
  }

  /** A consumer has loaded a ring with one object; the others bring the head back with the ring empty. */
  lemma ConsumerLap<T(!new)>(c: Config, x: T) returns (run: seq<State<T>>)
    requires c.Valid() && c.k >= 1 && !c.scDeq
    ensures IsRun(c, U32, run) && !Ordered(c, Last(run))
  {
    SizeFacts(c);
    run := [Fresh(c, x)];
    run := MoveOne(c, U32, run, Idle, 0, 0, Producer, x);
    run := LoadBoth(c, U32, run, 0, Consumer, [], 1);
    var a := Last(run).procs[0];
    assert Available(c, a) == 1;
    run := MoveOne(c, U32, run, a, 1, 0, Consumer, x);
    run := Pump(c, U32, run, a, 1, U32, x);
    run := Extend(c, U32, run, 0, Reserve);
  }

  /** One lap breaks the ring: with a gap of 2^32 positions there is a run that ends out of order. */
  lemma LapBreaks<T(!new)>(c: Config, x: T) returns (run: seq<State<T>>)
    requires Shared(c)
    ensures IsRun(c, U32, run) && !Ordered(c, Last(run))
  {
    if c.spEnq {
      run := ConsumerLap(c, x);
    } else {
      run := ProducerLap(c, x);
    }
  }

  // ---------------------------------------------------------------- empty requests

  /** Thread 0 asks for nothing, passes the wait loop, and stalls before it stores the tail. */
  lemma Stall<T(!new)>(c: Config, r: Role, x: T) returns (run: seq<State<T>>, a: Proc<T>)
    requires c.Valid() && c.k >= 1 && c.empty
    ensures IsRun(c, 0, run) && a == Publishing(r, 0, [], 0, 0) && Calm(c, Last(run), a, 0, 0)
  {
    run := [Fresh(c, x)];
    run := LoadBoth(c, 0, run, 0, r, [], 0);
    run := Extend(c, 0, run, 0, Reserve);
    run := Extend(c, 0, run, 0, SeeTail);
    a := Last(run).procs[0];
  }

  /**
   An empty request breaks the ring without any lap: it passes the wait loop, stalls, and
   then stores a tail that the others have moved on.  A producer's falls behind objects already
   taken, a consumer's behind slots already filled again.
   */
  lemma EmptyRequestBreaks<T(!new)>(c: Config, x: T) returns (run: seq<State<T>>)
    requires Shared(c) && c.empty
    ensures IsRun(c, 0, run) && !Ordered(c, Last(run))
  {
    SizeFacts(c);
    var r := if c.spEnq then Consumer else Producer;
    var a;
    run, a := Stall(c, r, x);
    run := MoveOne(c, 0, run, a, 0, 0, Producer, x);
    if r.Producer? {
      run := ReserveSome(c, 0, run, a, 1, 0, Consumer, [], 1);
    } else {
      run := MoveOne(c, 0, run, a, 1, 0, Consumer, x);
      run := ReserveSome(c, 0, run, a, 1, 1, Producer, seq(c.Mask(), i => x), c.Mask());
    }
    run := Extend(c, 0, run, 0, Publish);
  }

  /**
   For every ring and every bound on the gap: order and first-in, first-out hold in every run
   if and only if the ring has one slot, or one user per side, or nobody asks for zero objects
   and no swap succeeds after 2^32 positions or more.
   */
  lemma SafeExactly<T(!new)>(c: Config, gap: nat, x: T)
    requires c.Valid()
    ensures Safe(c, gap) <==>
            forall run: seq<State<T>> :: IsRun(c, gap, run) ==> Ordered(c, Last(run)) && Fifo(Last(run))
  {
    if Safe(c, gap) {
      forall run: seq<State<T>> | IsRun(c, gap, run)
        ensures Ordered(c, Last(run)) && Fifo(Last(run))
      {
        RingSafety(c, gap, run, |run| - 1);
      }
    } else if c.empty {
      var bad := EmptyRequestBreaks(c, x);
      Widen(c, 0, gap, bad);
    } else {
      var bad := LapBreaks(c, x);
      Widen(c, U32, gap, bad);
    }
  }

  // ---------------------------------------------------------------- refusals

  /** A run that ends with a caller about to be refused although there is room. */
  ghost predicate Deceived<T(!new)>(c: Config, gap: nat, run: seq<State<T>>)
    requires c.k <= 32
  {
    && IsRun(c, 0, run) && |Last(run).procs| > 0
    && Enabled(c, Last(run), 0, Refuse) && Close(c, gap, Last(run).procs[0]) && !Honest(Last(run).procs[0])
  }

  /** The consumers go round between a producer's two loads: the difference is zero and the ring is empty. */
  lemma ProducerDeceived<T(!new)>(c: Config, x: T) returns (run: seq<State<T>>)
    requires c.Valid() && c.k >= 1 && !c.spEnq
    ensures Deceived(c, U32, run)
  {
    SizeFacts(c);
    run := [Fresh(c, x)];
    run := Extend(c, 0, run, 0, Begin(Producer, 1, true, [x]));
    run := Extend(c, 0, run, 0, LoadHead);
    var a := Last(run).procs[0];
    run := Pump(c, 0, run, a, 0, U32 - c.Mask(), x);
    run := Extend(c, 0, run, 0, LoadOpposite);
    assert Available(c, Last(run).procs[0]) == 0;
  }

  /** The producers go round between a consumer's two loads: the difference is zero with an object in the ring. */
  lemma ConsumerDeceived<T(!new)>(c: Config, x: T) returns (run: seq<State<T>>)
    requires c.Valid() && c.k >= 1 && !c.scDeq
    ensures Deceived(c, U32, run)
  {
    run := [Fresh(c, x)];
    run := Extend(c, 0, run, 0, Begin(Consumer, 1, true, []));
    run := Extend(c, 0, run, 0, LoadHead);
    var a := Last(run).procs[0];
    run := Pump(c, 0, run, a, 0, U32 - 1, x);
    run := MoveOne(c, 0, run, a, U32 - 1, U32 - 1, Producer, x);
    run := Extend(c, 0, run, 0, LoadOpposite);
    assert Available(c, Last(run).procs[0]) == 0;
  }

  /**
   On a ring that is safe, every refusal is honest if and only if the ring has one slot, or one
   user per side, or the opposite tail was loaded less than 2^32 ahead of the head.
   */
  lemma HonestExactly<T(!new)>(c: Config, gap: nat, x: T)
    requires c.Valid() && Safe(c, U32 - 1)
    ensures c.k == 0 || (c.spEnq && c.scDeq) || gap < U32 <==>
            forall run: seq<State<T>>, t: nat ::
              IsRun(c, U32 - 1, run) && t < |Last(run).procs| && Enabled(c, Last(run), t, Refuse) ==>
                Close(c, gap, Last(run).procs[t]) ==> Honest(Last(run).procs[t])
  {
    if c.k == 0 || (c.spEnq && c.scDeq) || gap < U32 {
      forall run: seq<State<T>>, t: nat | IsRun(c, U32 - 1, run) && t < |Last(run).procs|
          && Enabled(c, Last(run), t, Refuse) && Close(c, gap, Last(run).procs[t])
        ensures Honest(Last(run).procs[t])
      {
        if c.k == 0 {
          StillRun(c, U32 - 1, run);
          assert IdleHands(Last(run).procs[t]);
        } else {
          RunInv(c, U32 - 1, run);
          RefusalHonest(c, Last(run), t);
        }
      }
    } else {
      var bad: seq<State<T>>;
      if c.spEnq {
        bad := ConsumerDeceived(c, x);
      } else {
        bad := ProducerDeceived(c, x);
      }
      Widen(c, 0, U32 - 1, bad);
      assert !Honest(Last(bad).procs[0]);
    }
  }
}
