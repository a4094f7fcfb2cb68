/** The status of a queue entry and what its locked sections do to it and to the list. */
module QueueStatus {

  /** Plain is QUEUE_STATUS_READY; Free and Destroyed are below it, the others above. */
  datatype Status = Free | Destroyed | Plain | NotSched | Sched {
    predicate Usable() { !Free? && !Destroyed? }
  }

  /** The locked part of an enqueue: refused below READY, else appended and scheduled. */
  function AfterEnqueue<E>(st: Status, list: seq<E>, es: seq<E>): (Status, seq<E>)
  {
    if !st.Usable() then (st, list) else (if st.NotSched? then Sched else st, list + es)
  }

  /** The locked part of a dequeue: the number taken, or -1, and the new status and list. */
  function AfterDequeue<E>(st: Status, list: seq<E>, max: nat): (r: (int, Status, seq<E>))
    ensures r.0 <= |list|
  {
    if !st.Usable() then (-1, st, list)
    else if list == [] then (0, if st.Sched? then NotSched else st, list)
    else if max < |list| then (max, st, list[max..])
    else (|list|, st, [])
  }

  /** The locked part of odp_queue_destroy. */
  function AfterDestroy<E>(st: Status, list: seq<E>): (int, Status)
  {
    if !st.Usable() || list != [] then (-1, st) else (0, if st.Sched? then Destroyed else Free)
  }

  /**
   Exactly an empty live queue is destroyed.  It is then closed to every operation, and free at once
   unless its command is still about.
   */
  lemma DestroyCloses<E>(st: Status, list: seq<E>, es: seq<E>, max: nat)
    ensures var (rc, st') := AfterDestroy(st, list);
            && (rc == 0 <==> (st.Plain? || st.NotSched? || st.Sched?) && list == [])
            && (rc != 0 ==> rc == -1 && st' == st)
            && (rc == 0 ==> st' == if st == Sched then Destroyed else Free)
            && (rc == 0 ==>
                  && AfterEnqueue(st', list, es) == (st', list)
                  && AfterDequeue(st', list, max) == (-1, st', list)
                  && AfterDestroy(st', list) == (-1, st'))
  {
  }

  /** What was enqueued comes out in order, and only queues of the scheduler change their status by it. */
  lemma EnqueueThenDequeue<E>(st: Status, list: seq<E>, es: seq<E>, max: nat)
    requires st.Plain? || st.NotSched? || st.Sched?
    ensures var (st1, list1) := AfterEnqueue(st, list, es);
            var (rc, st2, list2) := AfterDequeue(st1, list1, max);
            && 0 <= rc <= max && (list + es)[rc..] == list2 && (rc < max ==> list2 == [])
            && (st.Plain? <==> st1.Plain?) && (st.Plain? <==> st2.Plain?)
            && (list + es != [] && !st.Plain? ==> st1.Sched? && st2.Sched?)
  {
  }
}

/** A queue entry as the source keeps it: a singly linked list of buffer headers. */
module QueueList {
  import opened QueueStatus

  class BufHdr {
    var next: BufHdr?

    constructor ()
      ensures next == null
    {
      next := null;
    }
  }

  ghost predicate Linked(nodes: seq<BufHdr>)
    reads nodes
  {
    && (forall i :: 0 <= i < |nodes| - 1 ==> nodes[i].next == nodes[i + 1])
    && (nodes != [] ==> nodes[|nodes| - 1].next == null)
  }

  ghost predicate Distinct<E>(s: seq<E>)
  {
    forall i, j :: 0 <= i < j < |s| ==> s[i] != s[j]
  }

  /** Two lists joined by the next pointer of the last node of the first. */
  lemma LinkedConcat(a: seq<BufHdr>, b: seq<BufHdr>)
    requires b != [] && Linked(b)
    requires forall i :: 0 <= i < |a| - 1 ==> a[i].next == a[i + 1]
    requires a != [] ==> a[|a| - 1].next == b[0]
    ensures Linked(a + b)
  {
    forall i | 0 <= i < |a + b| - 1
      ensures (a + b)[i].next == (a + b)[i + 1]
    {
      if i >= |a| {
        assert b[i - |a|].next == b[i - |a| + 1];
      }
    }
  }

  lemma DistinctConcat<E>(a: seq<E>, b: seq<E>)
    requires Distinct(a) && Distinct(b) && forall x :: x in b ==> x !in a
    ensures Distinct(a + b)
  {
    forall i, j | 0 <= i < j < |a + b|
      ensures (a + b)[i] != (a + b)[j]
    {
      if i < |a| <= j {
        assert b[j - |a|] in b && a[i] in a;
      }
    }
  }

  /** Chain the buffers of a multi-enqueue together. */
  method Chain(bufs: seq<BufHdr>)
    requires bufs != [] && Distinct(bufs)
    modifies bufs
    ensures Linked(bufs)
  {
    var num := |bufs|;
    var i := 0;
    while i < num - 1
      invariant 0 <= i <= num - 1
      invariant forall j :: 0 <= j < i ==> bufs[j].next == bufs[j + 1]
    {
      bufs[i].next := bufs[i + 1];
      i := i + 1;
    }
    bufs[num - 1].next := null;
  }

  class QueueEntry {
    var head: BufHdr?
    var tail: BufHdr?
    var status: Status
    ghost var nodes: seq<BufHdr>

    ghost predicate Valid()
      reads this, nodes
    {
      && Distinct(nodes) && Linked(nodes)
      && head == (if nodes == [] then null else nodes[0])
      && (nodes != [] ==> tail == nodes[|nodes| - 1])
    }

    constructor (st: Status)
      ensures Valid() && nodes == [] && status == st
    {
      head, tail, status, nodes := null, null, st, [];
    }

    /** queue_enq on an unordered path; `push`: the caller must now put the command in scheduling. */
    method Enq(buf: BufHdr) returns (rc: int, push: bool)
      requires Valid() && buf !in nodes
      modifies this, nodes, buf
      ensures Valid()
      ensures (status, nodes) == AfterEnqueue(old(status), old(nodes), [buf])
      ensures rc == if old(status).Usable() then 0 else -1
      ensures push <==> old(status).NotSched?
    {
      if !status.Usable() { return -1, false; }
      buf.next := null;
      if head != null {
        tail.next := buf;
      } else {
        head := buf;
      }
      tail := buf;
      nodes := nodes + [buf];
      push := status.NotSched?;
      if push { status := Sched; }
      rc := 0;
    }

    /** queue_enq_multi on an unordered path: the buffers are chained first, then appended as one. */
    method EnqMulti(bufs: seq<BufHdr>) returns (rc: int, push: bool)
      requires Valid() && bufs != [] && Distinct(bufs) && forall b :: b in bufs ==> b !in nodes
      modifies this, nodes, bufs
      ensures Valid()
      ensures (status, nodes) == AfterEnqueue(old(status), old(nodes), bufs)
      ensures rc == if old(status).Usable() then |bufs| else -1
      ensures push <==> old(status).NotSched?
    {
      assert forall i :: 0 <= i < |nodes| ==> nodes[i] in nodes && nodes[i] !in bufs;
      Chain(bufs);
      assert Linked(nodes);
      if !status.Usable() { return -1, false; }
      Append(bufs);
      push := status.NotSched?;
      if push { status := Sched; }
      rc := |bufs|;
    }

    method Append(bufs: seq<BufHdr>)
      requires Valid() && bufs != [] && Distinct(bufs) && Linked(bufs) && forall b :: b in bufs ==> b !in nodes
      modifies this`head, this`tail, this`nodes, nodes
      ensures Valid() && nodes == old(nodes) + bufs
    {
      DistinctConcat(nodes, bufs);
      Join(bufs);
      LinkedConcat(nodes, bufs);
      tail := bufs[|bufs| - 1];
      nodes := nodes + bufs;
    }

    /** The list is continued at the first of the buffers. */
    method Join(bufs: seq<BufHdr>)
      requires Valid() && bufs != [] && Linked(bufs) && forall b :: b in bufs ==> b !in nodes
      modifies this`head, nodes
      ensures Linked(bufs)
      ensures head == if nodes == [] then bufs[0] else nodes[0]
      ensures forall i :: 0 <= i < |nodes| - 1 ==> nodes[i].next == nodes[i + 1]
      ensures nodes != [] ==> nodes[|nodes| - 1].next == bufs[0]
    {
      if head == null {
        head := bufs[0];
      } else {
        assert tail == nodes[|nodes| - 1] && tail in nodes;
        assert forall i :: 0 <= i < |bufs| ==> bufs[i] in bufs && bufs[i] != tail;
        assert forall i :: 0 <= i < |nodes| - 1 ==> nodes[i] != nodes[|nodes| - 1];
        tail.next := bufs[0];
      }
    }

    /** queue_deq_multi on an unordered path. */
    method DeqMulti(out: array<BufHdr?>, num: nat) returns (rc: int)
      requires Valid() && num <= out.Length
      modifies this, nodes, out
      ensures Valid()
      ensures (rc, status, nodes) == AfterDequeue(old(status), old(nodes), num)
      ensures rc > 0 ==> forall i :: 0 <= i < rc ==> out[i] == old(nodes)[i] && old(nodes)[i].next == null
      ensures forall i :: (if rc > 0 then rc else 0) <= i < out.Length ==> out[i] == old(out[i])
    {
      if !status.Usable() { return -1; }
      if head == null {
        if status.Sched? { status := NotSched; }
        return 0;
      }
      var i := TakeFront(out, num);
      rc := i;
    }

    /** The copying loop: buffers from the front, unlinked one by one. */
    method TakeFront(out: array<BufHdr?>, num: nat) returns (i: nat)
      requires Valid() && num <= out.Length && nodes != []
      modifies this`head, this`tail, this`nodes, nodes, out
      ensures Valid() && i == (if num < |old(nodes)| then num else |old(nodes)|) && nodes == old(nodes)[i..]
      ensures forall j :: 0 <= j < i ==> out[j] == old(nodes)[j] && old(nodes)[j].next == null
      ensures forall j :: i <= j < out.Length ==> out[j] == old(out[j])
    {
      ghost var all := nodes;
      var hdr := head;
      i := 0;
      while i < num && hdr != null
        invariant 0 <= i <= num && i <= |all|
        invariant hdr == (if i == |all| then null else all[i])
        invariant forall j :: 0 <= j < i ==> out[j] == all[j] && all[j].next == null
        invariant forall j :: i <= j < out.Length ==> out[j] == old(out[j])
        invariant forall j :: i <= j < |all| ==> all[j].next == old(all[j].next)
        modifies out, all
      {
        var taken := hdr;
        out[i] := taken;
        hdr := taken.next;
        taken.next := null;
        i := i + 1;
      }
      head := hdr;
      nodes := all[i..];
      if hdr == null { tail := null; }
    }

    /** The locked section of odp_queue_destroy. */
    method Destroy() returns (rc: int)
      requires Valid()
      modifies this`status
      ensures Valid() && nodes == old(nodes)
      ensures (rc, status) == AfterDestroy(old(status), nodes)
    {
      if !status.Usable() || head != null { return -1; }
      status := if status.Sched? then Destroyed else Free;
      rc := 0;
    }
  }
}
