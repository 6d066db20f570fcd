/** The pool of I/O units of one job (fio4emu/io_u.c and init_io_u in fio4emu/backend.c): a free stack,
    a requeue ring, per-unit flags and the depth counter. */
module IoUnitPool {
  import opened Bits
  import opened Lists
  import opened Options
  import opened IoUnitQueues

  /** The units of a pool of size n that are in neither queue. */
  ghost function Outside(n: nat, free: seq<nat>, requeued: seq<nat>): set<nat> {
    set u | 0 <= u < n && u !in free && u !in requeued
  }

  ghost predicate Partition(n: nat, free: seq<nat>, requeued: seq<nat>) {
    && NoDup(free + requeued)
    && forall u :: u in free + requeued ==> u < n
  }

  /** Units cannot outnumber the pool. */
  lemma {:induction false} PigeonHole(s: seq<nat>, n: nat)
    requires NoDup(s) && forall u :: u in s ==> u < n
    ensures |s| <= n
  {
    if n == 0 {
      FirstIsMember(s);
    } else if i :| 0 <= i < |s| && s[i] == n - 1 {
      var r := s[..i] + s[i+1..];
      forall x | x in r ensures x < n - 1 {
        var j :| 0 <= j < |r| && r[j] == x;
        var j' := if j < i then j else j + 1;
        assert s[j'] == x && j' != i && s[j'] in s;
      }
      PigeonHole(r, n - 1);
    } else {
      assert forall j :: 0 <= j < |s| ==> s[j] in s;
      PigeonHole(s, n - 1);
    }
  }

  /** Taking a unit out of a queue adds exactly it to the outstanding ones. */
  lemma Taken(n: nat, free: seq<nat>, requeued: seq<nat>, free': seq<nat>, requeued': seq<nat>, u: nat)
    requires Partition(n, free, requeued)
    requires (free == free' + [u] && requeued' == requeued) || (free' == free && requeued == [u] + requeued')
    ensures Partition(n, free', requeued') && u < n
    ensures u !in Outside(n, free, requeued) && Outside(n, free', requeued') == Outside(n, free, requeued) + {u}
    ensures |Outside(n, free', requeued')| == |Outside(n, free, requeued)| + 1
  {
    var a, b := free + requeued, free' + requeued';
    var k := |free'|;
    assert a[k] == u && u in a;
    assert forall i :: 0 <= i < |b| ==> b[i] == a[if i < k then i else i + 1];
    forall x | x in b ensures x in a && x != u {
      var i :| 0 <= i < |b| && b[i] == x;
    }
    assert u !in b;
    assert forall x :: x in free' ==> x in b;
    assert forall x :: x in requeued' ==> x in b;
  }

  /** Giving an outstanding unit back to a queue removes exactly it from the outstanding ones. */
  lemma Given(n: nat, free: seq<nat>, requeued: seq<nat>, free': seq<nat>, requeued': seq<nat>, u: nat)
    requires Partition(n, free, requeued) && u in Outside(n, free, requeued)
    requires (free' == free + [u] && requeued' == requeued) || (free' == free && requeued' == requeued + [u])
    ensures Partition(n, free', requeued')
    ensures Outside(n, free', requeued') == Outside(n, free, requeued) - {u}
    ensures |Outside(n, free', requeued')| == |Outside(n, free, requeued)| - 1
  {
    var a, b := free + requeued, free' + requeued';
    var k := if |free'| > |free| then |free| else |a|;
    assert forall i :: 0 <= i < |b| && i != k ==> b[i] == a[if i < k then i else i - 1] && b[i] in a;
    assert b[k] == u && u !in a;
  }

  /** With a unit outstanding, both queues have room for it. */
  lemma RoomForOne(n: nat, free: seq<nat>, requeued: seq<nat>, u: nat)
    requires Partition(n, free, requeued) && u in Outside(n, free, requeued)
    ensures |free| + |requeued| < n
  {
    Given(n, free, requeued, free + [u], requeued, u);
    PigeonHole(free + [u] + requeued, n);
  }

  lemma AllFree(n: nat, free: seq<nat>)
    requires |free| == n && forall u :: 0 <= u < n ==> free[u] == u
    ensures Partition(n, free, []) && Outside(n, free, []) == {}
  {
    forall u | 0 <= u < n ensures u in free { assert free[u] == u; }
  }

  /** Which unit is handed out: the oldest requeued one; else the top of the free stack, unless that is empty
      or the depth limit is reached. */
  ghost predicate Chosen(free: seq<nat>, req: seq<nat>, depth: int, limit: Option<nat>,
                         u: Option<nat>, free': seq<nat>, req': seq<nat>)
  {
    if req != [] then u == Some(req[0]) && req' == req[1..] && free' == free
    else if free == [] || (limit.Some? && depth >= limit.value) then u == None && free' == free && req' == req
    else u.Some? && free' + [u.value] == free && req' == req
  }

  /** What a job does with its units. */
  datatype Op = Take | Return(u: nat) | Again(u: nat)

  class Pool {
    const iodepth: nat
    const freelist: UnitStack
    const requeues: UnitRing
    var curDepth: int
    var isFree: seq<bool>     // IO_U_F_FREE
    var counted: seq<bool>    // IO_U_F_IN_CUR_DEPTH

    ghost predicate Shape()
      reads this, freelist, freelist.ious, requeues, requeues.ring
    {
      && freelist.Valid() && requeues.Valid()
      && freelist.ious != requeues.ring
      && freelist.max == iodepth && requeues.max >= iodepth + 1
      && |isFree| == iodepth && |counted| == iodepth
    }

    ghost function Outstanding(): set<nat>
      requires Shape()
      reads this, freelist, freelist.ious, requeues, requeues.ring
    {
      Outside(iodepth, freelist.Contents(), requeues.Contents())
    }

    ghost predicate Valid()
      reads this, freelist, freelist.ious, requeues, requeues.ring
    {
      && Shape()
      && Partition(iodepth, freelist.Contents(), requeues.Contents())
      && curDepth == |Outstanding()|
      && (forall u :: 0 <= u < iodepth ==> (isFree[u] <==> u !in Outstanding()))
      && (forall u :: u in Outstanding() ==> counted[u])
    }

    /** init_io_u: every unit starts on the free list, flagged free. */
    constructor (depth: nat)
      requires depth < TWO_31
      ensures Valid() && iodepth == depth && Outstanding() == {}
      ensures fresh(freelist) && fresh(freelist.ious) && fresh(requeues) && fresh(requeues.ring)
    {
      iodepth := depth;
      curDepth := 0;
      isFree := seq(depth, _ => true);
      counted := seq(depth, _ => false);
      var max := RingSize(depth);
      requeues := new UnitRing(max);
      freelist := new UnitStack(depth);
      new;
      var i := 0;
      while i < depth
        invariant 0 <= i <= depth && Shape() && curDepth == 0
        invariant fresh(freelist) && fresh(freelist.ious) && fresh(requeues) && fresh(requeues.ring)
        invariant requeues.Contents() == [] && freelist.Contents() == seq(i, k => k)
        invariant isFree == seq(depth, _ => true)
      {
        var ok := freelist.Push(i);
        assert ok;
        i := i + 1;
      }
      AllFree(depth, freelist.Contents());
    }

    /** __get_io_u, up to the wait for asynchronous verify threads. `depthLimit` is latency_qd when a latency
        target is set. Requeued units go first, in order; otherwise the top of the free stack is taken unless
        the queue counts as full. */
    method Get(stopIo: bool, depthLimit: Option<nat>) returns (u: Option<nat>)
      requires Valid()
      modifies this`curDepth, this`isFree, this`counted, freelist, freelist.ious, requeues
      ensures Valid()
      ensures if stopIo
        then u == None && freelist.Contents() == old(freelist.Contents()) && requeues.Contents() == old(requeues.Contents())
        else Chosen(old(freelist.Contents()), old(requeues.Contents()), old(curDepth), depthLimit,
                    u, freelist.Contents(), requeues.Contents())
      ensures !stopIo && old(requeues.Contents()) == [] ==>
        (u.None? <==> old(freelist.Contents()) == [] || (depthLimit.Some? && old(curDepth) >= depthLimit.value))
      ensures depthLimit.Some? && u.Some? && old(requeues.Contents()) == [] ==> curDepth <= depthLimit.value
      ensures u.None? ==> curDepth == old(curDepth)
      ensures u.Some? ==> u.value !in old(Outstanding()) && Outstanding() == old(Outstanding()) + {u.value}
      ensures u.Some? ==> curDepth == old(curDepth) + 1
    {
      u := None;
      if stopIo { return; }
      ghost var free, req := freelist.Contents(), requeues.Contents();
      u := Next(depthLimit);
      if u.Some? {
        Taken(iodepth, free, req, freelist.Contents(), requeues.Contents(), u.value);
        assert isFree[u.value];  // the assertion on IO_U_F_FREE
        isFree := isFree[u.value := false];
        curDepth := curDepth + 1;
        counted := counted[u.value := true];
      }
    }

    /** The choice between the two queues, with queue_full. */
    method Next(depthLimit: Option<nat>) returns (u: Option<nat>)
      requires Shape()
      modifies freelist, freelist.ious, requeues
      ensures Shape()
      ensures Chosen(old(freelist.Contents()), old(requeues.Contents()), curDepth, depthLimit,
                     u, freelist.Contents(), requeues.Contents())
    {
      u := None;
      var empty := requeues.Empty();
      if !empty {
        u := requeues.Pop();
      } else if freelist.nr != 0 && (depthLimit.None? || curDepth < depthLimit.value) {
        u := freelist.Pop();
      }
    }

    /** put_io_u; `ok` is false where the push would reach assert(0), which never happens. */
    method Put(u: nat) returns (ok: bool)
      requires Valid() && u in Outstanding()
      modifies this`curDepth, this`isFree, freelist, freelist.ious
      ensures Valid() && ok
      ensures freelist.Contents() == old(freelist.Contents()) + [u] && requeues.Contents() == old(requeues.Contents())
      ensures Outstanding() == old(Outstanding()) - {u} && curDepth == old(curDepth) - 1
    {
      ghost var free, req := freelist.Contents(), requeues.Contents();
      RoomForOne(iodepth, free, req, u);
      Given(iodepth, free, req, free + [u], req, u);
      isFree := isFree[u := true];
      if counted[u] {
        curDepth := curDepth - 1;
      }
      ok := freelist.Push(u);
    }

    /** requeue_io_u */
    method Requeue(u: nat) returns (ok: bool)
      requires Valid() && u in Outstanding()
      modifies this`curDepth, this`isFree, requeues, requeues.ring
      ensures Valid() && ok
      ensures requeues.Contents() == old(requeues.Contents()) + [u] && freelist.Contents() == old(freelist.Contents())
      ensures Outstanding() == old(Outstanding()) - {u} && curDepth == old(curDepth) - 1
    {
      ghost var free, req := freelist.Contents(), requeues.Contents();
      RoomForOne(iodepth, free, req, u);
      Given(iodepth, free, req, free, req + [u], u);
      isFree := isFree[u := true];
      if counted[u] {
        curDepth := curDepth - 1;
      }
      ok := requeues.Push(u);
    }

    /** Over any run of takes, returns and requeues under a fixed latency depth, the units outstanding and those
        waiting to be issued again never exceed that depth together. */
    method Drive(ops: seq<Op>, limit: nat)
      requires Valid() && curDepth + |requeues.Contents()| <= limit
      modifies this`curDepth, this`isFree, this`counted, freelist, freelist.ious, requeues, requeues.ring
      ensures Valid() && curDepth + |requeues.Contents()| <= limit
    {
      for n := 0 to |ops|
        invariant Valid() && curDepth + |requeues.Contents()| <= limit
      {
        match ops[n] {
          case Take =>
            var u := Get(false, Some(limit));
          case Return(u) =>
            if u < iodepth && !isFree[u] { var ok := Put(u); }
          case Again(u) =>
            if u < iodepth && !isFree[u] { var ok := Requeue(u); }
        }
      }
    }
  }
}
