/** The queues of I/O units (fio4emu/io_u_queue.h and .c): a stack and a ring whose size is a power of two. */
module IoUnitQueues {
  import opened Bits
  import opened Options

  // ----- the ring size -----

  /** The least power of two that is at least n. */
  ghost predicate LeastPow2(p: nat, n: nat) {
    && IsPow2(p) && p >= n
    && forall k :: 0 <= k && Pow2(k) >= n ==> p <= Pow2(k)
  }

  lemma {:induction false} RoundedUp(nr: nat, n: nat)
    requires 0 < nr < TWO_32 && n == Length(nr)
    ensures 1 <= n <= 32 && LeastPow2(Pow2(n), nr + 1)
    ensures if nr >= TWO_31 then Pow2(n) == TWO_32 else Pow2(n) <= TWO_31
  {
    LengthRange(nr);
    Pow2At32();
    if n > 32 { Pow2Mono(32, n - 1); }
    if n < 32 { Pow2Mono(n, 31); }
    forall k | 0 <= k && Pow2(k) >= nr + 1 ensures Pow2(n) <= Pow2(k) {
      if k < n { Pow2Mono(k, n - 1); } else { Pow2Mono(n, k); }
    }
  }

  lemma NotPow2Zero()
    ensures !IsPow2(0)
  {}

  lemma {:induction false} BelowTop(p: nat)
    requires IsPow2(p) && p < TWO_32
    ensures 1 <= p <= TWO_31
  {
    Pow2At32();
    var k :| 0 <= k && p == Pow2(k);
    if k < 32 { Pow2Mono(k, 31); } else { Pow2Mono(32, k); }
  }

  /** The size io_u_rinit computes in 32 bits. It is the least power of two that holds nr + 1 entries
      exactly as long as that power fits; beyond, the size wraps to zero. */
  method RingSize(nr: nat) returns (max: nat)
    requires nr < TWO_32
    ensures nr < TWO_31 <==> LeastPow2(max, nr + 1)
    ensures nr >= TWO_31 ==> max == 0
  {
    max := U32(nr + 1);
    if max > 0 { Pow2Test(max); }
    if And(max, U32(max - 1)) != 0 {
      RoundedUp(nr, Length(nr));
      max := SmearedUp(U32(max - 1));
    } else if max > 0 {
      BelowTop(max);
    }
    NotPow2Zero();
  }

  /** The shift-or steps: one less than a power of two, plus one. */
  method SmearedUp(x: nat) returns (max: nat)
    requires 0 < x < TWO_32
    ensures Pow2(Length(x)) <= TWO_32 && max == U32(Pow2(Length(x)))
  {
    ghost var n := Length(x);
    RoundedUp(x, n);
    SmearedOnes(x, n);
    max := x;
    max := Or(max, Shr(max, 1));
    max := Or(max, Shr(max, 2));
    max := Or(max, Shr(max, 4));
    max := Or(max, Shr(max, 8));
    max := Or(max, Shr(max, 16));
    max := U32(max + 1);
  }

  function Spread(x: nat, s: nat): nat {
    Or(x, Shr(x, s))
  }

  /** The five steps turn every bit below the highest one on. */
  lemma {:induction false} SmearedOnes(x: nat, n: nat)
    requires 0 < x && n == Length(x) && n <= 32
    ensures Spread(Spread(Spread(Spread(Spread(x, 1), 2), 4), 8), 16) == Pow2(n) - 1
  {
    assert Filled(x, n, 1) by { LengthRange(x); }
    var a := Spread(x, 1);
    assert Filled(a, n, 2) by { Smear(x, n, 1); }
    var b := Spread(a, 2);
    assert Filled(b, n, 4) by { Smear(a, n, 2); }
    var c := Spread(b, 4);
    assert Filled(c, n, 8) by { Smear(b, n, 4); }
    var d := Spread(c, 8);
    assert Filled(d, n, 16) by { Smear(c, n, 8); }
    Smear(d, n, 16);
  }

  // ----- the stack -----

  class UnitStack {
    const ious: array<Option<nat>>
    var nr: nat
    const max: nat

    ghost predicate Valid()
      reads this, ious
    {
      && ious.Length == max && nr <= max
      && forall i :: 0 <= i < nr ==> ious[i].Some?
    }

    ghost function Contents(): seq<nat>
      requires Valid()
      reads this, ious
    {
      seq(nr, i reads this, ious requires Valid() && 0 <= i < nr => ious[i].value)
    }

    /** io_u_qinit */
    constructor (n: nat)
      ensures Valid() && fresh(ious) && max == n && Contents() == []
    {
      ious := new Option<nat>[n](_ => None);
      nr := 0;
      max := n;
    }

    /** io_u_qpop */
    method Pop() returns (u: Option<nat>)
      requires Valid()
      modifies this, ious
      ensures Valid()
      ensures old(Contents()) == [] ==> u == None && Contents() == []
      ensures old(Contents()) != [] ==> u.Some? && Contents() + [u.value] == old(Contents())
    {
      if nr == 0 { return None; }
      nr := nr - 1;
      u := ious[nr];
      ious[nr] := None;
    }

    /** io_u_qpush; `ok` is false where the source reaches assert(0). */
    method Push(u: nat) returns (ok: bool)
      requires Valid()
      modifies this, ious
      ensures Valid() && ok == (|old(Contents())| < max)
      ensures Contents() == if ok then old(Contents()) + [u] else old(Contents())
    {
      if nr < max {
        ious[nr] := Some(u);
        nr := nr + 1;
        return true;
      }
      return false;
    }
  }

  // ----- the ring -----

  /** Stepping an index with the mask max - 1 is a step around the ring. */
  lemma {:induction false} MaskedStep(h: nat, max: nat)
    requires IsPow2(max) && h < max
    ensures And(h + 1, max - 1) == if h + 1 < max then h + 1 else 0
  {
    var k :| 0 <= k && max == Pow2(k);
    AndMask(h + 1, k);
    ModStep(h + 1, max);
  }

  lemma ModStep(x: nat, d: nat)
    requires 0 < x <= d
    ensures x % d == if x < d then x else 0
  {}

  class UnitRing {
    const ring: array<Option<nat>>
    var head: nat
    var tail: nat
    const max: nat

    ghost predicate Valid()
      reads this, ring
    {
      && IsPow2(max) && ring.Length == max && head < max && tail < max
      && forall i :: 0 <= i < Used(head, tail, max) ==> ring[At(tail, i, max)].Some?
    }

    ghost function Contents(): seq<nat>
      requires Valid()
      reads this, ring
    {
      seq(Used(head, tail, max), i reads this, ring requires Valid() && 0 <= i < Used(head, tail, max) =>
        ring[At(tail, i, max)].value)
    }

    /** io_u_rinit, after the size has been computed. */
    constructor (size: nat)
      requires IsPow2(size)
      ensures Valid() && fresh(ring) && max == size && Contents() == [] && head == tail == 0
    {
      ring := new Option<nat>[size](_ => None);
      head, tail := 0, 0;
      max := size;
    }

    /** io_u_rpush. The full test does not mask head + 1: below max - 1 entries it never rejects and the
        ring is a queue; at max - 1 entries it either rejects or, with the head in the last slot, lets the
        push empty the ring. */
    method Push(u: nat) returns (ok: bool)
      requires Valid()
      modifies this, ring
      ensures Valid() && ok == (old(head) + 1 != old(tail)) && tail == old(tail)
      ensures head == if !ok then old(head) else if old(head) + 1 < max then old(head) + 1 else 0
      ensures |old(Contents())| < max - 1 ==> ok && Contents() == old(Contents()) + [u]
      ensures |old(Contents())| == max - 1 ==> (ok <==> old(head) == max - 1)
      ensures |old(Contents())| == max - 1 && ok ==> Contents() == []
      ensures !ok ==> Contents() == old(Contents())
    {
      if head + 1 != tail {
        MaskedStep(head, max);
        ring[head] := Some(u);
        head := And(head + 1, max - 1);
        return true;
      }
      return false;
    }

    /** io_u_rpop */
    method Pop() returns (u: Option<nat>)
      requires Valid()
      modifies this
      ensures Valid() && head == old(head)
      ensures tail == if u.None? then old(tail) else if old(tail) + 1 < max then old(tail) + 1 else 0
      ensures old(Contents()) == [] ==> u == None && Contents() == []
      ensures old(Contents()) != [] ==> u == Some(old(Contents())[0]) && Contents() == old(Contents())[1..]
    {
      if head != tail {
        MaskedStep(tail, max);
        assert ring[At(tail, 0, max)].Some?;
        u := ring[tail];
        ghost var before := tail;
        tail := And(tail + 1, max - 1);
        assert forall i :: 0 <= i < Used(head, tail, max) ==> At(tail, i, max) == At(before, i + 1, max);
        return;
      }
      return None;
    }

    /** io_u_rempty */
    method Empty() returns (e: bool)
      requires Valid()
      ensures e == (Contents() == [])
    {
      e := head == tail;
    }
  }

  /** The unmasked full test at work: a ring of two slots, meant for one unit, accepts a second one and then
      counts as empty. */
  method SecondPushEmptiesRing(u: nat, v: nat) returns (r: UnitRing, first: bool, second: bool)
    ensures fresh(r) && r.Valid() && r.max == 2
    ensures first && second && r.Contents() == []
  {
    assert IsPow2(2) by { assert Pow2(1) == 2; }
    r := new UnitRing(2);
    first := r.Push(u);
    assert |r.Contents()| == r.max - 1;
    second := r.Push(v);
  }
}
