/** The byte ring (fio4emu/fifo.c and fifo.h): free-running 32-bit counters in and out over a buffer whose
    size is a power of two. */
module ByteFifo {
  import opened Bits

  type Byte = bv8

  ghost predicate RingOf(size: nat) {
    IsPow2(size) && size <= TWO_31
  }

  /** in - out in 32 bits */
  function Len(inn: nat, out: nat): (n: nat)
    requires inn < TWO_32 && out < TWO_32
    ensures n < TWO_32
  {
    U32(inn - out)
  }

  /** TWO_32 is a multiple of every ring size. */
  lemma {:induction false} Divides(size: nat) returns (m: nat)
    requires RingOf(size)
    ensures TWO_32 == size * m
  {
    Pow2At32();
    var k :| 0 <= k && size == Pow2(k);
    if k > 32 { Pow2Mono(32, k); }
    Pow2Add(k, 32 - k);
    m := Pow2(32 - k);
  }

  lemma {:induction false} Masked(x: nat, size: nat)
    requires IsPow2(size)
    ensures And(x, size - 1) == x % size < size
  {
    var k :| 0 <= k && size == Pow2(k);
    AndMask(x, k);
  }

  /** The buffer position of the i-th byte behind counter value c. */
  function Slot(c: nat, i: nat, size: nat): (k: nat)
    requires size > 0 && i < size
    ensures k < size
  {
    At(c % size, i, size)
  }

  /** The counters agree on positions, also after one of them wrapped: `d` bytes behind `c` is where
      the counter c + d points. */
  lemma {:induction false} CounterStep(c: nat, d: nat, size: nat)
    requires RingOf(size) && c < TWO_32 && d <= size
    ensures U32(c + d) % size == if d < size then Slot(c, d, size) else c % size
  {
    var b := c % size;
    var q := Decompose(c, size);
    var r := if b + d < size then b + d else b + d - size;
    var q' := if b + d < size then q else q + 1;
    MulSub(size, q + 1, 1);
    var m := Divides(size);
    Remainder(U32(c + d), size, q', if c + d < TWO_32 then 0 else m, r);
  }

  lemma Decompose(c: nat, size: nat) returns (q: nat)
    requires size > 0
    ensures c == size * q + c % size
  {
    q := c / size;
  }

  lemma Remainder(x: nat, size: nat, q: nat, m: nat, r: nat)
    requires r < size && x == size * q + r - size * m
    ensures x % size == r
  {
    Gap(size, q, m);
    MulSub(size, q, m);
    DivMod(x, size, q - m, r);
  }

  /** The n bytes stored from counter value `out` on. */
  ghost function Stored(buf: seq<Byte>, out: nat, n: nat): (s: seq<Byte>)
    requires 0 < |buf| && n <= |buf|
    ensures |s| == n
  {
    seq(n, i requires 0 <= i < n => buf[Slot(out, i, |buf|)])
  }

  /** What the two memcpy calls of fifo_put leave in the buffer. */
  ghost predicate Written(buf: seq<Byte>, buf': seq<Byte>, at: nat, data: seq<Byte>) {
    && |buf'| == |buf| && at < |buf| && |data| <= |buf|
    && (forall j :: 0 <= j < |data| ==> buf'[At(at, j, |buf|)] == data[j])
    && (forall p :: 0 <= p < |buf| && Used(p, at, |buf|) >= |data| ==> buf'[p] == buf[p])
  }

  /** memcpy of `data` to position `at`. */
  function Patched(buf: seq<Byte>, at: nat, data: seq<Byte>): (r: seq<Byte>)
    requires at + |data| <= |buf|
    ensures |r| == |buf|
    ensures forall p :: 0 <= p < |buf| ==> r[p] == if at <= p < at + |data| then data[p - at] else buf[p]
  {
    buf[..at] + data + buf[at + |data|..]
  }

  /** Writing behind the stored bytes appends. */
  lemma PutAppends(buf: seq<Byte>, buf': seq<Byte>, out: nat, n: nat, at: nat, data: seq<Byte>)
    requires 0 < |buf| && n + |data| <= |buf|
    requires at < |buf| && (n < |buf| ==> at == Slot(out, n, |buf|))
    requires Written(buf, buf', at, data)
    ensures Stored(buf', out, n + |data|) == Stored(buf, out, n) + data
  {
    var size := |buf|;
    forall i | 0 <= i < n + |data|
      ensures Stored(buf', out, n + |data|)[i] == (Stored(buf, out, n) + data)[i]
    {
      if i < n {
        assert Used(Slot(out, i, size), at, size) >= |data|;
      } else {
        assert Slot(out, i, size) == At(at, i - n, size);
      }
    }
  }

  /** Moving the out counter by d drops the d oldest bytes. */
  lemma GetDrops(buf: seq<Byte>, out: nat, n: nat, d: nat)
    requires RingOf(|buf|) && 0 < |buf| && d <= n <= |buf| && out < TWO_32
    ensures Stored(buf, U32(out + d), n - d) == Stored(buf, out, n)[d..]
  {
    CounterStep(out, d, |buf|);
  }

  lemma TwoCopies(buf: seq<Byte>, at: nat, data: seq<Byte>, l: nat)
    requires at < |buf| && |data| <= |buf| && l == Min(|data|, |buf| - at)
    ensures Written(buf, Patched(Patched(buf, at, data[..l]), 0, data[l..]), at, data)
  {
    var once := Patched(buf, at, data[..l]);
    assert l < |data| ==> at + l == |buf|;
    assert forall p :: 0 <= p < |buf| ==>
      Patched(once, 0, data[l..])[p] == if p < |data| - l then data[l + p] else once[p];
  }

  /** in is where the stored bytes end, and advancing it by what was put keeps it so. */
  lemma CountersAgree(inn: nat, out: nat, len: nat, size: nat)
    requires RingOf(size) && inn < TWO_32 && out < TWO_32 && Len(inn, out) + len <= size
    ensures Len(U32(inn + len), out) == Len(inn, out) + len
    ensures inn % size == if Len(inn, out) < size then Slot(out, Len(inn, out), size) else out % size
  {
    CounterStep(out, Len(inn, out), size);
  }

  class Fifo {
    const buffer: array<Byte>
    const size: nat
    var inn: nat
    var out: nat

    ghost predicate Valid()
      reads this, buffer
    {
      && RingOf(size) && buffer.Length == size
      && inn < TWO_32 && out < TWO_32
      && Len(inn, out) <= size
    }

    ghost function Contents(): (s: seq<Byte>)
      requires Valid()
      reads this, buffer
    {
      assert size > 0;
      Stored(buffer[..], out, Len(inn, out))
    }

    /** fifo_alloc */
    constructor (n: nat)
      requires RingOf(n)
      ensures Valid() && fresh(buffer) && size == n && Contents() == []
    {
      buffer := new Byte[n];
      size := n;
      inn, out := 0, 0;
    }

    /** fifo_len */
    function Length(): (n: nat)
      requires Valid()
      reads this, buffer
      ensures n == |Contents()|
    {
      Len(inn, out)
    }

    /** fifo_room: size - in + out in 32 bits is the space left, wrapped or not. */
    function Room(): (n: nat)
      requires Valid()
      reads this, buffer
      ensures n == size - |Contents()|
    {
      U32(U32(size - inn) + out)
    }

    /** memcpy into the buffer. */
    method CopyIn(at: nat, data: seq<Byte>)
      requires at + |data| <= buffer.Length
      modifies buffer
      ensures buffer[..] == Patched(old(buffer[..]), at, data)
    {
      for i := 0 to |data|
        invariant buffer[..] == old(buffer[..at]) + data[..i] + old(buffer[at + i..])
      {
        buffer[at + i] := data[i];
      }
    }

    /** The two copies of fifo_put: up to the end of the buffer, then from its beginning. */
    method WriteRing(at: nat, data: seq<Byte>)
      requires at < buffer.Length && |data| <= buffer.Length
      modifies buffer
      ensures Written(old(buffer[..]), buffer[..], at, data)
    {
      var l := Min(|data|, buffer.Length - at);
      TwoCopies(buffer[..], at, data, l);
      CopyIn(at, data[..l]);
      CopyIn(0, data[l..]);
    }

    /** fifo_put: appends the prefix of `data` that fits and returns its length. */
    method Put(data: seq<Byte>) returns (len: nat)
      requires Valid()
      modifies this`inn, buffer
      ensures Valid() && len == Min(|data|, size - |old(Contents())|)
      ensures Contents() == old(Contents()) + data[..len]
    {
      ghost var n, buf := Length(), buffer[..];
      len := Min(|data|, Room());
      Masked(inn, size);
      CountersAgree(inn, out, len, size);
      var at := And(inn, size - 1);
      WriteRing(at, data[..len]);
      PutAppends(buf, buffer[..], out, n, at, data[..len]);
      inn := U32(inn + len);
    }

    /** The two copies of fifo_get. */
    method ReadRing(len: nat) returns (data: seq<Byte>)
      requires Valid() && len <= |Contents()|
      ensures data == Contents()[..len]
    {
      Masked(out, size);
      var at := And(out, size - 1);
      var l := Min(len, size - at);
      data := buffer[at..at + l] + buffer[..len - l];
    }

    /** fifo_get: removes the oldest bytes, and returns them unless the caller passed no buffer. */
    method Get(wanted: nat, copy: bool) returns (len: nat, data: seq<Byte>)
      requires Valid()
      modifies this
      ensures Valid() && len == Min(wanted, |old(Contents())|)
      ensures data == if copy then old(Contents())[..len] else []
      ensures Contents() == old(Contents())[len..]
    {
      ghost var n := Length();
      len := Min(wanted, Len(inn, out));
      data := [];
      if copy {
        data := ReadRing(len);
      }
      GetDrops(buffer[..], out, n, len);
      out := U32(out + len);
      if inn == out {
        inn, out := 0, 0;
      }
    }
  }
}
