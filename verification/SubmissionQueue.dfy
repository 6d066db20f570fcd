/** The allocation bitmap of the hardware submission queues (fcl/fcl.c): one bit per entry, 32 to a word,
    one bitmap per channel. */
module SubmissionQueue {
  import opened Bits

  const TOTAL_CHANNEL: nat := 4
  const HW_QUEUE_DEPTH: nat := 256
  const WORDS: nat := 8
  const INVALID_INDEX: nat := 0xffff_ffff

  type Bitmap = b: seq<nat> | |b| == WORDS && forall i :: 0 <= i < WORDS ==> b[i] < TWO_32
    witness [0, 0, 0, 0, 0, 0, 0, 0]

  predicate IsTaken(b: Bitmap, index: nat)
    requires index < HW_QUEUE_DEPTH
  {
    Bit(b[index / 32], index % 32)
  }

  /** The entries handed out. */
  ghost function Taken(b: Bitmap): set<nat> {
    set index | 0 <= index < HW_QUEUE_DEPTH && IsTaken(b, index)
  }

  lemma {:induction false} Pow2At(j: nat)
    requires j < 32
    ensures Pow2(j) < TWO_32 && Pow2(32) == TWO_32
  {
    Pow2At32();
    Pow2Mono(j, 32);
  }

  /** hw_sq_bitmap[i] |= (1 << j) */
  function SetBit(w: nat, j: nat): nat {
    Or(w, Pow2(j))
  }

  /** hw_sq_bitmap[i] &= ~(1 << j) */
  function ClearBit(w: nat, j: nat): nat
    requires j < 32
  {
    Pow2At(j);
    And(w, TWO_32 - 1 - Pow2(j))
  }

  lemma {:induction false} SetBitEffect(w: nat, j: nat)
    requires w < TWO_32 && j < 32
    ensures SetBit(w, j) < TWO_32
    ensures forall i :: 0 <= i < 32 ==> (Bit(SetBit(w, j), i) <==> Bit(w, i) || i == j)
  {
    Pow2At(j);
    ShrSmall(Pow2(j), 32);
    OrSmall(w, Pow2(j), 32);
    forall i | 0 <= i < 32 ensures Bit(SetBit(w, j), i) <==> Bit(w, i) || i == j {
      BitOr(w, Pow2(j), i);
      BitPow2(j, i);
    }
  }

  lemma {:induction false} ClearBitEffect(w: nat, j: nat)
    requires w < TWO_32 && j < 32
    ensures ClearBit(w, j) < TWO_32
    ensures forall i :: 0 <= i < 32 ==> (Bit(ClearBit(w, j), i) <==> Bit(w, i) && i != j)
  {
    Pow2At(j);
    AndBound(w, TWO_32 - 1 - Pow2(j));
    forall i | 0 <= i < 32 ensures Bit(ClearBit(w, j), i) <==> Bit(w, i) && i != j {
      BitAnd(w, TWO_32 - 1 - Pow2(j), i);
      BitComplement(Pow2(j), 32, i);
      BitPow2(j, i);
    }
  }

  lemma SetTaken(b: Bitmap, i: nat, j: nat, w: nat)
    requires i < WORDS && j < 32 && w == SetBit(b[i], j) && w < TWO_32
    ensures var b': Bitmap := b[i := w]; Taken(b') == Taken(b) + {32 * i + j}
  {
    SetBitEffect(b[i], j);
    var b': Bitmap := b[i := w];
    forall x | 0 <= x < HW_QUEUE_DEPTH ensures x in Taken(b') <==> x in Taken(b) || x == 32 * i + j {
      assert x == 32 * (x / 32) + x % 32;
    }
  }

  lemma ClearTaken(b: Bitmap, index: nat, w: nat)
    requires index < HW_QUEUE_DEPTH && w == ClearBit(b[index / 32], index % 32) && w < TWO_32
    ensures var b': Bitmap := b[index / 32 := w]; Taken(b') == Taken(b) - {index}
  {
    ClearBitEffect(b[index / 32], index % 32);
    var b': Bitmap := b[index / 32 := w];
    forall x | 0 <= x < HW_QUEUE_DEPTH ensures x in Taken(b') <==> x in Taken(b) && x != index {
      assert x == 32 * (x / 32) + x % 32;
    }
  }

  class Queues {
    var bitmaps: seq<Bitmap>

    ghost predicate Valid()
      reads this
    {
      |bitmaps| == TOTAL_CHANNEL
    }

    /** The entries of a channel that are out. */
    ghost function Out(ch: nat): set<nat>
      requires Valid() && ch < TOTAL_CHANNEL
      reads this
    {
      Taken(bitmaps[ch])
    }

    /** FCL_init_hw_queue */
    constructor ()
      ensures Valid() && forall ch :: 0 <= ch < TOTAL_CHANNEL ==> Out(ch) == {}
    {
      bitmaps := seq(TOTAL_CHANNEL, _ => [0, 0, 0, 0, 0, 0, 0, 0]);
      new;
      forall i: nat ensures !Bit(0, i) { ShrZero(i); }
    }

    /** FCL_get_free_SQ_entry: the lowest free entry, or INVALID_INDEX exactly when there is none. */
    method GetFreeEntry(ch: nat) returns (index: nat)
      requires Valid() && ch < TOTAL_CHANNEL
      modifies this
      ensures Valid() && forall c :: 0 <= c < TOTAL_CHANNEL && c != ch ==> bitmaps[c] == old(bitmaps)[c]
      ensures (forall x :: 0 <= x < HW_QUEUE_DEPTH ==> x in old(Out(ch))) ==>
        index == INVALID_INDEX && bitmaps == old(bitmaps)
      ensures (exists x :: 0 <= x < HW_QUEUE_DEPTH && x !in old(Out(ch))) ==>
        && index < HW_QUEUE_DEPTH && index !in old(Out(ch))
        && (forall x :: 0 <= x < index ==> x in old(Out(ch)))
        && Out(ch) == old(Out(ch)) + {index}
    {
      ghost var out := Out(ch);
      var i := 0;
      while i < WORDS
        invariant 0 <= i <= WORDS && bitmaps == old(bitmaps)
        invariant forall x :: 0 <= x < 32 * i ==> x in out
      {
        var j := 0;
        while j < 32
          invariant 0 <= j <= 32 && bitmaps == old(bitmaps)
          invariant forall x :: 0 <= x < 32 * i + j ==> x in out
        {
          var w := bitmaps[ch][i];
          BitTest(w, j);
          assert (32 * i + j) / 32 == i && (32 * i + j) % 32 == j;
          if Shr(And(w, Pow2(j)), j) == 0 {
            SetBitEffect(w, j);
            assert 32 * i + j !in out;
            SetTaken(bitmaps[ch], i, j, SetBit(w, j));
            bitmaps := bitmaps[ch := bitmaps[ch][i := SetBit(w, j)]];
            return 32 * i + j;
          }
          j := j + 1;
        }
        i := i + 1;
      }
      return INVALID_INDEX;
    }

    /** FCL_SQ_empty: TRUE exactly when an allocation would fail. */
    method NoneFree(ch: nat) returns (r: bool)
      requires Valid() && ch < TOTAL_CHANNEL
      ensures r <==> forall x :: 0 <= x < HW_QUEUE_DEPTH ==> x in Out(ch)
    {
      var i := 0;
      while i < WORDS
        invariant 0 <= i <= WORDS
        invariant forall x :: 0 <= x < 32 * i ==> x in Out(ch)
      {
        var j := 0;
        while j < 32
          invariant 0 <= j <= 32
          invariant forall x :: 0 <= x < 32 * i + j ==> x in Out(ch)
        {
          BitTest(bitmaps[ch][i], j);
          assert (32 * i + j) / 32 == i && (32 * i + j) % 32 == j;
          if Shr(And(bitmaps[ch][i], Pow2(j)), j) == 0 {
            assert 32 * i + j !in Out(ch);
            return false;
          }
          j := j + 1;
        }
        i := i + 1;
      }
      return true;
    }

    /** FCL_free_SQ_entry */
    method FreeEntry(ch: nat, index: nat)
      requires Valid() && ch < TOTAL_CHANNEL && index < HW_QUEUE_DEPTH
      modifies this
      ensures Valid() && Out(ch) == old(Out(ch)) - {index}
      ensures forall c :: 0 <= c < TOTAL_CHANNEL && c != ch ==> bitmaps[c] == old(bitmaps)[c]
    {
      var w := ClearBit(bitmaps[ch][index / 32], index % 32);
      ClearBitEffect(bitmaps[ch][index / 32], index % 32);
      ClearTaken(bitmaps[ch], index, w);
      bitmaps := bitmaps[ch := bitmaps[ch][index / 32 := w]];
    }
  }
}
