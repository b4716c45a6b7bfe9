/** lib/bitmap.cc: an array of bits packed into 32-bit words, refining a set of indices. */
module Bitmaps {
  import opened Layout

  const BITS_IN_WORD: nat := 32

  type Index32 = i: nat | i < BITS_IN_WORD

  /** A shift count as the machine word the shift takes. */
  function ShiftCount(i: Index32): bv32 {
    (i as bv5) as bv32
  }

  /** 1 << i */
  function Mask(i: Index32): bv32 {
    (1 as bv32) << ShiftCount(i)
  }

  predicate Meets(w: bv32, mask: bv32) {
    w & mask != 0
  }

  predicate Apart(m: bv32, n: bv32) {
    m & n == 0
  }

  predicate BitOn(w: bv32, i: Index32) {
    Meets(w, Mask(i))
  }

  function SetBit(w: bv32, i: Index32): bv32 {
    w | Mask(i)
  }

  function ClearBit(w: bv32, i: Index32): bv32 {
    w & !Mask(i)
  }

  lemma Narrow(a: bv5, b: bv5)
    ensures a as bv32 < 32
    ensures a as bv32 == b as bv32 ==> a == b
  {
  }

  lemma IndexConversion(i: Index32)
    ensures (i as bv5) as int == i
  {
  }

  lemma CountBound(i: Index32)
    ensures ShiftCount(i) < 32
  {
    Narrow(i as bv5, 0);
  }

  lemma CountsDiffer(i: Index32, j: Index32)
    requires ShiftCount(i) == ShiftCount(j)
    ensures i == j
  {
    Narrow(i as bv5, j as bv5);
    IndexConversion(i);
    IndexConversion(j);
  }

  lemma SingleBits(i: bv32, j: bv32)
    requires i < 32 && j < 32 && i != j
    ensures ((1 as bv32) << i) & ((1 as bv32) << j) == 0
  {
  }

  lemma SingleBit(i: bv32)
    requires i < 32
    ensures (1 as bv32) << i != 0
  {
  }

  lemma OrMask(w: bv32, m: bv32, n: bv32)
    requires Apart(m, n)
    ensures Meets(w | m, n) <==> Meets(w, n)
  {
  }

  lemma AndNotMask(w: bv32, m: bv32, n: bv32)
    requires Apart(m, n)
    ensures Meets(w & !m, n) <==> Meets(w, n)
  {
  }

  lemma SameMask(w: bv32, m: bv32)
    ensures !Meets(w & !m, m)
    ensures m != 0 ==> Meets(w | m, m)
  {
  }

  lemma MaskIsNotZero(i: Index32)
    ensures Mask(i) != 0
  {
    hide ShiftCount;
    CountBound(i);
    SingleBit(ShiftCount(i));
  }

  lemma MasksAreDisjoint(i: Index32, j: Index32)
    requires i != j
    ensures Apart(Mask(i), Mask(j))
  {
    hide ShiftCount;
    CountBound(i);
    CountBound(j);
    if ShiftCount(i) == ShiftCount(j) {
      CountsDiffer(i, j);
    }
    SingleBits(ShiftCount(i), ShiftCount(j));
  }

  lemma SameBit(w: bv32, i: Index32)
    ensures BitOn(SetBit(w, i), i) && !BitOn(ClearBit(w, i), i)
  {
    hide Mask, Meets, Apart;
    MaskIsNotZero(i);
    SameMask(w, Mask(i));
  }

  lemma SetOtherBit(w: bv32, i: Index32, j: Index32)
    requires i != j
    ensures BitOn(SetBit(w, i), j) <==> BitOn(w, j)
  {
    hide Mask, Meets, Apart;
    MasksAreDisjoint(i, j);
    OrMask(w, Mask(i), Mask(j));
  }

  lemma ClearOtherBit(w: bv32, i: Index32, j: Index32)
    requires i != j
    ensures BitOn(ClearBit(w, i), j) <==> BitOn(w, j)
  {
    hide Mask, Meets, Apart;
    MasksAreDisjoint(i, j);
    AndNotMask(w, Mask(i), Mask(j));
  }

  /** Setting or clearing bit i says nothing about any other bit. */
  lemma BitUpdated(w: bv32, i: Index32, j: Index32)
    ensures BitOn(SetBit(w, i), j) <==> i == j || BitOn(w, j)
    ensures BitOn(ClearBit(w, i), j) <==> i != j && BitOn(w, j)
  {
    hide *;
    if i == j {
      SameBit(w, i);
    } else {
      SetOtherBit(w, i, j);
      ClearOtherBit(w, i, j);
    }
  }

  predicate TestBit(words: seq<bv32>, i: nat)
    requires i < |words| * BITS_IN_WORD
  {
    BitOn(words[i / BITS_IN_WORD], i % BITS_IN_WORD)
  }

  /** The indices below `bits` whose bit is on. */
  ghost function MarkedIn(words: seq<bv32>, bits: nat): (s: set<int>)
    requires bits <= |words| * BITS_IN_WORD
  {
    set i: int | 0 <= i < bits && TestBit(words, i)
  }

  class Bitmap {
    const numBits: nat
    const words: array<bv32>

    ghost predicate Valid()
      reads this
    {
      numBits > 0 && words.Length == DivRoundUp(numBits, BITS_IN_WORD)
    }

    ghost function Marked(): (s: set<int>)
      requires Valid()
      reads this, words
      ensures forall i <- s :: 0 <= i < numBits
    {
      MarkedIn(words[..], numBits)
    }

    constructor (numItems: nat)
      requires numItems > 0
      ensures Valid() && fresh(words) && numBits == numItems
      ensures Marked() == {}
    {
      numBits := numItems;
      words := new bv32[DivRoundUp(numItems, BITS_IN_WORD)];
      new;
      for i := 0 to words.Length
        invariant forall k :: 0 <= k < i ==> words[k] == 0
      {
        words[i] := 0;
      }
      for i := 0 to numBits
        invariant Marked() == {}
      {
        Clear(i);
      }
    }

    method Mark(which: nat)
      requires Valid() && which < numBits
      modifies words
      ensures Marked() == old(Marked()) + {which}
    {
      hide BitOn, SetBit, ClearBit;
      words[which / BITS_IN_WORD] := SetBit(words[which / BITS_IN_WORD], which % BITS_IN_WORD);
      forall i: nat | i < numBits
        ensures TestBit(words[..], i) <==> i == which || old(TestBit(words[..], i))
      {
        if i / BITS_IN_WORD == which / BITS_IN_WORD {
          BitUpdated(old(words[which / BITS_IN_WORD]), which % BITS_IN_WORD, i % BITS_IN_WORD);
        }
      }
    }

    method Clear(which: nat)
      requires Valid() && which < numBits
      modifies words
      ensures Marked() == old(Marked()) - {which}
    {
      hide BitOn, SetBit, ClearBit;
      words[which / BITS_IN_WORD] := ClearBit(words[which / BITS_IN_WORD], which % BITS_IN_WORD);
      forall i: nat | i < numBits
        ensures TestBit(words[..], i) <==> i != which && old(TestBit(words[..], i))
      {
        if i / BITS_IN_WORD == which / BITS_IN_WORD {
          BitUpdated(old(words[which / BITS_IN_WORD]), which % BITS_IN_WORD, i % BITS_IN_WORD);
        }
      }
    }

    method Test(which: nat) returns (on: bool)
      requires Valid() && which < numBits
      ensures on <==> which in Marked()
    {
      on := BitOn(words[which / BITS_IN_WORD], which % BITS_IN_WORD);
    }

    /** Finds the first clear bit and sets it; -1 when every bit is set. */
    method FindAndSet() returns (r: int)
      requires Valid()
      modifies words
      ensures r == -1 ==> (forall i: int :: 0 <= i < numBits ==> i in old(Marked())) && Marked() == old(Marked())
      ensures r != -1 ==> 0 <= r < numBits && r !in old(Marked()) && Marked() == old(Marked()) + {r}
      ensures forall i: int :: 0 <= i < r ==> i in old(Marked())
    {
      for i := 0 to numBits
        invariant forall k: int :: 0 <= k < i ==> k in old(Marked())
        invariant words[..] == old(words[..])
      {
        var on := Test(i);
        if !on {
          Mark(i);
          return i;
        }
      }
      return -1;
    }

    method NumClear() returns (count: nat)
      requires Valid()
      ensures count == numBits - |Marked()|
    {
      hide BitOn;
      count := 0;
      ghost var seen: set<int> := {};
      for i := 0 to numBits
        invariant forall k: int :: k in seen <==> 0 <= k < i && k in Marked()
        invariant count == i - |seen|
      {
        var on := Test(i);
        if !on {
          count := count + 1;
        } else {
          assert i !in seen;
          seen := seen + {i};
        }
      }
      assert seen == Marked();
    }
  }

  lemma {:induction false} RangeSize(n: nat, s: set<int>)
    requires forall i: int :: i in s <==> 0 <= i < n
    ensures |s| == n
  {
    if n > 0 {
      assert n - 1 in s;
      RangeSize(n - 1, s - {n - 1});
    } else {
      assert forall i: int :: i !in s;
      assert s == {};
    }
  }

  /** FindAndSet, with its outcome in terms of how many bits are on. */
  method TakeClear(items: Bitmap) returns (index: int)
    requires items.Valid()
    modifies items.words
    ensures index == -1 <==> |old(items.Marked())| == items.numBits
    ensures index == -1 ==> items.Marked() == old(items.Marked())
    ensures index != -1 ==>
              && 0 <= index < items.numBits && index !in old(items.Marked())
              && items.Marked() == old(items.Marked()) + {index}
              && |items.Marked()| == |old(items.Marked())| + 1
    ensures |items.Marked()| <= items.numBits
  {
    hide MarkedIn;
    ghost var before := items.Marked();
    index := items.FindAndSet();
    if index == -1 {
      RangeSize(items.numBits, before);
    } else {
      SubrangeSize(items.numBits, items.Marked());
    }
  }

  lemma {:induction false} SubrangeSize(n: nat, s: set<int>)
    requires forall i <- s :: 0 <= i < n
    ensures |s| <= n
  {
    if n > 0 {
      SubrangeSize(n - 1, s - {n - 1});
    } else {
      assert forall i: int :: i !in s;
      assert s == {};
    }
  }
}
