/** Where the scan keeps its members: slabs of doubling size, the first of sixteen. */
module SlabStores {
  import opened Members
  import opened Decoding

  /** A scanned member and the index of its field, or -1 if it has none. */
  datatype Entry = Entry(member: Member, field: int)

  const MAX_SLAB: nat := 54

  function SlabSize(k: nat): (n: nat)
    ensures n >= 16
  {
    if k == 0 then 16 else 2 * SlabSize(k - 1)
  }

  /** How many places the slabs before the k-th have. */
  function SlabStart(k: nat): nat {
    if k == 0 then 0 else SlabStart(k - 1) + SlabSize(k - 1)
  }

  lemma {:induction false} StartIsSize(k: nat)
    ensures SlabStart(k) == SlabSize(k) - 16
  {
    if k > 0 {
      StartIsSize(k - 1);
    }
  }

  lemma NineLater(k: nat, n: nat)
    requires SlabSize(k) == n
    ensures SlabSize(k + 9) == 512 * n
  {
    assert SlabSize(k + 1) == 2 * n;
    assert SlabSize(k + 2) == 4 * n;
    assert SlabSize(k + 3) == 8 * n;
    assert SlabSize(k + 4) == 16 * n;
    assert SlabSize(k + 5) == 32 * n;
    assert SlabSize(k + 6) == 64 * n;
    assert SlabSize(k + 7) == 128 * n;
    assert SlabSize(k + 8) == 256 * n;
  }

  /** All slabs together have room for just the most members there may be. */
  lemma {:induction false} Capacity(k: nat)
    requires k == MAX_SLAB
    ensures SlabStart(k) + SlabSize(k) == MAX_MEMBERS
  {
    NineLater(0, 16);
    NineLater(9, 0x2000);
    NineLater(18, 0x40_0000);
    NineLater(27, 0x8000_0000);
    NineLater(36, 0x100_0000_0000);
    NineLater(45, 0x2_0000_0000_0000);
    StartIsSize(k);
  }

  /** The index of the last slab there may be. */
  method LastSlab() returns (k: nat)
    ensures SlabStart(k) + SlabSize(k) == MAX_MEMBERS
  {
    k := MAX_SLAB;
    Capacity(k);
  }

  /** The comparison with the size of a slab is a 32-bit one; it is sound as long as there are less than
      2^32 - 16 members, which is where the slab with index 28 would begin. */
  lemma {:induction false} SlabsInWords(k: nat, n: nat)
    requires SlabStart(k) <= n < 0xFFFF_FFF0
    ensures k < 28 && SlabSize(k) <= 0x8000_0000
  {
    NineLater(0, 16);
    NineLater(9, 0x2000);
    NineLater(18, 0x40_0000);
    assert SlabSize(28) == 0x1_0000_0000;
    if k >= 28 {
      StartIsSize(28);
      if k > 28 {
        StartsGrow(28, k);
      }
    } else if k < 27 {
      StartsGrow(k, 27);
      StartIsSize(27);
    }
  }

  lemma {:induction false} StartsGrow(j: nat, k: nat)
    requires j < k
    ensures SlabStart(j) + SlabSize(j) <= SlabStart(k)
  {
    if j < k - 1 {
      StartsGrow(j, k - 1);
    }
  }

  /** There is room behind a slab that is not the last one. */
  lemma {:induction false} RoomBehind(k: nat, max: nat)
    requires k <= max
    ensures SlabStart(k) + SlabSize(k) <= SlabStart(max) + SlabSize(max)
    ensures k < max ==> SlabStart(k) + SlabSize(k) < SlabStart(max) + SlabSize(max)
  {
    if k < max {
      StartsGrow(k, max);
    }
  }

  function Joined(parts: seq<seq<Entry>>): seq<Entry> {
    if |parts| == 0 then [] else parts[0] + Joined(parts[1..])
  }

  lemma {:induction false} JoinedMore(parts: seq<seq<Entry>>, part: seq<Entry>)
    ensures Joined(parts + [part]) == Joined(parts) + part
  {
    var all := parts + [part];
    if |parts| == 0 {
      assert all[1..] == [];
    } else {
      assert all[1..] == parts[1..] + [part];
      JoinedMore(parts[1..], part);
    }
  }

  class Slabs {
    /** The last slab there may be. */
    const maxSlab: nat
    var slabs: seq<array<Entry>>
    var whichSlab: nat
    var inSlabIndex: nat
    /** Everything added, in order. */
    ghost var entries: seq<Entry>
    ghost var repr: set<object>

    ghost predicate Valid()
      reads this, repr
    {
      && this !in repr && (forall k | 0 <= k < |slabs| :: slabs[k] in repr)
      && |slabs| == whichSlab + 1 <= maxSlab + 1
      && SlabStart(maxSlab) + SlabSize(maxSlab) == MAX_MEMBERS
      && (forall j, k {:trigger Differ(slabs[j], slabs[k])} | 0 <= j < k < |slabs| :: Differ(slabs[j], slabs[k]))
      && inSlabIndex <= SlabSize(whichSlab) && |entries| == SlabStart(whichSlab) + inSlabIndex
      && (forall k | 0 <= k < |slabs| :: Filled(k))
    }

    static predicate Differ(a: array<Entry>, b: array<Entry>) {
      a != b
    }

    /** How many places of a slab are taken: all of them before the last slab. */
    function Taken(k: nat): nat
      reads `whichSlab, `inSlabIndex
    {
      if k == whichSlab then inSlabIndex else SlabSize(k)
    }

    /** The entries of a slab, in their places. */
    ghost predicate Filled(k: nat)
      requires k < |slabs|
      reads `slabs, `whichSlab, `inSlabIndex, `entries, slabs[k]
    {
      && slabs[k].Length == SlabSize(k)
      && Taken(k) <= SlabSize(k) && SlabStart(k) + Taken(k) <= |entries|
      && forall j {:trigger slabs[k][j]} | 0 <= j < Taken(k) :: slabs[k][j] == entries[SlabStart(k) + j]
    }

    constructor ()
      ensures Valid() && entries == [] && fresh(repr)
    {
      var last := LastSlab();
      maxSlab := last;
      var first := new Entry[16];
      slabs := [first];
      whichSlab, inSlabIndex, entries, repr := 0, 0, [], {first};
      new;
      assert Filled(0);
    }

    /** A scanned member goes into the next place, in a new slab if the last is full. */
    method Add(e: Entry) returns (ok: bool)
      requires Valid()
      modifies this, repr
      ensures ok == (|old(entries)| < MAX_MEMBERS) && fresh(repr - old(repr))
      ensures ok ==> Valid() && entries == old(entries) + [e]
    {
      RoomBehind(whichSlab, maxSlab);
      if inSlabIndex == SlabSize(whichSlab) {
        if whichSlab == maxSlab {
          return false;
        }
        NewSlab();
        RoomBehind(whichSlab, maxSlab);
      }
      Put(e);
      ok := true;
    }

    method Put(e: Entry)
      requires Valid() && inSlabIndex < SlabSize(whichSlab)
      modifies `inSlabIndex, `entries, slabs[whichSlab]
      ensures Valid() && entries == old(entries) + [e]
    {
      assert Filled(whichSlab);
      slabs[whichSlab][inSlabIndex] := e;
      inSlabIndex := inSlabIndex + 1;
      entries := entries + [e];
      forall k | 0 <= k < |slabs| ensures Filled(k) {
        assert old(Filled(k)) && (k < whichSlab ==> Differ(slabs[k], slabs[whichSlab]));
      }
    }

    method NewSlab()
      requires Valid() && inSlabIndex == SlabSize(whichSlab) && whichSlab < maxSlab
      modifies `slabs, `whichSlab, `inSlabIndex, `repr
      ensures Valid() && entries == old(entries) && inSlabIndex == 0 && whichSlab == old(whichSlab) + 1
      ensures fresh(repr - old(repr)) && fresh(slabs[whichSlab])
    {
      ghost var was := slabs;
      var slab := new Entry[SlabSize(whichSlab + 1)];
      inSlabIndex := 0;
      whichSlab := whichSlab + 1;
      slabs, repr := slabs + [slab], repr + {slab};
      forall k | 0 <= k < |slabs| ensures Filled(k) {
        if k < whichSlab {
          assert old(Filled(k)) && slabs[k] == was[k];
        }
      }
      forall j, k | 0 <= j < k < |slabs| ensures Differ(slabs[j], slabs[k]) {
        if k < whichSlab {
          assert Differ(was[j], was[k]);
        }
      }
    }

    /** Reading the slabs in order gives the members in the order they were added. */
    method Get(k: nat) returns (slab: array<Entry>, max: nat)
      requires Valid() && k <= whichSlab
      ensures max <= slab.Length && slab in repr
      ensures SlabStart(k) + max == (if k < whichSlab then SlabStart(k + 1) else |entries|)
      ensures SlabStart(k) + max <= |entries|
      ensures forall j {:trigger slab[j]} | 0 <= j < max :: slab[j] == entries[SlabStart(k) + j]
    {
      assert Filled(k);
      slab := slabs[k];
      max := if k == whichSlab then inSlabIndex else SlabSize(k);
    }

    /** What the second pass reads, slab after slab, is everything added, in order. */
    method Parts() returns (parts: seq<seq<Entry>>)
      requires Valid()
      ensures |parts| == whichSlab + 1 && Joined(parts) == entries
    {
      parts := [];
      var k := 0;
      ghost var p: nat := 0;
      while k <= whichSlab
        invariant k == |parts| <= whichSlab + 1 && p <= |entries| && Joined(parts) == entries[..p]
        invariant p == if k <= whichSlab then SlabStart(k) else |entries|
      {
        var slab, max := Get(k);
        assert entries[..p] + slab[..max] == entries[..p + max];
        JoinedMore(parts, slab[..max]);
        parts, k, p := parts + [slab[..max]], k + 1, p + max;
      }
    }
  }
}
