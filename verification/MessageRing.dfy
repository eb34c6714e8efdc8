/** The gossip duplicate cache as it runs: two arrays written round robin. */
module MessageRing {
  import opened Machine
  import opened Sorting
  import opened Windows
  import W = MessageWindow

  function Zip(hashes: seq<W.Digest>, origins: seq<W.Identity>): (entries: seq<W.Entry>)
    requires |hashes| == |origins|
    ensures |entries| == |hashes|
  {
    seq(|hashes|, i requires 0 <= i < |hashes| => W.Entry(hashes[i], origins[i]))
  }

  /** Counting over the slots in use gives the count over the entries by age. */
  lemma CountUnrolled(slots: seq<W.Entry>, next: nat, filled: nat, p: W.Entry -> bool)
    requires IsRing(|slots|, next, filled)
    ensures Count(slots[..filled], p) == Count(Unrolled(slots, next, filled), p)
  {
    hide Count;
    if filled == |slots| {
      assert slots[..filled] == slots[..next] + slots[next..];
      CountConcat(slots[..next], slots[next..], p);
      CountConcat(slots[next..], slots[..next], p);
    }
  }

  class MessageCache {
    const hashes: array<W.Digest>
    const origins: array<W.Identity>
    var next: nat
    var filled: nat

    ghost predicate Valid()
      reads this
    {
      && hashes != origins
      && hashes.Length == origins.Length
      && IsRing(hashes.Length, next, filled)
    }

    ghost function Slots(): seq<W.Entry>
      requires hashes.Length == origins.Length
      reads this, hashes, origins
    {
      Zip(hashes[..], origins[..])
    }

    /** The entries, oldest first. */
    ghost function Contents(): seq<W.Entry>
      requires Valid()
      reads this, hashes, origins
    {
      Unrolled(Slots(), next, filled)
    }

    constructor (capacity: nat)
      ensures Valid() && Contents() == [] && hashes.Length == capacity && fresh(hashes) && fresh(origins)
    {
      hashes := new W.Digest[capacity](_ => []);
      origins := new W.Identity[capacity](_ => []);
      next, filled := 0, 0;
    }

    method Contains(hash: W.Digest) returns (found: bool)
      requires Valid()
      ensures found <==> W.Holds(Contents(), hash)
    {
      ghost var w := Contents();
      for i := 0 to filled
        invariant forall j :: 0 <= j < i ==> Slots()[j].hash != hash
      {
        if hashes[i] == hash {
          assert Slots()[i].hash == hash;
          ghost var k := if filled < hashes.Length then i else if i >= next then i - next else hashes.Length - next + i;
          assert w[k] == Slots()[i];
          return true;
        }
      }
      assert forall k :: 0 <= k < |w| ==> w[k] in Slots()[..filled];
      return false;
    }

    method CountFor(origin: W.Identity) returns (n: nat)
      requires Valid()
      ensures n == Count(Contents(), W.By(origin))
    {
      hide Count, Unrolled;
      n := 0;
      assert Count(Slots()[..0], W.By(origin)) == 0 by { EmptyCount(Slots(), origin); }
      for i := 0 to filled
        invariant n == Count(Slots()[..i], W.By(origin))
      {
        assert Slots()[..i + 1] == Slots()[..i] + [Slots()[i]];
        CountNext(Slots()[..i], Slots()[i], W.By(origin));
        assert Slots()[i].origin == origins[i];
        if origins[i] == origin {
          n := n + 1;
        }
      }
      CountUnrolled(Slots(), next, filled, W.By(origin));
    }

    /** The oldest slot of `origin`, scanning by age. */
    method OldestSlotOf(origin: W.Identity) returns (slot: Option<nat>)
      requires Valid()
      ensures var k := W.OldestOf(Contents(), origin, 0);
              slot == if k < filled then Some(SlotAt(hashes.Length, next, filled, k)) else None
    {
      hide SlotAt, Unrolled;
      for k := 0 to filled
        invariant W.OldestOf(Contents(), origin, 0) == W.OldestOf(Contents(), origin, k)
      {
        var idx := SlotAt(hashes.Length, next, filled, k);
        UnrolledAt(Slots(), next, filled, k);
        if origins[idx] == origin {
          return Some(idx);
        }
      }
      return None;
    }

    method Insert(hash: W.Digest, origin: W.Identity)
      requires Valid()
      modifies this, hashes, origins
      ensures Valid()
      ensures Contents() == W.Insert(old(Contents()), W.Entry(hash, origin), hashes.Length)
    {
      hide Count, Unrolled, Last, SlotAt, W.OldestOf, W.Quota;
      ghost var w, slots := Contents(), Slots();
      if hashes.Length == 0 {
        return;
      }
      var n := CountFor(origin);
      if n >= W.Quota(hashes.Length) {
        var slot := OldestSlotOf(origin);
        if slot.Some? {
          ghost var k := W.OldestOf(w, origin, 0);
          ReplaceUnrolls(slots, next, filled, k, W.Entry(hash, origin));
          UnrolledAt(slots, next, filled, k);
          hashes[slot.value] := hash;
          assert Slots() == slots[slot.value := W.Entry(hash, origin)];
        }
        return;
      }
      PushUnrolls(slots, next, filled, W.Entry(hash, origin));
      hashes[next] := hash;
      origins[next] := origin;
      assert Slots() == slots[next := W.Entry(hash, origin)];
      next := Successor(next, hashes.Length);
      if filled < hashes.Length {
        filled := filled + 1;
      }
    }
  }

  lemma EmptyCount(slots: seq<W.Entry>, origin: W.Identity)
    ensures Count(slots[..0], W.By(origin)) == 0
  {
  }
}
