/** Operations the remap loop performs on the mapped slot table: translate
    the host addresses that fall in a region, remove the slots that fall in
    a region while keeping the others in order, and drop a region record by
    moving the last record into its place. */
module SlotTable {
  import opened Kernel
  import opened Abi

  /** A slot whose host address lies in `[lo, hi)`. */
  predicate InRange(s: Memslot, lo: u64, hi: u64) {
    lo <= s.hostBase < hi
  }

  /** The slots outside `[lo, hi)`, in their original order. */
  function Outside(s: seq<Memslot>, lo: u64, hi: u64): (r: seq<Memslot>)
    ensures |r| <= |s|
    decreases |s|
  {
    if |s| == 0 then []
    else if InRange(s[0], lo, hi) then Outside(s[1..], lo, hi)
    else [s[0]] + Outside(s[1..], lo, hi)
  }

  /** Removal keeps exactly the slots outside the range. */
  lemma {:induction false} OutsideExactly(s: seq<Memslot>, lo: u64, hi: u64)
    ensures forall x :: x in Outside(s, lo, hi) <==> x in s && !InRange(x, lo, hi)
    decreases |s|
  {
    if |s| > 0 {
      OutsideExactly(s[1..], lo, hi);
      assert s == [s[0]] + s[1..];
    }
  }

  /** Removal is a compaction: what remains is a sub-multiset of the
      table. */
  lemma {:induction false} OutsideSubMultiset(s: seq<Memslot>, lo: u64, hi: u64)
    ensures multiset(Outside(s, lo, hi)) <= multiset(s)
    decreases |s|
  {
    if |s| > 0 {
      var t := s[1..];
      OutsideSubMultiset(t, lo, hi);
      assert s == [s[0]] + t;
      assert multiset(s) == multiset{s[0]} + multiset(t);
      if !InRange(s[0], lo, hi) {
        assert multiset([s[0]] + Outside(t, lo, hi)) == multiset{s[0]} + multiset(Outside(t, lo, hi));
      }
    }
  }

  /** The same for the guest ranges the slots describe. */
  lemma {:induction false} OutsideSubGuests(s: seq<Memslot>, lo: u64, hi: u64)
    ensures multiset(Guests(Outside(s, lo, hi))) <= multiset(Guests(s))
    decreases |s|
  {
    if |s| > 0 {
      var t := s[1..];
      OutsideSubGuests(t, lo, hi);
      GuestsCons(s[0], t);
      assert s == [s[0]] + t;
      if !InRange(s[0], lo, hi) {
        GuestsCons(s[0], Outside(t, lo, hi));
      }
    }
  }

  lemma GuestsCons(x: Memslot, t: seq<Memslot>)
    ensures multiset(Guests([x] + t)) == multiset{GuestOf(x)} + multiset(Guests(t))
  {
    assert Guests([x] + t) == [GuestOf(x)] + Guests(t);
  }

  /** Removal keeps the relative order, so a table sorted by guest base
      stays sorted. */
  lemma {:induction false} OutsideSorted(s: seq<Memslot>, lo: u64, hi: u64)
    requires SortedByBase(s)
    ensures SortedByBase(Outside(s, lo, hi))
    decreases |s|
  {
    if |s| > 0 {
      assert SortedByBase(s[1..]) by {
        forall i, j | 0 <= i < j < |s[1..]|
          ensures MemslotCompare(s[1..][i], s[1..][j]) <= 0
        {
          assert s[1..][i] == s[i + 1] && s[1..][j] == s[j + 1];
        }
      }
      OutsideSorted(s[1..], lo, hi);
      if !InRange(s[0], lo, hi) {
        var t := Outside(s[1..], lo, hi);
        OutsideExactly(s[1..], lo, hi);
        forall j | 0 <= j < |t|
          ensures s[0].base <= t[j].base
        {
          assert t[j] in s[1..];
          var k :| 0 <= k < |s[1..]| && s[1..][k] == t[j];
          assert MemslotCompare(s[0], s[k + 1]) <= 0;
        }
        var r := [s[0]] + t;
        forall i, j | 0 <= i < j < |r|
          ensures MemslotCompare(r[i], r[j]) <= 0
        {
          if i > 0 {
            assert r[i] == t[i - 1] && r[j] == t[j - 1];
          } else {
            assert r[j] == t[j - 1];
          }
        }
      }
    }
  }

  /** Drops element `o`, moving the elements after it one place down: the
      inner loop of the removal. */
  method ShiftLeft(a: seq<Memslot>, o: nat) returns (b: seq<Memslot>)
    requires o < |a|
    ensures |b| == |a| - 1
    ensures b == a[..o] + a[o + 1..]
  {
    b := a;
    var u := o;
    while u < |a| - 1
      invariant o <= u <= |a| - 1
      invariant |b| == |a|
      invariant b[..u] == a[..o] + a[o + 1..u + 1]
      invariant b[u + 1..] == a[u + 1..]
    {
      assert b[u + 1] == a[u + 1];
      assert a[o + 1..u + 2] == a[o + 1..u + 1] + [a[u + 1]];
      b := b[u := b[u + 1]];
      assert b[..u + 1] == b[..u] + [a[u + 1]];
      u := u + 1;
    }
    b := b[..|a| - 1];
  }

  /** Removal of a suffix that starts at `o`, one slot at a time. */
  lemma OutsideFrom(s: seq<Memslot>, o: nat, lo: u64, hi: u64)
    requires o < |s|
    ensures Outside(s[o..], lo, hi) ==
      (if InRange(s[o], lo, hi) then [] else [s[o]]) + Outside(s[o + 1..], lo, hi)
  {
    assert s[o..][0] == s[o] && s[o..][1..] == s[o + 1..];
  }

  /** One iteration of the removal loop: slot `o` is compacted away if it
      lies in the range. */
  method RemoveAt(slots: seq<Memslot>, r: seq<Memslot>, o: nat, lo: u64, hi: u64) returns (r': seq<Memslot>)
    requires o < |slots| && r == slots[..o + 1] + Outside(slots[o + 1..], lo, hi)
    ensures r' == slots[..o] + Outside(slots[o..], lo, hi)
  {
    var rest := Outside(slots[o + 1..], lo, hi);
    OutsideFrom(slots, o, lo, hi);
    assert slots[..o + 1] == slots[..o] + [slots[o]];
    assert r == slots[..o] + [slots[o]] + rest;
    assert r[o] == slots[o];
    if InRange(slots[o], lo, hi) {
      r' := ShiftLeft(r, o);
      assert r'[..o] == slots[..o] && r'[o..] == rest;
      assert r' == slots[..o] + rest;
    } else {
      r' := r;
    }
  }

  /** What removal keeps, in one place: exactly the slots outside the
      range, as a sub-multiset, in sorted order if the table was sorted. */
  lemma OutsideFacts(slots: seq<Memslot>, lo: u64, hi: u64)
    ensures forall x :: x in Outside(slots, lo, hi) <==> x in slots && !InRange(x, lo, hi)
    ensures multiset(Outside(slots, lo, hi)) <= multiset(slots)
    ensures SortedByBase(slots) ==> SortedByBase(Outside(slots, lo, hi))
  {
    OutsideExactly(slots, lo, hi);
    OutsideSubMultiset(slots, lo, hi);
    if SortedByBase(slots) {
      OutsideSorted(slots, lo, hi);
    }
  }

  /** The removal loop of `remap_vmas`: walks the table from the back and
      compacts every slot in `[lo, hi)` away. */
  method RemoveSlotsInRange(slots: seq<Memslot>, lo: u64, hi: u64) returns (r: seq<Memslot>)
    ensures r == Outside(slots, lo, hi)
    ensures forall x :: x in r <==> x in slots && !InRange(x, lo, hi)
    ensures multiset(r) <= multiset(slots)
    ensures SortedByBase(slots) ==> SortedByBase(r)
  {
    r := slots;
    var n := |slots|;
    assert slots[n..] == [] && slots[..n] == slots;
    while n > 0
      invariant 0 <= n <= |slots|
      invariant r == slots[..n] + Outside(slots[n..], lo, hi)
    {
      r := RemoveAt(slots, r, n - 1, lo, hi);
      n := n - 1;
    }
    assert slots[0..] == slots;
    OutsideFacts(slots, lo, hi);
  }

  /** Every slot in `[lo, hi)` moved by `offset` modulo 2^64; the others
      untouched. */
  function ShiftIn(s: seq<Memslot>, lo: u64, hi: u64, offset: u64): (r: seq<Memslot>)
    ensures |r| == |s|
    ensures forall k :: 0 <= k < |s| ==> r[k] == Shifted(s[k], lo, hi, offset)
  {
    seq(|s|, k requires 0 <= k < |s| => Shifted(s[k], lo, hi, offset))
  }

  function Shifted(s: Memslot, lo: u64, hi: u64, offset: u64): Memslot {
    if InRange(s, lo, hi) then s.(hostBase := Add64(s.hostBase, offset)) else s
  }

  /** Translation changes host addresses only: guest bases and sizes, and
      so the order by base, are kept. */
  lemma ShiftInKeepsGuests(s: seq<Memslot>, lo: u64, hi: u64, offset: u64)
    ensures Guests(ShiftIn(s, lo, hi, offset)) == Guests(s)
    ensures SortedByBase(s) ==> SortedByBase(ShiftIn(s, lo, hi, offset))
  {
    var r := ShiftIn(s, lo, hi, offset);
    if SortedByBase(s) {
      forall i, j | 0 <= i < j < |r|
        ensures MemslotCompare(r[i], r[j]) <= 0
      {
        assert r[i].base == s[i].base && r[j].base == s[j].base;
        assert MemslotCompare(s[i], s[j]) <= 0;
      }
    }
  }

  /** The translation loop of `remap_vmas`. */
  method ShiftSlotsInRange(slots: seq<Memslot>, lo: u64, hi: u64, offset: u64) returns (r: seq<Memslot>)
    ensures |r| == |slots|
    ensures forall k :: 0 <= k < |slots| && InRange(slots[k], lo, hi) ==>
      r[k].hostBase == (slots[k].hostBase + offset) % TwoTo64
    ensures forall k :: 0 <= k < |slots| && !InRange(slots[k], lo, hi) ==> r[k] == slots[k]
    ensures Guests(r) == Guests(slots)
  {
    r := slots;
    var o := 0;
    while o < |r|
      invariant 0 <= o <= |r| == |slots|
      invariant forall k :: 0 <= k < o ==> r[k] == Shifted(slots[k], lo, hi, offset)
      invariant r[o..] == slots[o..]
    {
      assert r[o] == slots[o];
      if InRange(r[o], lo, hi) {
        r := r[o := r[o].(hostBase := Add64(r[o].hostBase, offset))];
      }
      o := o + 1;
    }
    assert r == ShiftIn(slots, lo, hi, offset);
    ShiftInKeepsGuests(slots, lo, hi, offset);
  }

  /** Swap-remove: the last element takes the place of element `i` and the
      sequence shrinks by one. */
  function SwapRemove<T>(s: seq<T>, i: nat): (r: seq<T>)
    requires i < |s|
    ensures |r| == |s| - 1
    ensures r[..i] == s[..i]
    ensures i < |r| ==> r[i] == s[|s| - 1] && r[i + 1..] == s[i + 1..|s| - 1]
    ensures multiset(r) == multiset(s) - multiset{s[i]}
  {
    SwapRemoveParts(s, i);
    s[i := s[|s| - 1]][..|s| - 1]
  }

  lemma SwapRemoveParts<T>(s: seq<T>, i: nat)
    requires i < |s|
    ensures s == s[..i] + [s[i]] + s[i + 1..]
    ensures i < |s| - 1 ==> s[i := s[|s| - 1]][..|s| - 1] == s[..i] + [s[|s| - 1]] + s[i + 1..|s| - 1]
    ensures i < |s| - 1 ==> s[i + 1..] == s[i + 1..|s| - 1] + [s[|s| - 1]]
    ensures i == |s| - 1 ==> s[i := s[|s| - 1]][..|s| - 1] == s[..i]
  {
  }
}
