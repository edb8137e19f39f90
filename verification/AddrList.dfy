/**
  The sorted address lists of the app connector. They are values to most of the model; at the
  end they are slices, which share an array with the snapshots published of them.
 */
module AddrList {
  import opened Seqs
  import opened Routes

  /** The order of `netip.Addr.Compare`: IPv4 before IPv6, then by value. */
  function Ord(a: Ip): nat {
    if a.V4? then a.v4 else 0x1_0000_0000 + a.v6
  }

  /** Shorter addresses first, then by value; and different addresses never tie. */
  lemma OrdCompares(a: Ip, b: Ip)
    ensures Ord(a) < Ord(b) <==> BitLen(a) < BitLen(b) || (BitLen(a) == BitLen(b) && Num(a) < Num(b))
    ensures Ord(a) == Ord(b) <==> a == b
  {
  }

  predicate StrictlySorted(s: seq<Ip>) {
    forall i, j :: 0 <= i < j < |s| ==> Ord(s[i]) < Ord(s[j])
  }

  predicate Ascending(s: seq<Ip>) {
    forall i, j :: 0 <= i < j < |s| ==> Ord(s[i]) <= Ord(s[j])
  }

  function Insert(s: seq<Ip>, a: Ip): (r: seq<Ip>)
    ensures |r| == |s| + 1
  {
    if s != [] && Ord(a) < Ord(s[|s| - 1]) then Insert(s[..|s| - 1], a) + [s[|s| - 1]] else s + [a]
  }

  function Sort(s: seq<Ip>): seq<Ip> {
    if s == [] then [] else Insert(Sort(s[..|s| - 1]), s[|s| - 1])
  }

  function At(s: seq<Ip>, k: nat, a: Ip): seq<Ip>
    requires k <= |s|
  {
    s[..k] + [a] + s[k..]
  }

  /** a goes to position k: after what is not greater, before what is. */
  ghost predicate Position(s: seq<Ip>, a: Ip, k: nat) {
    && k <= |s|
    && (forall i :: 0 <= i < k ==> Ord(s[i]) <= Ord(a))
    && (forall i :: k <= i < |s| ==> Ord(a) < Ord(s[i]))
  }

  lemma AtInit(s: seq<Ip>, a: Ip, k: nat)
    requires k < |s|
    ensures At(s, k, a) == At(s[..|s| - 1], k, a) + [s[|s| - 1]]
  {
    SplitAt2(s, k, |s| - 1);
    Assoc(s[..k] + [a], s[k..|s| - 1], s[|s| - 1..]);
  }

  lemma {:induction false} InsertAt(s: seq<Ip>, a: Ip, k: nat)
    requires Position(s, a, k)
    ensures Insert(s, a) == At(s, k, a)
  {
    if k < |s| {
      var init, last := s[..|s| - 1], s[|s| - 1];
      InsertAt(init, a, k);
      AtInit(s, a, k);
    } else {
      assert At(s, k, a) == s + [a];
    }
  }

  lemma {:induction false} HasPosition(s: seq<Ip>, a: Ip) returns (k: nat)
    requires Ascending(s)
    ensures Position(s, a, k)
  {
    if s == [] || Ord(s[|s| - 1]) <= Ord(a) {
      k := |s|;
    } else {
      k := HasPosition(s[..|s| - 1], a);
    }
  }

  lemma AtElement(s: seq<Ip>, k: nat, a: Ip, i: nat)
    requires k <= |s| && i <= |s|
    ensures At(s, k, a)[i] == if i < k then s[i] else if i == k then a else s[i - 1]
  {
  }

  lemma AtAscending(s: seq<Ip>, a: Ip, k: nat)
    requires Ascending(s) && Position(s, a, k)
    ensures Ascending(At(s, k, a))
  {
    forall i, j | 0 <= i < j < |s| + 1
      ensures Ord(At(s, k, a)[i]) <= Ord(At(s, k, a)[j])
    {
      AtElement(s, k, a, i);
      AtElement(s, k, a, j);
    }
  }

  lemma AtStrict(s: seq<Ip>, a: Ip, k: nat)
    requires StrictlySorted(s) && Position(s, a, k)
    ensures StrictlySorted(At(s, k, a)) <==> a !in s
  {
    if a in s {
      var i :| 0 <= i < |s| && s[i] == a;
      assert i < k;
      AtElement(s, k, a, i);
      AtElement(s, k, a, k);
    } else {
      forall i, j | 0 <= i < j < |s| + 1
        ensures Ord(At(s, k, a)[i]) < Ord(At(s, k, a)[j])
      {
        AtElement(s, k, a, i);
        AtElement(s, k, a, j);
        assert s[i] in s;
      }
    }
  }

  lemma AtMultiset(s: seq<Ip>, a: Ip, k: nat)
    requires k <= |s|
    ensures multiset(At(s, k, a)) == multiset(s) + multiset{a}
    ensures forall x :: x in At(s, k, a) <==> x in s || x == a
  {
    SplitAt(s, k);
    assert multiset(s) == multiset(s[..k]) + multiset(s[k..]);
  }

  lemma InsertLast(s: seq<Ip>)
    requires s != [] && Ascending(s)
    ensures Insert(s[..|s| - 1], s[|s| - 1]) == s
  {
    var init := s[..|s| - 1];
    assert init == [] || init[|init| - 1] == s[|s| - 2];
    assert init + [s[|s| - 1]] == s;
  }

  lemma {:induction false} SortedIsFixed(s: seq<Ip>)
    requires Ascending(s)
    ensures Sort(s) == s
  {
    if s != [] {
      SortedIsFixed(s[..|s| - 1]);
      InsertLast(s);
    }
  }

  lemma SortIsInsert(s: seq<Ip>, a: Ip)
    requires Ascending(s)
    ensures Sort(s + [a]) == Insert(s, a)
  {
    assert (s + [a])[..|s + [a]| - 1] == s;
    SortedIsFixed(s);
  }

  /**
    Appending an address and sorting adds it once more, in order; the list stays strictly
    sorted exactly if the address was not there.
   */
  lemma AppendAndSort(s: seq<Ip>, a: Ip)
    requires StrictlySorted(s)
    ensures Ascending(Sort(s + [a])) && multiset(Sort(s + [a])) == multiset(s) + multiset{a}
    ensures forall x :: x in Sort(s + [a]) <==> x in s || x == a
    ensures StrictlySorted(Sort(s + [a])) <==> a !in s
  {
    SortIsInsert(s, a);
    var k := HasPosition(s, a);
    InsertAt(s, a, k);
    AtAscending(s, a, k);
    AtStrict(s, a, k);
    AtMultiset(s, a, k);
  }

  // ----- lists as slices -----

  /** A slice from the start of an array, whose length is the capacity. */
  datatype Slice = Slice(arr: array<Ip>, len: nat)

  ghost function Contents(s: Slice): seq<Ip>
    requires s.len <= s.arr.Length
    reads s.arr
  {
    s.arr[..s.len]
  }

  /** Sorting when only the last element may be out of order, in place. */
  method SortLast(arr: array<Ip>, n: nat)
    requires 0 < n <= arr.Length && Ascending(arr[..n - 1])
    modifies arr
    ensures arr[..n] == Insert(old(arr[..n - 1]), old(arr[n - 1]))
  {
    ghost var s, a := arr[..n - 1], arr[n - 1];
    var i := n - 1;
    while i > 0 && Ord(arr[i]) < Ord(arr[i - 1])
      invariant 0 <= i < n && arr[..n] == At(s, i, a)
      invariant forall k :: i <= k < n - 1 ==> Ord(a) < Ord(s[k])
    {
      AtAround(arr[..n], s, i, a);
      assert arr[..n][i] == a && arr[..n][i - 1] == s[i - 1];
      Swap(arr, n, i);
      AtSwap(s, i, a);
      i := i - 1;
    }
    AtAround(arr[..n], s, i, a);
    assert arr[i] == arr[..n][i] && (i > 0 ==> arr[i - 1] == arr[..n][i - 1]);
    InsertAt(s, a, i);
  }

  method Swap(arr: array<Ip>, n: nat, i: nat)
    requires 0 < i < n <= arr.Length
    modifies arr
    ensures arr[..n] == old(arr[..n])[i := old(arr[i - 1])][i - 1 := old(arr[i])]
  {
    arr[i], arr[i - 1] := arr[i - 1], arr[i];
  }

  lemma AtAround(t: seq<Ip>, s: seq<Ip>, i: nat, a: Ip)
    requires i <= |s| && t == At(s, i, a)
    ensures t[i] == a && (i > 0 ==> t[i - 1] == s[i - 1])
  {
  }

  lemma AtSwap(s: seq<Ip>, i: nat, a: Ip)
    requires 0 < i <= |s|
    ensures At(s, i, a)[i := s[i - 1]][i - 1 := a] == At(s, i - 1, a)
  {
  }

  /** `addDomainAddrLocked` on one list: Go's append, which writes in place while there is room, then sorting. */
  method Add(s: Slice, a: Ip, grow: nat) returns (t: Slice)
    requires s.len <= s.arr.Length && Ascending(Contents(s))
    modifies s.arr
    ensures t.len == s.len + 1 <= t.arr.Length && Contents(t) == Insert(old(Contents(s)), a)
    ensures s.len < s.arr.Length ==> t.arr == s.arr
    ensures s.len == s.arr.Length ==> fresh(t.arr) && s.arr[..] == old(s.arr[..])
  {
    var arr := s.arr;
    if s.len == s.arr.Length {
      arr := new Ip[s.len + 1 + grow](i reads s.arr => if 0 <= i < s.arr.Length then s.arr[i] else a);
    }
    arr[s.len] := a;
    assert arr[..s.len] == old(Contents(s));
    SortLast(arr, s.len + 1);
    t := Slice(arr, s.len + 1);
  }

  function InsertAll(s: seq<Ip>, xs: seq<Ip>): (r: seq<Ip>)
    ensures |r| == |s| + |xs|
  {
    if xs == [] then s else Insert(InsertAll(s, xs[..|xs| - 1]), xs[|xs| - 1])
  }

  /** Of the elements published, the first of the list, some have been replaced by lesser ones. */
  ghost predicate Spoiled(s: seq<Ip>, t: seq<Ip>) {
    |s| <= |t| && exists k :: 0 <= k < |s| && Ord(t[k]) < Ord(s[k])
  }

  /** The address does not get in among those published. */
  predicate Beyond(s: seq<Ip>, x: Ip) {
    s == [] || Ord(s[|s| - 1]) <= Ord(x)
  }

  predicate AllBeyond(s: seq<Ip>, xs: seq<Ip>) {
    forall x :: x in xs ==> Beyond(s, x)
  }

  /** One address more leaves what was published alone, or spoils it. */
  lemma InsertPublished(s: seq<Ip>, t: seq<Ip>, x: Ip)
    requires Ascending(t) && s <= t
    ensures if Beyond(s, x) then s <= Insert(t, x) else Spoiled(s, Insert(t, x))
  {
    var k := HasPosition(t, x);
    InsertAt(t, x, k);
    if Beyond(s, x) {
      assert s == [] || s[|s| - 1] == t[|s| - 1];
      TakeLeft(t[..k], [x] + t[k..], |s|);
      Assoc(t[..k], [x], t[k..]);
    } else {
      assert k < |s| && s[k] == t[k];
      AtElement(t, k, x, k);
    }
  }

  lemma InsertSpoiled(s: seq<Ip>, t: seq<Ip>, x: Ip)
    requires Ascending(t) && Spoiled(s, t)
    ensures Spoiled(s, Insert(t, x))
  {
    var i :| 0 <= i < |s| && Ord(t[i]) < Ord(s[i]);
    var k := HasPosition(t, x);
    InsertAt(t, x, k);
    AtElement(t, k, x, i);
    assert Ord(At(t, k, x)[i]) < Ord(s[i]);
  }

  lemma {:induction false} PublishedIff(s: seq<Ip>, xs: seq<Ip>)
    requires Ascending(s)
    ensures var t := InsertAll(s, xs);
      Ascending(t) && (if AllBeyond(s, xs) then s <= t else Spoiled(s, t))
  {
    if xs != [] {
      var init, x := xs[..|xs| - 1], xs[|xs| - 1];
      PublishedIff(s, init);
      BeyondMore(s, xs);
      PublishedMore(s, InsertAll(s, init), x, AllBeyond(s, init));
    }
  }

  lemma BeyondMore(s: seq<Ip>, xs: seq<Ip>)
    requires xs != []
    ensures AllBeyond(s, xs) <==> AllBeyond(s, xs[..|xs| - 1]) && Beyond(s, xs[|xs| - 1])
  {
    assert xs == xs[..|xs| - 1] + [xs[|xs| - 1]];
  }

  lemma PublishedMore(s: seq<Ip>, t: seq<Ip>, x: Ip, same: bool)
    requires Ascending(t) && if same then s <= t else Spoiled(s, t)
    ensures Ascending(Insert(t, x))
    ensures if same && Beyond(s, x) then s <= Insert(t, x) else Spoiled(s, Insert(t, x))
  {
    var k := HasPosition(t, x);
    InsertAt(t, x, k);
    AtAscending(t, x, k);
    if same {
      InsertPublished(s, t, x);
    } else {
      InsertSpoiled(s, t, x);
    }
  }

  /** How many addresses fit in before the array is left to the snapshot. */
  function InPlace(s: Slice, n: nat): nat
    requires s.len <= s.arr.Length
  {
    if n <= s.arr.Length - s.len then n else s.arr.Length - s.len
  }

  /**
    Addresses added after a list was published, which shares the slice with the subscriber.
    What the subscriber reads is still what was published iff none of the addresses that were
    added in place is less than the last one published.
   */
  method AddAll(s: Slice, xs: seq<Ip>, grow: nat) returns (t: Slice)
    requires s.len <= s.arr.Length && Ascending(Contents(s))
    modifies s.arr
    ensures t.len <= t.arr.Length && Contents(t) == InsertAll(old(Contents(s)), xs)
    ensures Contents(s) <= InsertAll(old(Contents(s)), xs[..InPlace(s, |xs|)])
    ensures Contents(s) == old(Contents(s)) <==> AllBeyond(old(Contents(s)), xs[..InPlace(s, |xs|)])
  {
    ghost var was, room := Contents(s), s.arr.Length - s.len;
    t := s;
    PublishedIff(was, []);
    for i := 0 to |xs|
      invariant t.len == s.len + i <= t.arr.Length && Contents(t) == InsertAll(was, xs[..i]) && Ascending(Contents(t))
      invariant i <= room ==> t.arr == s.arr
      invariant i > room ==> fresh(t.arr) && Contents(s) <= InsertAll(was, xs[..room])
    {
      assert i == room ==> Contents(s) <= Contents(t);
      MoreAscending(was, xs, i);
      t := Add(t, xs[i], grow);
    }
    assert xs[..|xs|] == xs;
    assert |xs| <= room ==> Contents(s) <= Contents(t);
    StillSame(was, xs[..InPlace(s, |xs|)]);
  }

  lemma MoreAscending(s: seq<Ip>, xs: seq<Ip>, i: nat)
    requires Ascending(s) && i < |xs|
    ensures Insert(InsertAll(s, xs[..i]), xs[i]) == InsertAll(s, xs[..i + 1])
    ensures Ascending(InsertAll(s, xs[..i + 1]))
  {
    assert xs[..i + 1][..i] == xs[..i];
    PublishedIff(s, xs[..i + 1]);
  }

  lemma StillSame(s: seq<Ip>, xs: seq<Ip>)
    requires Ascending(s)
    ensures s <= InsertAll(s, xs) <==> AllBeyond(s, xs)
  {
    PublishedIff(s, xs);
  }

  /** A list with room to spare is published, and then a lesser address added: the subscriber reads that one. */
  method PublishedChanges(a: Ip, b: Ip) returns (before: seq<Ip>, after: seq<Ip>)
    requires Ord(a) < Ord(b)
    ensures before == [b] && after == [a]
  {
    var arr := new Ip[2](_ => b);
    var published := Slice(arr, 1);
    before := published.arr[..1];
    var list := Add(published, a, 0);
    InsertAt([b], a, 0);
    assert Contents(list)[..1] == [a];
    after := published.arr[..1];
  }
}
