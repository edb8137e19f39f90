/**
  `MultiLabelMap`: a map of metrics together with an array of its entries kept sorted by
  label string. Methods run under the lock.
 */
module LabelMap {
  import opened Seqs
  import opened Strings

  datatype Entry<K, V> = Entry(key: K, labels: string, val: V)

  ghost predicate Injective<K(!new)>(labelOf: K -> string) {
    forall a, b :: labelOf(a) == labelOf(b) ==> a == b
  }

  ghost predicate Labelled<K, V>(labelOf: K -> string, s: seq<Entry<K, V>>) {
    forall i :: 0 <= i < |s| ==> s[i].labels == labelOf(s[i].key)
  }

  ghost predicate StrictlySorted<K, V>(s: seq<Entry<K, V>>) {
    forall i, j :: 0 <= i < j < |s| ==> Less(s[i].labels, s[j].labels)
  }

  ghost predicate HasKey<K, V>(s: seq<Entry<K, V>>, k: K) {
    exists i :: 0 <= i < |s| && s[i].key == k
  }

  /** The entries are the map's, one for each of its keys. */
  ghost predicate Mirrors<K(!new), V>(s: seq<Entry<K, V>>, m: map<K, V>) {
    && (forall i :: 0 <= i < |s| ==> s[i].key in m && m[s[i].key] == s[i].val)
    && (forall k :: k in m ==> HasKey(s, k))
  }

  ghost predicate Index<K(!new), V>(labelOf: K -> string, s: seq<Entry<K, V>>, m: map<K, V>) {
    Labelled(labelOf, s) && StrictlySorted(s) && Mirrors(s, m)
  }

  /** i is where ls is or belongs: all labels before are less, none from there on. */
  ghost predicate Position<K, V>(s: seq<Entry<K, V>>, ls: string, i: nat) {
    && i <= |s|
    && (forall j :: 0 <= j < i ==> Less(s[j].labels, ls))
    && (forall j :: i <= j < |s| ==> !Less(s[j].labels, ls))
  }

  /** A key is in the index exactly if it is at the position of its label. */
  lemma KeyAtPosition<K(!new), V>(labelOf: K -> string, s: seq<Entry<K, V>>, m: map<K, V>, k: K, i: nat)
    requires Index(labelOf, s, m) && Position(s, labelOf(k), i)
    ensures k in m <==> i < |s| && s[i].key == k
  {
    assert forall j :: i < j < |s| ==> Less(s[i].labels, s[j].labels);
    if k in m {
      assert HasKey(s, k);
      var j :| 0 <= j < |s| && s[j].key == k;
      LessIrreflexive(labelOf(k));
    }
  }

  /** Only keys with different labels can be indexed together. */
  lemma IndexNeedsInjective<K(!new), V>(labelOf: K -> string, s: seq<Entry<K, V>>, m: map<K, V>, a: K, b: K)
    requires Index(labelOf, s, m) && a in m && b in m && a != b
    ensures labelOf(a) != labelOf(b)
  {
    assert HasKey(s, a) && HasKey(s, b);
    var i :| 0 <= i < |s| && s[i].key == a;
    var j :| 0 <= j < |s| && s[j].key == b;
    LessIrreflexive(labelOf(a));
    assert Less(s[i].labels, s[j].labels) || Less(s[j].labels, s[i].labels);
  }

  function Inserted<T>(s: seq<T>, i: nat, x: T): seq<T>
    requires i <= |s|
  {
    s[..i] + [x] + s[i..]
  }

  lemma InsertedAt<T>(s: seq<T>, i: nat, x: T, k: nat)
    requires i <= |s| && k <= |s|
    ensures Inserted(s, i, x)[k] == if k < i then s[k] else if k == i then x else s[k - 1]
  {
  }

  lemma InsertSorted<K(!new), V>(labelOf: K -> string, s: seq<Entry<K, V>>, e: Entry<K, V>, i: nat)
    requires Injective(labelOf) && Labelled(labelOf, s) && StrictlySorted(s)
    requires e.labels == labelOf(e.key) && Position(s, e.labels, i)
    requires i < |s| ==> s[i].key != e.key
    ensures Labelled(labelOf, Inserted(s, i, e)) && StrictlySorted(Inserted(s, i, e))
  {
    var t := Inserted(s, i, e);
    forall j | i <= j < |s|
      ensures Less(e.labels, s[j].labels)
    {
      LessTotal(e.labels, s[i].labels);
      if i < j {
        LessTransitive(e.labels, s[i].labels, s[j].labels);
      }
    }
    forall a, b | 0 <= a < b < |t|
      ensures Less(t[a].labels, t[b].labels)
    {
    }
  }

  lemma InsertMirrors<K(!new), V>(s: seq<Entry<K, V>>, m: map<K, V>, e: Entry<K, V>, i: nat)
    requires Mirrors(s, m) && i <= |s| && e.key !in m
    ensures Mirrors(Inserted(s, i, e), m[e.key := e.val])
  {
    var t := Inserted(s, i, e);
    forall k | k in m[e.key := e.val]
      ensures HasKey(t, k)
    {
      if k == e.key {
        assert t[i].key == k;
      } else {
        assert HasKey(s, k);
        var j :| 0 <= j < |s| && s[j].key == k;
        assert t[if j < i then j else j + 1].key == k;
      }
    }
  }

  lemma InsertIndex<K(!new), V>(labelOf: K -> string, s: seq<Entry<K, V>>, m: map<K, V>, e: Entry<K, V>, i: nat)
    requires Injective(labelOf) && Index(labelOf, s, m)
    requires e.labels == labelOf(e.key) && Position(s, e.labels, i) && (i < |s| ==> s[i].key != e.key)
    ensures Index(labelOf, Inserted(s, i, e), m[e.key := e.val])
  {
    KeyAtPosition(labelOf, s, m, e.key, i);
    InsertSorted(labelOf, s, e, i);
    InsertMirrors(s, m, e, i);
  }

  lemma Distinct<K(!new), V>(labelOf: K -> string, s: seq<Entry<K, V>>, i: nat, j: nat)
    requires Labelled(labelOf, s) && StrictlySorted(s) && i < |s| && j < |s| && s[i].key == s[j].key
    ensures i == j
  {
    LessIrreflexive(s[i].labels);
    if i < j {
      assert false;
    }
    if j < i {
      assert false;
    }
  }

  lemma ReplaceIndex<K(!new), V>(labelOf: K -> string, s: seq<Entry<K, V>>, m: map<K, V>, i: nat, v: V)
    requires Index(labelOf, s, m) && i < |s|
    ensures Index(labelOf, s[i := s[i].(val := v)], m[s[i].key := v])
  {
    var t := s[i := s[i].(val := v)];
    forall k | k in m[s[i].key := v]
      ensures HasKey(t, k)
    {
      if k == s[i].key {
        assert t[i].key == k;
      } else {
        assert HasKey(s, k);
        var j :| 0 <= j < |s| && s[j].key == k;
        assert t[j].key == k;
      }
    }
    forall j | 0 <= j < |t|
      ensures t[j].key in m[s[i].key := v] && m[s[i].key := v][t[j].key] == t[j].val
    {
      if t[j].key == s[i].key {
        Distinct(labelOf, s, i, j);
      }
    }
  }

  lemma RemoveSorted<K(!new), V>(labelOf: K -> string, s: seq<Entry<K, V>>, i: nat)
    requires Labelled(labelOf, s) && StrictlySorted(s) && i < |s|
    ensures Labelled(labelOf, RemoveAt(s, i)) && StrictlySorted(RemoveAt(s, i))
  {
    forall a | 0 <= a < |s| - 1
      ensures RemoveAt(s, i)[a].labels == labelOf(RemoveAt(s, i)[a].key)
      ensures forall b :: a < b < |s| - 1 ==> Less(RemoveAt(s, i)[a].labels, RemoveAt(s, i)[b].labels)
    {
      RemovedAt(s, i, a);
      forall b | a < b < |s| - 1
        ensures Less(RemoveAt(s, i)[a].labels, RemoveAt(s, i)[b].labels)
      {
        RemovedAt(s, i, b);
      }
    }
  }

  lemma RemoveMirrors<K(!new), V>(labelOf: K -> string, s: seq<Entry<K, V>>, m: map<K, V>, i: nat)
    requires Index(labelOf, s, m) && i < |s|
    ensures Mirrors(RemoveAt(s, i), m - {s[i].key})
  {
    var t := RemoveAt(s, i);
    forall k | k in m - {s[i].key}
      ensures HasKey(t, k)
    {
      assert HasKey(s, k);
      var j :| 0 <= j < |s| && s[j].key == k;
      var a := if j < i then j else j - 1;
      RemovedAt(s, i, a);
      assert t[a].key == k;
    }
    forall j | 0 <= j < |t|
      ensures t[j].key in m - {s[i].key} && m[t[j].key] == t[j].val
    {
      RemovedAt(s, i, j);
      var a := if j < i then j else j + 1;
      if s[a].key == s[i].key {
        Distinct(labelOf, s, i, a);
      }
    }
  }

  lemma RemoveIndex<K(!new), V>(labelOf: K -> string, s: seq<Entry<K, V>>, m: map<K, V>, i: nat)
    requires Index(labelOf, s, m) && i < |s|
    ensures Index(labelOf, RemoveAt(s, i), m - {s[i].key})
  {
    RemoveSorted(labelOf, s, i);
    RemoveMirrors(labelOf, s, m, i);
  }

  class MultiLabelMap<K(==, !new), V> {
    const labelOf: K -> string
    var m: map<K, V>
    var buf: array<Entry<K, V>>
    var n: nat

    ghost predicate Valid()
      reads this, buf
    {
      n <= buf.Length && Injective(labelOf) && Index(labelOf, buf[..n], m)
    }

    constructor (labelOf: K -> string)
      requires Injective(labelOf)
      ensures Valid() && m == map[] && this.labelOf == labelOf && fresh(buf)
    {
      this.labelOf := labelOf;
      m := map[];
      buf := new Entry<K, V>[0];
      n := 0;
    }

    /** Binary search for the first label that is not less. */
    method Search(ls: string) returns (i: nat)
      requires Valid()
      ensures Position(buf[..n], ls, i)
    {
      var lo, hi := 0, n;
      ghost var s := buf[..n];
      while lo < hi
        invariant 0 <= lo <= hi <= n
        invariant forall j :: 0 <= j < lo ==> Less(s[j].labels, ls)
        invariant forall j :: hi <= j < n ==> !Less(s[j].labels, ls)
      {
        var mid := (lo + hi) / 2;
        if Less(buf[mid].labels, ls) {
          BelowAll(s, mid, ls);
          lo := mid + 1;
        } else {
          AboveAll(s, mid, ls);
          hi := mid;
        }
      }
      i := lo;
    }

    /** Makes room for one more entry, as append does when the backing array is full. */
    method Grow(filler: Entry<K, V>)
      requires n <= buf.Length
      modifies `buf
      ensures n < buf.Length && buf[..n] == old(buf[..n])
      ensures buf == old(buf) || fresh(buf)
    {
      if n == buf.Length {
        var bigger := new Entry<K, V>[2 * n + 1](_ => filler);
        var j := 0;
        while j < n
          invariant 0 <= j <= n && forall k :: 0 <= k < j ==> bigger[k] == buf[k]
          modifies bigger
        {
          bigger[j] := buf[j];
          j := j + 1;
        }
        buf := bigger;
      }
    }

    /** Shifts the entries from i on by one, the last one first since the ranges overlap, and puts e in the gap. */
    method Insert(i: nat, e: Entry<K, V>)
      requires i <= n < buf.Length
      modifies buf, `n
      ensures buf == old(buf) && n == old(n) + 1 && n <= buf.Length
      ensures buf[..n] == Inserted(old(buf[..n]), i, e)
    {
      Shift(i);
      buf[i] := e;
      ghost var s := old(buf[..n]);
      forall k | 0 <= k <= n
        ensures buf[k] == Inserted(s, i, e)[k]
      {
        InsertedAt(s, i, e, k);
      }
      n := n + 1;
      assert buf[..n] == Inserted(s, i, e);
    }

    method Shift(i: nat)
      requires i <= n < buf.Length
      modifies buf
      ensures forall k :: 0 <= k < i ==> buf[k] == old(buf[k])
      ensures forall k :: i < k <= n ==> buf[k] == old(buf[k - 1])
    {
      var j := n;
      while j > i
        invariant i <= j <= n
        invariant forall k :: 0 <= k < j ==> buf[k] == old(buf[k])
        invariant forall k :: j < k <= n ==> buf[k] == old(buf[k - 1])
      {
        buf[j] := buf[j - 1];
        j := j - 1;
      }
    }

    method AddKey(key: K, val: V)
      requires Valid()
      modifies this, buf
      ensures n <= buf.Length && Injective(labelOf) && Index(labelOf, buf[..n], m[key := val]) && m == old(m)
      ensures buf == old(buf) || fresh(buf)
    {
      var ls := labelOf(key);
      var e := Entry(key, ls, val);
      var i := Search(ls);
      ghost var s := buf[..n];
      KeyAtPosition(labelOf, s, m, key, i);
      if i < n && buf[i].key == key {
        ReplaceIndex(labelOf, s, m, i, val);
        buf[i] := buf[i].(val := val);
        assert buf[..n] == s[i := s[i].(val := val)];
      } else {
        InsertIndex(labelOf, s, m, e, i);
        Grow(e);
        Insert(i, e);
      }
    }
  
    method Set(key: K, val: V)
      requires Valid()
      modifies this, buf
      ensures Valid() && m == old(m)[key := val]
      ensures buf == old(buf) || fresh(buf)
    {
      AddKey(key, val);
      m := m[key := val];
    }

    /** The value of a key, filled in once if there is none. */
    method GetOrFill(key: K, fill: V) returns (v: V)
      requires Valid()
      modifies this, buf
      ensures Valid() && key in m && v == m[key]
      ensures m == if key in old(m) then old(m) else old(m)[key := fill]
      ensures buf == old(buf) || fresh(buf)
    {
      if key in m {
        return m[key];
      }
      AddKey(key, fill);
      m := m[key := fill];
      return fill;
    }

    method Delete(key: K)
      requires Valid()
      modifies `m, `n, buf
      ensures Valid() && m == old(m) - {key} && buf == old(buf)
    {
      var i := Search(labelOf(key));
      ghost var s := buf[..n];
      KeyAtPosition(labelOf, s, m, key, i);
      if i < n && buf[i].key == key {
        RemoveIndex(labelOf, s, m, i);
        CloseGap(i);
        m := m - {key};
      }
    }

    /** Shifts the entries after i down by one. */
    method CloseGap(i: nat)
      requires i < n <= buf.Length
      modifies `n, buf
      ensures buf == old(buf) && n == old(n) - 1 && buf[..n] == RemoveAt(old(buf[..n]), i)
    {
      ghost var s := buf[..n];
      var j := i;
      while j < n - 1
        invariant i <= j <= n - 1 && n == old(n)
        invariant forall k :: 0 <= k < i || j <= k - 1 < n - 1 ==> buf[k] == s[k]
        invariant forall k :: i <= k < j ==> buf[k] == s[k + 1]
      {
        buf[j] := buf[j + 1];
        j := j + 1;
      }
      n := n - 1;
      forall k | 0 <= k < n
        ensures buf[k] == RemoveAt(s, i)[k]
      {
        RemovedAt(s, i, k);
      }
      assert buf[..n] == RemoveAt(s, i);
    }

    /** Removes all keys. */
    method Init()
      requires Valid()
      modifies this
      ensures Valid() && m == map[] && n == 0 && fresh(buf)
    {
      buf := new Entry<K, V>[0];
      n := 0;
      m := map[];
    }
  }

  lemma BelowAll<K, V>(s: seq<Entry<K, V>>, mid: nat, ls: string)
    requires StrictlySorted(s) && mid < |s| && Less(s[mid].labels, ls)
    ensures forall j :: 0 <= j <= mid ==> Less(s[j].labels, ls)
  {
    forall j | 0 <= j < mid
      ensures Less(s[j].labels, ls)
    {
      LessTransitive(s[j].labels, s[mid].labels, ls);
    }
  }

  lemma AboveAll<K, V>(s: seq<Entry<K, V>>, mid: nat, ls: string)
    requires StrictlySorted(s) && mid < |s| && !Less(s[mid].labels, ls)
    ensures forall j :: mid <= j < |s| ==> !Less(s[j].labels, ls)
  {
    forall j | mid < j < |s|
      ensures !Less(s[j].labels, ls)
    {
      if Less(s[j].labels, ls) {
        LessTransitive(s[mid].labels, s[j].labels, ls);
      }
    }
  }
}
