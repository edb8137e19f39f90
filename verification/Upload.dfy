/**
  `UploadLogs`: entries are collected in one buffer as a JSON array and sent in batches.
  Whether the context is cancelled, an entry can be encoded and an upload succeeds are
  decided by the environment. A character stands for a byte.
 */
module Upload {
  import opened Bytes
  import opened Seqs

  /** An entry as the loop meets it: the context may be cancelled, and encoding may fail. */
  datatype Item = Item(cancelled: bool, enc: Option<string>)

  /** What JSON encoding delivers: something, and not ending in a comma. */
  predicate Encoding(e: string) {
    e != "" && e[|e| - 1] != ','
  }

  // ----- JSON arrays -----

  function Commas(g: seq<string>): string {
    if g == [] then ""
    else if |g| == 1 then g[0]
    else Commas(g[..|g| - 1]) + "," + g[|g| - 1]
  }

  function JsonArray(g: seq<string>): string {
    "[" + Commas(g) + "]"
  }

  /** The buffer: every entry followed by a comma. */
  function Buffered(g: seq<string>): string {
    if g == [] then "[" else Buffered(g[..|g| - 1]) + g[|g| - 1] + ","
  }

  function TrimCommas(s: string): string {
    if s != "" && s[|s| - 1] == ',' then TrimCommas(s[..|s| - 1]) else s
  }

  lemma {:induction false} BufferedIs(g: seq<string>)
    ensures Buffered(g) == "[" + Commas(g) + if g == [] then "" else ","
  {
    if g == [] {
      EmptyConcat("[");
    } else {
      var n := |g| - 1;
      BufferedIs(g[..n]);
      if n == 0 {
        EmptyConcat("[");
      } else {
        Assoc("[", Commas(g[..n]), ",");
        Assoc("[", Commas(g[..n]) + ",", g[n]);
      }
    }
  }

  lemma EndsEncoded(g: seq<string>)
    requires g != [] && Encoding(g[|g| - 1])
    ensures Commas(g) != "" && Commas(g)[|Commas(g)| - 1] != ','
  {
  }

  /** Dropping the trailing comma and closing the bracket makes the buffer the JSON array of its entries. */
  lemma ClosedBuffer(g: seq<string>)
    requires g != [] && Encoding(g[|g| - 1])
    ensures TrimCommas(Buffered(g)) + "]" == JsonArray(g)
    ensures |JsonArray(g)| == |Buffered(g)|
  {
    BufferedIs(g);
    EndsEncoded(g);
    var b, open := Buffered(g), "[" + Commas(g);
    assert b == open + ",";
    assert b[..|b| - 1] == open && b[|b| - 1] == ',';
    assert open[|open| - 1] == Commas(g)[|Commas(g)| - 1];
  }

  // ----- batches -----

  function Arrays(groups: seq<seq<string>>): seq<string> {
    if groups == [] then [] else Arrays(groups[..|groups| - 1]) + [JsonArray(groups[|groups| - 1])]
  }

  function Flat(groups: seq<seq<string>>): seq<string> {
    if groups == [] then [] else Flat(groups[..|groups| - 1]) + groups[|groups| - 1]
  }

  /** The encodings of entries that all have one. */
  function Encodings(items: seq<Item>): seq<string>
    requires Encoded(items)
  {
    if items == [] then [] else Encodings(items[..|items| - 1]) + [items[|items| - 1].enc.value]
  }

  predicate Encoded(items: seq<Item>) {
    forall i :: 0 <= i < |items| ==> items[i].enc.Some? && !items[i].cancelled
  }

  /** A batch of several entries is at most one byte over the limit. */
  predicate Bounded(g: seq<string>, maxLen: nat) {
    g != [] && (|g| >= 2 ==> |Buffered(g)| <= maxLen + 1)
  }

  /** A batch ends only where the next entry would not fit. */
  predicate Full(g: seq<string>, next: seq<string>, maxLen: nat) {
    next != [] && |Buffered(g)| + |next[0]| > maxLen
  }

  ghost predicate Batched(groups: seq<seq<string>>, maxLen: nat) {
    && (forall i :: 0 <= i < |groups| ==> Bounded(groups[i], maxLen))
    && (forall i :: 0 < i < |groups| ==> Full(groups[i - 1], groups[i], maxLen))
  }

  lemma Snoc<T>(s: seq<T>, x: T)
    ensures (s + [x])[..|s|] == s && (s + [x])[|s|] == x
  {
  }

  lemma BatchedMore(groups: seq<seq<string>>, g: seq<string>, maxLen: nat)
    requires Batched(groups, maxLen) && Bounded(g, maxLen)
    requires groups != [] ==> Full(groups[|groups| - 1], g, maxLen)
    ensures Batched(groups + [g], maxLen)
  {
    var all := groups + [g];
    forall i | 0 < i < |all|
      ensures Full(all[i - 1], all[i], maxLen)
    {
      if i < |groups| {
        assert Full(groups[i - 1], groups[i], maxLen);
      }
    }
  }

  lemma {:induction false} BufferedLength(g: seq<string>)
    ensures |Buffered(g)| > 1 <==> g != []
    ensures |Buffered(g)| >= 1
  {
    if g != [] {
      BufferedLength(g[..|g| - 1]);
    }
  }

  /** The variables of the function that its `sendBatch` closure shares. */
  class Batcher {
    const maxLen: nat
    var body: string
    var sent: nat
    var pending: nat
    var uploads: seq<string>
    ghost var groups: seq<seq<string>>
    ghost var g: seq<string>

    ghost predicate Valid()
      reads this
    {
      && body == Buffered(g) && pending == |g| && (forall e :: e in g ==> Encoding(e))
      && uploads == Arrays(groups) && sent == |Flat(groups)| && Batched(groups, maxLen)
    }

    /** The batch being collected keeps to the bounds, after those already sent. */
    ghost predicate Collecting()
      reads this
    {
      g != [] ==> Bounded(g, maxLen) && (groups != [] ==> Full(groups[|groups| - 1], g, maxLen))
    }

    constructor (maxLen: nat)
      ensures Valid() && Collecting() && this.maxLen == maxLen && groups == [] && g == []
    {
      this.maxLen := maxLen;
      body, sent, pending, uploads := "[", 0, 0, [];
      groups, g := [], [];
    }

    /** A successful upload moves what is pending to what is sent; a failed one changes nothing. */
    method SendBatch(ok: bool) returns (done: bool)
      requires Valid() && Collecting()
      modifies `body, `sent, `pending, `uploads, `groups, `g
      ensures Valid()
      ensures old(g) == [] ==> done && groups == old(groups) && g == []
      ensures old(g) != [] ==> done == ok
      ensures done && old(g) != [] ==> groups == old(groups) + [old(g)] && g == []
      ensures done ==> Flat(groups) == old(Flat(groups) + g)
      ensures !done ==> groups == old(groups) && g == old(g)
    {
      BufferedLength(g);
      if |body| <= 1 {
        EmptyConcat(Flat(groups));
        return true;
      }
      if !ok {
        return false;
      }
      ClosedBuffer(g);
      Snoc(groups, g);
      BatchedMore(groups, g, maxLen);
      uploads := uploads + [TrimCommas(body) + "]"];
      groups := groups + [g];
      body := "[";
      g := [];
      sent := sent + pending;
      pending := 0;
      return true;
    }

    /** Adds an entry, first sending the batch that it would overflow. */
    method Append(enc: string, ok: bool) returns (done: bool)
      requires Valid() && Collecting() && Encoding(enc) && (groups != [] ==> g != [])
      modifies `body, `sent, `pending, `uploads, `groups, `g
      ensures Valid() && Collecting()
      ensures done ==> g != [] && Flat(groups) + g == old(Flat(groups) + g) + [enc]
      ensures !done ==> groups == old(groups)
      ensures ok ==> done
    {
      BufferedLength(g);
      if |body| > 1 && |body| + |enc| > maxLen {
        done := SendBatch(ok);
        if !done {
          return;
        }
        EmptyConcat(Flat(groups));
      }
      Assoc(Flat(groups), g, [enc]);
      Extend(enc);
      return true;
    }

    method Extend(enc: string)
      requires Valid() && Encoding(enc) && (g != [] ==> Collecting() && |Buffered(g)| + |enc| <= maxLen)
      requires g == [] && groups != [] ==> Full(groups[|groups| - 1], [enc], maxLen)
      modifies `body, `pending, `g
      ensures Valid() && Collecting() && g == old(g) + [enc]
    {
      Snoc(g, enc);
      body := body + enc + ",";
      g := g + [enc];
      pending := pending + 1;
    }
  }

  lemma {:induction false} EncodingsPrefix(items: seq<Item>, k: nat)
    requires Encoded(items) && k <= |items|
    ensures |Encodings(items)| == |items| && Encodings(items)[..k] == Encodings(items[..k])
    decreases |items|
  {
    if k == |items| {
      assert items[..k] == items;
      if items != [] {
        EncodingsPrefix(items[..k - 1], k - 1);
      }
      assert Encodings(items)[..k] == Encodings(items);
    } else {
      var front := items[..|items| - 1];
      EncodingsPrefix(front, k);
      assert front[..k] == items[..k];
    }
  }

  lemma SentIsPrefix(flat: seq<string>, g: seq<string>, items: seq<Item>, i: nat)
    requires i <= |items| && Encoded(items[..i]) && flat + g == Encodings(items[..i])
    ensures |flat| + |g| == i && Encoded(items[..|flat|]) && flat == Encodings(items[..|flat|])
  {
    EncodingsPrefix(items[..i], i);
    CutAt(flat, g);
    EncodingsPrefix(items[..i], |flat|);
    assert items[..i][..|flat|] == items[..|flat|];
  }

  lemma NextEncoding(items: seq<Item>, i: nat)
    requires i < |items| && Encoded(items[..i]) && !items[i].cancelled && items[i].enc.Some?
    ensures Encoded(items[..i + 1]) && Encodings(items[..i + 1]) == Encodings(items[..i]) + [items[i].enc.value]
  {
    assert items[..i + 1][..i] == items[..i];
  }

  /**
    The uploads are the JSON arrays of consecutive batches that hold exactly the first `sent`
    entries, once each and in order, however the call ends; and it ends without an error
    exactly if that is all of them.
   */
  method UploadLogs(items: seq<Item>, maxLen: nat, ok: nat -> bool)
    returns (sent: nat, err: bool, uploads: seq<string>, ghost groups: seq<seq<string>>)
    requires forall i :: 0 <= i < |items| && items[i].enc.Some? ==> Encoding(items[i].enc.value)
    ensures sent <= |items| && Encoded(items[..sent])
    ensures uploads == Arrays(groups) && Flat(groups) == Encodings(items[..sent])
    ensures Batched(groups, maxLen)
    ensures err <==> sent < |items|
    ensures Encoded(items) && (forall n :: ok(n)) ==> !err
  {
    var b := new Batcher(maxLen);
    var done := CollectAll(b, items, ok);
    if !done {
      return b.sent, true, b.uploads, b.groups;
    }
    assert items[..|items|] == items;
    done := b.SendBatch(ok(|b.uploads|));
    return b.sent, !done, b.uploads, b.groups;
  }

  /** The loop: every entry is collected or sent, unless one is missing or a batch fails. */
  method CollectAll(b: Batcher, items: seq<Item>, ok: nat -> bool) returns (done: bool)
    requires b.Valid() && b.groups == [] && b.g == []
    requires forall i :: 0 <= i < |items| && items[i].enc.Some? ==> Encoding(items[i].enc.value)
    modifies b
    ensures b.Valid() && b.Collecting()
    ensures b.sent <= |items| && Encoded(items[..b.sent]) && Flat(b.groups) == Encodings(items[..b.sent])
    ensures if done then Encoded(items) && Flat(b.groups) + b.g == Encodings(items) && |Flat(b.groups)| + |b.g| == |items|
            else b.sent < |items|
    ensures done && items != [] ==> b.g != []
    ensures Encoded(items) && (forall n :: ok(n)) ==> done
  {
    EmptyConcat(Flat(b.groups));
    var i := 0;
    while i < |items|
      invariant 0 <= i <= |items| && b.Valid() && b.Collecting()
      invariant b.groups != [] ==> b.g != []
      invariant i > 0 ==> b.g != []
      invariant Encoded(items[..i]) && Flat(b.groups) + b.g == Encodings(items[..i])
      decreases |items| - i
    {
      SentIsPrefix(Flat(b.groups), b.g, items, i);
      var e := items[i];
      if e.cancelled || e.enc.None? {
        return false;
      }
      done := b.Append(e.enc.value, ok(|b.uploads|));
      if !done {
        return;
      }
      NextEncoding(items, i);
      i := i + 1;
    }
    SentIsPrefix(Flat(b.groups), b.g, items, i);
    assert items[..i] == items;
    done := true;
  }

  /** The bound is met: two entries that fill the limit are sent as one byte more. */
  lemma BoundIsTight(a: string, b: string)
    requires Encoding(a) && Encoding(b)
    ensures var maxLen := |Buffered([a])| + |b|;
      Bounded([a, b], maxLen) && |JsonArray([a, b])| == maxLen + 1
  {
    Snoc([a], b);
    assert [a] + [b] == [a, b];
    ClosedBuffer([a, b]);
  }

  lemma {:induction false} FlatLength(groups: seq<seq<string>>, maxLen: nat)
    requires Batched(groups, maxLen)
    ensures |Flat(groups)| >= |groups|
  {
    if groups != [] {
      FlatLength(groups[..|groups| - 1], maxLen);
    }
  }

  lemma Pair(x: seq<string>, y: seq<string>, a: string, b: string)
    requires x + y == [a, b] && |x| == 1
    ensures x == [a] && y == [b]
  {
    CutAt(x, y);
    assert x == [a, b][..1] && y == [a, b][1..];
  }

  lemma FullAt(a: string, b: string, maxLen: nat)
    requires Full([a], [b], maxLen)
    ensures |a| + |b| + 2 > maxLen
  {
    assert [a][..0] == [] && Buffered([a]) == "[" + a + ",";
  }

  /** Two entries that fit together make one batch. */
  lemma OneBatch(groups: seq<seq<string>>, a: string, b: string, maxLen: nat)
    requires Batched(groups, maxLen) && Flat(groups) == [a, b] && |a| + |b| + 2 <= maxLen
    ensures groups == [[a, b]]
  {
    FlatLength(groups, maxLen);
    if |groups| == 1 {
      EmptyConcat(groups[0]);
      assert groups[..0] == [];
    } else {
      EmptyConcat(groups[0]);
      assert groups[..1][..0] == [] && Full(groups[1 - 1], groups[1], maxLen);
      FlatLength(groups[..1], maxLen);
      Pair(groups[0], groups[1], a, b);
      FullAt(a, b, maxLen);
    }
  }

  /** So entries that fill the limit are uploaded as one array, one byte over it. */
  method OverByOne(a: string, b: string) returns (uploads: seq<string>)
    requires Encoding(a) && Encoding(b)
    ensures uploads == ["[" + (a + "," + b) + "]"] && |uploads[0]| == (|a| + |b| + 2) + 1
  {
    var items := [Item(false, Some(a)), Item(false, Some(b))];
    var sent, err;
    ghost var groups;
    sent, err, uploads, groups := UploadLogs(items, |a| + |b| + 2, _ => true);
    assert items[..2] == items && items[..1] == [items[0]] && items[..1][..0] == [];
    assert Encodings(items[..1]) == [] + [a] && Encodings(items) == Encodings(items[..1]) + [b];
    assert Encodings(items) == [a, b];
    OneBatch(groups, a, b, |a| + |b| + 2);
    assert [a, b][..1] == [a] && Commas([a, b]) == a + "," + b;
    assert [[a, b]][..0] == [];
    EmptyConcat([JsonArray([a, b])]);
  }
}
