/**
  `memBuffer`: a bounded queue of log lines that drops what does not fit and reports, in
  front of the next line that does, how many were dropped. A nil slice is `None`; reading
  one is reading nothing. A character stands for a byte.
 */
module LogBuffer {
  import opened Bytes
  import opened Seqs
  import opened Strings

  type Line = Option<string>

  datatype Entry = Entry(msg: Line, drops: nat)
  datatype Event = Accepted(line: Line) | Dropped(line: Line)

  // ----- the drop marker -----

  function Marker(n: nat): string {
    "----------- " + Decimal(n) + " logs dropped ----------"
  }

  /** A marker tells exactly how many lines were dropped. */
  lemma MarkerInjective(m: nat, n: nat)
    requires Marker(m) == Marker(n)
    ensures m == n
  {
    MarkerReads(m);
    MarkerReads(n);
  }

  /** The digits between the fixed texts read as the number of lines dropped. */
  lemma MarkerReads(n: nat)
    ensures var head, tail, m := "----------- ", " logs dropped ----------", Marker(n);
      |head| + |tail| < |m| && head <= m && m[|m| - |tail|..] == tail && Number(m[|head|..|m| - |tail|]) == n
  {
    var head, tail, m := "----------- ", " logs dropped ----------", Marker(n);
    DecimalReads(n);
    assert m[|head|..|m| - |tail|] == Decimal(n);
  }

  // ----- what is to be read -----

  function Shown(l: Line): seq<string> {
    if l.None? then [] else [l.value]
  }

  function Lines(e: Entry): seq<string> {
    (if e.drops > 0 then [Marker(e.drops)] else []) + Shown(e.msg)
  }

  function AllLines(es: seq<Entry>): seq<string> {
    if es == [] then [] else Lines(es[0]) + AllLines(es[1..])
  }

  /** The drops since the last accepted line. */
  function TrailingDrops(h: seq<Event>): nat {
    if h == [] || h[|h| - 1].Accepted? then 0 else 1 + TrailingDrops(h[..|h| - 1])
  }

  /** A history with each run of drops before an accepted line replaced by one marker. */
  function Rendered(h: seq<Event>): seq<string> {
    if h == [] then []
    else
      var front, e := h[..|h| - 1], h[|h| - 1];
      if e.Dropped? then Rendered(front) else Rendered(front) + Lines(Entry(e.line, TrailingDrops(front)))
  }

  lemma RenderedGrows(h: seq<Event>, e: Event)
    ensures Rendered(h + [e]) == if e.Dropped? then Rendered(h) else Rendered(h) + Lines(Entry(e.line, TrailingDrops(h)))
  {
    assert (h + [e])[..|h|] == h;
  }

  lemma CountsGrow(h: seq<Event>, e: Event)
    ensures TrailingDrops(h + [e]) == if e.Dropped? then 1 + TrailingDrops(h) else 0
    ensures TotalDropped(h + [e]) == TotalDropped(h) + if e.Dropped? then Size(e.line) else 0
  {
    assert (h + [e])[..|h|] == h;
  }

  function Drops(lines: seq<Line>): seq<Event> {
    if lines == [] then [] else Drops(lines[..|lines| - 1]) + [Dropped(lines[|lines| - 1])]
  }

  lemma {:induction false} DropsRendered(h: seq<Event>, dropped: seq<Line>)
    requires h == [] || h[|h| - 1].Accepted?
    ensures Rendered(h + Drops(dropped)) == Rendered(h) && TrailingDrops(h + Drops(dropped)) == |dropped|
  {
    if dropped == [] {
      EmptyConcat(h);
    } else {
      var n := |dropped| - 1;
      DropsRendered(h, dropped[..n]);
      Assoc(h, Drops(dropped[..n]), [Dropped(dropped[n])]);
      RenderedGrows(h + Drops(dropped[..n]), Dropped(dropped[n]));
      CountsGrow(h + Drops(dropped[..n]), Dropped(dropped[n]));
    }
  }

  /** A run of drops, from one accepted line to the next, shows as one marker with its length. */
  lemma RunRendered(h: seq<Event>, dropped: seq<Line>, line: Line)
    requires h == [] || h[|h| - 1].Accepted?
    ensures Rendered(h + Drops(dropped) + [Accepted(line)])
         == Rendered(h) + Lines(Entry(line, |dropped|))
  {
    DropsRendered(h, dropped);
    RenderedGrows(h + Drops(dropped), Accepted(line));
  }

  lemma {:induction false} AllLinesAppend(es: seq<Entry>, e: Entry)
    ensures AllLines(es + [e]) == AllLines(es) + Lines(e)
  {
    if es == [] {
      EmptyConcat([e]);
      EmptyConcat(Lines(e));
    } else {
      ConsConcat(es, [e]);
      AllLinesAppend(es[1..], e);
      Assoc(Lines(es[0]), AllLines(es[1..]), Lines(e));
    }
  }

  /** What is to be read next. */
  function FirstLine(next: Line, es: seq<Entry>): Line {
    if next.Some? then next
    else if es == [] then None
    else if es[0].drops > 0 then Some(Marker(es[0].drops))
    else es[0].msg
  }

  predicate NoNil(es: seq<Entry>) {
    forall i :: 0 <= i < |es| ==> es[i].msg.Some?
  }

  /** That is the first of the lines waiting, and without nil messages there is one while any waits. */
  lemma FirstLineWaiting(next: Line, es: seq<Entry>)
    ensures Shown(FirstLine(next, es)) <= Shown(next) + AllLines(es)
    ensures NoNil(es) ==> (FirstLine(next, es).None? <==> Shown(next) + AllLines(es) == [])
  {
  }

  // ----- bytes -----

  function Size(l: Line): nat {
    if l.None? then 0 else |l.value|
  }

  function Stored(es: seq<Entry>): nat {
    if es == [] then 0 else Size(es[0].msg) + Stored(es[1..])
  }

  lemma {:induction false} StoredAppend(es: seq<Entry>, e: Entry)
    ensures Stored(es + [e]) == Stored(es) + Size(e.msg)
  {
    if es == [] {
      EmptyConcat([e]);
    } else {
      ConsConcat(es, [e]);
      StoredAppend(es[1..], e);
    }
  }

  function TotalDropped(h: seq<Event>): nat {
    if h == [] then 0
    else TotalDropped(h[..|h| - 1]) + if h[|h| - 1].Dropped? then Size(h[|h| - 1].line) else 0
  }

  ghost predicate Told(out: seq<string>, next: Line, es: seq<Entry>, drops: nat, h: seq<Event>) {
    drops == TrailingDrops(h) && out + (Shown(next) + AllLines(es)) == Rendered(h)
  }

  ghost predicate Weighed(next: Line, es: seq<Entry>, h: seq<Event>, stored: int, dropped: int) {
    stored == Size(next) + Stored(es) && dropped == TotalDropped(h)
  }

  class MemBuffer {
    const capacity: nat
    var next: Line
    var pending: seq<Entry>
    var dropCount: nat
    var writeCalls: int
    var readCalls: int
    var writeBytes: int
    var readBytes: int
    var droppedBytes: int
    var storedBytes: int
    ghost var history: seq<Event>
    ghost var output: seq<string>

    /** What the reader got, and then what it is still to get, is the rendered history of writes. */
    ghost predicate Valid()
      reads this
    {
      |pending| <= capacity && Told(output, next, pending, dropCount, history)
    }

    /** Every byte written is read or stored, and what was not written was dropped. */
    ghost predicate Balanced()
      reads this
    {
      writeBytes == readBytes + storedBytes && Weighed(next, pending, history, storedBytes, droppedBytes)
    }

    constructor (numEntries: nat)
      ensures Valid() && Balanced() && capacity == numEntries && history == [] && output == []
    {
      capacity := numEntries;
      next, pending, dropCount := None, [], 0;
      writeCalls, readCalls, writeBytes, readBytes, droppedBytes, storedBytes := 0, 0, 0, 0, 0, 0;
      history, output := [], [];
    }

    method TryReadLine() returns (line: Line)
      requires Valid() && Balanced()
      modifies this
      ensures Valid() && Balanced()
      ensures line == FirstLine(old(next), old(pending))
      ensures history == old(history) && output == old(output) + Shown(line)
      ensures old(next).Some? || old(pending) == [] ==> next.None? && pending == old(pending)
      ensures old(next).None? && old(pending) != [] ==>
        && pending == old(pending)[1..]
        && next == if old(pending)[0].drops > 0 then old(pending)[0].msg else None
      ensures readCalls == old(readCalls) + 1 && readBytes == old(readBytes) + |if line.Some? then line.value else ""|
    {
      readCalls := readCalls + 1;
      if next.Some? {
        line := next;
        next := None;
        readBytes := readBytes + |line.value|;
        storedBytes := storedBytes - |line.value|;
        TakeNext(output, line, AllLines(pending));
        output := output + Shown(line);
        return;
      }
      if pending == [] {
        EmptyConcat(output);
        return None;
      }
      var ent := pending[0];
      pending := pending[1..];
      if ent.drops > 0 {
        next := ent.msg;
        line := Some(Marker(ent.drops));
        TakeMarker(output, ent, AllLines(pending));
        writeBytes := writeBytes + |line.value|;
        readBytes := readBytes + |line.value|;
      } else {
        line := ent.msg;
        TakeMessage(output, ent, AllLines(pending));
        readBytes := readBytes + Size(line);
        storedBytes := storedBytes - Size(line);
      }
      output := output + Shown(line);
    }

    /** Reading until there is nothing to read: the reader has then got the whole rendered history. */
    method Drain() returns (lines: seq<string>)
      requires Valid() && Balanced()
      modifies this
      ensures Valid() && Balanced() && history == old(history) && output == old(output) + lines
      ensures NoNil(old(pending)) ==>
        next.None? && pending == [] && output == Rendered(history) && storedBytes == 0
    {
      lines := [];
      EmptyConcat(output);
      while true
        invariant Valid() && Balanced() && history == old(history) && output == old(output) + lines
        invariant NoNil(old(pending)) ==> NoNil(pending)
        decreases 2 * |pending| + |Shown(next)|
      {
        FirstLineWaiting(next, pending);
        var line := TryReadLine();
        if line.None? {
          EmptyConcat(output);
          return;
        }
        Assoc(old(output), lines, [line.value]);
        lines := lines + [line.value];
      }
    }

    method Write(b: Line) returns (n: nat, ok: bool)
      requires Valid() && Balanced()
      modifies this
      ensures Valid() && Balanced()
      ensures ok <==> |old(pending)| < capacity
      ensures n == (if ok then Size(b) else 0) && output == old(output) && next == old(next)
      ensures pending == if ok then old(pending) + [Entry(b, old(dropCount))] else old(pending)
      ensures history == old(history) + [if ok then Accepted(b) else Dropped(b)]
      ensures var bytes := |if b.Some? then b.value else ""|;
        && writeCalls == old(writeCalls) + 1 && writeBytes == old(writeBytes) + (if ok then bytes else 0)
        && droppedBytes == old(droppedBytes) + (if ok then 0 else bytes)
    {
      writeCalls := writeCalls + 1;
      ok := |pending| < capacity;
      if ok {
        Accept(b);
        n := Size(b);
      } else {
        Drop(b);
        n := 0;
      }
    }

    method Accept(b: Line)
      requires Valid() && Balanced() && |pending| < capacity
      modifies `pending, `writeBytes, `storedBytes, `dropCount, `history
      ensures Valid() && Balanced() && history == old(history) + [Accepted(b)]
      ensures pending == old(pending) + [Entry(b, old(dropCount))] && writeBytes == old(writeBytes) + Size(b)
    {
      var ent := Entry(b, dropCount);
      PutEntry(output, next, pending, ent, history);
      PutBytes(next, pending, ent, history, storedBytes, droppedBytes);
      pending := pending + [ent];
      writeBytes := writeBytes + Size(b);
      storedBytes := storedBytes + Size(b);
      dropCount := 0;
      history := history + [Accepted(b)];
    }

    method Drop(b: Line)
      requires Valid() && Balanced()
      modifies `dropCount, `droppedBytes, `history
      ensures Valid() && Balanced() && history == old(history) + [Dropped(b)]
      ensures droppedBytes == old(droppedBytes) + Size(b)
    {
      DropEntry(output, next, pending, b, dropCount, history);
      DropBytes(next, pending, b, history, storedBytes, droppedBytes);
      dropCount := dropCount + 1;
      droppedBytes := droppedBytes + Size(b);
      history := history + [Dropped(b)];
    }
  }

  lemma TakeNext(out: seq<string>, l: Line, rest: seq<string>)
    ensures out + (Shown(l) + rest) == out + Shown(l) + (Shown(None) + rest)
  {
    Assoc(out, Shown(l), rest);
    EmptyConcat(rest);
  }

  lemma TakeMarker(out: seq<string>, e: Entry, rest: seq<string>)
    requires e.drops > 0
    ensures out + (Shown(None) + (Lines(e) + rest)) == out + Shown(Some(Marker(e.drops))) + (Shown(e.msg) + rest)
  {
    EmptyConcat(Lines(e) + rest);
    Assoc([Marker(e.drops)], Shown(e.msg), rest);
    Assoc(out, [Marker(e.drops)], Shown(e.msg) + rest);
  }

  lemma TakeMessage(out: seq<string>, e: Entry, rest: seq<string>)
    requires e.drops == 0
    ensures out + (Shown(None) + (Lines(e) + rest)) == out + Shown(e.msg) + (Shown(None) + rest)
  {
    EmptyConcat(Lines(e) + rest);
    EmptyConcat(Shown(e.msg));
    EmptyConcat(rest);
    Assoc(out, Shown(e.msg), rest);
  }

  lemma PutEntry(out: seq<string>, next: Line, es: seq<Entry>, e: Entry, h: seq<Event>)
    requires Told(out, next, es, e.drops, h)
    ensures Told(out, next, es + [e], 0, h + [Accepted(e.msg)])
  {
    RenderedGrows(h, Accepted(e.msg));
    CountsGrow(h, Accepted(e.msg));
    AllLinesAppend(es, e);
    Assoc(Shown(next), AllLines(es), Lines(e));
    Assoc(out, Shown(next) + AllLines(es), Lines(e));
  }

  lemma DropEntry(out: seq<string>, next: Line, es: seq<Entry>, b: Line, drops: nat, h: seq<Event>)
    requires Told(out, next, es, drops, h)
    ensures Told(out, next, es, drops + 1, h + [Dropped(b)])
  {
    RenderedGrows(h, Dropped(b));
    CountsGrow(h, Dropped(b));
  }

  lemma PutBytes(next: Line, es: seq<Entry>, e: Entry, h: seq<Event>, stored: int, dropped: int)
    requires Weighed(next, es, h, stored, dropped)
    ensures Weighed(next, es + [e], h + [Accepted(e.msg)], stored + Size(e.msg), dropped)
  {
    StoredAppend(es, e);
    CountsGrow(h, Accepted(e.msg));
  }

  lemma DropBytes(next: Line, es: seq<Entry>, b: Line, h: seq<Event>, stored: int, dropped: int)
    requires Weighed(next, es, h, stored, dropped)
    ensures Weighed(next, es, h + [Dropped(b)], stored, dropped + Size(b))
  {
    CountsGrow(h, Dropped(b));
  }
}
