/**
  One poll of the Linux port lister: the inet_diag dumps that replace the known sockets all
  at once, the /proc fallback when any of them fails, and the sweep that follows.
  What the kernel and /proc answer are parameters.
 */
module PortPoller {
  import opened Bytes
  import opened Netip
  import opened PortList
  import opened Seqs

  /** Sockets are keyed by the text "socket:[inode]". */
  type Key = string

  datatype Socket = Socket(proto: string, port: u16)
  datatype Meta = Meta(port: Port, keep: bool, needsName: bool)
  datatype Row = Row(key: Key, socket: Socket)

  /** A dump delivers some sockets and may then fail, for lack of a capability or otherwise. */
  datatype Answer = Answer(rows: seq<Row>, failed: bool, capability: bool)

  /** A /proc/net file yields the listener rows before its end or its first malformed line. */
  datatype File = File(rows: seq<Row>, malformed: bool)

  datatype Name = Name(process: string, pid: int)

  function Of(p: Port): Socket {
    Socket(p.proto, p.port)
  }

  function Fresh(s: Socket): Meta {
    Meta(Port(s.proto, s.port, "", 0), true, true)
  }

  // ----- the dumps -----

  function Collect(m: map<Key, Socket>, rows: seq<Row>): map<Key, Socket> {
    if rows == [] then m else Collect(m, rows[..|rows| - 1])[rows[|rows| - 1].key := rows[|rows| - 1].socket]
  }

  /** What the dumps deliver, all or nothing. */
  function Dumped(answers: seq<Answer>): Option<map<Key, Socket>> {
    if answers == [] then Some(map[])
    else
      var front, a := Dumped(answers[..|answers| - 1]), answers[|answers| - 1];
      if front.None? || a.failed then None else Some(Collect(front.value, a.rows))
  }

  /** The first dump to fail does so for lack of a capability. */
  predicate Incapable(answers: seq<Answer>) {
    answers != [] && if answers[0].failed then answers[0].capability else Incapable(answers[1..])
  }

  /** The dump at i is the first to fail, and does so for lack of a capability. */
  ghost predicate FailsFirst(answers: seq<Answer>, i: nat) {
    i < |answers| && answers[i].failed && answers[i].capability && forall j :: 0 <= j < i ==> !answers[j].failed
  }

  lemma {:induction false} IncapableIff(answers: seq<Answer>)
    ensures Incapable(answers) <==> exists i: nat :: FailsFirst(answers, i)
  {
    if answers != [] {
      var rest := answers[1..];
      IncapableIff(rest);
      if Incapable(answers) {
        if answers[0].failed {
          assert FailsFirst(answers, 0);
        } else {
          var i: nat :| FailsFirst(rest, i);
          assert FailsFirst(answers, i + 1);
        }
      }
      if i: nat :| FailsFirst(answers, i) {
        assert i > 0 ==> !answers[0].failed && FailsFirst(rest, i - 1);
      }
    }
  }

  /** The known sockets after a dump: those it names, remembering the process of the unchanged ones. */
  function Replaced(known: map<Key, Meta>, dump: map<Key, Socket>): (r: map<Key, Meta>)
    ensures r.Keys == dump.Keys
  {
    map k | k in dump :: Replace(known, k, dump[k])
  }

  function Replace(known: map<Key, Meta>, k: Key, s: Socket): Meta {
    if k in known && Of(known[k].port) == s then known[k].(keep := true) else Fresh(s)
  }

  // ----- the fallback -----

  function Unmarked(known: map<Key, Meta>): (r: map<Key, Meta>)
    ensures r.Keys == known.Keys
  {
    map k | k in known :: known[k].(keep := false)
  }

  function SeeRow(known: map<Key, Meta>, r: Row): map<Key, Meta> {
    known[r.key := if r.key in known then known[r.key].(keep := true) else Fresh(r.socket)]
  }

  function SeeRows(known: map<Key, Meta>, rows: seq<Row>): map<Key, Meta> {
    if rows == [] then known else SeeRow(SeeRows(known, rows[..|rows| - 1]), rows[|rows| - 1])
  }

  /** The rows of the files up to and including the first malformed one. */
  function Readable(files: seq<File>): seq<Row> {
    if files == [] then []
    else files[0].rows + (if files[0].malformed then [] else Readable(files[1..]))
  }

  predicate Malformed(files: seq<File>) {
    exists i :: 0 <= i < |files| && files[i].malformed
  }

  ghost predicate RowAt(files: seq<File>, i: nat, r: Row) {
    i < |files| && r in files[i].rows && forall j :: 0 <= j < i ==> !files[j].malformed
  }

  /** A row is read iff no file before its own is malformed. */
  lemma {:induction false} ReadableIff(files: seq<File>, r: Row)
    ensures r in Readable(files) <==> exists i :: RowAt(files, i, r)
  {
    if files != [] {
      var rest := files[1..];
      ReadableIff(rest, r);
      if r in files[0].rows {
        assert RowAt(files, 0, r);
      }
      if i: nat :| RowAt(rest, i, r) && !files[0].malformed {
        assert RowAt(files, i + 1, r);
      }
      if i: nat :| RowAt(files, i, r) && i > 0 {
        assert RowAt(rest, i - 1, r);
      }
    }
  }

  // ----- the sweep -----

  function Swept(known: map<Key, Meta>): map<Key, Meta> {
    map k | k in known && known[k].keep :: known[k]
  }

  function Named(m: Meta, k: Key, names: map<Key, Name>): Meta {
    if !m.needsName then m
    else if k in names then Meta(m.port.(process := names[k].process, pid := names[k].pid), m.keep, false)
    else m.(needsName := false)
  }

  /** The known sockets after a whole poll; dumps that fail leave no trace in it. */
  function Polled(known: map<Key, Meta>, dump: Option<map<Key, Socket>>, files: seq<File>, names: map<Key, Name>): map<Key, Meta> {
    AllNamed(Swept(Seen(known, dump, files)), names)
  }

  function Seen(known: map<Key, Meta>, dump: Option<map<Key, Socket>>, files: seq<File>): map<Key, Meta> {
    if dump.Some? then Replaced(Unmarked(known), dump.value) else SeeRows(Unmarked(known), Readable(files))
  }

  function AllNamed(known: map<Key, Meta>, names: map<Key, Name>): map<Key, Meta> {
    map k | k in known :: Named(known[k], k, names)
  }

  ghost predicate KnownPort(known: map<Key, Meta>, p: Port) {
    exists k :: k in known && known[k].port == p
  }

  /**
    What a poll returns: sorted and without duplicates, taken from the ports passed in and those
    known, and representing each of them, except one with the zero Port's key.
   */
  ghost predicate Reports(out: seq<Port>, base: seq<Port>, known: map<Key, Meta>) {
    && StrictByKey(out)
    && (forall q :: q in out ==> q in base || KnownPort(known, q))
    && (forall p :: p in base || KnownPort(known, p) ==> (Represented(out, p) <==> !SameKey(p, ZERO)))
  }

  class Poller {
    var known: map<Key, Meta>
    var diagPorts: map<Key, Socket>
    var diagPermanent: bool

    /** The four dumps and, only if none fails, the replacement of the known sockets. */
    method AppendDiagPorts(answers: seq<Answer>) returns (ok: bool)
      modifies this
      ensures ok <==> Dumped(answers).Some?
      ensures known == if ok then Replaced(old(known), Dumped(answers).value) else old(known)
      ensures diagPermanent == (old(diagPermanent) || Incapable(answers))
      ensures ok ==> !Incapable(answers)
    {
      diagPorts := map[];
      var i := 0;
      while i < |answers|
        invariant 0 <= i <= |answers|
        invariant Dumped(answers[..i]) == Some(diagPorts)
        invariant Incapable(answers) == Incapable(answers[i..])
        invariant known == old(known) && diagPermanent == old(diagPermanent)
      {
        var a := answers[i];
        ReadDump(a.rows);
        assert answers[..i + 1][..i] == answers[..i];
        i := i + 1;
        if a.failed {
          DumpedFails(answers, i);
          diagPermanent := diagPermanent || a.capability;
          return false;
        }
      }
      assert answers[..i] == answers;
      KeepDumped();
      AddDumped();
      return true;
    }

    /** A whole poll. Nothing is returned if a file is malformed, or if names were needed and could not be read. */
    method Poll(base: seq<Port>, answers: seq<Answer>, files: seq<File>, names: map<Key, Name>, namesFail: bool)
      returns (r: Option<seq<Port>>)
      modifies this
      ensures diagPermanent == (old(diagPermanent) || Incapable(answers))
      ensures var dump := if old(diagPermanent) then None else Dumped(answers);
        if dump.None? && Malformed(files) then
          r.None? && known == Seen(old(known), dump, files)
        else
          && known == Polled(old(known), dump, files, names)
          && (r.None? <==> namesFail && exists k :: k in known && Seen(old(known), dump, files)[k].needsName)
          && (r.Some? ==> Reports(r.value, base, known))
    {
      Unmark();
      var ok := false;
      if !diagPermanent {
        ok := AppendDiagPorts(answers);
      }
      if !ok {
        var bad := ReadFiles(files);
        if bad {
          return None;
        }
      }
      ghost var seen := known;
      var need := Sweep();
      Name(need, names);
      assert forall k :: k in need <==> k in known && seen[k].needsName;
      if need != {} && namesFail {
        return None;
      }
      var ports := Report(base);
      return Some(ports);
    }

    method Report(base: seq<Port>) returns (out: seq<Port>)
      ensures Reports(out, base, known)
    {
      var ports := List();
      out := SortAndDedup(base + ports);
    }

    method Unmark()
      modifies `known
      ensures known == Unmarked(old(known))
    {
      var todo := known.Keys;
      while todo != {}
        invariant known.Keys == old(known).Keys && todo <= known.Keys
        invariant forall k :: k in known ==> known[k] == if k in todo then old(known)[k] else old(known)[k].(keep := false)
        decreases |todo|
      {
        var k :| k in todo;
        todo := todo - {k};
        known := known[k := known[k].(keep := false)];
      }
    }

    method ReadFiles(files: seq<File>) returns (bad: bool)
      modifies `known
      ensures bad == Malformed(files) && known == SeeRows(old(known), Readable(files))
    {
      var i := 0;
      ghost var done: seq<Row> := [];
      EmptyConcat(Readable(files));
      while i < |files|
        invariant 0 <= i <= |files| && forall j :: 0 <= j < i ==> !files[j].malformed
        invariant done + Readable(files[i..]) == Readable(files)
        invariant known == SeeRows(old(known), done)
        decreases |files| - i
      {
        ReadRows(files[i].rows);
        SeeMore(old(known), done, files[i].rows);
        ReadableStep(files, i, done);
        done := done + files[i].rows;
        EmptyConcat(done);
        if files[i].malformed {
          return true;
        }
        i := i + 1;
      }
      EmptyConcat(done);
      return false;
    }

    method ReadRows(rows: seq<Row>)
      modifies `known
      ensures known == SeeRows(old(known), rows)
    {
      var i := 0;
      while i < |rows|
        invariant 0 <= i <= |rows|
        invariant known == SeeRows(old(known), rows[..i])
      {
        var r := rows[i];
        known := known[r.key := if r.key in known then known[r.key].(keep := true) else Fresh(r.socket)];
        assert rows[..i + 1][..i] == rows[..i];
        i := i + 1;
      }
      assert rows[..i] == rows;
    }

    /** Deletes what was not seen and collects what has no process name yet. */
    method Sweep() returns (need: set<Key>)
      modifies `known
      ensures known == Swept(old(known))
      ensures need == set k | k in known && known[k].needsName
    {
      var todo := known.Keys;
      need := {};
      while todo != {}
        invariant todo <= known.Keys <= old(known).Keys
        invariant forall k :: k in known ==> known[k] == old(known)[k]
        invariant forall k :: k in old(known) ==> (k in known <==> k in todo || old(known)[k].keep)
        invariant forall k :: k in need <==> k in known && k !in todo && known[k].needsName
        decreases |todo|
      {
        var k :| k in todo;
        todo := todo - {k};
        if !known[k].keep {
          known := known - {k};
        } else if known[k].needsName {
          need := need + {k};
        }
      }
    }

    method Name(need: set<Key>, names: map<Key, Name>)
      requires need == set k | k in known && known[k].needsName
      modifies `known
      ensures known == AllNamed(old(known), names)
    {
      var todo := need;
      while todo != {}
        invariant todo <= need && known.Keys == old(known).Keys
        invariant forall k :: k in known ==> known[k] == if k in todo then old(known)[k] else Named(old(known)[k], k, names)
        decreases |todo|
      {
        var k :| k in todo;
        todo := todo - {k};
        if k in names {
          known := known[k := known[k].(port := known[k].port.(process := names[k].process, pid := names[k].pid))];
        }
        known := known[k := known[k].(needsName := false)];
      }
    }

    method List() returns (ports: seq<Port>)
      ensures forall p :: p in ports <==> KnownPort(known, p)
    {
      ports := [];
      var todo := known.Keys;
      while todo != {}
        invariant todo <= known.Keys
        invariant forall p :: p in ports <==> exists k :: k in known && k !in todo && known[k].port == p
        decreases |todo|
      {
        var k :| k in todo;
        todo := todo - {k};
        ports := ports + [known[k].port];
      }
    }

    method ReadDump(rows: seq<Row>)
      modifies `diagPorts
      ensures diagPorts == Collect(old(diagPorts), rows)
    {
      var i := 0;
      while i < |rows|
        invariant 0 <= i <= |rows|
        invariant diagPorts == Collect(old(diagPorts), rows[..i])
      {
        diagPorts := diagPorts[rows[i].key := rows[i].socket];
        assert rows[..i + 1][..i] == rows[..i];
        i := i + 1;
      }
      assert rows[..i] == rows;
    }

    /** Drops the known sockets the dump does not name and updates the others. */
    method KeepDumped()
      modifies `known
      ensures known.Keys == old(known).Keys * diagPorts.Keys
      ensures forall k :: k in known ==> known[k] == Replace(old(known), k, diagPorts[k])
    {
      var todo := known.Keys;
      while todo != {}
        invariant todo <= known.Keys <= old(known).Keys
        invariant forall k :: k in old(known) ==> (k in known <==> k in todo || k in diagPorts)
        invariant forall k :: k in known && k in todo ==> known[k] == old(known)[k]
        invariant forall k :: k in known && k !in todo ==> known[k] == Replace(old(known), k, diagPorts[k])
        decreases |todo|
      {
        var k :| k in todo;
        todo := todo - {k};
        if k in diagPorts {
          var m, s := known[k], diagPorts[k];
          if Of(m.port) != s {
            m := m.(port := m.port.(process := "", pid := 0), needsName := true);
          }
          known := known[k := m.(port := m.port.(proto := s.proto, port := s.port), keep := true)];
        } else {
          known := known - {k};
        }
      }
    }

    method AddDumped()
      requires known.Keys <= diagPorts.Keys
      modifies `known
      ensures known.Keys == diagPorts.Keys
      ensures forall k :: k in known ==> known[k] == if k in old(known) then old(known)[k] else Fresh(diagPorts[k])
    {
      var todo := diagPorts.Keys;
      while todo != {}
        invariant todo <= diagPorts.Keys && old(known).Keys <= known.Keys <= diagPorts.Keys
        invariant forall k :: k in diagPorts ==> k in known || k in todo
        invariant forall k :: k in known ==> known[k] == if k in old(known) then old(known)[k] else Fresh(diagPorts[k])
        decreases |todo|
      {
        var k :| k in todo;
        todo := todo - {k};
        if k !in known {
          known := known[k := Fresh(diagPorts[k])];
        }
      }
    }
  }

  lemma {:induction false} SeeMore(known: map<Key, Meta>, a: seq<Row>, b: seq<Row>)
    ensures SeeRows(SeeRows(known, a), b) == SeeRows(known, a + b)
  {
    if b == [] {
      assert a + b == a;
    } else {
      var n := |b| - 1;
      SeeMore(known, a, b[..n]);
      assert (a + b)[..|a + b| - 1] == a + b[..n];
    }
  }

  lemma ReadableStep(files: seq<File>, i: nat, done: seq<Row>)
    requires i < |files|
    ensures done + Readable(files[i..])
         == (done + files[i].rows) + if files[i].malformed then [] else Readable(files[i + 1..])
  {
    assert files[i..][1..] == files[i + 1..];
    Assoc(done, files[i].rows, if files[i].malformed then [] else Readable(files[i + 1..]));
  }

  // ----- what a poll finds -----

  /**
    After successful dumps the known sockets are exactly the dumped ones, with their
    protocol and port; a socket that was known unchanged keeps its process, a new or reused one
    is looked up.
   */
  lemma DumpIsTheTruth(known: map<Key, Meta>, dump: map<Key, Socket>, files: seq<File>, names: map<Key, Name>)
    ensures var r := Polled(known, Some(dump), files, names);
      && r.Keys == dump.Keys
      && (forall k :: k in dump ==> Of(r[k].port) == dump[k])
      && (forall k :: k in dump && k in known && Of(known[k].port) == dump[k] && !known[k].needsName ==> r[k].port == known[k].port)
      && (forall k :: k in dump && (k !in known || Of(known[k].port) != dump[k]) ==>
            r[k].port == if k in names then Port(dump[k].proto, dump[k].port, names[k].process, names[k].pid)
                         else Port(dump[k].proto, dump[k].port, "", 0))
  {
    var seen := Seen(known, Some(dump), files);
    assert forall k :: k in seen ==> seen[k].keep;
    assert Swept(seen) == seen;
  }

  /** A process is looked for once: what a poll did not find is given up, and what it found is kept while the socket is the same. */
  lemma LookedUpOnce(known: map<Key, Meta>, dump: map<Key, Socket>, files: seq<File>, names: map<Key, Name>, later: map<Key, Name>)
    ensures var r := Polled(known, Some(dump), files, names);
      var r2 := Polled(r, Some(dump), files, later);
      && (forall k :: k in r ==> !r[k].needsName)
      && r2.Keys == r.Keys && forall k :: k in r ==> r2[k].port == r[k].port
  {
    var r := Polled(known, Some(dump), files, names);
    DumpIsTheTruth(known, dump, files, names);
    DumpIsTheTruth(r, dump, files, later);
  }

  ghost predicate Listed(rows: seq<Row>, k: Key) {
    exists i :: 0 <= i < |rows| && rows[i].key == k
  }

  ghost function FirstRow(rows: seq<Row>, k: Key): Socket
    requires Listed(rows, k)
  {
    if rows[0].key == k then rows[0].socket else FirstRow(rows[1..], k)
  }

  lemma {:induction false} Collected(m: map<Key, Socket>, rows: seq<Row>, k: Key)
    ensures k in Collect(m, rows) <==> k in m || Listed(rows, k)
  {
    if rows != [] {
      var n := |rows| - 1;
      Collected(m, rows[..n], k);
      assert rows == rows[..n] + [rows[n]];
      ListedMore(rows[..n], rows[n], k);
    }
  }

  lemma ListedMore(rows: seq<Row>, r: Row, k: Key)
    ensures Listed(rows + [r], k) <==> Listed(rows, k) || r.key == k
  {
    if Listed(rows, k) {
      var i :| 0 <= i < |rows| && rows[i].key == k;
      assert (rows + [r])[i].key == k;
    }
    if r.key == k {
      assert (rows + [r])[|rows|].key == k;
    }
  }

  ghost predicate Delivered(answers: seq<Answer>, k: Key) {
    exists a :: a in answers && Listed(a.rows, k)
  }

  /** The dumps count only if none of them fails, and then name every socket any of them delivers. */
  lemma {:induction false} DumpedIff(answers: seq<Answer>, k: Key)
    ensures Dumped(answers).Some? <==> forall a :: a in answers ==> !a.failed
    ensures Dumped(answers).Some? ==> (k in Dumped(answers).value <==> Delivered(answers, k))
  {
    if answers != [] {
      var front, a := answers[..|answers| - 1], answers[|answers| - 1];
      assert answers == front + [a];
      DumpedIff(front, k);
      if Dumped(front).Some? {
        Collected(Dumped(front).value, a.rows, k);
      }
      assert Delivered(answers, k) <==> Delivered(front, k) || Listed(a.rows, k) by {
        if Delivered(front, k) {
          var b :| b in front && Listed(b.rows, k);
          assert b in answers;
        }
        if Listed(a.rows, k) {
          assert a in answers;
        }
      }
    }
  }

  lemma {:induction false} FirstRowKept(rows: seq<Row>, r: Row, k: Key)
    requires Listed(rows + [r], k)
    ensures Listed(rows, k) ==> FirstRow(rows + [r], k) == FirstRow(rows, k)
    ensures !Listed(rows, k) ==> r.key == k && FirstRow(rows + [r], k) == r.socket
  {
    if rows != [] && rows[0].key != k {
      ConsConcat(rows, [r]);
      FirstRowKept(rows[1..], r, k);
    }
  }

  /** One socket after the rows: known ones only marked, listed ones added as their first row has them. */
  ghost predicate SeenAt(known: map<Key, Meta>, rows: seq<Row>, r: map<Key, Meta>, k: Key) {
    && (k in r <==> k in known || Listed(rows, k))
    && (k in known ==> r[k] == known[k].(keep := known[k].keep || Listed(rows, k)))
    && (k !in known && Listed(rows, k) ==> r[k] == Fresh(FirstRow(rows, k)))
  }

  lemma {:induction false} RowsSeen(known: map<Key, Meta>, rows: seq<Row>, k: Key)
    ensures SeenAt(known, rows, SeeRows(known, rows), k)
  {
    if rows != [] {
      var front, r := rows[..|rows| - 1], rows[|rows| - 1];
      assert rows == front + [r];
      RowsSeen(known, front, k);
      ListedMore(front, r, k);
      if Listed(rows, k) {
        FirstRowKept(front, r, k);
      }
    }
  }

  /**
    After the fallback the known sockets are exactly the listed ones. One that was known
    keeps the protocol and port it had, so the poll reports what its row says exactly if it was
    not known, or not as something else: a reused inode goes unnoticed.
   */
  lemma FallbackIsTrueIff(known: map<Key, Meta>, files: seq<File>, names: map<Key, Name>, k: Key)
    ensures var r := Polled(known, None, files, names);
      var rows := Readable(files);
      && (k in r <==> Listed(rows, k))
      && (Listed(rows, k) ==> (Of(r[k].port) == FirstRow(rows, k) <==> k !in known || Of(known[k].port) == FirstRow(rows, k)))
  {
    RowsSeen(Unmarked(known), Readable(files), k);
  }

  /**
    An inode is reused between two fallback polls: the second still reports the old socket, until
    a dump corrects it.
   */
  lemma ReusedInodeUnnoticed(k: Key, a: Socket, b: Socket, names: map<Key, Name>)
    requires a != b
    ensures var first := Polled(map[], None, [File([Row(k, a)], false)], names);
      var second := Polled(first, None, [File([Row(k, b)], false)], names);
      var third := Polled(second, Some(map[k := b]), [], names);
      && k in second && Of(second[k].port) == a
      && k in third && Of(third[k].port) == b
  {
    var first := Polled(map[], None, [File([Row(k, a)], false)], names);
    OneRow(k, a);
    OneRow(k, b);
    FallbackIsTrueIff(map[], [File([Row(k, a)], false)], names, k);
    assert Of(first[k].port) == a;
    RowsSeen(Unmarked(first), [Row(k, b)], k);
    var second := Polled(first, None, [File([Row(k, b)], false)], names);
    assert Of(second[k].port) == a;
    DumpIsTheTruth(second, map[k := b], [], names);
  }

  lemma OneRow(k: Key, s: Socket)
    ensures Readable([File([Row(k, s)], false)]) == [Row(k, s)]
    ensures Listed([Row(k, s)], k) && FirstRow([Row(k, s)], k) == s
  {
    assert [File([Row(k, s)], false)][1..] == [];
    EmptyConcat([Row(k, s)]);
    assert [Row(k, s)][0].key == k;
  }

  lemma {:induction false} DumpedFails(answers: seq<Answer>, i: nat)
    requires i <= |answers| && Dumped(answers[..i]).None?
    ensures Dumped(answers).None?
    decreases |answers| - i
  {
    if i == |answers| {
      assert answers[..i] == answers;
    } else {
      assert answers[..i + 1][..i] == answers[..i];
      DumpedFails(answers, i + 1);
    }
  }
}
