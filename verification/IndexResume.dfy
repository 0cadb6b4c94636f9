/** Resuming a scan where the last one stopped gives what a scan from scratch gives. */
module IndexResume {
  import opened Bytes
  import opened RecordingContent
  import opened IndexScan

  // ---- one volume ----

  function Join(s: Scanned, rest: Scanned): Scanned
    requires s.Scanned?
  {
    if rest == Invalid then Invalid else Scanned(s.rows + rest.rows, rest.position, s.damaged + rest.damaged)
  }

  lemma {:induction false} LineEndPrefix(c0: seq<byte>, c: seq<byte>, pos: nat)
    requires pos < |c0| && c0 <= c && c0[LineEnd(c0, pos) - 1] == NEWLINE
    ensures LineEnd(c, pos) == LineEnd(c0, pos) && c[LineEnd(c0, pos) - 1] == NEWLINE
    ensures c[pos..LineEnd(c0, pos)] == c0[pos..LineEnd(c0, pos)]
    decreases |c0| - pos
  {
    if c0[pos] != NEWLINE && pos + 1 < |c0| {
      LineEndPrefix(c0, c, pos + 1);
    }
  }

  lemma JoinNothing(pos: nat, rest: Scanned)
    ensures Join(Scanned([], pos, 0), rest) == rest
  {
    if rest.Scanned? {
      assert [] + rest.rows == rest.rows;
    }
  }

  lemma JoinBefore(row: Row, s: Scanned, rest: Scanned)
    requires s.Scanned?
    ensures Join(Before(row, s), rest) == Before(row, Join(s, rest))
    ensures Join(Damaged(s), rest) == Damaged(Join(s, rest))
  {
    if rest.Scanned? {
      assert [row] + s.rows + rest.rows == [row] + (s.rows + rest.rows);
    }
  }

  /** If a volume only grew at its end, the old scan and a scan from where it stopped make up the scan
      of the whole volume. */
  lemma {:induction false} ScanResumes(f: Formats, name: nat, c0: seq<byte>, c: seq<byte>, pos: nat)
    requires pos <= |c0| && c0 <= c && ScanFrom(f, name, c0, pos).Scanned?
    ensures pos <= ScanFrom(f, name, c0, pos).position <= |c0|
    ensures ScanFrom(f, name, c, pos) ==
            Join(ScanFrom(f, name, c0, pos), ScanFrom(f, name, c, ScanFrom(f, name, c0, pos).position))
    decreases |c0| - pos
  {
    hide LineEnd, Join, Before, Damaged;
    if pos == |c0| || c0[LineEnd(c0, pos) - 1] != NEWLINE {
      JoinNothing(pos, ScanFrom(f, name, c, pos));
    } else {
      var end := LineEnd(c0, pos);
      LineEndPrefix(c0, c, pos);
      StepScanned(f, name, c0, pos);
      ScanResumes(f, name, c0, c, end);
      var s := ScanFrom(f, name, c0, end);
      var rest := ScanFrom(f, name, c, s.position);
      var line := f.parse(c0[pos..end]);
      JoinBefore(if line.Some? then Row(name, pos, end - pos, line.value) else NO_ROW, s, rest);
    }
  }

  const NO_ROW := Row(0, 0, 0, Record(0, 0, 0, "", "", "", 0, [], ""))

  /** A scan that succeeds succeeds behind its first line. */
  lemma StepScanned(f: Formats, name: nat, c: seq<byte>, pos: nat)
    requires pos < |c| && c[LineEnd(c, pos) - 1] == NEWLINE && ScanFrom(f, name, c, pos).Scanned?
    ensures ScanFrom(f, name, c, LineEnd(c, pos)).Scanned?
    ensures ScanFrom(f, name, c, LineEnd(c, pos)).position == ScanFrom(f, name, c, pos).position
  {}

  /** Nothing is left after the end of a scan. */
  lemma ScanStops(f: Formats, name: nat, c: seq<byte>)
    requires ScanFrom(f, name, c, 0).Scanned?
    ensures ScanFrom(f, name, c, 0).position <= |c|
    ensures var pos := ScanFrom(f, name, c, 0).position; ScanFrom(f, name, c, pos) == Scanned([], pos, 0)
  {
    hide ScanFrom;
    ScanResumes(f, name, c, c, 0);
    JoinsNothing(ScanFrom(f, name, c, 0), ScanFrom(f, name, c, ScanFrom(f, name, c, 0).position));
  }

  lemma JoinsNothing(s: Scanned, rest: Scanned)
    requires s.Scanned? && s == Join(s, rest)
    ensures rest == Scanned([], s.position, 0)
  {
    assert |s.rows| == |s.rows + rest.rows|;
  }

  /** Where a row says it is, its record can be read. */
  predicate Readable(f: Formats, name: nat, c: seq<byte>, row: Row) {
    && row.file == name && row.position + row.length <= |c| && row.length <= LINE_MAX
    && f.parse(c[row.position..row.position + row.length]) == Some(row.record)
  }

  lemma {:induction false} RowsReadable(f: Formats, name: nat, c: seq<byte>, pos: nat)
    requires pos <= |c| && ScanFrom(f, name, c, pos).Scanned?
    ensures forall row :: row in ScanFrom(f, name, c, pos).rows ==> Readable(f, name, c, row)
    decreases |c| - pos
  {
    if pos < |c| && c[LineEnd(c, pos) - 1] == NEWLINE {
      RowsReadable(f, name, c, LineEnd(c, pos));
    }
  }

  // ---- rows into tables ----

  lemma {:induction false} InsertConcat(f: Formats, t: Tables, a: seq<Row>, b: seq<Row>)
    ensures InsertAll(f, InsertAll(f, t, a), b) == InsertAll(f, t, a + b)
  {
    if b == [] {
      assert a + b == a;
    } else {
      var front := b[..|b| - 1];
      InsertConcat(f, t, a, front);
      assert (a + b)[..|a + b| - 1] == a + front;
    }
  }

  lemma {:induction false} InsertKeeps(f: Formats, t: Tables, rows: seq<Row>)
    ensures var n := InsertAll(f, t, rows);
            n.records == t.records + rows && n.files == t.files && n.transactions == t.transactions
            && (0 in t.contexts ==> 0 in n.contexts)
  {
    if rows != [] {
      InsertKeeps(f, t, rows[..|rows| - 1]);
      assert t.records + rows == t.records + rows[..|rows| - 1] + [rows[|rows| - 1]];
    }
  }

  /** Inserting rows never looks at the files and transactions tables. */
  lemma {:induction false} InsertApart(f: Formats, t: Tables, files: map<nat, FileRow>, txs: map<Key, Summary>,
                                       rows: seq<Row>)
    ensures InsertAll(f, t.(files := files, transactions := txs), rows)
         == InsertAll(f, t, rows).(files := files, transactions := txs)
  {
    if rows != [] {
      InsertApart(f, t, files, txs, rows[..|rows| - 1]);
    }
  }

  // ---- transactions ----

  lemma KeysConcat(a: seq<Row>, b: seq<Row>)
    ensures Keys(a + b) == Keys(a) + Keys(b)
  {}

  lemma {:induction false} RowsOfConcat(key: Key, a: seq<Row>, b: seq<Row>)
    ensures RowsOf(key, a + b) == RowsOf(key, a) + RowsOf(key, b)
  {
    if b == [] {
      assert a + b == a;
    } else {
      var front := b[..|b| - 1];
      RowsOfConcat(key, a, front);
      assert (a + b)[..|a + b| - 1] == a + front;
    }
  }

  lemma {:induction false} RowsOfNone(key: Key, rows: seq<Row>)
    requires forall row :: row in rows ==> KeyOf(row.record) != key
    ensures RowsOf(key, rows) == []
  {
    if rows != [] {
      RowsOfNone(key, rows[..|rows| - 1]);
    }
  }

  lemma {:induction false} RowsOfIn(key: Key, rows: seq<Row>)
    ensures forall row :: row in RowsOf(key, rows) ==> row in rows && KeyOf(row.record) == key
    ensures (exists row :: row in rows && KeyOf(row.record) == key) ==> RowsOf(key, rows) != []
  {
    if rows != [] {
      RowsOfIn(key, rows[..|rows| - 1]);
      assert rows == rows[..|rows| - 1] + [rows[|rows| - 1]];
    }
  }

  function Lookup<K, V>(m: map<K, V>, k: K): Option<V> {
    if k in m then Some(m[k]) else None
  }

  /** A transaction row only changes when rows of that transaction arrive. */
  lemma TransactionsPatch(f: Formats, before: seq<Row>, added: seq<Row>, key: Key)
    ensures Lookup(Transactions(f, before + added), key) ==
            if key in Keys(added) then SummaryOf(f, key, before + added) else Lookup(Transactions(f, before), key)
  {
    KeysConcat(before, added);
    RowsOfConcat(key, before, added);
    if key !in Keys(added) && key in Keys(before) {
      var row :| row in before && Transactional(row.record) && KeyOf(row.record) == key;
      RowsOfNone(key, added);
      assert RowsOf(key, before) + [] == RowsOf(key, before);
    }
  }

  // ---- the files table ----

  predicate Distinct(volumes: seq<Volume>) {
    forall i, j :: 0 <= i < j < |volumes| ==> volumes[i].name != volumes[j].name
  }

  lemma {:induction false} FilesLookup(f: Formats, volumes: seq<Volume>, i: nat)
    requires Good(f, volumes) && Distinct(volumes) && i < |volumes|
    ensures Lookup(AllFiles(f, volumes), volumes[i].name) == Some(FileOf(volumes[i], ScanVolume(f, volumes[i])))
  {
    if i < |volumes| - 1 {
      FilesLookup(f, volumes[..|volumes| - 1], i);
    }
  }

  lemma {:induction false} FilesNames(f: Formats, volumes: seq<Volume>, name: nat)
    requires Good(f, volumes)
    ensures name in AllFiles(f, volumes) <==> Present(name, World(None, volumes))
  {
    if volumes != [] {
      var front := volumes[..|volumes| - 1];
      FilesNames(f, front, name);
      if Present(name, World(None, front)) {
        var i :| 0 <= i < |front| && front[i].name == name;
        assert volumes[i].name == name;
      }
    }
  }

  // ---- the incremental path ----

  predicate ContinuesVolume(v0: Volume, v: Volume, last: bool) {
    && v.name == v0.name
    && ((v.content == v0.content && v.modified == v0.modified)
        || (last && v0.content <= v.content && |v0.content| < |v.content|))
  }

  /** What the incremental path needs: the known volumes come first and unchanged, but for the very
      last volume, which may have grown. */
  predicate Continues(w0: World, w: World) {
    && |w0.volumes| <= |w.volumes| && w.context == w0.context
    && forall i :: 0 <= i < |w0.volumes| ==> ContinuesVolume(w0.volumes[i], w.volumes[i], i == |w.volumes| - 1)
  }

  /** Behind the known volumes before it, no volume sorts before the known one. */
  lemma NotBefore(w0: World, w: World, i: nat)
    requires Listed(w0) && i < |w0.volumes| && i < |w.volumes| && Honest(w0, w)
    requires i > 0 ==> w0.volumes[i - 1].name < w.volumes[i].name
    ensures w0.volumes[i].name <= w.volumes[i].name
  {
    var name := w.volumes[i].name;
    if Present(name, w0) {
      var j :| 0 <= j < |w0.volumes| && w0.volumes[j].name == name;
      assert forall m :: 0 <= m < i ==> w0.volumes[m].name <= w0.volumes[i - 1].name;
      assert forall m :: i <= m < |w0.volumes| ==> w0.volumes[i].name <= w0.volumes[m].name;
    }
  }

  /** Known volumes keep their places. */
  lemma {:induction false} SamePlace(w0: World, w: World, i: nat)
    requires Listed(w0) && Listed(w) && i < |w0.volumes| && Honest(w0, w)
    requires forall j :: 0 <= j < |w0.volumes| ==> Present(w0.volumes[j].name, w)
    ensures i < |w.volumes| && w.volumes[i].name == w0.volumes[i].name
  {
    hide Honest;
    if i > 0 {
      SamePlace(w0, w, i - 1);
      assert w0.volumes[i - 1].name < w0.volumes[i].name;
    }
    assert Present(w0.volumes[i].name, w);
    var k :| 0 <= k < |w.volumes| && w.volumes[k].name == w0.volumes[i].name;
    assert i <= k;
    assert i > 0 ==> w.volumes[i - 1].name < w.volumes[i].name;
    NotBefore(w0, w, i);
    assert forall m :: i < m < |w.volumes| ==> w.volumes[i].name < w.volumes[m].name;
  }

  lemma ContinuesHolds(f: Formats, w0: World, w: World)
    requires Listed(w0) && Listed(w) && Good(f, w0.volumes) && Honest(w0, w)
    requires w0.context.Some? && w.context.Some?
    requires !NeedsRebuild(AllFiles(f, w0.volumes), w)
    ensures Continues(w0, w)
  {
    hide ScanVolume, AllFiles, Honest;
    var files := AllFiles(f, w0.volumes);
    forall j | 0 <= j < |w0.volumes| ensures Present(w0.volumes[j].name, w) {
      FilesLookup(f, w0.volumes, j);
    }
    if |w0.volumes| > 0 {
      SamePlace(w0, w, |w0.volumes| - 1);
    }
    forall i | 0 <= i < |w0.volumes| ensures ContinuesVolume(w0.volumes[i], w.volumes[i], i == |w.volumes| - 1) {
      SamePlace(w0, w, i);
      FilesLookup(f, w0.volumes, i);
      assert !Changed(files, w, i);
      HonestAt(w0, w, i);
    }
    HonestContext(w0, w);
  }

  lemma HonestAt(w0: World, w: World, i: nat)
    requires Honest(w0, w) && i < |w0.volumes| && i < |w.volumes| && w.volumes[i].name == w0.volumes[i].name
    ensures HonestVolume(w0.volumes[i], w.volumes[i], i == |w.volumes| - 1)
  {}

  lemma HonestContext(w0: World, w: World)
    requires Honest(w0, w) && w0.context.Some? && w.context.Some?
    ensures w.context == w0.context
  {}

  function StartOf(files: map<nat, FileRow>, v: Volume): nat {
    if v.name in files then files[v.name].scanned else 0
  }

  /** What the sync reads of a volume. */
  function Fresh(f: Formats, files: map<nat, FileRow>, v: Volume): Scanned {
    var start := StartOf(files, v);
    if start <= |v.content| then ScanFrom(f, v.name, v.content, start) else Scanned([], start, 0)
  }

  function RowsIn(s: Scanned): seq<Row> {
    if s.Scanned? then s.rows else []
  }

  function FreshRows(f: Formats, files: map<nat, FileRow>, volumes: seq<Volume>): seq<Row> {
    if volumes == [] then []
    else FreshRows(f, files, volumes[..|volumes| - 1]) + RowsIn(Fresh(f, files, volumes[|volumes| - 1]))
  }

  /** A known volume: its old scan and the fresh part make up its whole scan; unless it is the last
      one there is no fresh part. */
  lemma KnownVolume(f: Formats, w0: World, w: World, i: nat)
    requires Continues(w0, w) && Listed(w0) && Good(f, w0.volumes) && i < |w0.volumes|
    ensures var files := AllFiles(f, w0.volumes); var v := w.volumes[i];
            && v.name in files && files[v.name] == FileOf(w0.volumes[i], ScanVolume(f, w0.volumes[i]))
            && files[v.name].scanned <= files[v.name].size <= |v.content|
            && ScanVolume(f, v) == Join(ScanVolume(f, w0.volumes[i]), Fresh(f, files, v))
            && (i != |w.volumes| - 1 ==> Fresh(f, files, v) == Scanned([], files[v.name].scanned, 0))
            && (files[v.name].scanned == |v.content| ==> files[v.name] == FileOf(v, ScanVolume(f, v)))
  {
    hide AllFiles, ScanFrom, Good, Continues;
    ContinuesAt(w0, w, i);
    var v0, v := w0.volumes[i], w.volumes[i];
    GoodAt(f, w0.volumes, i);
    FilesLookup(f, w0.volumes, i);
    ScanResumes(f, v.name, v0.content, v.content, 0);
    ScanStops(f, v.name, v0.content);
  }

  lemma ContinuesAt(w0: World, w: World, i: nat)
    requires Continues(w0, w) && i < |w0.volumes|
    ensures i < |w.volumes| && ContinuesVolume(w0.volumes[i], w.volumes[i], i == |w.volumes| - 1)
  {}

  lemma GoodAt(f: Formats, volumes: seq<Volume>, i: nat)
    requires Good(f, volumes) && i < |volumes|
    ensures ScanVolume(f, volumes[i]).Scanned?
  {}

  /** A new volume is scanned from its start. */
  lemma NewVolume(f: Formats, w0: World, w: World, i: nat)
    requires Continues(w0, w) && Listed(w) && Good(f, w0.volumes) && |w0.volumes| <= i < |w.volumes|
    ensures var files := AllFiles(f, w0.volumes);
            w.volumes[i].name !in files && Fresh(f, files, w.volumes[i]) == ScanVolume(f, w.volumes[i])
  {
    hide ScanVolume, AllFiles, ScanFrom;
    var name := w.volumes[i].name;
    FilesNames(f, w0.volumes, name);
    forall j | 0 <= j < |w0.volumes| ensures w0.volumes[j].name != name {
      ContinuesAt(w0, w, j);
    }
    NewStart(f, AllFiles(f, w0.volumes), w.volumes[i]);
  }

  lemma NewStart(f: Formats, files: map<nat, FileRow>, v: Volume)
    requires v.name !in files
    ensures Fresh(f, files, v) == ScanVolume(f, v)
  {}

  lemma RowsSnoc(f: Formats, files: map<nat, FileRow>, volumes: seq<Volume>, i: nat)
    requires i < |volumes| && Good(f, volumes[..i + 1])
    ensures Good(f, volumes[..i])
    ensures AllRows(f, volumes[..i + 1]) == AllRows(f, volumes[..i]) + ScanVolume(f, volumes[i]).rows
    ensures AllFiles(f, volumes[..i + 1])
         == AllFiles(f, volumes[..i])[volumes[i].name := FileOf(volumes[i], ScanVolume(f, volumes[i]))]
    ensures FreshRows(f, files, volumes[..i + 1])
         == FreshRows(f, files, volumes[..i]) + RowsIn(Fresh(f, files, volumes[i]))
  {
    var some := volumes[..i + 1];
    assert some[..|some| - 1] == volumes[..i] && some[|some| - 1] == volumes[i];
    forall j | 0 <= j < i ensures ScanVolume(f, volumes[..i][j]).Scanned? {
      assert volumes[..i][j] == some[j];
    }
  }

  lemma NoRows(f: Formats, files: map<nat, FileRow>, volumes: seq<Volume>)
    requires volumes == []
    ensures Good(f, volumes) && AllRows(f, volumes) == [] && FreshRows(f, files, volumes) == []
  {}

  function Least(a: nat, b: nat): nat {
    if a <= b then a else b
  }

  /** The rows of the last sync followed by the fresh ones are the rows of a scan from scratch. */
  lemma {:induction false} RowsAgree(f: Formats, w0: World, w: World, i: nat)
    requires Continues(w0, w) && Listed(w0) && Listed(w) && Good(f, w0.volumes)
    requires i <= |w.volumes| && Good(f, w.volumes[..i])
    ensures Good(f, w0.volumes[..Least(i, |w0.volumes|)])
    ensures AllRows(f, w.volumes[..i]) == AllRows(f, w0.volumes[..Least(i, |w0.volumes|)])
                                          + FreshRows(f, AllFiles(f, w0.volumes), w.volumes[..i])
    ensures i <= |w0.volumes| && i < |w.volumes| ==> FreshRows(f, AllFiles(f, w0.volumes), w.volumes[..i]) == []
  {
    hide Continues, ScanVolume, Fresh, Listed, AllFiles, AllRows, FreshRows, Good;
    GoodPrefix(f, w0.volumes, Least(i, |w0.volumes|));
    var files := AllFiles(f, w0.volumes);
    if i == 0 {
      NoRows(f, files, w.volumes[..0]);
      NoRows(f, files, w0.volumes[..0]);
    } else {
      var k := i - 1;
      RowsSnoc(f, files, w.volumes, k);
      GoodAt(f, w.volumes[..i], k);
      RowsAgree(f, w0, w, k);
      if k < |w0.volumes| {
        KnownVolume(f, w0, w, k);
        GoodPrefix(f, w0.volumes, k + 1);
        RowsSnoc(f, files, w0.volumes, k);
      } else {
        NewVolume(f, w0, w, k);
      }
    }
  }

  lemma GoodPrefix(f: Formats, volumes: seq<Volume>, n: nat)
    requires Good(f, volumes) && n <= |volumes|
    ensures Good(f, volumes[..n])
  {}

  /** A volume is good exactly when its fresh part is. */
  lemma FreshGood(f: Formats, w0: World, w: World, i: nat)
    requires Continues(w0, w) && Listed(w0) && Listed(w) && Good(f, w0.volumes)
    requires i < |w.volumes| && Good(f, w.volumes[..i])
    ensures var s := Fresh(f, AllFiles(f, w0.volumes), w.volumes[i]);
            && (s.Scanned? <==> ScanVolume(f, w.volumes[i]).Scanned?)
            && (s.Scanned? <==> Good(f, w.volumes[..i + 1]))
  {
    hide Continues, ScanVolume, Fresh, Listed, AllFiles;
    if i < |w0.volumes| {
      KnownVolume(f, w0, w, i);
      GoodAt(f, w0.volumes, i);
    } else {
      NewVolume(f, w0, w, i);
    }
    GoodSnoc(f, w.volumes, i);
  }

  lemma GoodSnoc(f: Formats, volumes: seq<Volume>, i: nat)
    requires i < |volumes| && Good(f, volumes[..i])
    ensures Good(f, volumes[..i + 1]) <==> ScanVolume(f, volumes[i]).Scanned?
  {
    hide ScanVolume;
    var some := volumes[..i + 1];
    assert some[i] == volumes[i];
    forall j | 0 <= j < i ensures ScanVolume(f, some[j]).Scanned? {
      assert some[j] == volumes[..i][j];
    }
  }

  /** The row the sync stores for a volume: what it read, on top of what was known. */
  function StoredRow(files: map<nat, FileRow>, v: Volume, s: Scanned): FileRow
    requires s.Scanned?
  {
    FileRow(|v.content|, v.modified, s.position, s.damaged + if v.name in files then files[v.name].damaged else 0)
  }

  /** Whether stored or skipped, the row of a volume is that of a scan from scratch. */
  lemma RowStored(f: Formats, w0: World, w: World, i: nat)
    requires Continues(w0, w) && Listed(w0) && Listed(w) && Good(f, w0.volumes) && i < |w.volumes|
    requires ScanVolume(f, w.volumes[i]).Scanned?
    ensures var files := AllFiles(f, w0.volumes); var v := w.volumes[i]; var s := Fresh(f, files, v);
            && s.Scanned? && StoredRow(files, v, s) == FileOf(v, ScanVolume(f, v))
            && (v.name in files && files[v.name].scanned == |v.content| ==>
                  files[v.name] == FileOf(v, ScanVolume(f, v)))
            && (v.name in files && files[v.name].scanned == |v.content| ==> s == Scanned([], |v.content|, 0))
            && StartOf(files, v) <= |v.content|
  {
    hide Continues, ScanVolume, Listed, AllFiles, ScanFrom;
    if i < |w0.volumes| {
      KnownVolume(f, w0, w, i);
      GoodAt(f, w0.volumes, i);
      ScanEnd(f, w.volumes[i]);
    } else {
      NewVolume(f, w0, w, i);
    }
  }

  lemma ScanEnd(f: Formats, v: Volume)
    ensures ScanFrom(f, v.name, v.content, |v.content|) == Scanned([], |v.content|, 0)
  {}

  /** After all volumes the files table is that of a scan from scratch. */
  lemma FilesAgree(f: Formats, w0: World, w: World)
    requires Continues(w0, w) && Good(f, w0.volumes) && Good(f, w.volumes)
    ensures AllFiles(f, w0.volumes) + AllFiles(f, w.volumes) == AllFiles(f, w.volumes)
  {
    hide ScanVolume, AllFiles;
    forall name | name in AllFiles(f, w0.volumes) ensures name in AllFiles(f, w.volumes) {
      FilesNames(f, w0.volumes, name);
      FilesNames(f, w.volumes, name);
      var i :| 0 <= i < |w0.volumes| && w0.volumes[i].name == name;
      ContinuesAt(w0, w, i);
    }
  }

  // ---- the base of a sync ----

  /** The tables a sync builds on: emptied for a rebuild, and with the context of session.json unless
      there already is one. */
  function Base(t: Tables, rebuild: bool, context: string): Tables {
    var b := if rebuild then NO_TABLES else t;
    if 0 in b.contexts then b else b.(contexts := b.contexts[0 := context])
  }

  /** The world those tables are a scan of. */
  function BaseWorld(indexed: Option<World>, rebuild: bool, w: World): World {
    if rebuild || indexed == None then World(w.context, []) else indexed.value
  }

  /** The index is what one scan of the last indexed world gives, or empty. */
  predicate Current(f: Formats, t: Tables, indexed: Option<World>) {
    match indexed
    case None => t == NO_TABLES
    case Some(w0) => Listed(w0) && Scan(f, w0) == Some(t)
  }

  predicate Trusted(t: Tables, indexed: Option<World>, w: World) {
    indexed.Some? ==> NeedsRebuild(t.files, w) || Honest(indexed.value, w)
  }

  lemma ScanEmpty(f: Formats, context: string)
    ensures Scan(f, World(Some(context), [])) == Some(NO_TABLES.(contexts := map[0 := context]))
  {}

  lemma ScanTables(f: Formats, w: World)
    requires Scan(f, w).Some?
    ensures var t := Scan(f, w).value;
            && w.context.Some? && Good(f, w.volumes) && 0 in t.contexts
            && t.files == AllFiles(f, w.volumes) && t.records == AllRows(f, w.volumes)
            && t.transactions == Transactions(f, AllRows(f, w.volumes))
  {
    hide AllFiles, AllRows, Transactions, InsertAll;
    InsertKeeps(f, NO_TABLES.(contexts := map[0 := w.context.value]), AllRows(f, w.volumes));
  }

  lemma BaseIsScan(f: Formats, t: Tables, indexed: Option<World>, w: World)
    requires Current(f, t, indexed) && Listed(w) && w.context.Some? && Trusted(t, indexed, w)
    ensures var rebuild := NeedsRebuild(t.files, w); var w0 := BaseWorld(indexed, rebuild, w);
            && Listed(w0) && Scan(f, w0) == Some(Base(t, rebuild, w.context.value)) && Continues(w0, w)
  {
    hide Scan, NeedsRebuild, Honest;
    ScanEmpty(f, w.context.value);
    if indexed.Some? && !NeedsRebuild(t.files, w) {
      ScanTables(f, indexed.value);
      ContinuesHolds(f, indexed.value, w);
    }
  }

  /** The tables with everything but the transactions brought up to date. */
  function Refreshed(f: Formats, base: Tables, w0: World, w: World): Tables
    requires Good(f, w0.volumes) && Good(f, w.volumes)
  {
    InsertAll(f, base, FreshRows(f, AllFiles(f, w0.volumes), w.volumes)).(files := AllFiles(f, w.volumes))
  }

  /** Inserting only the fresh rows gives the records, contexts and observations of a full scan. */
  lemma RefreshedIsScan(f: Formats, w0: World, w: World)
    requires Continues(w0, w) && Listed(w0) && Listed(w)
    requires Scan(f, w0).Some? && Scan(f, w).Some?
    ensures Good(f, w0.volumes) && Good(f, w.volumes)
    ensures var rows := FreshRows(f, AllFiles(f, w0.volumes), w.volumes);
            && Scan(f, w).value.records == AllRows(f, w0.volumes) + rows
            && Scan(f, w).value.transactions == Transactions(f, AllRows(f, w0.volumes) + rows)
            && Refreshed(f, Scan(f, w0).value, w0, w).(transactions := Scan(f, w).value.transactions)
            == Scan(f, w).value
  {
    hide AllFiles, AllRows, Transactions, InsertAll, FreshRows, Good, Listed;
    var n := |w.volumes|;
    assert w.volumes[..n] == w.volumes && w0.volumes[..|w0.volumes|] == w0.volumes;
    RowsAgree(f, w0, w, n);
    var a, b := AllRows(f, w0.volumes), FreshRows(f, AllFiles(f, w0.volumes), w.volumes);
    assert AllRows(f, w.volumes) == a + b;
    var start := NO_TABLES.(contexts := map[0 := w.context.value]);
    InsertConcat(f, start, a, b);
    InsertKeeps(f, start, a + b);
    InsertApart(f, InsertAll(f, start, a), AllFiles(f, w0.volumes), Transactions(f, a), b);
  }
}
