/** The recording index as it is kept (src/recording_index.rs): one database, brought up to date by
    reading only what is new, inside one transaction. */
module RecordingIndex {
  import opened Bytes
  import opened RecordingContent
  import opened IndexScan
  import opened IndexResume
  import opened IndexLines
  import opened IndexMeaning

  /** A known volume is as it was, or is the last one and has grown. */
  predicate AsKnown(files: map<nat, FileRow>, w: World, i: nat)
    requires i < |w.volumes|
  {
    var v := w.volumes[i];
    v.name in files ==>
      || (|v.content| == files[v.name].size && v.modified == files[v.name].modified)
      || (i == |w.volumes| - 1 && |v.content| > files[v.name].size)
  }

  ghost predicate AllThere(files: map<nat, FileRow>, w: World) {
    forall name :: name in files ==> exists i :: 0 <= i < |w.volumes| && w.volumes[i].name == name
  }

  lemma RebuildMeans(files: map<nat, FileRow>, w: World)
    ensures !NeedsRebuild(files, w) <==>
            AllThere(files, w) && forall i :: 0 <= i < |w.volumes| ==> AsKnown(files, w, i)
  {
    forall i | 0 <= i < |w.volumes| ensures AsKnown(files, w, i) <==> !Changed(files, w, i) {}
    forall name | name in files
      ensures Present(name, w) <==> exists i :: 0 <= i < |w.volumes| && w.volumes[i].name == name
    {}
  }

  /** Whether the cache is rebuilt: every volume against its row, then every row against the volumes. */
  method Inspect(files: map<nat, FileRow>, w: World) returns (rebuild: bool)
    ensures rebuild == NeedsRebuild(files, w)
    ensures !rebuild <==> AllThere(files, w) && forall i :: 0 <= i < |w.volumes| ==> AsKnown(files, w, i)
  {
    RebuildMeans(files, w);
    rebuild := false;
    for i := 0 to |w.volumes|
      invariant rebuild <==> exists k :: 0 <= k < i && Changed(files, w, k)
    {
      if Changed(files, w, i) {
        rebuild := true;
      }
    }
    var names := files.Keys;
    ghost var seen: set<nat> := {};
    while names != {}
      invariant names + seen == files.Keys
      invariant rebuild <==> (exists k :: 0 <= k < |w.volumes| && Changed(files, w, k))
                             || exists name :: name in seen && !Present(name, w)
      decreases names
    {
      var name :| name in names;
      if !Present(name, w) {
        rebuild := true;
      }
      names, seen := names - {name}, seen + {name};
    }
  }

  /** The line loop over one volume, from where the last scan stopped. */
  method IndexVolume(f: Formats, tx: Tables, dirty: set<Key>, v: Volume, start: nat)
    returns (ok: bool, t: Tables, keys: set<Key>, position: nat, damaged: nat)
    requires start <= |v.content|
    ensures var s := ScanFrom(f, v.name, v.content, start);
            && (ok <==> s.Scanned?)
            && (ok ==> t == InsertAll(f, tx, s.rows) && keys == dirty + Keys(s.rows)
                       && position == s.position && damaged == s.damaged && position <= |v.content|)
  {
    hide Insert, Keys, Before, Damaged, IsContext;
    NoKeys([]);
    ghost var whole, done: seq<Row> := ScanFrom(f, v.name, v.content, start), [];
    t, keys, position, damaged := tx, dirty, start, 0;
    JoinNothing(start, whole);
    while position < |v.content|
      invariant start <= position <= |v.content|
      invariant t == InsertAll(f, tx, done) && keys == dirty + Keys(done)
      invariant whole == Join(Scanned(done, position, damaged), ScanFrom(f, v.name, v.content, position))
      decreases |v.content| - position
    {
      var end := LineEnd(v.content, position);
      if end - position > LINE_MAX {
        return false, t, keys, position, damaged;
      }
      if v.content[end - 1] != NEWLINE {
        break;
      }
      ghost var rest := ScanFrom(f, v.name, v.content, end);
      match f.parse(v.content[position..end]) {
        case Some(r) =>
          if !Storable(r) {
            return false, t, keys, position, damaged;
          }
          var row := Row(v.name, position, end - position, r);
          JoinStep(done, position, damaged, row, end, rest);
          InsertSnoc(f, tx, done, row);
          KeysSnoc(done, row);
          t := Insert(f, t, row);
          if Transactional(r) {
            keys := keys + {KeyOf(r)};
          }
          done := done + [row];
        case None =>
          JoinDamaged(done, position, damaged, end, rest);
          damaged := damaged + 1;
      }
      position := end;
    }
    JoinEnd(done, position, damaged, ScanFrom(f, v.name, v.content, position));
    ok := true;
  }

  lemma JoinStep(done: seq<Row>, position: nat, damaged: nat, row: Row, end: nat, rest: Scanned)
    ensures Join(Scanned(done, position, damaged), Before(row, rest)) == Join(Scanned(done + [row], end, damaged), rest)
  {
    if rest.Scanned? {
      assert done + ([row] + rest.rows) == done + [row] + rest.rows;
    }
  }

  lemma JoinDamaged(done: seq<Row>, position: nat, damaged: nat, end: nat, rest: Scanned)
    ensures Join(Scanned(done, position, damaged), Damaged(rest)) == Join(Scanned(done, end, damaged + 1), rest)
  {}

  lemma JoinEnd(done: seq<Row>, position: nat, damaged: nat, rest: Scanned)
    requires rest == Scanned([], position, 0)
    ensures Join(Scanned(done, position, damaged), rest) == Scanned(done, position, damaged)
  {}

  lemma InsertSnoc(f: Formats, t: Tables, rows: seq<Row>, row: Row)
    ensures InsertAll(f, t, rows + [row]) == Insert(f, InsertAll(f, t, rows), row)
  {
    assert (rows + [row])[..|rows|] == rows;
  }

  lemma KeysSnoc(rows: seq<Row>, row: Row)
    ensures Keys(rows + [row]) == Keys(rows) + if Transactional(row.record) then {KeyOf(row.record)} else {}
  {}

  // ---- reading records back ----

  function Find(volumes: seq<Volume>, name: nat): Option<seq<byte>> {
    if volumes == [] then None
    else if volumes[|volumes| - 1].name == name then Some(volumes[|volumes| - 1].content)
    else Find(volumes[..|volumes| - 1], name)
  }

  /** read_record: the bytes a row points to, parsed again. */
  function ReadRecord(f: Formats, volumes: seq<Volume>, row: Row): Option<Record> {
    match Find(volumes, row.file)
    case None => None
    case Some(c) =>
      if row.length > LINE_MAX || row.position + row.length > |c| then None
      else f.parse(c[row.position..row.position + row.length])
  }

  /** Reading a row back gives the record it was made from. */
  predicate ReadsBack(f: Formats, volumes: seq<Volume>, row: Row) {
    ReadRecord(f, volumes, row) == Some(row.record)
  }

  lemma {:induction false} FindIs(volumes: seq<Volume>, i: nat)
    requires Distinct(volumes) && i < |volumes|
    ensures Find(volumes, volumes[i].name) == Some(volumes[i].content)
  {
    if i < |volumes| - 1 {
      FindIs(volumes[..|volumes| - 1], i);
    }
  }

  lemma {:induction false} AllReadBack(f: Formats, volumes: seq<Volume>, n: nat)
    requires Distinct(volumes) && n <= |volumes| && Good(f, volumes[..n])
    ensures forall row :: row in AllRows(f, volumes[..n]) ==> ReadsBack(f, volumes, row)
  {
    hide ScanVolume, AllRows, Good, ReadsBack;
    if n == 0 {
      NoRows(f, map[], volumes[..0]);
    } else {
      RowsSnoc(f, map[], volumes, n - 1);
      AllReadBack(f, volumes, n - 1);
      GoodAt(f, volumes[..n], n - 1);
      VolumeReadsBack(f, volumes, n - 1);
    }
  }

  lemma VolumeReadsBack(f: Formats, volumes: seq<Volume>, i: nat)
    requires Distinct(volumes) && i < |volumes| && ScanVolume(f, volumes[i]).Scanned?
    ensures forall row :: row in ScanVolume(f, volumes[i]).rows ==> ReadsBack(f, volumes, row)
  {
    hide ScanFrom, Find;
    FindIs(volumes, i);
    RowsReadable(f, volumes[i].name, volumes[i].content, 0);
  }

  /** The records of a transaction, unless there are too many or they are too long. */
  method Collect(f: Formats, volumes: seq<Volume>, rows: seq<Row>) returns (ok: bool, records: seq<Record>)
    requires forall row :: row in rows ==> ReadsBack(f, volumes, row)
    ensures ok && records == if Small(rows) then Records(rows) else []
  {
    hide ReadRecord;
    records := [];
    var bytes := 0;
    for i := 0 to |rows|
      invariant records == Records(rows[..i]) && bytes == Lengths(rows[..i]) && i <= RECORDS_MAX && bytes <= BYTES_MAX
    {
      LengthsSnoc(rows, i);
      bytes := bytes + rows[i].length;
      if bytes > BYTES_MAX || |records| >= RECORDS_MAX {
        LengthsGrow(rows, i + 1);
        return true, [];
      }
      assert rows[i] in rows;
      match ReadRecord(f, volumes, rows[i]) {
        case None => return false, [];
        case Some(r) => records := records + [r];
      }
      assert rows[..i + 1] == rows[..i] + [rows[i]];
    }
    assert rows[..|rows|] == rows;
    ok := true;
  }

  lemma LengthsSnoc(rows: seq<Row>, i: nat)
    requires i < |rows|
    ensures Lengths(rows[..i + 1]) == Lengths(rows[..i]) + rows[i].length
  {
    assert rows[..i + 1][..i] == rows[..i];
  }

  lemma {:induction false} LengthsGrow(rows: seq<Row>, n: nat)
    requires n <= |rows|
    ensures Lengths(rows[..n]) <= Lengths(rows)
    decreases |rows| - n
  {
    if n == |rows| {
      assert rows[..n] == rows;
    } else {
      LengthsSnoc(rows, n);
      LengthsGrow(rows, n + 1);
    }
  }

  /** Every transaction that got new rows is decoded again from all its rows. */
  method UpdateTransactions(f: Formats, volumes: seq<Volume>, t: Tables, dirty: set<Key>)
    returns (ok: bool, transactions: map<Key, Summary>)
    requires forall row :: row in t.records ==> ReadsBack(f, volumes, row)
    ensures ok
    ensures forall key :: Lookup(transactions, key) ==
                          if key in dirty then SummaryOf(f, key, t.records) else Lookup(t.transactions, key)
  {
    hide ReadRecord, Summarize;
    transactions := t.transactions;
    var keys := dirty;
    while keys != {}
      invariant keys <= dirty
      invariant forall key :: Lookup(transactions, key) ==
                              if key in dirty - keys then SummaryOf(f, key, t.records) else Lookup(t.transactions, key)
      decreases keys
    {
      var key :| key in keys;
      var rows := RowsOf(key, t.records);
      RowsOfIn(key, t.records);
      var read, records := Collect(f, volumes, rows);
      if !read {
        return false, transactions;
      }
      if records != [] {
        transactions := transactions[key := Summarize(f, records)];
      } else {
        transactions := transactions - {key};
      }
      keys := keys - {key};
    }
    ok := true;
  }

  // ---- all volumes ----

  predicate Tail(f: Formats, v: Volume) {
    ScanVolume(f, v).Scanned? && ScanVolume(f, v).position < |v.content|
  }

  /** The tables after the first i volumes. */
  function Progress(f: Formats, base: Tables, w: World, i: nat): Tables
    requires i <= |w.volumes| && Good(f, w.volumes[..i])
  {
    InsertAll(f, base, FreshRows(f, base.files, w.volumes[..i])).(files := base.files + AllFiles(f, w.volumes[..i]))
  }

  lemma ProgressStep(f: Formats, base: Tables, w: World, i: nat)
    requires i < |w.volumes| && Good(f, w.volumes[..i + 1]) && Good(f, w.volumes[..i])
    ensures var v := w.volumes[i]; var s := RowsIn(Fresh(f, base.files, v));
            var t := InsertAll(f, Progress(f, base, w, i), s);
            && Progress(f, base, w, i + 1) == t.(files := t.files[v.name := FileOf(v, ScanVolume(f, v))])
            && Keys(FreshRows(f, base.files, w.volumes[..i + 1]))
            == Keys(FreshRows(f, base.files, w.volumes[..i])) + Keys(s)
  {
    hide InsertAll, FreshRows, AllFiles, AllRows, ScanVolume, Fresh, Keys, Good;
    RowsSnoc(f, base.files, w.volumes, i);
    var rows, s := FreshRows(f, base.files, w.volumes[..i]), RowsIn(Fresh(f, base.files, w.volumes[i]));
    KeysConcat(rows, s);
    InsertConcat(f, base, rows, s);
    var x := InsertAll(f, base, rows);
    InsertKeeps(f, base, rows);
    InsertKeeps(f, x, s);
    InsertApart(f, x, base.files + AllFiles(f, w.volumes[..i]), x.transactions, s);
    GoodAt(f, w.volumes[..i + 1], i);
  }

  lemma ProgressSkip(f: Formats, base: Tables, w: World, i: nat)
    requires i < |w.volumes| && Good(f, w.volumes[..i + 1]) && Good(f, w.volumes[..i])
    requires var v := w.volumes[i];
             && RowsIn(Fresh(f, base.files, v)) == [] && v.name in base.files && v.name !in AllFiles(f, w.volumes[..i])
             && ScanVolume(f, v).Scanned? && base.files[v.name] == FileOf(v, ScanVolume(f, v))
    ensures Progress(f, base, w, i + 1) == Progress(f, base, w, i)
    ensures Keys(FreshRows(f, base.files, w.volumes[..i + 1])) == Keys(FreshRows(f, base.files, w.volumes[..i]))
  {
    hide FreshRows, AllFiles, ScanVolume, Fresh, Keys, Good;
    ProgressStep(f, base, w, i);
    NoKeys(RowsIn(Fresh(f, base.files, w.volumes[i])));
    InsertKeeps(f, base, FreshRows(f, base.files, w.volumes[..i]));
  }

  lemma NoKeys(rows: seq<Row>)
    requires rows == []
    ensures Keys(rows) == {}
  {}

  lemma NotYet(f: Formats, w: World, i: nat)
    requires Listed(w) && i < |w.volumes| && Good(f, w.volumes[..i])
    ensures w.volumes[i].name !in AllFiles(f, w.volumes[..i])
  {
    hide ScanVolume, AllFiles;
    FilesNames(f, w.volumes[..i], w.volumes[i].name);
  }

  lemma ProgressNone(f: Formats, base: Tables, w: World)
    ensures Good(f, w.volumes[..0]) && Progress(f, base, w, 0) == base
    ensures Keys(FreshRows(f, base.files, w.volumes[..0])) == {}
  {
    NoRows(f, base.files, w.volumes[..0]);
  }

  /** The volume loop: reads of each volume only what the tables do not yet cover. */
  method IndexVolumes(f: Formats, base: Tables, w: World, ghost w0: World)
    returns (ok: bool, t: Tables, dirty: set<Key>, pendingTail: bool)
    requires Listed(w) && Listed(w0) && Scan(f, w0) == Some(base) && Continues(w0, w)
    ensures ok <==> Good(f, w.volumes)
    ensures ok ==> t == Progress(f, base, w, |w.volumes|) && w.volumes[..|w.volumes|] == w.volumes
    ensures ok ==> dirty == Keys(FreshRows(f, base.files, w.volumes))
    ensures ok ==> (pendingTail <==> exists i :: 0 <= i < |w.volumes| && Tail(f, w.volumes[i]))
  {
    hide Listed, Scan, Continues, ScanVolume, ScanFrom, Progress, FreshRows, Keys, Good, AllFiles, InsertAll;
    t, dirty, pendingTail := base, {}, false;
    ProgressNone(f, base, w);
    ScanTables(f, w0);
    assert w.volumes[..|w.volumes|] == w.volumes;
    for i := 0 to |w.volumes|
      invariant Good(f, w.volumes[..i]) && t == Progress(f, base, w, i)
      invariant dirty == Keys(FreshRows(f, base.files, w.volumes[..i]))
      invariant pendingTail <==> exists k :: 0 <= k < i && Tail(f, w.volumes[k])
    {
      var v := w.volumes[i];
      var start := StartOf(base.files, v);
      FreshGood(f, w0, w, i);
      FreshStart(f, w0, w, i);
      if v.name in base.files && start == |v.content| {
        ScanEnd(f, v);
        RowStored(f, w0, w, i);
        NotYet(f, w, i);
        ProgressSkip(f, base, w, i);
      } else {
        var read, n, keys, position, damaged := IndexVolume(f, t, dirty, v, start);
        if !read {
          NotGood(f, w.volumes, i);
          return false, t, dirty, pendingTail;
        }
        RowStored(f, w0, w, i);
        ProgressStep(f, base, w, i);
        NotYet(f, w, i);
        var known := if v.name in base.files then base.files[v.name].damaged else 0;
        t := n.(files := n.files[v.name := FileRow(|v.content|, v.modified, position, known + damaged)]);
        dirty := keys;
        if position < |v.content| {
          pendingTail := true;
        }
      }
    }
    ok := true;
  }

  lemma FreshStart(f: Formats, w0: World, w: World, i: nat)
    requires Continues(w0, w) && Listed(w0) && Listed(w) && Good(f, w0.volumes) && i < |w.volumes|
    ensures var files := AllFiles(f, w0.volumes); var v := w.volumes[i];
            && StartOf(files, v) <= |v.content|
            && Fresh(f, files, v) == ScanFrom(f, v.name, v.content, StartOf(files, v))
  {
    hide Continues, ScanVolume, Listed, AllFiles, ScanFrom;
    if i < |w0.volumes| {
      KnownVolume(f, w0, w, i);
    } else {
      NewVolume(f, w0, w, i);
    }
  }

  lemma NotGood(f: Formats, volumes: seq<Volume>, i: nat)
    requires i < |volumes| && !Good(f, volumes[..i + 1])
    ensures !Good(f, volumes)
  {
    if Good(f, volumes) {
      GoodPrefix(f, volumes, i + 1);
    }
  }

  /** One cached index of one session folder. */
  class RecordingIndex {
    const f: Formats
    var tables: Tables
    ghost var indexed: Option<World>

    /** The tables are empty, or those of one scan of the world last indexed. */
    ghost predicate Valid()
      reads this
    {
      Current(f, tables, indexed)
    }

    constructor (formats: Formats)
      ensures Valid() && f == formats && indexed == None
    {
      f, tables, indexed := formats, NO_TABLES, None;
    }

    /** sync: on success the tables are those of one scan of the folder from scratch; it fails exactly
        when that scan does, and then changes nothing. A rebuild needs no assumption. Told by the lines of
        the volumes: it succeeds exactly on an indexable folder, and the tables show those lines. */
    method Sync(w: World) returns (ok: bool, pendingTail: bool)
      requires Valid() && Listed(w) && Trusted(tables, indexed, w)
      modifies this
      ensures Valid()
      ensures ok <==> Scan(f, w).Some?
      ensures ok ==> tables == Scan(f, w).value && indexed == Some(w)
      ensures !ok ==> tables == old(tables) && indexed == old(indexed)
      ensures ok ==> (pendingTail <==> exists i :: 0 <= i < |w.volumes| && Tail(f, w.volumes[i]))
      ensures forall texts :: SplitsAll(w.volumes, texts) ==> (ok <==> Indexable(f, w, texts))
      ensures ok ==> forall texts :: SplitsAll(w.volumes, texts) ==> Shows(f, w, texts, tables)
      ensures ok ==> forall texts :: SplitsAll(w.volumes, texts) ==> (pendingTail <==> AnyTail(texts))
    {
      hide Listed, Trusted, Continues, NeedsRebuild, ScanVolume, AllRows, AllFiles, Transactions, InsertAll, FreshRows,
        Keys, Good, Progress, Tail, SplitsAll, Indexable, Shows, AnyTail;
      ScanShows(f, w);
      var rebuild := Inspect(tables.files, w);
      if w.context == None {
        return false, false;
      }
      BaseIsScan(f, tables, indexed, w);
      ghost var w0 := BaseWorld(indexed, rebuild, w);
      var base := Base(tables, rebuild, w.context.value);
      var read, t, dirty, tail := IndexVolumes(f, base, w, w0);
      if !read {
        return false, false;
      }
      RefreshedAt(f, base, w0, w);
      var _, transactions := UpdateTransactions(f, w.volumes, t, dirty);
      MapsEqual(f, base, w0, w, transactions);
      tables := t.(transactions := transactions);
      indexed := Some(w);
      return true, tail;
    }

    /** Any history of the folder, looked at now and then: each look succeeds exactly when a scan does,
        and in the end the tables are those of one scan of the last folder that could be scanned. */
    method SyncEach(worlds: seq<World>) returns (results: seq<bool>)
      requires Valid() && indexed == None
      requires forall i :: 0 <= i < |worlds| ==> Listed(worlds[i])
      requires forall i, j :: 0 <= i < j < |worlds| ==> Honest(worlds[i], worlds[j])
      modifies this
      ensures Valid() && |results| == |worlds| && indexed == LastGood(f, worlds)
      ensures forall i :: 0 <= i < |worlds| ==> (results[i] <==> Scan(f, worlds[i]).Some?)
      ensures forall i, texts :: 0 <= i < |worlds| && SplitsAll(worlds[i].volumes, texts) ==>
                (results[i] <==> Indexable(f, worlds[i], texts))
      ensures indexed.Some? ==>
                forall texts :: SplitsAll(indexed.value.volumes, texts) ==> Shows(f, indexed.value, texts, tables)
    {
      hide Listed, Honest, Current, Scan, NeedsRebuild, SplitsAll, Indexable, Shows, AnyTail;
      results := [];
      for i := 0 to |worlds|
        invariant Valid() && |results| == i && indexed == LastGood(f, worlds[..i])
        invariant forall k :: 0 <= k < i ==> (results[k] <==> Scan(f, worlds[k]).Some?)
        invariant indexed.Some? ==> exists k :: 0 <= k < i && worlds[k] == indexed.value
        invariant forall k, texts :: 0 <= k < i && SplitsAll(worlds[k].volumes, texts) ==>
                    (results[k] <==> Indexable(f, worlds[k], texts))
      {
        assert worlds[..i + 1][..i] == worlds[..i];
        var ok, _ := Sync(worlds[i]);
        results := results + [ok];
        assert ok ==> worlds[i] == indexed.value;
      }
      assert worlds[..|worlds|] == worlds;
      if indexed.Some? {
        CurrentShows(f, tables, indexed);
      }
    }
  }

  lemma CurrentShows(f: Formats, t: Tables, indexed: Option<World>)
    requires Current(f, t, indexed) && indexed.Some?
    ensures forall texts :: SplitsAll(indexed.value.volumes, texts) ==> Shows(f, indexed.value, texts, t)
  {
    hide Scan, SplitsAll, Shows, Listed;
    forall texts | SplitsAll(indexed.value.volumes, texts) ensures Shows(f, indexed.value, texts, t) {
      ScanMeans(f, indexed.value, texts);
    }
  }

  lemma ScanShows(f: Formats, w: World)
    requires Listed(w)
    ensures forall texts :: SplitsAll(w.volumes, texts) ==> (Scan(f, w).Some? <==> Indexable(f, w, texts))
    ensures Scan(f, w).Some? ==> forall texts :: SplitsAll(w.volumes, texts) ==> Shows(f, w, texts, Scan(f, w).value)
    ensures Scan(f, w).Some? ==>
              forall texts :: SplitsAll(w.volumes, texts) ==>
                ((exists i :: 0 <= i < |w.volumes| && Tail(f, w.volumes[i])) <==> AnyTail(texts))
  {
    hide ScanVolume, Splits, Indexable, Shows, Listed, AllRows, AllFiles, InsertAll, Transactions, Good;
    forall texts | SplitsAll(w.volumes, texts)
      ensures Scan(f, w).Some? <==> Indexable(f, w, texts)
      ensures Scan(f, w).Some? ==> Shows(f, w, texts, Scan(f, w).value)
      ensures Scan(f, w).Some? ==> ((exists i :: 0 <= i < |w.volumes| && Tail(f, w.volumes[i])) <==> AnyTail(texts))
    {
      ScanMeans(f, w, texts);
      if Scan(f, w).Some? {
        TailsMean(f, w.volumes, texts);
      }
    }
  }

  function LastGood(f: Formats, worlds: seq<World>): Option<World> {
    if worlds == [] then None
    else if Scan(f, worlds[|worlds| - 1]).Some? then Some(worlds[|worlds| - 1])
    else LastGood(f, worlds[..|worlds| - 1])
  }

  /** After the volume loop: everything but the transactions is right, and every row reads back. */
  lemma RefreshedAt(f: Formats, base: Tables, w0: World, w: World)
    requires Listed(w0) && Listed(w) && Scan(f, w0) == Some(base) && Continues(w0, w)
    requires w.context.Some? && Good(f, w.volumes) && w.volumes[..|w.volumes|] == w.volumes
    ensures Scan(f, w).Some?
    ensures var t := Progress(f, base, w, |w.volumes|); var all := Scan(f, w).value;
            && t.(transactions := all.transactions) == all && t.transactions == base.transactions
            && t.records == AllRows(f, w.volumes)
            && forall row :: row in t.records ==> ReadsBack(f, w.volumes, row)
  {
    hide Continues, ScanVolume, AllRows, AllFiles, Transactions, InsertAll, FreshRows, Good, ReadsBack;
    ScanTables(f, w0);
    ScanTables(f, w);
    RefreshedIsScan(f, w0, w);
    FilesAgree(f, w0, w);
    InsertKeeps(f, base, FreshRows(f, base.files, w.volumes));
    AllReadBack(f, w.volumes, |w.volumes|);
  }

  /** Updating only the transactions that got rows gives the transactions of a full scan. */
  lemma MapsEqual(f: Formats, base: Tables, w0: World, w: World, transactions: map<Key, Summary>)
    requires Listed(w0) && Listed(w) && Scan(f, w0) == Some(base) && Continues(w0, w) && Scan(f, w).Some?
    requires var all := Scan(f, w).value; var dirty := Keys(FreshRows(f, base.files, w.volumes));
             forall key :: Lookup(transactions, key) ==
                           if key in dirty then SummaryOf(f, key, all.records) else Lookup(base.transactions, key)
    ensures transactions == Scan(f, w).value.transactions
  {
    hide Continues, Listed, ScanVolume, AllRows, AllFiles, Transactions, InsertAll, FreshRows, Good, Keys, SummaryOf,
      Scan;
    ScanTables(f, w0);
    RefreshedIsScan(f, w0, w);
    var rows, added, all := AllRows(f, w0.volumes), FreshRows(f, base.files, w.volumes), Scan(f, w).value;
    forall key: Key ensures Lookup(transactions, key) == Lookup(all.transactions, key) {
      TransactionsPatch(f, rows, added, key);
    }
    LookupExtensional(transactions, all.transactions);
  }

  lemma LookupExtensional<K(!new), V>(a: map<K, V>, b: map<K, V>)
    requires forall k :: Lookup(a, k) == Lookup(b, k)
    ensures a == b
  {
    forall k: K ensures k in a <==> k in b {
      assert Lookup(a, k) == Lookup(b, k);
    }
    forall k | k in a ensures a[k] == b[k] {
      assert Lookup(a, k) == Lookup(b, k);
    }
  }
}
