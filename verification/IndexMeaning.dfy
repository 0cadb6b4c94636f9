/** What the tables of the index hold, told by the lines of the volumes: every record line has its row, and
    contexts, observations and transactions are what those rows say. */
module IndexMeaning {
  import opened Bytes
  import opened RecordingContent
  import opened IndexScan
  import opened IndexResume
  import opened IndexLines

  predicate SplitsAll(volumes: seq<Volume>, texts: seq<Text>) {
    |texts| == |volumes| && forall i :: 0 <= i < |volumes| ==> Splits(volumes[i].content, texts[i])
  }

  lemma {:induction false} TextsExist(volumes: seq<Volume>) returns (texts: seq<Text>)
    ensures SplitsAll(volumes, texts)
  {
    hide Splits;
    if volumes == [] {
      texts := [];
    } else {
      var front := TextsExist(volumes[..|volumes| - 1]);
      var t := SplitExists(volumes[|volumes| - 1].content);
      texts := front + [t];
    }
  }

  // ---- records ----

  /** Row is the row of line k of volume i. */
  predicate RowIn(f: Formats, volumes: seq<Volume>, texts: seq<Text>, i: nat, k: nat, row: Row)
    requires |texts| == |volumes|
  {
    i < |volumes| && RowOfLine(f, volumes[i].name, texts[i], k, row)
  }

  predicate Earlier(a: Row, b: Row) {
    a.file < b.file || (a.file == b.file && a.position < b.position)
  }

  /** The records table: volume by volume and line by line, one row for each line that is a record. */
  ghost predicate RecordsAre(f: Formats, volumes: seq<Volume>, texts: seq<Text>, records: seq<Row>)
    requires |texts| == |volumes|
  {
    && (forall row :: row in records ==> exists i: nat, k: nat :: RowIn(f, volumes, texts, i, k, row))
    && (forall i: nat, k: nat :: i < |volumes| && Parsed(f, texts[i], k) ==>
          exists row :: row in records && RowIn(f, volumes, texts, i, k, row))
    && Ordered(records)
  }

  predicate Ordered(rows: seq<Row>) {
    forall a, b :: 0 <= a < b < |rows| ==> Earlier(rows[a], rows[b])
  }

  /** The files table: how far each volume could be read, and how many of its lines are no record. */
  predicate FilesAre(f: Formats, volumes: seq<Volume>, texts: seq<Text>, files: map<nat, FileRow>)
    requires |texts| == |volumes|
  {
    && (forall name :: name in files ==> exists i :: 0 <= i < |volumes| && volumes[i].name == name)
    && (forall i :: 0 <= i < |volumes| ==> FileIs(f, volumes[i], texts[i], files))
  }

  predicate FileIs(f: Formats, v: Volume, t: Text, files: map<nat, FileRow>) {
    && v.name in files && |t.tail| <= |v.content|
    && files[v.name] == FileRow(|v.content|, v.modified, |v.content| - |t.tail|, |Unparsed(f, t)|)
  }

  predicate UsableAll(f: Formats, texts: seq<Text>) {
    forall i :: 0 <= i < |texts| ==> Usable(f, texts[i])
  }

  lemma GoodMeans(f: Formats, volumes: seq<Volume>, texts: seq<Text>)
    requires SplitsAll(volumes, texts)
    ensures Good(f, volumes) <==> UsableAll(f, texts)
  {
    hide ScanVolume, Splits, Usable;
    forall i | 0 <= i < |volumes| ensures ScanVolume(f, volumes[i]).Scanned? <==> Usable(f, texts[i]) {
      VolumeMeans(f, volumes[i], texts[i]);
    }
  }

  /** The rows of one more volume. */
  lemma RecordsSnoc(f: Formats, volumes: seq<Volume>, texts: seq<Text>, v: Volume, t: Text, rows: seq<Row>,
                    more: seq<Row>)
    requires |texts| == |volumes| && RecordsAre(f, volumes, texts, rows) && RowsOfText(f, v.name, t, more)
    requires forall i :: 0 <= i < |volumes| ==> volumes[i].name < v.name
    ensures RecordsAre(f, volumes + [v], texts + [t], rows + more)
  {
    hide RowOfLine, Parsed;
    var vs, ts, all := volumes + [v], texts + [t], rows + more;
    forall row | row in all ensures exists i: nat, k: nat :: RowIn(f, vs, ts, i, k, row) {
      if row in rows {
        var i: nat, k: nat :| RowIn(f, volumes, texts, i, k, row);
        assert RowIn(f, vs, ts, i, k, row);
      } else {
        var k: nat :| RowOfLine(f, v.name, t, k, row);
        assert RowIn(f, vs, ts, |volumes|, k, row);
      }
    }
    forall i: nat, k: nat | i < |vs| && Parsed(f, ts[i], k)
      ensures exists row :: row in all && RowIn(f, vs, ts, i, k, row)
    {
      if i < |volumes| {
        assert ts[i] == texts[i];
        var row :| row in rows && RowIn(f, volumes, texts, i, k, row);
        assert row in all && RowIn(f, vs, ts, i, k, row);
      } else {
        var row :| row in more && RowOfLine(f, v.name, t, k, row);
        assert row in all && RowIn(f, vs, ts, i, k, row);
      }
    }
    OrderSnoc(f, volumes, texts, v, t, rows, more);
  }

  lemma OrderSnoc(f: Formats, volumes: seq<Volume>, texts: seq<Text>, v: Volume, t: Text, rows: seq<Row>,
                  more: seq<Row>)
    requires |texts| == |volumes| && RecordsAre(f, volumes, texts, rows) && RowsOfText(f, v.name, t, more)
    requires forall i :: 0 <= i < |volumes| ==> volumes[i].name < v.name
    ensures Ordered(rows + more)
  {
    hide Parsed;
    var all := rows + more;
    forall row | row in rows ensures row.file < v.name {
      var i: nat, k: nat :| RowIn(f, volumes, texts, i, k, row);
    }
    forall row | row in more ensures row.file == v.name {
      var k: nat :| RowOfLine(f, v.name, t, k, row);
    }
    forall a, b | 0 <= a < b < |all| ensures Earlier(all[a], all[b]) {
      if b < |rows| {
        assert Earlier(rows[a], rows[b]);
      } else if a < |rows| {
        assert rows[a] in rows && more[b - |rows|] in more;
      } else {
        assert more[a - |rows|] in more && more[b - |rows|] in more;
      }
    }
  }

  lemma {:induction false} RecordsMean(f: Formats, volumes: seq<Volume>, texts: seq<Text>)
    requires SplitsAll(volumes, texts) && Good(f, volumes)
    requires forall i, j :: 0 <= i < j < |volumes| ==> volumes[i].name < volumes[j].name
    ensures RecordsAre(f, volumes, texts, AllRows(f, volumes))
    decreases |volumes|
  {
    hide ScanVolume, Splits, RowsOfText;
    if volumes == [] {
      hide RowIn, Parsed;
    } else {
      var n := |volumes| - 1;
      var front, v, t := volumes[..n], volumes[n], texts[n];
      RecordsMean(f, front, texts[..n]);
      VolumeMeans(f, v, t);
      RecordsSnoc(f, front, texts[..n], v, t, AllRows(f, front), ScanVolume(f, v).rows);
      assert front + [v] == volumes && texts[..n] + [t] == texts;
    }
  }

  lemma {:induction false} FilesMean(f: Formats, volumes: seq<Volume>, texts: seq<Text>)
    requires SplitsAll(volumes, texts) && Good(f, volumes) && Distinct(volumes)
    ensures FilesAre(f, volumes, texts, AllFiles(f, volumes))
  {
    hide ScanVolume, Splits, AllFiles;
    var files := AllFiles(f, volumes);
    forall name | name in files ensures exists i :: 0 <= i < |volumes| && volumes[i].name == name {
      FilesNames(f, volumes, name);
    }
    forall i | 0 <= i < |volumes| ensures FileIs(f, volumes[i], texts[i], files) {
      FilesLookup(f, volumes, i);
      VolumeMeans(f, volumes[i], texts[i]);
    }
  }

  // ---- contexts ----

  /** A row of a context record with valid JSON, numbered s. */
  predicate Notes(f: Formats, row: Row, s: nat) {
    row.record.protocol == "recording-context" && f.isJson(row.record.detail) && row.record.sequence == s
  }

  ghost predicate LastNote(f: Formats, records: seq<Row>, s: nat, j: nat) {
    j < |records| && Notes(f, records[j], s) && forall m :: j < m < |records| ==> !Notes(f, records[m], s)
  }

  /** Under s stands what the last context record of that number says; under 0 otherwise session.json. */
  ghost predicate ContextIs(f: Formats, context: string, records: seq<Row>, contexts: map<nat, string>, s: nat) {
    if exists j: nat :: LastNote(f, records, s, j) then
      s in contexts && forall j: nat :: LastNote(f, records, s, j) ==> contexts[s] == records[j].record.detail
    else
      Lookup(contexts, s) == if s == 0 then Some(context) else None
  }

  lemma LastNoteSnoc(f: Formats, rows: seq<Row>, row: Row, s: nat, j: nat)
    ensures LastNote(f, rows + [row], s, j) <==> if Notes(f, row, s) then j == |rows| else LastNote(f, rows, s, j)
  {
    hide Notes;
    var all := rows + [row];
    assert all[|rows|] == row;
    assert forall m :: 0 <= m < |rows| ==> all[m] == rows[m];
  }

  lemma ContextSnoc(f: Formats, context: string, rows: seq<Row>, row: Row, before: map<nat, string>,
                    after: map<nat, string>, s: nat)
    requires ContextIs(f, context, rows, before, s)
    requires Lookup(after, s) == if Notes(f, row, s) then Some(row.record.detail) else Lookup(before, s)
    ensures ContextIs(f, context, rows + [row], after, s)
  {
    hide LastNote, Notes;
    forall j: nat
      ensures LastNote(f, rows + [row], s, j) <==> if Notes(f, row, s) then j == |rows| else LastNote(f, rows, s, j)
    {
      LastNoteSnoc(f, rows, row, s, j);
    }
    LastInside(f, rows, s);
    assert (rows + [row])[|rows|] == row;
    assert forall m :: 0 <= m < |rows| ==> (rows + [row])[m] == rows[m];
    if Notes(f, row, s) {
      assert LastNote(f, rows + [row], s, |rows|);
    }
  }

  lemma LastInside(f: Formats, rows: seq<Row>, s: nat)
    ensures forall j: nat :: LastNote(f, rows, s, j) ==> j < |rows|
  {}

  lemma {:induction false} ContextsMean(f: Formats, context: string, rows: seq<Row>, s: nat)
    ensures var t := NO_TABLES.(contexts := map[0 := context]);
            ContextIs(f, context, rows, InsertAll(f, t, rows).contexts, s)
    decreases |rows|
  {
    hide LastNote, ContextIs, Observe;
    var t := NO_TABLES.(contexts := map[0 := context]);
    if rows == [] {
      NoNotes(f, context, s);
    } else {
      var front, row := rows[..|rows| - 1], rows[|rows| - 1];
      ContextsMean(f, context, front, s);
      ContextSnoc(f, context, front, row, InsertAll(f, t, front).contexts, InsertAll(f, t, rows).contexts, s);
      assert front + [row] == rows;
    }
  }

  lemma NoNotes(f: Formats, context: string, s: nat)
    ensures ContextIs(f, context, [], map[0 := context], s)
  {}

  // ---- observations ----

  /** The k-th of some samples is finite and has this key. */
  predicate SampleAt(r: Record, samples: seq<Sample>, k: nat, key: (nat, nat)) {
    k < |samples| && samples[k].finite && key == (r.sequence, samples[k].address)
  }

  ghost predicate LastSample(r: Record, samples: seq<Sample>, key: (nat, nat), k: nat) {
    SampleAt(r, samples, k, key) && forall m: nat :: k < m ==> !SampleAt(r, samples, m, key)
  }

  /** The samples of a row: those of a status record that can be read. */
  function SamplesOf(f: Formats, r: Record): seq<Sample> {
    if r.protocol == "status-sample" && f.samples(r.detail).Some? then f.samples(r.detail).value else []
  }

  ghost predicate Samples(f: Formats, row: Row, key: (nat, nat)) {
    exists k: nat :: SampleAt(row.record, SamplesOf(f, row.record), k, key)
  }

  ghost predicate LastGiven(f: Formats, records: seq<Row>, key: (nat, nat), j: nat) {
    j < |records| && Samples(f, records[j], key) && forall m :: j < m < |records| ==> !Samples(f, records[m], key)
  }

  /** What the last finite sample of a row with this key says. */
  ghost predicate Observes(f: Formats, row: Row, key: (nat, nat), o: Observation) {
    forall k: nat :: LastSample(row.record, SamplesOf(f, row.record), key, k) ==>
      o == Observation(row.record.source, row.record.stamp, SamplesOf(f, row.record)[k])
  }

  /** Under a number and an address stands the last finite sample of that address in the last such record. */
  ghost predicate ObservationIs(f: Formats, records: seq<Row>, o: map<(nat, nat), Observation>, key: (nat, nat)) {
    if exists j: nat :: LastGiven(f, records, key, j) then
      key in o && forall j: nat :: LastGiven(f, records, key, j) ==> Observes(f, records[j], key, o[key])
    else
      key !in o
  }

  lemma SampleSnoc(r: Record, samples: seq<Sample>, x: Sample, key: (nat, nat), k: nat)
    ensures SampleAt(r, samples + [x], k, key) <==>
            SampleAt(r, samples, k, key) || (k == |samples| && x.finite && key == (r.sequence, x.address))
  {}

  lemma LastSampleSnoc(r: Record, samples: seq<Sample>, x: Sample, key: (nat, nat), k: nat)
    ensures LastSample(r, samples + [x], key, k) <==>
            if x.finite && key == (r.sequence, x.address) then k == |samples| else LastSample(r, samples, key, k)
  {
    forall m: nat
      ensures SampleAt(r, samples + [x], m, key) <==>
              SampleAt(r, samples, m, key) || (m == |samples| && x.finite && key == (r.sequence, x.address))
    {
      SampleSnoc(r, samples, x, key, m);
    }
    if x.finite && key == (r.sequence, x.address) {
      assert SampleAt(r, samples + [x], |samples|, key);
    }
  }

  /** One row's samples put into the table. */
  ghost predicate PutIs(r: Record, samples: seq<Sample>, key: (nat, nat), before: Option<Observation>,
                        after: Option<Observation>) {
    if exists k: nat :: SampleAt(r, samples, k, key) then
      && after.Some?
      && forall k: nat :: LastSample(r, samples, key, k) ==> after.value == Observation(r.source, r.stamp, samples[k])
    else
      after == before
  }

  lemma {:induction false} PutMeans(o: map<(nat, nat), Observation>, r: Record, samples: seq<Sample>, key: (nat, nat))
    ensures PutIs(r, samples, key, Lookup(o, key), Lookup(PutSamples(o, r, samples), key))
    decreases |samples|
  {
    hide SampleAt, LastSample;
    if samples == [] {
      NoSamples(r, key);
    } else {
      var front, x := samples[..|samples| - 1], samples[|samples| - 1];
      assert front + [x] == samples;
      PutMeans(o, r, front, key);
      PutSnoc(r, front, x, key, Lookup(o, key), Lookup(PutSamples(o, r, front), key),
              Lookup(PutSamples(o, r, samples), key));
    }
  }

  lemma NoSamples(r: Record, key: (nat, nat))
    ensures forall k: nat :: !SampleAt(r, [], k, key)
  {}

  lemma PutSnoc(r: Record, samples: seq<Sample>, x: Sample, key: (nat, nat), before: Option<Observation>,
                middle: Option<Observation>, after: Option<Observation>)
    requires PutIs(r, samples, key, before, middle)
    requires after == if x.finite && key == (r.sequence, x.address) then Some(Observation(r.source, r.stamp, x))
                      else middle
    ensures PutIs(r, samples + [x], key, before, after)
  {
    hide SampleAt, LastSample;
    var all := samples + [x];
    forall k: nat
      ensures SampleAt(r, all, k, key) <==>
              SampleAt(r, samples, k, key) || (k == |samples| && x.finite && key == (r.sequence, x.address))
      ensures LastSample(r, all, key, k) <==>
              if x.finite && key == (r.sequence, x.address) then k == |samples| else LastSample(r, samples, key, k)
    {
      SampleSnoc(r, samples, x, key, k);
      LastSampleSnoc(r, samples, x, key, k);
    }
    SampleInside(r, samples, key);
    assert all[|samples|] == x && forall m :: 0 <= m < |samples| ==> all[m] == samples[m];
    if x.finite && key == (r.sequence, x.address) {
      assert SampleAt(r, all, |samples|, key);
    }
  }

  lemma SampleInside(r: Record, samples: seq<Sample>, key: (nat, nat))
    ensures forall k: nat :: LastSample(r, samples, key, k) ==> k < |samples|
  {}

  lemma LastGivenSnoc(f: Formats, rows: seq<Row>, row: Row, key: (nat, nat), j: nat)
    ensures LastGiven(f, rows + [row], key, j) <==>
            if Samples(f, row, key) then j == |rows| else LastGiven(f, rows, key, j)
  {
    hide Samples;
    var all := rows + [row];
    assert all[|rows|] == row;
    assert forall m :: 0 <= m < |rows| ==> all[m] == rows[m];
  }

  lemma ObserveRow(f: Formats, o: map<(nat, nat), Observation>, row: Row, key: (nat, nat))
    ensures var after := Observe(f, o, row.record);
            if Samples(f, row, key) then key in after && Observes(f, row, key, after[key])
            else Lookup(after, key) == Lookup(o, key)
  {
    hide SampleAt, LastSample, PutSamples;
    PutMeans(o, row.record, SamplesOf(f, row.record), key);
    if SamplesOf(f, row.record) == [] {
      NoSamples(row.record, key);
      PutNone(o, row.record);
    }
  }

  lemma PutNone(o: map<(nat, nat), Observation>, r: Record)
    ensures PutSamples(o, r, []) == o
  {}

  lemma ObservationSnoc(f: Formats, rows: seq<Row>, row: Row, o: map<(nat, nat), Observation>, key: (nat, nat))
    requires ObservationIs(f, rows, o, key)
    ensures ObservationIs(f, rows + [row], Observe(f, o, row.record), key)
  {
    hide LastGiven, Samples, Observes, Observe;
    var all := rows + [row];
    forall j: nat
      ensures LastGiven(f, all, key, j) <==>
              if Samples(f, row, key) then j == |rows| else LastGiven(f, rows, key, j)
    {
      LastGivenSnoc(f, rows, row, key, j);
    }
    ObserveRow(f, o, row, key);
    GivenInside(f, rows, key);
    assert all[|rows|] == row && forall m :: 0 <= m < |rows| ==> all[m] == rows[m];
    if Samples(f, row, key) {
      assert LastGiven(f, all, key, |rows|);
    }
  }

  lemma GivenInside(f: Formats, rows: seq<Row>, key: (nat, nat))
    ensures forall j: nat :: LastGiven(f, rows, key, j) ==> j < |rows|
  {}

  lemma {:induction false} ObservationsMean(f: Formats, t: Tables, rows: seq<Row>, key: (nat, nat))
    requires t.observations == map[]
    ensures ObservationIs(f, rows, InsertAll(f, t, rows).observations, key)
    decreases |rows|
  {
    hide LastGiven, Samples, Observes, Observe;
    if rows == [] {
      GivenInside(f, [], key);
    } else {
      var front, row := rows[..|rows| - 1], rows[|rows| - 1];
      ObservationsMean(f, t, front, key);
      ObservationSnoc(f, front, row, InsertAll(f, t, front).observations, key);
      assert front + [row] == rows;
    }
  }

  // ---- transactions ----

  predicate KeyIs(row: Row, key: Key) {
    row.record.source == key.source && row.record.protocol == key.protocol && row.record.transaction == key.transaction
  }

  /** The rows of one transaction, in order. */
  ghost predicate Selected(records: seq<Row>, key: Key, mine: seq<Row>) {
    Ordered(mine) && forall row :: row in mine <==> row in records && KeyIs(row, key)
  }

  function TotalLength(rows: seq<Row>): nat {
    if rows == [] then 0 else TotalLength(rows[..|rows| - 1]) + rows[|rows| - 1].length
  }

  /** What a transaction row shows of its records. */
  predicate Describes(f: Formats, s: Summary, mine: seq<Row>) {
    && mine != [] && s.sequence == mine[0].record.sequence && s.stamp == mine[0].record.stamp
    && match f.decode(seq(|mine|, i requires 0 <= i < |mine| => mine[i].record))
       case None => s.slave == s.code == s.address == s.count == None && s.outcome == Failure && s.json == "null"
       case Some(d) =>
         && s.slave == d.slave && s.code == d.code && s.address == d.address && s.count == d.count && s.json == d.json
         && (s.outcome == Success <==> d.outcome == "请求与响应匹配")
         && (s.outcome == Incomplete <==> "未记录到" <= d.outcome)
  }

  /** A transaction has a row if it is a Modbus one with at most 4096 records and 2 MiB, and that row shows it. */
  predicate TransactionIs(f: Formats, transactions: map<Key, Summary>, key: Key, mine: seq<Row>) {
    && (key in transactions <==> Kept(key, mine))
    && (key in transactions ==> Describes(f, transactions[key], mine))
  }

  predicate Kept(key: Key, mine: seq<Row>) {
    && mine != [] && key.transaction != 0 && (key.protocol == "modbus-rtu" || key.protocol == "modbus-ascii")
    && |mine| <= 4096 && TotalLength(mine) <= 2097152
  }

  /** Two ordered lists of the same rows are the same. */
  lemma {:induction false} OrderedUnique(a: seq<Row>, b: seq<Row>)
    requires Ordered(a) && Ordered(b) && forall row :: row in a <==> row in b
    ensures a == b
    decreases |a|
  {
    hide Ordered, Earlier;
    NoRow(a);
    NoRow(b);
    if a != [] {
      var x := a[|a| - 1];
      assert x in b;
      var y := b[|b| - 1];
      LastIsLatest(a, y);
      LastIsLatest(b, x);
      NotBoth(x, y);
      WithoutLast(a);
      WithoutLast(b);
      var front, other := a[..|a| - 1], b[..|b| - 1];
      forall row: Row ensures row in front <==> row in other {
        assert row in front <==> row in a && row != x;
        assert row in other <==> row in b && row != y;
      }
      OrderedUnique(front, other);
      assert a == front + [x] && b == other + [y];
    }
  }

  lemma NotBoth(x: Row, y: Row)
    ensures !(Earlier(x, y) && Earlier(y, x))
  {}

  lemma NoRow(rows: seq<Row>)
    ensures rows == [] <==> forall row :: row !in rows
  {
    if rows != [] {
      assert rows[0] in rows;
    }
  }

  lemma LastIsLatest(a: seq<Row>, y: Row)
    requires Ordered(a) && y in a
    ensures y == a[|a| - 1] || Earlier(y, a[|a| - 1])
  {}

  lemma WithoutLast(a: seq<Row>)
    requires Ordered(a) && a != []
    ensures Ordered(a[..|a| - 1])
    ensures forall row :: row in a[..|a| - 1] <==> row in a && row != a[|a| - 1]
  {
    var front, last := a[..|a| - 1], a[|a| - 1];
    assert a == front + [last];
    forall row | row in front ensures row != last {
      var k :| 0 <= k < |front| && front[k] == row;
      assert Earlier(a[k], a[|a| - 1]);
    }
  }

  lemma {:induction false} RowsOfSelected(records: seq<Row>, key: Key)
    requires Ordered(records)
    ensures Selected(records, key, RowsOf(key, records))
    decreases |records|
  {
    hide Earlier, KeyIs;
    if records != [] {
      var front, last := records[..|records| - 1], records[|records| - 1];
      RowsOfSelected(front, key);
      KeyMeans(last, key);
      var before := RowsOf(key, front);
      assert records == front + [last];
      if KeyIs(last, key) {
        BehindAll(records, before);
      }
    }
  }

  lemma KeyMeans(row: Row, key: Key)
    ensures KeyOf(row.record) == key <==> KeyIs(row, key)
  {}

  lemma BehindAll(records: seq<Row>, before: seq<Row>)
    requires Ordered(records) && records != [] && Ordered(before)
    requires forall row :: row in before ==> row in records[..|records| - 1]
    ensures Ordered(before + [records[|records| - 1]])
  {
    var front, last := records[..|records| - 1], records[|records| - 1];
    forall k | 0 <= k < |before| ensures Earlier(before[k], last) {
      assert before[k] in before;
      var m :| 0 <= m < |front| && front[m] == before[k];
      assert Earlier(records[m], records[|records| - 1]);
    }
  }

  lemma {:induction false} LengthsTotal(rows: seq<Row>)
    ensures Lengths(rows) == TotalLength(rows)
  {
    if rows != [] {
      LengthsTotal(rows[..|rows| - 1]);
    }
  }

  lemma SummaryDescribes(f: Formats, mine: seq<Row>)
    requires mine != []
    ensures Describes(f, Summarize(f, Records(mine)), mine)
  {
    var matched, missing := "请求与响应匹配", "未记录到";
    assert matched[0] != missing[0];
    assert Records(mine) == seq(|mine|, i requires 0 <= i < |mine| => mine[i].record);
  }

  lemma TransactionsMean(f: Formats, records: seq<Row>, key: Key, mine: seq<Row>)
    requires Ordered(records) && Selected(records, key, mine)
    ensures TransactionIs(f, Transactions(f, records), key, mine)
  {
    hide Describes, Summarize, Ordered;
    RowsOfSelected(records, key);
    OrderedUnique(mine, RowsOf(key, records));
    LengthsTotal(mine);
    if mine != [] {
      SummaryDescribes(f, mine);
      assert mine[0] in mine;
    }
    KeysMean(records, key);
    assert mine == [] ==> forall row :: row in records ==> row in mine || !KeyIs(row, key);
  }

  lemma KeysMean(records: seq<Row>, key: Key)
    ensures key in Keys(records) <==>
            && (exists row :: row in records && KeyIs(row, key))
            && key.transaction != 0 && (key.protocol == "modbus-rtu" || key.protocol == "modbus-ascii")
  {
    if key in Keys(records) {
      var row :| row in records && Transactional(row.record) && KeyOf(row.record) == key;
      assert KeyIs(row, key);
    }
    if row :| row in records && KeyIs(row, key) {
      KeyMeans(row, key);
    }
  }

  // ---- everything ----

  /** What the five tables of an index hold, told by the lines of the volumes. */
  ghost predicate Means(f: Formats, context: string, volumes: seq<Volume>, texts: seq<Text>, t: Tables)
    requires |texts| == |volumes|
  {
    && RecordsAre(f, volumes, texts, t.records) && FilesAre(f, volumes, texts, t.files)
    && (forall s: nat :: ContextIs(f, context, t.records, t.contexts, s))
    && (forall key :: ObservationIs(f, t.records, t.observations, key))
    && (forall key, mine :: Selected(t.records, key, mine) ==> TransactionIs(f, t.transactions, key, mine))
  }

  /** A folder an index can be made of: session.json can be read, no line is longer than 1 MiB, and every
      record can be stored. */
  predicate Indexable(f: Formats, w: World, texts: seq<Text>) {
    w.context.Some? && UsableAll(f, texts)
  }

  ghost predicate Shows(f: Formats, w: World, texts: seq<Text>, t: Tables) {
    w.context.Some? && |texts| == |w.volumes| && Means(f, w.context.value, w.volumes, texts, t)
  }

  /** One scan from scratch, told by the lines of the volumes. */
  lemma ScanMeans(f: Formats, w: World, texts: seq<Text>)
    requires Listed(w) && SplitsAll(w.volumes, texts)
    ensures Scan(f, w).Some? <==> Indexable(f, w, texts)
    ensures Scan(f, w).Some? ==> Shows(f, w, texts, Scan(f, w).value)
  {
    hide AllRows, AllFiles, Transactions, InsertAll, Splits, Good, UsableAll, RecordsAre, FilesAre, ContextIs,
      ObservationIs, TransactionIs, Selected;
    GoodMeans(f, w.volumes, texts);
    if Scan(f, w).Some? {
      var context, rows := w.context.value, AllRows(f, w.volumes);
      var base := NO_TABLES.(contexts := map[0 := context]);
      InsertKeeps(f, base, rows);
      RecordsMean(f, w.volumes, texts);
      FilesMean(f, w.volumes, texts);
      OrderOf(f, w.volumes, texts, rows);
      forall s: nat ensures ContextIs(f, context, rows, InsertAll(f, base, rows).contexts, s) {
        ContextsMean(f, context, rows, s);
      }
      forall key ensures ObservationIs(f, rows, InsertAll(f, base, rows).observations, key) {
        ObservationsMean(f, base, rows, key);
      }
      forall key, mine | Selected(rows, key, mine) ensures TransactionIs(f, Transactions(f, rows), key, mine) {
        TransactionsMean(f, rows, key, mine);
      }
      assert NO_TABLES.records + rows == rows;
    }
  }

  lemma OrderOf(f: Formats, volumes: seq<Volume>, texts: seq<Text>, records: seq<Row>)
    requires |texts| == |volumes| && RecordsAre(f, volumes, texts, records)
    ensures Ordered(records)
  {}

  /** Some volume ends in an unfinished line. */
  predicate AnyTail(texts: seq<Text>) {
    exists i :: 0 <= i < |texts| && texts[i].tail != []
  }

  lemma TailsMean(f: Formats, volumes: seq<Volume>, texts: seq<Text>)
    requires SplitsAll(volumes, texts) && Good(f, volumes)
    ensures forall i :: 0 <= i < |volumes| ==>
              (ScanVolume(f, volumes[i]).Scanned? && ScanVolume(f, volumes[i]).position < |volumes[i].content|
               <==> texts[i].tail != [])
  {
    hide ScanVolume, Splits, Usable, RowsOfText;
    forall i | 0 <= i < |volumes|
      ensures ScanVolume(f, volumes[i]).Scanned? && ScanVolume(f, volumes[i]).position < |volumes[i].content|
              <==> texts[i].tail != []
    {
      VolumeMeans(f, volumes[i], texts[i]);
    }
  }
}
