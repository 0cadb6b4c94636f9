/** The recording index as one scan of all volumes from scratch (src/recording_index.rs,
    src/recording_analysis.rs): what the tables hold, as a function of the session folder. */
module IndexScan {
  import opened Bytes
  import opened RecordingContent

  const LINE_MAX: nat := 1024 * 1024
  const NEWLINE: byte := 10
  const RECORDS_MAX: nat := 4096
  const BYTES_MAX: nat := 2 * 1024 * 1024
  const SQL_MAX: nat := 0x7FFF_FFFF_FFFF_FFFF

  /** A volume; name is its place in name order. */
  datatype Volume = Volume(name: nat, content: seq<byte>, modified: nat)

  /** A session folder: the context in session.json, if that file can be read, and the volumes. */
  datatype World = World(context: Option<string>, volumes: seq<Volume>)

  datatype Sample = Sample(address: nat, raw: int, finite: bool, text: string)

  /** A decoded transaction, as far as its row shows it. */
  datatype Decoded = Decoded(slave: Option<nat>, code: Option<nat>, address: Option<nat>, count: Option<nat>,
                             outcome: string, json: string)

  /** The parsers the index calls. */
  datatype Formats = Formats(parse: seq<byte> -> Option<Record>, samples: string -> Option<seq<Sample>>,
                             isJson: string -> bool, decode: seq<Record> -> Option<Decoded>)

  // ---- tables ----

  datatype FileRow = FileRow(size: nat, modified: nat, scanned: nat, damaged: nat)

  /** A row of the records table; its other columns are functions of the record. */
  datatype Row = Row(file: nat, position: nat, length: nat, record: Record)

  datatype Observation = Observation(source: string, stamp: nat, sample: Sample)

  datatype Key = Key(source: string, protocol: string, transaction: nat)

  datatype Outcome = Success | Incomplete | Failure

  datatype Summary = Summary(sequence: nat, stamp: nat, slave: Option<nat>, code: Option<nat>, address: Option<nat>,
                             count: Option<nat>, outcome: Outcome, json: string)

  datatype Tables = Tables(files: map<nat, FileRow>, records: seq<Row>, contexts: map<nat, string>,
                           observations: map<(nat, nat), Observation>, transactions: map<Key, Summary>)

  const NO_TABLES := Tables(map[], [], map[], map[], map[])

  // ---- lines of one volume ----

  /** Where the line that starts at pos ends: after its newline, or at the end of the volume. */
  function LineEnd(c: seq<byte>, pos: nat): (end: nat)
    requires pos < |c|
    ensures pos < end <= |c| && (c[end - 1] == NEWLINE || end == |c|)
    ensures forall j :: pos <= j < end - 1 ==> c[j] != NEWLINE
    decreases |c| - pos
  {
    if c[pos] == NEWLINE || pos + 1 == |c| then pos + 1 else LineEnd(c, pos + 1)
  }

  /** Numbers beyond a signed 64-bit integer cannot be stored. */
  predicate Storable(r: Record) {
    r.sequence <= SQL_MAX && r.stamp <= SQL_MAX
  }

  /** The rows found, the end of the last complete line, and the lines that do not parse. */
  datatype Scanned = Scanned(rows: seq<Row>, position: nat, damaged: nat) | Invalid

  function Before(row: Row, rest: Scanned): Scanned {
    if rest == Invalid then Invalid else rest.(rows := [row] + rest.rows)
  }

  function Damaged(rest: Scanned): Scanned {
    if rest == Invalid then Invalid else rest.(damaged := rest.damaged + 1)
  }

  /** All complete lines from pos on; an overlong line, or a record that cannot be stored, spoils it. */
  function ScanFrom(f: Formats, name: nat, c: seq<byte>, pos: nat): Scanned
    requires pos <= |c|
    decreases |c| - pos
  {
    if pos == |c| then Scanned([], pos, 0)
    else
      var end := LineEnd(c, pos);
      if end - pos > LINE_MAX then Invalid
      else if c[end - 1] != NEWLINE then Scanned([], pos, 0)
      else
        var rest := ScanFrom(f, name, c, end);
        match f.parse(c[pos..end])
        case None => Damaged(rest)
        case Some(r) => if Storable(r) then Before(Row(name, pos, end - pos, r), rest) else Invalid
  }

  function ScanVolume(f: Formats, v: Volume): Scanned {
    ScanFrom(f, v.name, v.content, 0)
  }

  // ---- rows into tables ----

  function PutSamples(o: map<(nat, nat), Observation>, r: Record, samples: seq<Sample>): map<(nat, nat), Observation> {
    if samples == [] then o
    else
      var s := samples[|samples| - 1];
      var before := PutSamples(o, r, samples[..|samples| - 1]);
      if s.finite then before[(r.sequence, s.address) := Observation(r.source, r.stamp, s)] else before
  }

  function Observe(f: Formats, o: map<(nat, nat), Observation>, r: Record): map<(nat, nat), Observation> {
    if r.protocol != "status-sample" then o
    else
      match f.samples(r.detail)
      case None => o
      case Some(samples) => PutSamples(o, r, samples)
  }

  function Insert(f: Formats, t: Tables, row: Row): Tables {
    var r := row.record;
    t.(records := t.records + [row],
       observations := Observe(f, t.observations, r),
       contexts := if IsContext(r) && f.isJson(r.detail) then t.contexts[r.sequence := r.detail] else t.contexts)
  }

  function InsertAll(f: Formats, t: Tables, rows: seq<Row>): Tables {
    if rows == [] then t else Insert(f, InsertAll(f, t, rows[..|rows| - 1]), rows[|rows| - 1])
  }

  // ---- transactions ----

  predicate Transactional(r: Record) {
    r.transaction != 0 && (r.protocol == "modbus-rtu" || r.protocol == "modbus-ascii")
  }

  function KeyOf(r: Record): Key {
    Key(r.source, r.protocol, r.transaction)
  }

  function Keys(rows: seq<Row>): set<Key> {
    set row | row in rows && Transactional(row.record) :: KeyOf(row.record)
  }

  /** The rows of one transaction, in order. */
  function RowsOf(key: Key, rows: seq<Row>): seq<Row> {
    if rows == [] then []
    else RowsOf(key, rows[..|rows| - 1]) + if KeyOf(rows[|rows| - 1].record) == key then [rows[|rows| - 1]] else []
  }

  function Lengths(rows: seq<Row>): nat {
    if rows == [] then 0 else Lengths(rows[..|rows| - 1]) + rows[|rows| - 1].length
  }

  /** Transactions beyond these sizes get no row. */
  predicate Small(rows: seq<Row>) {
    |rows| <= RECORDS_MAX && Lengths(rows) <= BYTES_MAX
  }

  function Records(rows: seq<Row>): seq<Record> {
    seq(|rows|, i requires 0 <= i < |rows| => rows[i].record)
  }

  /** The transaction row is a function of the transaction's records. */
  function Summarize(f: Formats, records: seq<Record>): Summary
    requires records != []
  {
    var first := records[0];
    match f.decode(records)
    case None => Summary(first.sequence, first.stamp, None, None, None, None, Failure, "null")
    case Some(d) =>
      Summary(first.sequence, first.stamp, d.slave, d.code, d.address, d.count,
              if d.outcome == "请求与响应匹配" then Success
              else if "未记录到" <= d.outcome then Incomplete
              else Failure, d.json)
  }

  function SummaryOf(f: Formats, key: Key, rows: seq<Row>): Option<Summary> {
    var mine := RowsOf(key, rows);
    if mine != [] && Small(mine) then Some(Summarize(f, Records(mine))) else None
  }

  function Transactions(f: Formats, rows: seq<Row>): map<Key, Summary> {
    map key | key in Keys(rows) && SummaryOf(f, key, rows).Some? :: SummaryOf(f, key, rows).value
  }

  // ---- everything ----

  function FileOf(v: Volume, s: Scanned): FileRow
    requires s.Scanned?
  {
    FileRow(|v.content|, v.modified, s.position, s.damaged)
  }

  predicate Good(f: Formats, volumes: seq<Volume>) {
    forall i :: 0 <= i < |volumes| ==> ScanVolume(f, volumes[i]).Scanned?
  }

  function AllRows(f: Formats, volumes: seq<Volume>): seq<Row>
    requires Good(f, volumes)
  {
    if volumes == [] then []
    else AllRows(f, volumes[..|volumes| - 1]) + ScanVolume(f, volumes[|volumes| - 1]).rows
  }

  function AllFiles(f: Formats, volumes: seq<Volume>): map<nat, FileRow>
    requires Good(f, volumes)
  {
    if volumes == [] then map[]
    else
      var v := volumes[|volumes| - 1];
      AllFiles(f, volumes[..|volumes| - 1])[v.name := FileOf(v, ScanVolume(f, v))]
  }

  /** One scan from scratch: none if session.json or a volume is unusable. */
  function Scan(f: Formats, w: World): Option<Tables> {
    if w.context == None || !Good(f, w.volumes) then None
    else
      var rows := AllRows(f, w.volumes);
      var t := InsertAll(f, NO_TABLES.(contexts := map[0 := w.context.value]), rows);
      Some(t.(files := AllFiles(f, w.volumes), transactions := Transactions(f, rows)))
  }

  /** Volumes are listed in name order. */
  predicate Listed(w: World) {
    forall i, j :: 0 <= i < j < |w.volumes| ==> w.volumes[i].name < w.volumes[j].name
  }

  // ---- when the cache is rebuilt ----

  /** A known volume that shrank, changed without changing size, or grew without being the last. */
  predicate Changed(files: map<nat, FileRow>, w: World, i: nat)
    requires i < |w.volumes|
  {
    var v := w.volumes[i];
    v.name in files && Differs(files[v.name], v, i == |w.volumes| - 1)
  }

  predicate Differs(known: FileRow, v: Volume, last: bool) {
    || |v.content| < known.size
    || (|v.content| == known.size && v.modified != known.modified)
    || (|v.content| != known.size && !last)
  }

  predicate Present(name: nat, w: World) {
    exists i :: 0 <= i < |w.volumes| && w.volumes[i].name == name
  }

  predicate NeedsRebuild(files: map<nat, FileRow>, w: World) {
    || (exists i :: 0 <= i < |w.volumes| && Changed(files, w, i))
    || (exists name :: name in files && !Present(name, w))
  }

  /** What the incremental path relies on: the same session.json whenever it can be read, new volumes sort
      after the known ones, the same size and time mean the same content, and the last volume grows by
      appending. */
  predicate Honest(before: World, w: World) {
    && (w.context.Some? && before.context.Some? ==> w.context == before.context)
    && (forall i, j :: 0 <= i < |w.volumes| && 0 <= j < |before.volumes| && !Present(w.volumes[i].name, before)
                       ==> before.volumes[j].name < w.volumes[i].name)
    && (forall i, j :: 0 <= i < |w.volumes| && 0 <= j < |before.volumes|
                       && w.volumes[i].name == before.volumes[j].name
                       ==> HonestVolume(before.volumes[j], w.volumes[i], i == |w.volumes| - 1))
  }

  predicate HonestVolume(before: Volume, v: Volume, last: bool) {
    && (|v.content| == |before.content| && v.modified == before.modified ==> v.content == before.content)
    && (last && |v.content| > |before.content| ==> before.content <= v.content)
  }
}
