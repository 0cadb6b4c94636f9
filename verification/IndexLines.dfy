/** What one scan finds in a volume, told by its lines: a volume is newline-terminated lines and a tail. */
module IndexLines {
  import opened Bytes
  import opened RecordingContent
  import opened IndexScan

  datatype Text = Text(lines: seq<seq<byte>>, tail: seq<byte>)

  /** The lines, each with its newline. */
  function Joined(lines: seq<seq<byte>>): (c: seq<byte>)
    ensures |c| >= |lines|
  {
    if lines == [] then [] else Joined(lines[..|lines| - 1]) + (lines[|lines| - 1] + [10])
  }

  predicate Splits(c: seq<byte>, t: Text) {
    c == Joined(t.lines) + t.tail && 10 !in t.tail && forall k :: 0 <= k < |t.lines| ==> 10 !in t.lines[k]
  }

  lemma EndLine(c: seq<byte>, s: Text)
    requires Splits(c, s)
    ensures Splits(c + [10], Text(s.lines + [s.tail], []))
  {
    var lines := s.lines + [s.tail];
    assert lines[..|s.lines|] == s.lines;
    assert c + [10] == Joined(s.lines) + (s.tail + [10]) + [];
  }

  lemma GrowTail(c: seq<byte>, s: Text, x: byte)
    requires Splits(c, s) && x != 10
    ensures Splits(c + [x], Text(s.lines, s.tail + [x]))
  {
    hide Joined;
    assert c + [x] == Joined(s.lines) + (s.tail + [x]);
  }

  /** Every content is such a text. */
  lemma {:induction false} SplitExists(c: seq<byte>) returns (t: Text)
    ensures Splits(c, t)
  {
    if c == [] {
      t := Text([], []);
    } else {
      var front, last := c[..|c| - 1], c[|c| - 1];
      assert c == front + [last];
      var s := SplitExists(front);
      if last == 10 {
        EndLine(front, s);
        t := Text(s.lines + [s.tail], []);
      } else {
        GrowTail(front, s, last);
        t := Text(s.lines, s.tail + [last]);
      }
    }
  }

  /** And only one. */
  lemma {:induction false} SplitUnique(c: seq<byte>, s: Text, t: Text)
    requires Splits(c, s) && Splits(c, t)
    ensures s == t
    decreases |c|
  {
    if c != [] {
      var front, last := c[..|c| - 1], c[|c| - 1];
      var s1, t1 := Shortened(c, s), Shortened(c, t);
      SplitUnique(front, s1, t1);
      Lengthened(c, s);
      Lengthened(c, t);
    }
  }

  /** The text without its last byte. */
  function Shortened(c: seq<byte>, t: Text): (s: Text)
    requires Splits(c, t) && c != []
    ensures Splits(c[..|c| - 1], s)
  {
    if t.tail != [] then
      var s := Text(t.lines, t.tail[..|t.tail| - 1]);
      assert c[..|c| - 1] == Joined(s.lines) + s.tail;
      s
    else
      var s := Text(t.lines[..|t.lines| - 1], t.lines[|t.lines| - 1]);
      assert c == Joined(s.lines) + (s.tail + [10]);
      assert c[..|c| - 1] == Joined(s.lines) + s.tail;
      s
  }

  lemma Lengthened(c: seq<byte>, t: Text)
    requires Splits(c, t) && c != []
    ensures var s := Shortened(c, t);
            t == if c[|c| - 1] == 10 then Text(s.lines + [s.tail], []) else Text(s.lines, s.tail + [c[|c| - 1]])
  {
    if t.tail != [] {
      assert t.tail == t.tail[..|t.tail| - 1] + [t.tail[|t.tail| - 1]];
      assert c[|c| - 1] == t.tail[|t.tail| - 1];
    } else {
      assert c == Joined(t.lines);
      assert c[|c| - 1] == 10;
    }
  }

  // ---- one volume ----

  /** Where line k starts. */
  function At(t: Text, k: nat): nat
    requires k <= |t.lines|
  {
    |Joined(t.lines[..k])|
  }

  /** Line k of a volume can be taken: it is not too long, and its record, if it is one, can be stored. */
  predicate LineFine(f: Formats, line: seq<byte>) {
    && |line| + 1 <= 1048576
    && match f.parse(line + [10])
       case Some(r) => r.sequence <= 0x7FFF_FFFF_FFFF_FFFF && r.stamp <= 0x7FFF_FFFF_FFFF_FFFF
       case None => true
  }

  /** A volume a scan succeeds on. */
  predicate Usable(f: Formats, t: Text) {
    (forall k :: 0 <= k < |t.lines| ==> LineFine(f, t.lines[k])) && |t.tail| <= 1048576
  }

  /** The lines that are no record. */
  function Unparsed(f: Formats, t: Text): set<nat> {
    set k: nat | k < |t.lines| && f.parse(t.lines[k] + [10]) == None
  }

  /** Row is the row of line k. */
  predicate RowOfLine(f: Formats, name: nat, t: Text, k: nat, row: Row) {
    && k < |t.lines| && row.file == name && row.position == At(t, k) && row.length == |t.lines[k]| + 1
    && f.parse(t.lines[k] + [10]) == Some(row.record)
  }

  predicate Parsed(f: Formats, t: Text, k: nat) {
    k < |t.lines| && f.parse(t.lines[k] + [10]).Some?
  }

  /** The rows of a volume: one for each line that is a record, in order, and no others. */
  ghost predicate RowsOfText(f: Formats, name: nat, t: Text, rows: seq<Row>) {
    && (forall row :: row in rows ==> exists k: nat :: RowOfLine(f, name, t, k, row))
    && (forall k: nat :: Parsed(f, t, k) ==> exists row :: row in rows && RowOfLine(f, name, t, k, row))
    && (forall i, j :: 0 <= i < j < |rows| ==> rows[i].position < rows[j].position)
  }

  // ---- the scan line by line ----

  lemma JoinedStep(t: Text, k: nat)
    requires k < |t.lines|
    ensures Joined(t.lines[..k + 1]) == Joined(t.lines[..k]) + (t.lines[k] + [10])
    ensures At(t, k + 1) == At(t, k) + |t.lines[k]| + 1
  {
    assert t.lines[..k + 1][..k] == t.lines[..k];
  }

  lemma {:induction false} JoinedPrefix(t: Text, k: nat, c: seq<byte>)
    requires k <= |t.lines| && Splits(c, t)
    ensures Joined(t.lines[..k]) <= c
    decreases |t.lines| - k
  {
    if k == |t.lines| {
      assert t.lines[..k] == t.lines;
    } else {
      JoinedPrefix(t, k + 1, c);
      JoinedStep(t, k);
    }
  }

  /** The end of a line is behind its first newline. */
  lemma {:induction false} LineEndIs(c: seq<byte>, pos: nat, end: nat)
    requires pos < end <= |c| && forall j :: pos <= j < end - 1 ==> c[j] != 10
    requires c[end - 1] == 10 || end == |c|
    ensures LineEnd(c, pos) == end
    decreases end - pos
  {
    if pos + 1 < end {
      LineEndIs(c, pos + 1, end);
    }
  }

  lemma LineIs(c: seq<byte>, t: Text, k: nat)
    requires k < |t.lines| && Splits(c, t)
    ensures At(t, k) < At(t, k + 1) <= |c| && LineEnd(c, At(t, k)) == At(t, k + 1)
    ensures c[At(t, k + 1) - 1] == 10 && c[At(t, k)..At(t, k + 1)] == t.lines[k] + [10]
    ensures At(t, k + 1) - At(t, k) == |t.lines[k]| + 1
  {
    hide Joined, LineEnd;
    JoinedStep(t, k);
    JoinedPrefix(t, k + 1, c);
    LineAt(c, Joined(t.lines[..k]), t.lines[k]);
  }

  lemma LineAt(c: seq<byte>, head: seq<byte>, line: seq<byte>)
    requires head + (line + [10]) <= c && 10 !in line
    ensures LineEnd(c, |head|) == |head| + |line| + 1 && c[|head| + |line|] == 10
    ensures c[|head|..|head| + |line| + 1] == line + [10]
  {
    hide LineEnd;
    var whole := head + (line + [10]);
    var pos, end := |head|, |head| + |line| + 1;
    assert forall j :: pos <= j < end ==> c[j] == whole[j] == (line + [10])[j - pos];
    assert forall j :: pos <= j < end - 1 ==> c[j] == line[j - pos];
    LineEndIs(c, pos, end);
  }

  lemma TailIs(c: seq<byte>, t: Text)
    requires Splits(c, t)
    ensures At(t, |t.lines|) + |t.tail| == |c|
    ensures t.tail != [] ==> LineEnd(c, At(t, |t.lines|)) == |c| && c[|c| - 1] != 10
  {
    assert t.lines[..|t.lines|] == t.lines;
    if t.tail != [] {
      var pos := |Joined(t.lines)|;
      assert forall j :: pos <= j < |c| ==> c[j] == t.tail[j - pos];
      LineEndIs(c, pos, |c|);
    }
  }

  /** The rows of the lines from k on. */
  function RowsFrom(f: Formats, name: nat, t: Text, k: nat): seq<Row>
    requires k <= |t.lines|
    decreases |t.lines| - k
  {
    if k == |t.lines| then []
    else
      (match f.parse(t.lines[k] + [10])
       case None => []
       case Some(r) => [Row(name, At(t, k), |t.lines[k]| + 1, r)]) + RowsFrom(f, name, t, k + 1)
  }

  predicate UsableFrom(f: Formats, t: Text, k: nat)
    requires k <= |t.lines|
  {
    (forall i :: k <= i < |t.lines| ==> LineFine(f, t.lines[i])) && |t.tail| <= 1048576
  }

  function UnparsedFrom(f: Formats, t: Text, k: nat): set<nat> {
    set i: nat | k <= i < |t.lines| && f.parse(t.lines[i] + [10]) == None
  }

  lemma UnparsedStep(f: Formats, t: Text, k: nat)
    requires k < |t.lines|
    ensures |UnparsedFrom(f, t, k)| ==
            |UnparsedFrom(f, t, k + 1)| + if f.parse(t.lines[k] + [10]) == None then 1 else 0
  {
    assert UnparsedFrom(f, t, k) ==
           UnparsedFrom(f, t, k + 1) + if f.parse(t.lines[k] + [10]) == None then {k} else {};
  }

  lemma ScanTail(f: Formats, name: nat, c: seq<byte>, t: Text)
    requires Splits(c, t)
    ensures At(t, |t.lines|) <= |c|
    ensures ScanFrom(f, name, c, At(t, |t.lines|)) ==
            if |t.tail| <= 1048576 then Scanned([], At(t, |t.lines|), 0) else Invalid
  {
    hide At, LineEnd;
    TailIs(c, t);
  }

  lemma ScanLine(f: Formats, name: nat, c: seq<byte>, t: Text, k: nat)
    requires Splits(c, t) && k < |t.lines|
    ensures At(t, k) <= |c| && At(t, k + 1) <= |c|
    ensures var rest := ScanFrom(f, name, c, At(t, k + 1)); var line := t.lines[k] + [10];
            ScanFrom(f, name, c, At(t, k)) ==
              if !LineFine(f, t.lines[k]) then Invalid
              else
                match f.parse(line)
                case None => Damaged(rest)
                case Some(r) => Before(Row(name, At(t, k), |t.lines[k]| + 1, r), rest)
  {
    hide At, LineEnd, Damaged, Before, Joined;
    LineIs(c, t, k);
  }

  /** The scan from line k on. */
  lemma {:induction false} ScanIs(f: Formats, name: nat, c: seq<byte>, t: Text, k: nat)
    requires Splits(c, t) && k <= |t.lines|
    ensures At(t, k) <= |c|
    ensures ScanFrom(f, name, c, At(t, k)) ==
            if UsableFrom(f, t, k) then Scanned(RowsFrom(f, name, t, k), At(t, |t.lines|), |UnparsedFrom(f, t, k)|)
            else Invalid
    decreases |t.lines| - k
  {
    hide At, Splits, ScanFrom, LineFine, UnparsedFrom;
    if k == |t.lines| {
      ScanTail(f, name, c, t);
      NoneUnparsed(f, t);
    } else {
      ScanLine(f, name, c, t, k);
      ScanIs(f, name, c, t, k + 1);
      UnparsedStep(f, t, k);
    }
  }

  lemma NoneUnparsed(f: Formats, t: Text)
    ensures UnparsedFrom(f, t, |t.lines|) == {}
  {}

  /** Those rows are as RowsOfText says, for the lines from k on. */
  ghost predicate RowsBehind(f: Formats, name: nat, t: Text, k: nat, rows: seq<Row>)
    requires k <= |t.lines|
  {
    && (forall row :: row in rows ==> row.position >= At(t, k))
    && (forall row :: row in rows ==> exists i: nat :: RowOfLine(f, name, t, i, row))
    && (forall i: nat :: k <= i && Parsed(f, t, i) ==> exists row :: row in rows && RowOfLine(f, name, t, i, row))
    && (forall i, j :: 0 <= i < j < |rows| ==> rows[i].position < rows[j].position)
  }

  lemma SkipLine(f: Formats, name: nat, t: Text, k: nat, rest: seq<Row>)
    requires k < |t.lines| && RowsBehind(f, name, t, k + 1, rest) && !Parsed(f, t, k)
    ensures RowsBehind(f, name, t, k, rest)
  {
    hide At, RowOfLine, Parsed;
    JoinedStep(t, k);
  }

  lemma TakeLine(f: Formats, name: nat, t: Text, k: nat, row: Row, rest: seq<Row>)
    requires k < |t.lines| && RowsBehind(f, name, t, k + 1, rest) && RowOfLine(f, name, t, k, row)
    requires row.position == At(t, k)
    ensures RowsBehind(f, name, t, k, [row] + rest)
  {
    hide At, RowOfLine, Parsed;
    JoinedStep(t, k);
    var rows := [row] + rest;
    assert rows[0] == row && forall x :: x in rest ==> x in rows;
    forall i: nat | k <= i && Parsed(f, t, i) ensures exists x :: x in rows && RowOfLine(f, name, t, i, x) {
      if i > k {
        var x :| x in rest && RowOfLine(f, name, t, i, x);
        assert x in rows;
      }
    }
    forall i, j | 0 <= i < j < |rows| ensures rows[i].position < rows[j].position {
      assert rows[j] == rest[j - 1] && rest[j - 1] in rest;
    }
  }

  lemma {:induction false} RowsFromAre(f: Formats, name: nat, t: Text, k: nat)
    requires k <= |t.lines|
    ensures RowsBehind(f, name, t, k, RowsFrom(f, name, t, k))
    decreases |t.lines| - k
  {
    hide At, RowsBehind;
    if k == |t.lines| {
      NoRowsBehind(f, name, t);
    } else {
      RowsFromAre(f, name, t, k + 1);
      var rest := RowsFrom(f, name, t, k + 1);
      match f.parse(t.lines[k] + [10])
      case None =>
        SkipLine(f, name, t, k, rest);
        assert RowsFrom(f, name, t, k) == rest;
      case Some(r) => TakeLine(f, name, t, k, Row(name, At(t, k), |t.lines[k]| + 1, r), rest);
    }
  }

  lemma NoRowsBehind(f: Formats, name: nat, t: Text)
    ensures RowsBehind(f, name, t, |t.lines|, [])
  {}

  /** A scan of a volume in terms of its lines. */
  lemma VolumeMeans(f: Formats, v: Volume, t: Text)
    requires Splits(v.content, t)
    ensures var s := ScanVolume(f, v);
            && (s.Scanned? <==> Usable(f, t))
            && (s.Scanned? ==> RowsOfText(f, v.name, t, s.rows) && s.position + |t.tail| == |v.content|
                               && s.damaged == |Unparsed(f, t)|)
  {
    hide At, ScanFrom, LineFine, RowsFrom, Splits;
    ScanIs(f, v.name, v.content, t, 0);
    FirstLine(t);
    RowsFromAre(f, v.name, t, 0);
    TailIs(v.content, t);
    AllUnparsed(f, t);
  }

  lemma FirstLine(t: Text)
    ensures At(t, 0) == 0
  {}

  lemma AllUnparsed(f: Formats, t: Text)
    ensures UnparsedFrom(f, t, 0) == Unparsed(f, t)
  {}
}
