/** The table-building half of the topic-ranking pipeline: tidy the header
    row, expand each presentation's semicolon-separated topic list into one
    row per topic, trim the topics, and count each (Year, Topic) pair as
    `groupby(['Year', 'Topic']).size()` does, in key order. */
module Analysis {
  import opened PyStr

  const TopicsColumn: string := "Topics (L)"
  const YearColumn: string := "Year"
  const Separator: char := ';'

  /** One row of the presentations table as the pipeline reads it: the
      value under `Year` and the text under `Topics (L)`. */
  datatype Record = Record(year: int, tags: string)

  /** The presentations table: its header row and its records. */
  datatype Frame = Frame(columns: seq<string>, records: seq<Record>)

  /** A row of the expanded table: one topic of one presentation. */
  datatype Row = Row(year: int, topic: string)

  /** A row of the counted table: a (Year, Topic) pair and its frequency. */
  datatype Trend = Trend(year: int, topic: string, count: nat)

  // ---------------------------------------------------------------------
  // Header normalisation

  /** `presentation.columns = presentation.columns.str.strip()`. */
  function StripColumns(f: Frame): (g: Frame)
    ensures g.records == f.records
    ensures |g.columns| == |f.columns|
    ensures forall k :: 0 <= k < |g.columns| ==> Stripped(g.columns[k])
    ensures forall k :: 0 <= k < |g.columns| && Stripped(f.columns[k]) ==> g.columns[k] == f.columns[k]
    ensures forall k :: 0 <= k < |g.columns| ==> g.columns[k] == Strip(f.columns[k])
  {
    Frame(seq(|f.columns|, k requires 0 <= k < |f.columns| =>
                (StrippedFixed(f.columns[k]); Strip(f.columns[k]))),
          f.records)
  }

  /** A name with no white space at its ends is left as it is. */
  lemma StrippedFixed(s: string)
    ensures Stripped(s) ==> Strip(s) == s
  {
    if Stripped(s) {
      assert s[0..|s|] == s;
      StripUnique(s, 0, |s|);
    }
  }

  /** Normalising the header twice is the same as normalising it once. */
  lemma StripColumnsIdempotent(f: Frame)
    ensures StripColumns(StripColumns(f)) == StripColumns(f)
  {
    var g := StripColumns(f);
    var h := StripColumns(g);
    assert h.columns == g.columns;
  }

  /** No column name occurs twice. */
  predicate UniqueNames(columns: seq<string>) {
    forall i, j :: 0 <= i < j < |columns| ==> columns[i] != columns[j]
  }

  /** `name` occurs at least twice among the column names. */
  predicate Repeated(columns: seq<string>, name: string) {
    exists i, j :: 0 <= i < j < |columns| && columns[i] == name && columns[j] == name
  }

  // ---------------------------------------------------------------------
  // Expansion: `assign(Topic=tags.str.split(';')).explode('Topic')`

  function TopicsOf(rows: seq<Row>): (ts: seq<string>)
    ensures |ts| == |rows| && forall k :: 0 <= k < |rows| ==> ts[k] == rows[k].topic
  {
    seq(|rows|, k requires 0 <= k < |rows| => rows[k].topic)
  }

  /** The rows one record explodes into: one per `;`-separated segment,
      empty segments included, each with the record's Year. */
  function ExpandRecord(r: Record): (rows: seq<Row>)
    ensures |rows| == Occurrences(r.tags, Separator) + 1
    ensures forall k :: 0 <= k < |rows| ==> rows[k].year == r.year && Separator !in rows[k].topic
    ensures Join(TopicsOf(rows), Separator) == r.tags
  {
    var parts := Split(r.tags, Separator);
    var rows := seq(|parts|, k requires 0 <= k < |parts| => Row(r.year, parts[k]));
    assert TopicsOf(rows) == parts;
    JoinSplit(r.tags, Separator);
    rows
  }

  /** The number of rows a list of records expands into. */
  function Segments(records: seq<Record>): nat {
    if records == [] then 0
    else Occurrences(records[0].tags, Separator) + 1 + Segments(records[1..])
  }

  /** The same count, for the records of one Year only. */
  function YearSegments(records: seq<Record>, y: int): nat {
    if records == [] then 0
    else (if records[0].year == y then Occurrences(records[0].tags, Separator) + 1 else 0)
         + YearSegments(records[1..], y)
  }

  /** `explode`: the records' rows, record after record, in order. */
  function Expand(records: seq<Record>): (rows: seq<Row>)
    ensures |rows| == Segments(records)
  {
    if records == [] then [] else ExpandRecord(records[0]) + Expand(records[1..])
  }

  /** Number of rows with Year `y`. */
  function YearRows(rows: seq<Row>, y: int): nat {
    if rows == [] then 0 else (if rows[0].year == y then 1 else 0) + YearRows(rows[1..], y)
  }

  lemma {:induction false} YearRowsAppend(a: seq<Row>, b: seq<Row>, y: int)
    ensures YearRows(a + b, y) == YearRows(a, y) + YearRows(b, y)
  {
    if a != [] {
      assert (a + b)[1..] == a[1..] + b;
      YearRowsAppend(a[1..], b, y);
    } else {
      assert a + b == b;
    }
  }

  lemma {:induction false} YearRowsUniform(rows: seq<Row>, y: int, z: int)
    requires forall k :: 0 <= k < |rows| ==> rows[k].year == z
    ensures YearRows(rows, y) == if y == z then |rows| else 0
  {
    if rows != [] {
      YearRowsUniform(rows[1..], y, z);
    }
  }

  /** Every record of Year `y` contributes one row per segment to that
      Year, and records of other Years contribute nothing. */
  lemma {:induction false} ExpandYearRows(records: seq<Record>, y: int)
    ensures YearRows(Expand(records), y) == YearSegments(records, y)
  {
    if records != [] {
      var head := ExpandRecord(records[0]);
      YearRowsAppend(head, Expand(records[1..]), y);
      YearRowsUniform(head, y, records[0].year);
      ExpandYearRows(records[1..], y);
    }
  }

  /** Every expanded row comes from some record of the same Year, and is one
      of that record's segments. */
  lemma {:induction false} ExpandProvenance(records: seq<Record>, k: nat)
    requires k < |Expand(records)|
    ensures exists r :: r in records && r.year == Expand(records)[k].year
                        && Expand(records)[k].topic in Split(r.tags, Separator)
  {
    var head := ExpandRecord(records[0]);
    if k < |head| {
      assert Expand(records)[k] == head[k];
      assert head[k].topic == Split(records[0].tags, Separator)[k];
      assert records[0] in records;
    } else {
      assert Expand(records)[k] == Expand(records[1..])[k - |head|];
      ExpandProvenance(records[1..], k - |head|);
      var r :| r in records[1..] && r.year == Expand(records)[k].year
               && Expand(records)[k].topic in Split(r.tags, Separator);
      assert r in records;
    }
  }

  // ---------------------------------------------------------------------
  // Topic trimming: `presentation_expanded['Topic'].str.strip()`

  function TrimTopics(rows: seq<Row>): (t: seq<Row>)
    ensures |t| == |rows|
    ensures forall k :: 0 <= k < |t| ==> t[k].year == rows[k].year && Stripped(t[k].topic)
    ensures forall k :: 0 <= k < |t| ==> t[k].topic == Strip(rows[k].topic)
  {
    seq(|rows|, k requires 0 <= k < |rows| => Row(rows[k].year, Strip(rows[k].topic)))
  }

  /** Trimming the topics again changes nothing. */
  lemma TrimTopicsIdempotent(rows: seq<Row>)
    ensures TrimTopics(TrimTopics(rows)) == TrimTopics(rows)
  {
    var t := TrimTopics(rows);
    forall k | 0 <= k < |t| ensures Strip(t[k].topic) == t[k].topic {
      StrippedFixed(t[k].topic);
    }
  }

  /** Trimming keeps the number of rows of every Year. */
  lemma {:induction false} TrimTopicsYearRows(rows: seq<Row>, y: int)
    ensures YearRows(TrimTopics(rows), y) == YearRows(rows, y)
  {
    if rows != [] {
      assert TrimTopics(rows)[1..] == TrimTopics(rows[1..]);
      TrimTopicsYearRows(rows[1..], y);
    }
  }

  // ---------------------------------------------------------------------
  // Counting: `groupby(['Year', 'Topic']).size().reset_index(name='Count')`

  /** The order of groupby's sorted keys: by Year, then by Topic. */
  predicate KeyLess(y1: int, t1: string, y2: int, t2: string) {
    y1 < y2 || (y1 == y2 && StrLess(t1, t2))
  }

  /** Strictly increasing keys: sorted, and no (Year, Topic) pair twice. */
  predicate SortedByKey(tab: seq<Trend>) {
    forall i, j :: 0 <= i < j < |tab| ==> KeyLess(tab[i].year, tab[i].topic, tab[j].year, tab[j].topic)
  }

  predicate Positive(tab: seq<Trend>) {
    forall i :: 0 <= i < |tab| ==> tab[i].count >= 1
  }

  function Keys(tab: seq<Trend>): set<(int, string)> {
    set e | e in tab :: (e.year, e.topic)
  }

  function RowKeys(rows: seq<Row>): set<(int, string)> {
    set r | r in rows :: (r.year, r.topic)
  }

  /** Number of rows carrying the pair (y, t). */
  function Multiplicity(rows: seq<Row>, y: int, t: string): nat {
    if rows == [] then 0
    else (if rows[0].year == y && rows[0].topic == t then 1 else 0) + Multiplicity(rows[1..], y, t)
  }

  /** Total Count recorded for the pair (y, t). */
  function CountOf(tab: seq<Trend>, y: int, t: string): nat {
    if tab == [] then 0
    else (if tab[0].year == y && tab[0].topic == t then tab[0].count else 0) + CountOf(tab[1..], y, t)
  }

  /** Total Count recorded for Year `y`. */
  function YearTotal(tab: seq<Trend>, y: int): nat {
    if tab == [] then 0 else (if tab[0].year == y then tab[0].count else 0) + YearTotal(tab[1..], y)
  }

  /** Counts one more occurrence of (y, t): the pair's Count goes up by one,
      or a new row with Count 1 is placed where the key order puts it. */
  function Bump(tab: seq<Trend>, y: int, t: string): seq<Trend> {
    if tab == [] then [Trend(y, t, 1)]
    else if KeyLess(y, t, tab[0].year, tab[0].topic) then [Trend(y, t, 1)] + tab
    else if tab[0].year == y && tab[0].topic == t then [tab[0].(count := tab[0].count + 1)] + tab[1..]
    else [tab[0]] + Bump(tab[1..], y, t)
  }

  /** The counted table of a list of rows: one row per distinct pair, in
      key order, each with a positive Count. */
  function CountPairs(rows: seq<Row>): (tab: seq<Trend>)
    ensures SortedByKey(tab) && Positive(tab)
    ensures Keys(tab) == RowKeys(rows)
  {
    if rows == [] then []
    else
      var rest := CountPairs(rows[1..]);
      BumpSorted(rest, rows[0].year, rows[0].topic);
      BumpPositive(rest, rows[0].year, rows[0].topic);
      BumpKeys(rest, rows[0].year, rows[0].topic);
      RowKeysCons(rows);
      Bump(rest, rows[0].year, rows[0].topic)
  }

  lemma RowKeysCons(rows: seq<Row>)
    requires rows != []
    ensures RowKeys(rows) == {(rows[0].year, rows[0].topic)} + RowKeys(rows[1..])
  {
    assert rows == [rows[0]] + rows[1..];
  }

  lemma {:induction false} BumpCountOf(tab: seq<Trend>, y: int, t: string, y': int, t': string)
    ensures CountOf(Bump(tab, y, t), y', t') == CountOf(tab, y', t') + (if y' == y && t' == t then 1 else 0)
  {
    var b := Bump(tab, y, t);
    if tab == [] {
    } else if KeyLess(y, t, tab[0].year, tab[0].topic) {
      assert b[1..] == tab;
    } else if tab[0].year == y && tab[0].topic == t {
      assert b[1..] == tab[1..];
    } else {
      BumpCountOf(tab[1..], y, t, y', t');
      assert b[1..] == Bump(tab[1..], y, t);
    }
  }

  lemma {:induction false} BumpYearTotal(tab: seq<Trend>, y: int, t: string, y': int)
    ensures YearTotal(Bump(tab, y, t), y') == YearTotal(tab, y') + (if y' == y then 1 else 0)
  {
    var b := Bump(tab, y, t);
    if tab == [] {
    } else if KeyLess(y, t, tab[0].year, tab[0].topic) {
      assert b[1..] == tab;
    } else if tab[0].year == y && tab[0].topic == t {
      assert b[1..] == tab[1..];
    } else {
      BumpYearTotal(tab[1..], y, t, y');
      assert b[1..] == Bump(tab[1..], y, t);
    }
  }

  lemma {:induction false} BumpKeys(tab: seq<Trend>, y: int, t: string)
    ensures Keys(Bump(tab, y, t)) == Keys(tab) + {(y, t)}
  {
    var b := Bump(tab, y, t);
    if tab == [] {
    } else if KeyLess(y, t, tab[0].year, tab[0].topic) {
      assert b == [Trend(y, t, 1)] + tab;
    } else if tab[0].year == y && tab[0].topic == t {
      assert tab == [tab[0]] + tab[1..];
      assert b == [b[0]] + tab[1..];
    } else {
      var rest := Bump(tab[1..], y, t);
      BumpKeys(tab[1..], y, t);
      assert b == [tab[0]] + rest;
      assert tab == [tab[0]] + tab[1..];
      assert Keys(b) == {(tab[0].year, tab[0].topic)} + Keys(rest);
      assert Keys(tab) == {(tab[0].year, tab[0].topic)} + Keys(tab[1..]);
    }
  }

  lemma {:induction false} BumpPositive(tab: seq<Trend>, y: int, t: string)
    requires Positive(tab)
    ensures Positive(Bump(tab, y, t))
  {
    if tab != [] && !KeyLess(y, t, tab[0].year, tab[0].topic) && !(tab[0].year == y && tab[0].topic == t) {
      BumpPositive(tab[1..], y, t);
    }
  }

  lemma KeyLessTransitive(y1: int, t1: string, y2: int, t2: string, y3: int, t3: string)
    requires KeyLess(y1, t1, y2, t2) && KeyLess(y2, t2, y3, t3)
    ensures KeyLess(y1, t1, y3, t3)
  {
    if y1 == y2 && y2 == y3 {
      StrLessTransitive(t1, t2, t3);
    }
  }

  lemma KeyLessIrreflexive(y: int, t: string)
    ensures !KeyLess(y, t, y, t)
  {
    StrLessIrreflexive(t);
  }

  /** Bumping keeps the keys strictly increasing. */
  lemma {:induction false} BumpSorted(tab: seq<Trend>, y: int, t: string)
    requires SortedByKey(tab)
    ensures SortedByKey(Bump(tab, y, t))
  {
    var b := Bump(tab, y, t);
    if tab == [] {
    } else if KeyLess(y, t, tab[0].year, tab[0].topic) {
      forall j | 1 <= j < |b| ensures KeyLess(y, t, b[j].year, b[j].topic) {
        if j > 1 {
          KeyLessTransitive(y, t, tab[0].year, tab[0].topic, b[j].year, b[j].topic);
        }
      }
    } else if tab[0].year == y && tab[0].topic == t {
    } else {
      var rest := Bump(tab[1..], y, t);
      BumpSorted(tab[1..], y, t);
      BumpKeys(tab[1..], y, t);
      assert b == [tab[0]] + rest;
      if y == tab[0].year {
        StrLessTotal(t, tab[0].topic);
      }
      forall j | 0 <= j < |rest| ensures KeyLess(tab[0].year, tab[0].topic, rest[j].year, rest[j].topic) {
        assert (rest[j].year, rest[j].topic) in Keys(rest);
        if (rest[j].year, rest[j].topic) != (y, t) {
          assert (rest[j].year, rest[j].topic) in Keys(tab[1..]);
          var e :| e in tab[1..] && (e.year, e.topic) == (rest[j].year, rest[j].topic);
          var i :| 0 <= i < |tab[1..]| && tab[1..][i] == e;
          assert tab[i + 1] == e;
        }
      }
    }
  }

  /** What `groupby(['Year', 'Topic']).size()` promises, stated on the
      counted table: its keys are strictly increasing (sorted, one row per
      distinct pair), they are exactly the pairs among the rows, each pair's
      Count is the number of rows carrying it, and the Counts of a Year add
      up to the number of rows of that Year. */
  lemma {:induction false} CountPairsSpec(rows: seq<Row>)
    ensures SortedByKey(CountPairs(rows))
    ensures Positive(CountPairs(rows))
    ensures Keys(CountPairs(rows)) == RowKeys(rows)
    ensures forall y, t :: CountOf(CountPairs(rows), y, t) == Multiplicity(rows, y, t)
    ensures forall y :: YearTotal(CountPairs(rows), y) == YearRows(rows, y)
  {
    if rows != [] {
      var tab := CountPairs(rows[1..]);
      CountPairsSpec(rows[1..]);
      forall y, t ensures CountOf(CountPairs(rows), y, t) == Multiplicity(rows, y, t) {
        BumpCountOf(tab, rows[0].year, rows[0].topic, y, t);
      }
      forall y ensures YearTotal(CountPairs(rows), y) == YearRows(rows, y) {
        BumpYearTotal(tab, rows[0].year, rows[0].topic, y);
      }
    }
  }

  lemma {:induction false} CountOfAbsent(tab: seq<Trend>, y: int, t: string)
    requires (y, t) !in Keys(tab)
    ensures CountOf(tab, y, t) == 0
  {
    if tab != [] {
      assert tab[0] in tab;
      assert Keys(tab[1..]) <= Keys(tab);
      CountOfAbsent(tab[1..], y, t);
    }
  }

  /** In a table with strictly increasing keys, the Count a row shows is
      the whole Count recorded for its pair. */
  lemma {:induction false} CountOfAt(tab: seq<Trend>, i: nat)
    requires SortedByKey(tab) && i < |tab|
    ensures CountOf(tab, tab[i].year, tab[i].topic) == tab[i].count
  {
    var e := tab[i];
    if i == 0 {
      if (e.year, e.topic) in Keys(tab[1..]) {
        var d :| d in tab[1..] && (d.year, d.topic) == (e.year, e.topic);
        var j :| 0 <= j < |tab[1..]| && tab[1..][j] == d;
        assert KeyLess(e.year, e.topic, tab[j + 1].year, tab[j + 1].topic);
        KeyLessIrreflexive(e.year, e.topic);
      }
      CountOfAbsent(tab[1..], e.year, e.topic);
    } else {
      assert KeyLess(tab[0].year, tab[0].topic, e.year, e.topic);
      KeyLessIrreflexive(e.year, e.topic);
      assert tab[1..][i - 1] == e;
      CountOfAt(tab[1..], i - 1);
    }
  }

  lemma {:induction false} YearRowsPositive(rows: seq<Row>, r: Row)
    requires r in rows
    ensures YearRows(rows, r.year) >= 1
  {
    if rows[0] != r {
      YearRowsPositive(rows[1..], r);
    }
  }

  /** The counted table row by row: each row's Count is at least one and
      is the multiplicity of its pair among the rows, and no Year without
      rows shows up. */
  lemma CountPairsRows(rows: seq<Row>)
    ensures forall i :: 0 <= i < |CountPairs(rows)| ==>
              CountPairs(rows)[i].count == Multiplicity(rows, CountPairs(rows)[i].year, CountPairs(rows)[i].topic) >= 1
    ensures forall e :: e in CountPairs(rows) ==> YearRows(rows, e.year) >= 1
  {
    var tab := CountPairs(rows);
    CountPairsSpec(rows);
    forall i | 0 <= i < |tab|
      ensures tab[i].count == Multiplicity(rows, tab[i].year, tab[i].topic)
    {
      CountOfAt(tab, i);
    }
    forall e | e in tab ensures YearRows(rows, e.year) >= 1 {
      assert (e.year, e.topic) in RowKeys(rows);
      var r :| r in rows && (r.year, r.topic) == (e.year, e.topic);
      YearRowsPositive(rows, r);
    }
  }

  // ---------------------------------------------------------------------
  // From the tags cells to the counts

  /** Number of pieces equal to `t`. */
  function PieceCount(parts: seq<string>, t: string): nat {
    if parts == [] then 0 else (if parts[0] == t then 1 else 0) + PieceCount(parts[1..], t)
  }

  /** Each piece with its edge white space stripped. */
  function StripAll(parts: seq<string>): (r: seq<string>)
    ensures |r| == |parts| && forall k :: 0 <= k < |r| ==> r[k] == Strip(parts[k])
  {
    seq(|parts|, k requires 0 <= k < |parts| => Strip(parts[k]))
  }

  /** How many `;`-separated segments equal to `t` the records of Year `y`
      hold, counted record by record on the tags cells alone. */
  function SegmentCount(records: seq<Record>, y: int, t: string): nat {
    if records == [] then 0
    else (if records[0].year == y then PieceCount(Split(records[0].tags, Separator), t) else 0)
         + SegmentCount(records[1..], y, t)
  }

  /** The same, for the segments that are `t` once stripped. */
  function StrippedSegmentCount(records: seq<Record>, y: int, t: string): nat {
    if records == [] then 0
    else (if records[0].year == y then PieceCount(StripAll(Split(records[0].tags, Separator)), t) else 0)
         + StrippedSegmentCount(records[1..], y, t)
  }

  /** The rows of Year `z` with the given topics, in order. */
  function RowsOf(z: int, parts: seq<string>): (rows: seq<Row>)
    ensures |rows| == |parts| && forall k :: 0 <= k < |rows| ==> rows[k] == Row(z, parts[k])
  {
    if parts == [] then [] else [Row(z, parts[0])] + RowsOf(z, parts[1..])
  }

  lemma {:induction false} MultiplicityAppend(a: seq<Row>, b: seq<Row>, y: int, t: string)
    ensures Multiplicity(a + b, y, t) == Multiplicity(a, y, t) + Multiplicity(b, y, t)
  {
    if a == [] {
      assert a + b == b;
    } else {
      assert (a + b)[1..] == a[1..] + b;
      MultiplicityAppend(a[1..], b, y, t);
    }
  }

  lemma {:induction false} RowsOfMultiplicity(z: int, parts: seq<string>, y: int, t: string)
    ensures Multiplicity(RowsOf(z, parts), y, t) == if z == y then PieceCount(parts, t) else 0
  {
    if parts != [] {
      RowsOfMultiplicity(z, parts[1..], y, t);
      assert RowsOf(z, parts)[1..] == RowsOf(z, parts[1..]);
    }
  }

  /** Exploding keeps every segment of every record, with its multiplicity:
      the rows of pair (y, t) are exactly the segments equal to `t` in the
      records of Year `y`. */
  lemma {:induction false} ExpandMultiplicity(records: seq<Record>, y: int, t: string)
    ensures Multiplicity(Expand(records), y, t) == SegmentCount(records, y, t)
  {
    if records != [] {
      var r := records[0];
      assert ExpandRecord(r) == RowsOf(r.year, Split(r.tags, Separator));
      MultiplicityAppend(ExpandRecord(r), Expand(records[1..]), y, t);
      RowsOfMultiplicity(r.year, Split(r.tags, Separator), y, t);
      ExpandMultiplicity(records[1..], y, t);
    }
  }

  lemma TrimTopicsAppend(a: seq<Row>, b: seq<Row>)
    ensures TrimTopics(a + b) == TrimTopics(a) + TrimTopics(b)
  {
    assert forall k :: 0 <= k < |a| ==> (a + b)[k] == a[k];
    assert forall k :: |a| <= k < |a| + |b| ==> (a + b)[k] == b[k - |a|];
  }

  /** After trimming, the rows of pair (y, t) are exactly the segments of
      Year `y` that strip to `t`. */
  lemma {:induction false} TrimmedExpandMultiplicity(records: seq<Record>, y: int, t: string)
    ensures Multiplicity(TrimTopics(Expand(records)), y, t) == StrippedSegmentCount(records, y, t)
  {
    if records != [] {
      var r := records[0];
      var parts := Split(r.tags, Separator);
      assert ExpandRecord(r) == RowsOf(r.year, parts);
      assert TrimTopics(RowsOf(r.year, parts)) == RowsOf(r.year, StripAll(parts));
      TrimTopicsAppend(ExpandRecord(r), Expand(records[1..]));
      MultiplicityAppend(TrimTopics(ExpandRecord(r)), TrimTopics(Expand(records[1..])), y, t);
      RowsOfMultiplicity(r.year, StripAll(parts), y, t);
      TrimmedExpandMultiplicity(records[1..], y, t);
    }
  }
}
