/** The module-level pipeline of the topic dashboard and its two pieces of
    presentation logic: the drill-down bar chart for one Year and the click
    handler that decides which chart to show. A figure is only what the
    chart would show: its title and the rows it charts. */
module TopicApp {
  import opened PyStr
  import opened Outcomes
  import opened Analysis
  import opened Ranking

  /** The three tables the module builds at start-up:
      `presentation_expanded`, `topic_trends` and `top_topics_per_year`. */
  datatype Tables = Tables(expanded: seq<Row>, trends: seq<Trend>, top: seq<Trend>)

  /** The three tables built from the records once the header has both
      columns: expand and trim the topics, count each (Year, Topic) pair
      and keep the top five of every Year. */
  function BuildTables(records: seq<Record>): (t: Tables)
    ensures |t.expanded| == Segments(records)
    ensures SortedByKey(t.trends) && Positive(t.trends)
  {
    var expanded := TrimTopics(Expand(records));
    CountPairsSpec(expanded);
    var trends := CountPairs(expanded);
    Tables(expanded, trends, TopPerYear(trends))
  }

  /** Normalise the header, then build the tables. Each failure is the
      first one Python meets:
      - reading `Topics (L)` raises `KeyError` when the normalised header
        lacks it;
      - when that name occurs twice the column selection is a table, which
        has no `.str`, so `AttributeError` is raised;
      - `explode` refuses a table whose column names repeat (`ValueError`);
      - grouping by `Year` raises `KeyError` when the header lacks it. */
  function RunPipeline(f: Frame): (r: Result<Tables>)
    ensures var cols := StripColumns(f).columns;
      TopicsColumn !in cols ==> r == Raised(KeyError(TopicsColumn))
    ensures var cols := StripColumns(f).columns;
      TopicsColumn in cols && Repeated(cols, TopicsColumn) ==> r == Raised(AttributeError("str"))
    ensures var cols := StripColumns(f).columns;
      TopicsColumn in cols && !Repeated(cols, TopicsColumn) && !UniqueNames(cols) ==> r == Raised(ValueError)
    ensures var cols := StripColumns(f).columns;
      TopicsColumn in cols && UniqueNames(cols) && YearColumn !in cols ==> r == Raised(KeyError(YearColumn))
    ensures var cols := StripColumns(f).columns;
      r.Ok? <==> TopicsColumn in cols && YearColumn in cols && UniqueNames(cols)
    ensures r.Ok? ==> r.value == BuildTables(f.records)
  {
    var g := StripColumns(f);
    if TopicsColumn !in g.columns then Raised(KeyError(TopicsColumn))
    else if Repeated(g.columns, TopicsColumn) then Raised(AttributeError("str"))
    else if !UniqueNames(g.columns) then Raised(ValueError)
    else if YearColumn !in g.columns then Raised(KeyError(YearColumn))
    else Ok(BuildTables(g.records))
  }

  /** End to end: every Year's Counts add up to the number of
      `;`-separated segments in that Year's records; each counted row
      carries the multiplicity of its pair among the expanded rows; and
      each Year of the top table holds the drill-down selection of that
      Year, min(5, distinct topics) rows ranked by Count and then by
      Topic. */
  lemma PipelineSpec(records: seq<Record>, y: int)
    ensures var t := BuildTables(records);
      && YearTotal(t.trends, y) == YearSegments(records, y)
      && (forall i :: 0 <= i < |t.trends| ==>
            t.trends[i].count == Multiplicity(t.expanded, t.trends[i].year, t.trends[i].topic))
      && Group(t.top, y) == NLargest(Group(t.trends, y), TopN)
      && |Group(t.top, y)| == Min(TopN, |TopicsInYear(t.expanded, y)|)
      && Ranked(Group(t.top, y))
  {
    var t := BuildTables(records);
    var raw := Expand(records);
    assert t.expanded == TrimTopics(raw);
    CountPairsSpec(t.expanded);
    TrimTopicsYearRows(raw, y);
    ExpandYearRows(records, y);
    CountPairsRows(t.expanded);
    DrillDownAgreement(t.trends, y);
    TopPerYearSize(t.expanded, y);
    GroupTopicsAscending(t.trends, y);
    NLargestTieBreak(Group(t.trends, y), TopN);
  }

  /** The counts read straight off the tags cells: the Count recorded for
      (y, t), zero when the pair is absent, is the number of `;`-separated
      segments in the records of Year `y` that strip to `t`. */
  lemma CountsFromTags(records: seq<Record>)
    ensures var t := BuildTables(records);
      && (forall y, topic :: CountOf(t.trends, y, topic) == StrippedSegmentCount(records, y, topic))
      && (forall i :: 0 <= i < |t.trends| ==>
            t.trends[i].count == StrippedSegmentCount(records, t.trends[i].year, t.trends[i].topic))
  {
    var t := BuildTables(records);
    CountPairsSpec(t.expanded);
    forall y, topic ensures CountOf(t.trends, y, topic) == StrippedSegmentCount(records, y, topic) {
      TrimmedExpandMultiplicity(records, y, topic);
    }
    forall i | 0 <= i < |t.trends|
      ensures t.trends[i].count == StrippedSegmentCount(records, t.trends[i].year, t.trends[i].topic)
    {
      CountOfAt(t.trends, i);
    }
  }

  // ---------------------------------------------------------------------
  // Figures

  datatype Figure =
    | EmptyFigure                                // the `{}` the handler returns
    | BarChart(title: string, bars: seq<Trend>)  // a bar per row: x = Topic, y = Count

  const TitlePrefix: string := "Top 5 Topics in "

  /** `f'Top 5 Topics in {selected_year}'`: the fixed prefix followed by
      the Year's decimal text, which reads back as the Year. */
  function YearTitle(y: int): (t: string)
    ensures |t| > |TitlePrefix| && t[..|TitlePrefix|] == TitlePrefix
    ensures DecimalText(t[|TitlePrefix|..]) && DecimalValue(t[|TitlePrefix|..]) == y
    ensures CanonicalDecimal(t[|TitlePrefix|..])
  {
    var t := TitlePrefix + IntToDecimal(y);
    assert t[|TitlePrefix|..] == IntToDecimal(y);
    IntToDecimalRoundTrip(y);
    t
  }

  /** The title is the only string of its shape: the prefix followed by
      canonical decimal text that reads back as the Year. */
  lemma YearTitleUnique(y: int, t: string)
    requires |t| > |TitlePrefix| && t[..|TitlePrefix|] == TitlePrefix
    requires CanonicalDecimal(t[|TitlePrefix|..]) && DecimalValue(t[|TitlePrefix|..]) == y
    ensures t == YearTitle(y)
  {
    DecimalUnique(t[|TitlePrefix|..], y);
    assert t == t[..|TitlePrefix|] + t[|TitlePrefix|..];
  }

  /** `create_year_figure(y)`: the rows of Year `y` in the counted table,
      top five by Count, charted under a title that names the Year. A
      Year the table lacks gets a chart with no bars. */
  function CreateYearFigure(trends: seq<Trend>, y: int): (f: Figure)
    ensures f.BarChart? && f.title == YearTitle(y)
    ensures |f.bars| == Min(TopN, |Group(trends, y)|)
    ensures forall e :: e in f.bars ==> e in trends && e.year == y
    ensures NonIncreasing(f.bars)
    ensures f.bars == Group(TopPerYear(trends), y)
    ensures (forall e :: e in trends ==> e.year != y) ==> f.bars == []
  {
    var bars := NLargest(Group(trends, y), TopN);
    NLargestSpec(Group(trends, y), TopN);
    NLargestMembers(Group(trends, y), TopN);
    DrillDownAgreement(trends, y);
    assert bars != [] ==> bars[0] in bars;
    BarChart(YearTitle(y), bars)
  }

  // ---------------------------------------------------------------------
  // The click handler

  /** A point of a click event; `x` is the Year on the trend chart. */
  datatype Point = Point(x: int)

  /** The click payload: `None`, or a dictionary that may carry a `points`
      list; `otherKeys` is the number of its other keys, which matters
      only to Python's truth test of the dictionary. */
  datatype ClickData = NoClick | Payload(points: Option<seq<Point>>, otherKeys: nat)

  /** Python's truth value of the payload: `None` and `{}` are false. */
  predicate Truthy(c: ClickData) {
    c.Payload? && (c.points.Some? || c.otherKeys > 0)
  }

  /** `update_year_graph(clickData)`. */
  function UpdateYearGraph(trends: seq<Trend>, c: ClickData): (r: Result<Figure>)
    ensures !Truthy(c) ==> r == Ok(EmptyFigure)
    ensures Truthy(c) && c.points.None? ==> r == Raised(KeyError("points"))
    ensures Truthy(c) && c.points == Some([]) ==> r == Raised(IndexError)
    ensures Truthy(c) && c.points.Some? && c.points.value != [] ==>
              r.Ok? && r.value.BarChart? && r.value.title == YearTitle(c.points.value[0].x)
              && r.value.bars == Group(TopPerYear(trends), c.points.value[0].x)
  {
    if !Truthy(c) then Ok(EmptyFigure)
    else if c.points.None? then Raised(KeyError("points"))
    else if c.points.value == [] then Raised(IndexError)
    else Ok(CreateYearFigure(trends, c.points.value[0].x))
  }

  // ---------------------------------------------------------------------
  // Worked examples

  /** One 2020 presentation tagged "A;B;A", under a header with stray
      spaces: three expanded rows, A counted twice and B once, and both
      kept for 2020 with A first. */
  lemma ExampleOneRecord()
    ensures RunPipeline(Frame([" Year", "Topics (L) "], [Record(2020, "A;B;A")]))
            == Ok(Tables([Row(2020, "A"), Row(2020, "B"), Row(2020, "A")],
                         [Trend(2020, "A", 2), Trend(2020, "B", 1)],
                         [Trend(2020, "A", 2), Trend(2020, "B", 1)]))
  {
    var f := Frame([" Year", "Topics (L) "], [Record(2020, "A;B;A")]);
    ExampleHeader(f);
    assert RunPipeline(f) == Ok(BuildTables(f.records));
    ExampleBuild(f.records);
  }

  lemma ExampleBuild(records: seq<Record>)
    requires records == [Record(2020, "A;B;A")]
    ensures BuildTables(records)
            == Tables([Row(2020, "A"), Row(2020, "B"), Row(2020, "A")],
                      [Trend(2020, "A", 2), Trend(2020, "B", 1)],
                      [Trend(2020, "A", 2), Trend(2020, "B", 1)])
  {
    var rows := [Row(2020, "A"), Row(2020, "B"), Row(2020, "A")];
    ExampleExpand(records);
    var tab := [Trend(2020, "A", 2), Trend(2020, "B", 1)];
    ExampleCount(rows);
    ExampleTop(tab);
  }

  lemma ExampleHeader(f: Frame)
    requires f.columns == [" Year", "Topics (L) "]
    ensures StripColumns(f).columns == [YearColumn, TopicsColumn]
    ensures UniqueNames(StripColumns(f).columns) && !Repeated(StripColumns(f).columns, TopicsColumn)
  {
    var g := StripColumns(f);
    assert g.columns[0] == Strip(" Year");
    assert g.columns[1] == Strip("Topics (L) ");
    ExampleStripYear();
    ExampleStripTopics();
  }

  lemma ExampleStripYear()
    ensures Strip(" Year") == YearColumn
  {
    var s := " Year";
    assert s[1..5] == "Year";
    assert IsSpace(s[0]) && !IsSpace(s[1]) && !IsSpace(s[4]);
    StripUnique(s, 1, 5);
  }

  lemma ExampleStripTopics()
    ensures Strip("Topics (L) ") == TopicsColumn
  {
    var s := "Topics (L) ";
    assert s[0..10] == "Topics (L)";
    assert !IsSpace(s[0]) && !IsSpace(s[9]) && IsSpace(s[10]);
    StripUnique(s, 0, 10);
  }

  /** Two names that differ only by a trailing space collide once
      stripped, and `explode` refuses the table. */
  lemma ExampleCollidingHeader(records: seq<Record>)
    ensures RunPipeline(Frame(["Notes", "Notes ", "Year", "Topics (L)"], records)) == Raised(ValueError)
  {
    var f := Frame(["Notes", "Notes ", "Year", "Topics (L)"], records);
    ExampleCollidingColumns(f);
    var cols := StripColumns(f).columns;
    assert !UniqueNames(cols) by { assert cols[0] == cols[1]; }
    forall i | 0 <= i < |cols| && i != 3 ensures cols[i] != TopicsColumn {
      assert i <= 2;
      assert |cols[i]| < |TopicsColumn|;
    }
    OnceOnly(cols, TopicsColumn, 3);
    assert RunPipeline(f) == Raised(ValueError);
  }

  /** A name found at index `k` and nowhere else is not repeated. */
  lemma OnceOnly(cols: seq<string>, name: string, k: nat)
    requires k < |cols| && cols[k] == name
    requires forall i :: 0 <= i < |cols| && i != k ==> cols[i] != name
    ensures name in cols && !Repeated(cols, name)
  {
  }

  lemma ExampleCollidingColumns(f: Frame)
    requires f.columns == ["Notes", "Notes ", "Year", "Topics (L)"]
    ensures var cols := StripColumns(f).columns;
      && |cols| == 4 && cols[0] == cols[1] && cols[3] == TopicsColumn
      && (forall i :: 0 <= i < 3 ==> |cols[i]| <= 5)
  {
    var cols := StripColumns(f).columns;
    ExampleStripNotes();
    assert cols[0] == Strip("Notes") && cols[1] == Strip("Notes ");
    assert "Topics (L)"[0] == 'T' && "Topics (L)"[9] == ')';
    assert Stripped("Topics (L)");
  }

  lemma ExampleStripNotes()
    ensures Strip("Notes") == "Notes" && Strip("Notes ") == "Notes"
  {
    var s := "Notes ";
    assert s[0..5] == "Notes";
    assert !IsSpace(s[0]) && !IsSpace(s[4]) && IsSpace(s[5]);
    StripUnique(s, 0, 5);
    StrippedFixed("Notes");
  }

  /** A second topic column, once stripped, makes the column selection a
      table, which has no `.str`. */
  lemma ExampleRepeatedTopics(records: seq<Record>)
    ensures RunPipeline(Frame(["Year", "Topics (L)", "Topics (L) "], records)) == Raised(AttributeError("str"))
  {
    var f := Frame(["Year", "Topics (L)", "Topics (L) "], records);
    var cols := StripColumns(f).columns;
    ExampleStripTopics();
    assert "Topics (L)"[0] == 'T' && "Topics (L)"[9] == ')';
    assert cols[1] == TopicsColumn && cols[2] == TopicsColumn;
    assert Repeated(cols, TopicsColumn);
  }

  lemma ExampleSplit()
    ensures Split("A;B;A", ';') == ["A", "B", "A"]
  {
    SplitJoin(["A", "B", "A"], ';');
    assert Join(["A", "B", "A"], ';') == "A;B;A";
  }

  lemma ExampleExpand(records: seq<Record>)
    requires records == [Record(2020, "A;B;A")]
    ensures TrimTopics(Expand(records)) == [Row(2020, "A"), Row(2020, "B"), Row(2020, "A")]
  {
    var rows := [Row(2020, "A"), Row(2020, "B"), Row(2020, "A")];
    ExampleExpandRecord();
    assert Expand(records) == ExpandRecord(records[0]) + Expand(records[1..]);
    assert Expand(records) == rows;
    ExampleTrim(rows);
  }

  lemma ExampleExpandRecord()
    ensures ExpandRecord(Record(2020, "A;B;A")) == [Row(2020, "A"), Row(2020, "B"), Row(2020, "A")]
  {
    ExampleSplit();
    var rows := ExpandRecord(Record(2020, "A;B;A"));
    assert |rows| == 3;
    assert rows[0] == Row(2020, "A") && rows[1] == Row(2020, "B") && rows[2] == Row(2020, "A");
  }

  lemma ExampleTrim(rows: seq<Row>)
    requires rows == [Row(2020, "A"), Row(2020, "B"), Row(2020, "A")]
    ensures TrimTopics(rows) == rows
  {
    ExampleStrip();
    var t := TrimTopics(rows);
    assert t[0] == Row(2020, Strip("A"));
    assert t[1] == Row(2020, Strip("B"));
    assert t[2] == Row(2020, Strip("A"));
  }

  lemma ExampleStrip()
    ensures Strip("A") == "A" && Strip("B") == "B"
  {
    assert "A"[0] == 'A' && "B"[0] == 'B';
    StrippedFixed("A");
    StrippedFixed("B");
  }

  lemma ExampleCount(rows: seq<Row>)
    requires rows == [Row(2020, "A"), Row(2020, "B"), Row(2020, "A")]
    ensures CountPairs(rows) == [Trend(2020, "A", 2), Trend(2020, "B", 1)]
  {
    assert "A"[0] == 'A' && "B"[0] == 'B';
    assert StrLess("A", "B") && !StrLess("B", "A");
    StrLessIrreflexive("A");
    assert rows[1..][1..] == rows[2..] && rows[2..][1..] == [];
    assert rows[2..] == [Row(2020, "A")];
    assert CountPairs(rows[2..][1..]) == [];
    var t2 := CountPairs(rows[2..]);
    assert t2 == Bump([], 2020, "A") == [Trend(2020, "A", 1)];
    var t1 := CountPairs(rows[1..]);
    assert t1 == Bump(t2, 2020, "B");
    assert Bump(t2, 2020, "B") == [t2[0]] + Bump([], 2020, "B");
    assert t1 == [Trend(2020, "A", 1), Trend(2020, "B", 1)];
    assert CountPairs(rows) == Bump(t1, 2020, "A");
  }

  lemma ExampleTop(tab: seq<Trend>)
    requires tab == [Trend(2020, "A", 2), Trend(2020, "B", 1)]
    ensures TopPerYear(tab) == tab
  {
    assert MinYear(tab) == 2020;
    assert Group(tab, 2020) == tab;
    assert Others(tab, 2020) == [];
    assert SortByCount(tab[1..]) == tab[1..];
    assert SortByCount(tab) == tab;
  }

  /** A click on 2020 charts 2020's top topics; `{}` and `None` give the
      empty figure. */
  lemma ExampleClicks(trends: seq<Trend>)
    ensures UpdateYearGraph(trends, Payload(Some([Point(2020)]), 0)).value.bars
            == Group(TopPerYear(trends), 2020)
    ensures UpdateYearGraph(trends, Payload(None, 0)) == Ok(EmptyFigure)
    ensures UpdateYearGraph(trends, NoClick) == Ok(EmptyFigure)
  {
  }
}
