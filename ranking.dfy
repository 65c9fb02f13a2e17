/** The ranking half of the pipeline: `DataFrame.nlargest(n, 'Count')`
    with its default `keep='first'`, applied to each Year's rows of the
    counted table (`groupby('Year').apply(...)`), and the same selection
    for a single Year as the drill-down chart makes it. */
module Ranking {
  import opened PyStr
  import opened Analysis

  /** How many topics each Year keeps. */
  const TopN: nat := 5

  function Min(a: nat, b: nat): nat {
    if a <= b then a else b
  }

  // ---------------------------------------------------------------------
  // Selecting one Year

  /** `tab[tab['Year'] == y]`: the rows of Year `y`, in table order. */
  function Group(tab: seq<Trend>, y: int): (g: seq<Trend>)
    ensures |g| <= |tab|
    ensures forall e :: e in g <==> e in tab && e.year == y
  {
    if tab == [] then [] else (if tab[0].year == y then [tab[0]] else []) + Group(tab[1..], y)
  }

  /** The rows of every other Year, in table order. */
  function Others(tab: seq<Trend>, y: int): (o: seq<Trend>)
    ensures |Group(tab, y)| + |o| == |tab|
    ensures forall e :: e in o <==> e in tab && e.year != y
  {
    if tab == [] then [] else (if tab[0].year != y then [tab[0]] else []) + Others(tab[1..], y)
  }

  function Years(tab: seq<Trend>): set<int> {
    set e | e in tab :: e.year
  }

  /** The smallest Year present: groupby visits its keys in sorted order. */
  function MinYear(tab: seq<Trend>): (m: int)
    requires tab != []
    ensures m in Years(tab)
    ensures forall e :: e in tab ==> m <= e.year
  {
    if |tab| == 1 then tab[0].year
    else
      var m := MinYear(tab[1..]);
      assert forall e :: e in tab ==> e == tab[0] || e in tab[1..];
      if tab[0].year <= m then tab[0].year else m
  }

  // ---------------------------------------------------------------------
  // nlargest(n, 'Count', keep='first')

  /** Puts `x` ahead of the first row whose Count is not larger than its
      own, so that `x` stays in front of every row of equal Count. */
  function InsertByCount(x: Trend, s: seq<Trend>): (r: seq<Trend>)
    ensures |r| == |s| + 1
    ensures multiset(r) == multiset(s) + multiset{x}
  {
    if s == [] || x.count >= s[0].count then [x] + s
    else
      assert s == [s[0]] + s[1..];
      [s[0]] + InsertByCount(x, s[1..])
  }

  /** A stable sort by decreasing Count: rows of equal Count keep the
      order they had. */
  function SortByCount(s: seq<Trend>): (r: seq<Trend>)
    ensures |r| == |s|
    ensures multiset(r) == multiset(s)
  {
    if s == [] then []
    else
      assert s == [s[0]] + s[1..];
      InsertByCount(s[0], SortByCount(s[1..]))
  }

  /** `s.nlargest(n, 'Count')`: the first `n` rows of the stable sort,
      so min(n, |s|) rows drawn from `s`. */
  function NLargest(s: seq<Trend>, n: nat): (r: seq<Trend>)
    ensures |r| == Min(n, |s|)
    ensures multiset(r) <= multiset(s)
  {
    var sorted := SortByCount(s);
    PrefixMultiset(sorted, Min(n, |s|));
    sorted[..Min(n, |s|)]
  }

  predicate NonIncreasing(s: seq<Trend>) {
    forall i, j :: 0 <= i < j < |s| ==> s[i].count >= s[j].count
  }

  /** The order the ranked rows come out in: higher Count first, and
      among equal Counts the smaller Topic first. */
  predicate Precedes(a: Trend, b: Trend) {
    a.count > b.count || (a.count == b.count && StrLess(a.topic, b.topic))
  }

  predicate Ranked(s: seq<Trend>) {
    forall i, j :: 0 <= i < j < |s| ==> Precedes(s[i], s[j])
  }

  predicate TopicsAscending(s: seq<Trend>) {
    forall i, j :: 0 <= i < j < |s| ==> StrLess(s[i].topic, s[j].topic)
  }

  /** Every row of `s` has a Count of at most `c`. */
  predicate CountsAtMost(s: seq<Trend>, c: nat) {
    forall e :: e in s ==> e.count <= c
  }

  lemma ConsNonIncreasing(h: Trend, t: seq<Trend>)
    requires NonIncreasing(t) && CountsAtMost(t, h.count)
    ensures NonIncreasing([h] + t)
  {
    var r := [h] + t;
    forall i, j | 0 <= i < j < |r| ensures r[i].count >= r[j].count {
      assert r[j] == t[j - 1] && t[j - 1] in t;
      if i > 0 {
        assert r[i] == t[i - 1];
      }
    }
  }

  lemma ConsRanked(h: Trend, t: seq<Trend>)
    requires Ranked(t) && forall e :: e in t ==> Precedes(h, e)
    ensures Ranked([h] + t)
  {
    var r := [h] + t;
    forall i, j | 0 <= i < j < |r| ensures Precedes(r[i], r[j]) {
      assert r[j] == t[j - 1] && t[j - 1] in t;
      if i > 0 {
        assert r[i] == t[i - 1];
      }
    }
  }

  lemma TailNonIncreasing(s: seq<Trend>)
    requires s != [] && NonIncreasing(s)
    ensures NonIncreasing(s[1..]) && CountsAtMost(s[1..], s[0].count)
  {
    forall e | e in s[1..] ensures e.count <= s[0].count {
      var j :| 0 <= j < |s[1..]| && s[1..][j] == e;
      assert s[j + 1] == e;
    }
  }

  lemma TailRanked(s: seq<Trend>)
    requires s != [] && Ranked(s)
    ensures Ranked(s[1..]) && forall e :: e in s[1..] ==> Precedes(s[0], e)
  {
    forall e | e in s[1..] ensures Precedes(s[0], e) {
      var j :| 0 <= j < |s[1..]| && s[1..][j] == e;
      assert s[j + 1] == e;
    }
  }

  lemma {:induction false} InsertByCountNonIncreasing(x: Trend, s: seq<Trend>)
    requires NonIncreasing(s)
    ensures NonIncreasing(InsertByCount(x, s))
  {
    if s == [] {
    } else if x.count >= s[0].count {
      TailNonIncreasing(s);
      assert s == [s[0]] + s[1..];
      forall e | e in s ensures e.count <= x.count {
      }
      ConsNonIncreasing(x, s);
    } else {
      var rest := InsertByCount(x, s[1..]);
      TailNonIncreasing(s);
      InsertByCountNonIncreasing(x, s[1..]);
      forall e | e in rest ensures e.count <= s[0].count {
        assert e in multiset(rest);
      }
      ConsNonIncreasing(s[0], rest);
    }
  }

  lemma {:induction false} SortByCountNonIncreasing(s: seq<Trend>)
    ensures NonIncreasing(SortByCount(s))
  {
    if s != [] {
      SortByCountNonIncreasing(s[1..]);
      InsertByCountNonIncreasing(s[0], SortByCount(s[1..]));
    }
  }

  lemma {:induction false} InsertByCountRanked(x: Trend, s: seq<Trend>)
    requires Ranked(s)
    requires forall e :: e in s ==> StrLess(x.topic, e.topic)
    ensures Ranked(InsertByCount(x, s))
  {
    if s == [] {
    } else if x.count >= s[0].count {
      TailRanked(s);
      assert s == [s[0]] + s[1..];
      forall e | e in s ensures Precedes(x, e) {
      }
      ConsRanked(x, s);
    } else {
      var rest := InsertByCount(x, s[1..]);
      TailRanked(s);
      InsertByCountRanked(x, s[1..]);
      forall e | e in rest ensures Precedes(s[0], e) {
        assert e in multiset(rest);
      }
      ConsRanked(s[0], rest);
    }
  }

  /** Rows listed with strictly ascending Topics come out of the stable
      sort ranked: by Count, and by Topic among equal Counts. */
  lemma {:induction false} SortByCountRanked(s: seq<Trend>)
    requires TopicsAscending(s)
    ensures Ranked(SortByCount(s))
  {
    if s != [] {
      var rest := SortByCount(s[1..]);
      SortByCountRanked(s[1..]);
      forall e | e in rest ensures StrLess(s[0].topic, e.topic) {
        assert e in multiset(rest);
        var j :| 0 <= j < |s[1..]| && s[1..][j] == e;
        assert s[j + 1] == e;
      }
      InsertByCountRanked(s[0], rest);
    }
  }

  /** A row in the first `k` of `r` and a row not among them stand in
      that order. */
  lemma PrefixBeforeRest(r: seq<Trend>, k: nat, a: Trend, b: Trend)
    requires k <= |r| && a in r[..k] && b in r && b !in r[..k]
    ensures exists i, j :: 0 <= i < k <= j < |r| && r[i] == a && r[j] == b
  {
    var i :| 0 <= i < k && r[..k][i] == a;
    var j :| 0 <= j < |r| && r[j] == b;
    assert r[i] == a;
  }

  /** A kept row stands before an excluded row in the sorted order. */
  lemma KeptBeforeExcluded(s: seq<Trend>, n: nat, a: Trend, b: Trend)
    requires a in NLargest(s, n) && b in s && b !in NLargest(s, n)
    ensures exists i, j :: 0 <= i < j < |s| && SortByCount(s)[i] == a && SortByCount(s)[j] == b
  {
    var sorted := SortByCount(s);
    assert b in multiset(s);
    assert b in sorted;
    PrefixBeforeRest(sorted, Min(n, |s|), a, b);
  }

  lemma PrefixMultiset(s: seq<Trend>, k: nat)
    requires k <= |s|
    ensures multiset(s[..k]) <= multiset(s)
  {
    assert s == s[..k] + s[k..];
  }

  /** What `nlargest(n, 'Count')` promises for any table: it keeps
      min(n, |s|) of its rows, in non-increasing Count order, and every
      kept Count is at least every excluded Count. */
  lemma NLargestSpec(s: seq<Trend>, n: nat)
    ensures |NLargest(s, n)| == Min(n, |s|)
    ensures multiset(NLargest(s, n)) <= multiset(s)
    ensures NonIncreasing(NLargest(s, n))
    ensures forall a, b :: a in NLargest(s, n) && b in s && b !in NLargest(s, n) ==> a.count >= b.count
  {
    var sorted := SortByCount(s);
    var k := Min(n, |s|);
    SortByCountNonIncreasing(s);
    PrefixMultiset(sorted, k);
    forall a, b | a in sorted[..k] && b in s && b !in sorted[..k] ensures a.count >= b.count {
      KeptBeforeExcluded(s, n, a, b);
    }
  }

  /** The tie-break of `keep='first'`: on rows with ascending Topics, the
      kept rows are ranked, and every kept row precedes every excluded one,
      so that on equal Counts the smaller Topic is kept. */
  lemma NLargestTieBreak(s: seq<Trend>, n: nat)
    requires TopicsAscending(s)
    ensures Ranked(NLargest(s, n))
    ensures forall a, b :: a in NLargest(s, n) && b in s && b !in NLargest(s, n) ==> Precedes(a, b)
  {
    SortByCountRanked(s);
    forall a, b | a in NLargest(s, n) && b in s && b !in NLargest(s, n) ensures Precedes(a, b) {
      KeptBeforeExcluded(s, n, a, b);
    }
  }

  // ---------------------------------------------------------------------
  // groupby('Year').apply(lambda df: df.nlargest(5, 'Count'))

  /** The top rows of every Year, Year after Year in ascending order:
      every row comes from `tab`, and the Years never go down. */
  function TopPerYear(tab: seq<Trend>): (r: seq<Trend>)
    ensures forall e :: e in r ==> e in tab
    ensures YearsAscending(r)
    decreases |tab|
  {
    if tab == [] then []
    else
      var m := MinYear(tab);
      var e :| e in tab && e.year == m;
      assert e in Group(tab, m);
      var head := NLargest(Group(tab, m), TopN);
      var rest := TopPerYear(Others(tab, m));
      NLargestMembers(Group(tab, m), TopN);
      AppendYearsAscending(head, rest, m);
      head + rest
  }

  lemma NLargestMembers(s: seq<Trend>, n: nat)
    ensures forall e :: e in NLargest(s, n) ==> e in s
  {
    forall e | e in NLargest(s, n) ensures e in s {
      assert e in multiset(NLargest(s, n));
    }
  }

  predicate YearsAscending(s: seq<Trend>) {
    forall i, j :: 0 <= i < j < |s| ==> s[i].year <= s[j].year
  }

  lemma AppendYearsAscending(a: seq<Trend>, b: seq<Trend>, m: int)
    requires forall e :: e in a ==> e.year == m
    requires forall e :: e in b ==> e.year >= m
    requires YearsAscending(b)
    ensures YearsAscending(a + b)
  {
    var r := a + b;
    forall i, j | 0 <= i < j < |r| ensures r[i].year <= r[j].year {
      if j < |a| {
        assert r[i] == a[i] && r[j] == a[j] && a[i] in a && a[j] in a;
      } else if i < |a| {
        assert r[i] == a[i] && a[i] in a && r[j] == b[j - |a|] && b[j - |a|] in b;
      } else {
        assert r[i] == b[i - |a|] && r[j] == b[j - |a|];
      }
    }
  }

  lemma {:induction false} GroupAppend(a: seq<Trend>, b: seq<Trend>, y: int)
    ensures Group(a + b, y) == Group(a, y) + Group(b, y)
  {
    if a == [] {
      assert a + b == b;
    } else {
      assert (a + b)[1..] == a[1..] + b;
      GroupAppend(a[1..], b, y);
    }
  }

  lemma {:induction false} GroupUniform(s: seq<Trend>, m: int, y: int)
    requires forall e :: e in s ==> e.year == m
    ensures Group(s, y) == if y == m then s else []
  {
    if s != [] {
      assert forall e :: e in s[1..] ==> e in s;
      GroupUniform(s[1..], m, y);
      assert s == [s[0]] + s[1..];
    }
  }

  lemma {:induction false} GroupOthers(tab: seq<Trend>, m: int, y: int)
    ensures Group(Others(tab, m), y) == if y == m then [] else Group(tab, y)
  {
    if tab != [] {
      GroupOthers(tab[1..], m, y);
      var head := if tab[0].year != m then [tab[0]] else [];
      GroupAppend(head, Others(tab[1..], m), y);
      if head != [] {
        assert head[1..] == [];
      }
    }
  }

  /** The drill-down for Year `y` and the per-Year table agree: the rows
      of Year `y` in the per-Year table are exactly the `y` rows the
      drill-down selects, in the same order. */
  lemma {:induction false} DrillDownAgreement(tab: seq<Trend>, y: int)
    ensures Group(TopPerYear(tab), y) == NLargest(Group(tab, y), TopN)
    decreases |tab|
  {
    if tab == [] {
      assert SortByCount([]) == [];
    } else {
      var m := MinYear(tab);
      var head := NLargest(Group(tab, m), TopN);
      var rest := Others(tab, m);
      assert TopPerYear(tab) == head + TopPerYear(rest);
      GroupAppend(head, TopPerYear(rest), y);
      NLargestMembers(Group(tab, m), TopN);
      GroupUniform(head, m, y);
      DrillDownAgreement(rest, y);
      GroupOthers(tab, m, y);
      if y == m {
        assert Group(rest, y) == [];
        assert SortByCount([]) == [];
        assert Group(TopPerYear(rest), y) == [];
        assert Group(head, y) == head;
        assert head + [] == head;
      } else {
        assert Group(head, y) == [];
        assert Group(TopPerYear(rest), y) == NLargest(Group(tab, y), TopN);
        assert [] + Group(TopPerYear(rest), y) == Group(TopPerYear(rest), y);
      }
    }
  }

  // ---------------------------------------------------------------------
  // The groups of the counted table

  /** Within one Year the counted table lists its topics in ascending
      order, so `keep='first'` favours the smaller Topic. */
  lemma {:induction false} GroupTopicsAscending(tab: seq<Trend>, y: int)
    requires SortedByKey(tab)
    ensures TopicsAscending(Group(tab, y))
  {
    if tab != [] {
      GroupTopicsAscending(tab[1..], y);
      var g := Group(tab, y);
      var rest := Group(tab[1..], y);
      if tab[0].year == y {
        assert g == [tab[0]] + rest;
        forall j | 0 <= j < |rest| ensures StrLess(tab[0].topic, rest[j].topic) {
          assert rest[j] in tab[1..];
          var i :| 0 <= i < |tab[1..]| && tab[1..][i] == rest[j];
          assert KeyLess(tab[0].year, tab[0].topic, tab[i + 1].year, tab[i + 1].topic);
        }
      } else {
        assert g == rest;
      }
    }
  }

  function TopicSet(s: seq<Trend>): set<string> {
    set e | e in s :: e.topic
  }

  lemma TopicSetCons(s: seq<Trend>)
    requires s != []
    ensures TopicSet(s) == {s[0].topic} + TopicSet(s[1..])
  {
    assert s == [s[0]] + s[1..];
  }

  lemma {:induction false} DistinctTopicsCard(s: seq<Trend>)
    requires TopicsAscending(s)
    ensures |TopicSet(s)| == |s|
  {
    if s != [] {
      DistinctTopicsCard(s[1..]);
      TopicSetCons(s);
      if s[0].topic in TopicSet(s[1..]) {
        var e :| e in s[1..] && e.topic == s[0].topic;
        var j :| 0 <= j < |s[1..]| && s[1..][j] == e;
        assert StrLess(s[0].topic, s[j + 1].topic);
        StrLessIrreflexive(s[0].topic);
      }
    }
  }

  /** The distinct topics of Year `y` among the expanded rows. */
  function TopicsInYear(rows: seq<Row>, y: int): set<string> {
    set r | r in rows && r.year == y :: r.topic
  }

  /** The counted table has one row per distinct topic of each Year. */
  lemma GroupSize(rows: seq<Row>, y: int)
    ensures |Group(CountPairs(rows), y)| == |TopicsInYear(rows, y)|
  {
    var tab := CountPairs(rows);
    var g := Group(tab, y);
    CountPairsSpec(rows);
    GroupTopicsAscending(tab, y);
    DistinctTopicsCard(g);
    forall t ensures t in TopicSet(g) <==> t in TopicsInYear(rows, y) {
      if t in TopicSet(g) {
        var e :| e in g && e.topic == t;
        assert (e.year, e.topic) in Keys(tab);
        var r :| r in rows && (r.year, r.topic) == (y, t);
      }
      if t in TopicsInYear(rows, y) {
        var r :| r in rows && r.year == y && r.topic == t;
        assert (y, t) in RowKeys(rows);
        var e :| e in tab && (e.year, e.topic) == (y, t);
        assert e in g;
      }
    }
    assert TopicSet(g) == TopicsInYear(rows, y);
  }

  /** Each Year of the per-Year table keeps exactly min(5, number of
      distinct topics that Year has) rows. */
  lemma TopPerYearSize(rows: seq<Row>, y: int)
    ensures |Group(TopPerYear(CountPairs(rows)), y)| == Min(TopN, |TopicsInYear(rows, y)|)
  {
    var tab := CountPairs(rows);
    DrillDownAgreement(tab, y);
    NLargestSpec(Group(tab, y), TopN);
    GroupSize(rows, y);
  }
}
