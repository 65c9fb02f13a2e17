# Presentation topic trends: a Dafny model

`Analysis.py` builds a small Dash dashboard over a table of conference
presentations. Each presentation has a `Year` and a `Topics (L)` cell that
holds `;`-separated topic tags. When the module loads, it builds three tables:

- `presentation_expanded` has one row per (presentation, tag) pair. The tags
  are trimmed of white space.
- `topic_trends` has one row per distinct (Year, Topic) pair, with a `Count`.
- `top_topics_per_year` holds the five largest Counts of every Year.

Clicking a Year on the timeline chart calls `update_year_graph`. It hands the
Year to `create_year_figure`, which draws a bar chart of that Year's top five
topics.

This project models that pipeline as pure functions over sequences and proves
what each step promises:

- `pystr.dfy` (module `PyStr`) covers the Python `str` behaviour the code uses:
  `strip()` with CPython's white-space table, `split(';')` and `';'.join`,
  Python's ordering of strings, and `str(int)` as used in an f-string.
- `outcomes.dfy` (module `Outcomes`) holds `Option` and `Result`. It also holds
  the Python exceptions the code can raise: `KeyError`, `IndexError`,
  `AttributeError` and `ValueError`.
- `analysis.dfy` (module `Analysis`) covers the header strip, the split and
  explode, the topic trim, and `groupby(['Year', 'Topic']).size()`.
- `ranking.dfy` (module `Ranking`) covers `nlargest(5, 'Count')` with pandas'
  default `keep='first'`, and `groupby('Year').apply(...)`.
- `app.dfy` (module `TopicApp`) covers the whole start-up pipeline, with its
  error paths, plus `create_year_figure`, `update_year_graph` and worked
  examples.

Each modelling choice follows the code:

- `nlargest` is modelled as a stable sort by decreasing Count, cut to the
  first five rows. Rows with equal Counts keep their order in `topic_trends`,
  which is ascending Topic order.
  - For a Year with more than five topics, pandas selects with a stable sort.
    On a tie at the cut it keeps the smaller Topic, as the model does.
  - For a Year with at most five topics, pandas keeps every row. It orders
    them with an unstable sort, so the order of tied rows is not fixed by the
    code. The model lists the smaller Topic first (see "## Left out").
- The header strip can make two column names equal. The model raises what
  pandas raises, in the order the code meets it:
  - A repeated `Topics (L)` makes the column selection a table, which has no
    `.str`, so `AttributeError` is raised.
  - Any other repeated name makes `explode` raise `ValueError`.
- `groupby` visits the Years in ascending order. `TopPerYear` takes the
  smallest remaining Year at each step.
- A click payload is falsy when it is `None` or an empty dict.
  - A non-empty dict without `points` raises `KeyError('points')`.
  - An empty `points` list raises `IndexError`.
  - Both are modelled as `Raised` results, not as preconditions.
- A Year with no rows in `topic_trends` still gets a bar chart. It has the
  usual title and no bars. The code returns `{}` only when there is no click.

## Model

| member | source | states |
|---|---|---|
| PyStr.Strip | Analysis.py:18 | The result is no longer than the input and has no white space at either end |
| PyStr.StripRemovesEdgeSpace | Analysis.py:18 | `strip` returns a contiguous stretch of its input with only white space before and after it: it removes edge white space and nothing else |
| PyStr.StripUnique | Analysis.py:18 | Conversely, any stretch with only white space around it and none at its own ends is exactly what `strip` returns |
| PyStr.StripIdempotent | Analysis.py:18 | Stripping twice is the same as stripping once |
| Analysis.StripColumns | Analysis.py:18 | Normalising the header keeps the records and the number of columns. Each new name is the old one with its edge white space stripped, so it has none left, and already clean names are unchanged |
| Analysis.StripColumnsIdempotent | Analysis.py:18 | Normalising the header twice is the same as normalising it once |
| PyStr.Split | Analysis.py:21 | A string with k separators splits into k+1 pieces, empty pieces included, and no piece contains the separator |
| PyStr.JoinSplit | Analysis.py:21 | Joining the pieces of a split with the separator gives back the original string |
| PyStr.SplitJoin | Analysis.py:21 | Splitting a join of one or more separator-free pieces gives back those pieces |
| Analysis.ExpandRecord | Analysis.py:21 | A record whose tags hold k `;` explodes into k+1 rows of its Year, with no `;` in any topic, and the topics joined by `;` give back the tags cell |
| Analysis.Expand | Analysis.py:21 | The exploded table has as many rows as there are `;`-separated segments over all records |
| Analysis.ExpandYearRows | Analysis.py:21 | Each Year's number of exploded rows equals the number of segments in that Year's records |
| Analysis.ExpandMultiplicity | Analysis.py:21 | Exploding keeps every segment of every record with its multiplicity: the rows of pair (y, t) number exactly the segments equal to t in the records of Year y, counted on the tags cells alone |
| Analysis.ExpandProvenance | Analysis.py:21 | Every exploded row comes from a record of the same Year, and its topic is one of that record's segments |
| Analysis.TrimTopics | Analysis.py:24 | Trimming keeps the number of rows and each row's Year. Each topic becomes the old topic with its edge white space stripped, so it has none left |
| Analysis.TrimmedExpandMultiplicity | Analysis.py:21-24 | After trimming, the rows of pair (y, t) number exactly the segments of Year y's records that strip to t |
| Analysis.TrimTopicsIdempotent | Analysis.py:24 | Trimming the topics again changes nothing |
| Analysis.TrimTopicsYearRows | Analysis.py:24 | Trimming keeps the number of rows of every Year |
| Analysis.BumpSorted | Analysis.py:27 | Counting one more row keeps the counted table's (Year, Topic) keys strictly increasing |
| Analysis.BumpCountOf | Analysis.py:27 | Counting one more row raises the Count of exactly that row's pair by one |
| Analysis.CountPairs | Analysis.py:27 | The counted table has strictly increasing (Year, Topic) keys and positive Counts, and its keys are exactly the pairs among the rows |
| Analysis.CountPairsSpec | Analysis.py:27 | The counted table has strictly increasing (Year, Topic) keys, so it has one row per pair. Its keys are exactly the pairs present in the rows. Every Count is positive and equals the pair's multiplicity. Each Year's Counts add up to that Year's number of rows |
| Analysis.CountOfAt | Analysis.py:27 | In a table with strictly increasing keys, a row's Count is the total recorded for its pair |
| Analysis.CountPairsRows | Analysis.py:27 | Row by row, each Count equals its pair's multiplicity and is at least one, and no Year without rows appears |
| Ranking.SortByCount | Analysis.py:31 | The sort keeps the length and is a permutation of its input |
| Ranking.SortByCountNonIncreasing | Analysis.py:31 | The sorted rows have non-increasing Counts |
| Ranking.SortByCountRanked | Analysis.py:31 | On rows with ascending Topics, the stable sort orders by Count descending and then by Topic ascending |
| Ranking.NLargest | Analysis.py:31 | `nlargest(n, 'Count')`, also used by the drill-down at line 67, keeps min(n, size) rows, all drawn from its input |
| Ranking.NLargestSpec | Analysis.py:31 | `nlargest(n)` returns min(n, size) rows drawn from its input, with non-increasing Counts, and every kept row's Count is at least that of every excluded row |
| Ranking.NLargestTieBreak | Analysis.py:31 | With `keep='first'` on topic-ascending rows, the kept rows are ranked by Count and then Topic, and each kept row precedes every excluded row in that order, so on a tie the smaller Topic is kept |
| Ranking.MinYear | Analysis.py:30 | The Year visited next is present in the table and no larger than any other Year in it |
| Ranking.TopPerYear | Analysis.py:30-32 | Every row of the per-Year table is a row of `topic_trends`, and the table lists its Years in ascending order |
| Ranking.Group | Analysis.py:64 | Filtering on `Year == y` keeps exactly the rows of Year y and no more rows than the table has |
| Ranking.DrillDownAgreement | Analysis.py:30-32 | The rows of Year y in the per-Year table are exactly, and in the same order, the rows the drill-down selects for y |
| Ranking.GroupTopicsAscending | Analysis.py:27 | Within one Year, the counted table lists its topics in strictly ascending order |
| Ranking.DistinctTopicsCard | Analysis.py:27 | A table with strictly ascending topics has as many distinct topics as rows |
| Ranking.GroupSize | Analysis.py:27 | The counted table has exactly one row per distinct topic of each Year |
| Ranking.TopPerYearSize | Analysis.py:30-32 | Each Year of the per-Year table keeps exactly min(5, number of distinct topics that Year) rows |
| TopicApp.BuildTables | Analysis.py:21-32 | The tables built from the records have one expanded row per `;`-separated segment and a counted table with strictly increasing keys and positive Counts |
| TopicApp.RunPipeline | Analysis.py:18-32 | A stripped header missing `Topics (L)` raises `KeyError` on that column. A header with `Topics (L)` twice raises `AttributeError`. Any other repeated name raises `ValueError`. A header without `Year` raises `KeyError('Year')`. The pipeline succeeds exactly when both columns are present and no name repeats, and then yields the tables built from the records |
| TopicApp.PipelineSpec | Analysis.py:21-32 | End to end: each Year's Counts add up to its records' segments; each Count is its pair's multiplicity; each Year of the top table is the drill-down selection, holding min(5, distinct topics) rows ranked by Count then Topic |
| TopicApp.YearTitle | Analysis.py:74 | The chart title is `Top 5 Topics in ` followed by decimal text in the form `str` gives: no leading zero and no `-0`. That text reads back as the Year |
| TopicApp.CountsFromTags | Analysis.py:21-27 | End to end from the tags cells: the Count recorded for (y, t) is the number of segments in Year y's records that strip to t. It is zero for an absent pair and is each counted row's Count |
| TopicApp.YearTitleUnique | Analysis.py:74 | Any string made of the prefix and canonical decimal text reading back as the Year is the title, so the title text is fully determined |
| PyStr.DecimalUnique | Analysis.py:74 | Canonical decimal text that reads back as i is `str(i)` |
| PyStr.IntToDecimal | Analysis.py:74 | `str(i)` is decimal text with a minus sign exactly for negative i, no leading zero and no `-0` |
| PyStr.IntToDecimalRoundTrip | Analysis.py:74 | The decimal text of an integer reads back as that integer |
| TopicApp.CreateYearFigure | Analysis.py:62-74 | The figure is a bar chart titled for the Year. It has min(5, rows of that Year) bars, all of them rows of that Year in `topic_trends`, in non-increasing Count order, and equal to that Year's part of the per-Year table. A Year without rows gets no bars |
| TopicApp.UpdateYearGraph | Analysis.py:111-117 | A falsy payload gives the empty figure. A truthy payload without `points` raises `KeyError('points')`, and an empty `points` list raises `IndexError`. Otherwise the result is the chart of the first point's Year |
| TopicApp.ExampleOneRecord | Analysis.py:18-32 | One 2020 record tagged `A;B;A`, under a header with stray spaces, yields three expanded rows, the counts A=2 and B=1, and both rows kept with A first |
| TopicApp.ExampleCollidingHeader | Analysis.py:18-21 | `Notes` and `Notes ` collide once stripped, so the pipeline raises `ValueError` |
| TopicApp.ExampleRepeatedTopics | Analysis.py:18-21 | `Topics (L)` and `Topics (L) ` collide once stripped, so the pipeline raises `AttributeError` |
| TopicApp.ExampleClicks | Analysis.py:111-117 | A click on 2020 charts 2020's top topics; `None` and `{}` give the empty figure |

## Left out

- `load_data` (Analysis.py:12-15) reads two CSV files. That is file I/O, so the
  model takes the presentations table as a parameter. As written, line 18
  uses `presentation` without ever calling `load_data`. The model takes the
  table that call would have returned. The second file, `outputs`, is never
  used after loading.
- Cells are modelled as follows:
  - Each record is reduced to its `Year` and its `Topics (L)` text.
  - Other columns only pass through and are not modelled.
  - A `Year` is an integer.
  - A missing (NaN) tags cell is not modelled. pandas would leave it as a NaN
    topic that `groupby` then drops.
- `create_timeline_figure` (lines 38-59) and the styling in
  `create_year_figure` (axis labels, fonts, template, lines 70-85) are not
  modelled. They are plotly presentation only. A figure is modelled as its
  title and its bars.
- The Dash application itself is not modelled: the app object, the layout, the
  unused `dcc.Store`, the callback wiring and `run_server` (lines 35, 90-110,
  120-121). These are UI runtime and I/O. The unused imports (seaborn,
  matplotlib, `plotly.io`) are left out too.
- TopicApp.ClickData: a click point keeps only its `x`. Its other fields are
  ignored by the code. A dict's other keys matter only to its truth value.
  A malformed point is not modelled: a point without `x` raises
  `KeyError('x')` at line 114, and a point that is not a dict fails too.
- Ranking.NLargestTieBreak: the model fixes the order of tied rows as smaller
  Topic first. pandas fixes it only when a Year has more than five topics.
  For a Year with at most five topics, `nlargest` keeps every row. It orders
  them with `sort_values` under the default, unstable `quicksort`. There the
  bar order in `create_year_figure` and the row order in
  `top_topics_per_year` are left open by the code. The `Ranked` conclusions
  of this lemma and of `TopicApp.PipelineSpec` are then the model's own rule.
  Which rows are kept is unaffected.
- The stable sort is modelled as an insertion sort. pandas uses other sorting
  algorithms. The two agree on which rows are kept, and on their order except
  for the tied rows above.
