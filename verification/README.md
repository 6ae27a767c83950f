# Research dashboard aggregations, modelled in Dafny

The research website's Flask dashboard turns two article corpora (CAIRN and
Le Monde) into charts and statistics. This project models the three modules
that do the counting and aggregation:

- `get_lda_insights` (`topics_viz.py`) works over every article. Each article
  carries a topic cell: a list of `(topic, proportion)` pairs, or its literal
  text.
  - `safe_parse` normalises the cell.
  - The function then counts topic frequencies (`Counter`), groups the
    proportions per topic (`defaultdict(list)`) and averages them.
  - It scores each topic as frequency × average and keeps the top fifteen of
    each ranking.
  - It measures per-article dispersion: the distinct topics per id.
  - It builds each author's topic set from the `|`-separated author string,
    then summarises the sizes of those sets (mean, median, min, max, count).
- `plot_author_topics` (`topic_author_viz.py`) works over one author's
  articles.
  - It parses the topic column with `ast.literal_eval`, all or nothing.
  - In `"full"` mode it plots the mean proportion of every (year, topic)
    group, one line per topic. The figure height and the colour map depend on
    the number of topics.
  - In `"top5"` mode it selects the five most frequent `t[0]` values and
    filters the pairs to them.
- `get_graphs` (`graph.py`) draws the number of articles per year.
  - For CAIRN, a year cell is coerced to an integer and kept only above 1000.
  - For Le Monde, the publication dates that parse are counted by year.

Each chart is modelled by the data it plots:
- a table for a bar chart;
- the group means, sorted topics, height, palette and ticks for the timeline;
- `None`, or the empty series, for the `""` returned in place of a chart.

Python dictionaries are insertion-ordered association lists (`Tables.Table`).
Their key order is proved to be the order in which keys were first seen.

The library parsers are function-valued parameters, so every result holds
whatever they return:
- `ast.literal_eval`: `LiteralParser`;
- `pd.to_numeric`: `NumericParser`;
- `pd.to_datetime(...).dt.year`: `YearParser`.

Modules:
- `Options`: the `Option` type.
- `Seqs`: first-seen order, cross product, filtering.
- `Sorting`: Python's stable descending `sorted`, top-N slices, `sorted(set(...))`.
- `Tables`: `Counter` and `defaultdict(list)`.
- `Stats`: mean, median, min, max.
- `Articles`: article records and `safe_parse`.
- `Authors`: `split('|')` and `strip()`.
- `TopicsViz`: `get_lda_insights`.
- `TopicAuthorViz`: `plot_author_topics`.
- `Graph`: `get_graphs`.

Some behaviours of the code are easy to overlook; the model follows the
code in each:
- Author pieces that are empty after `strip()` are kept as an author `""`
  (`topics_viz.py:103-106`); nothing drops them.
- The author statistics are exactly mean, median, min, max and the number of
  authors (`topics_viz.py:108-116`).
- The minimum-year filter applies only to CAIRN (`graph.py:33`). The Le Monde
  years are counted whatever their value.
- The topics of the full timeline are guaranteed to include the top-five
  selection when every row has a year and the full chart is drawn
  (`TopFiveWithinFull`). Without the first condition the inclusion can
  fail: `groupby` drops rows with a null year in full mode, while the
  top-five count still sees their topics.
- A non-empty CAIRN or Le Monde frame whose rows are all filtered out still
  gets a chart, with no bars (`graph.py:31-36`, `graph.py:39-46`). It does
  not get `""`.
- `get_lda_insights` parses the topic column only when it exists
  (`topics_viz.py:37-38`), but the next line reads the column
  unconditionally (`topics_viz.py:41`), so a frame without it raises
  `KeyError`. The model's articles always carry a topic cell.

## Model

| member | source | states |
|---|---|---|
| Articles.SafeParse | topics_viz.py:20-24 | a list cell is returned unchanged; a text cell becomes what `literal_eval` returns, or the empty list when it raises |
| Articles.SafeParseIdempotent | topics_viz.py:20-24 | applying `safe_parse` to its own result changes nothing |
| Articles.ParseAll | topics_viz.py:34-38 | the parsed copy has one row per article; id, year and authors are untouched, and the topic cell is replaced by its `safe_parse` result |
| Seqs.FirstSeen | topics_viz.py:42-47 | the keys of a dict filled in order are duplicate-free and are exactly the elements of the input |
| Seqs.FirstSeenOrder | topics_viz.py:42-47 | those keys are listed by the position of their first occurrence |
| Seqs.CrossContents | topics_viz.py:104-106 | the nested author × pair loop makes the call `(a, t)` exactly for an author `a` of the row and a topic `t` of its pairs |
| Tables.Tally | topics_viz.py:42 | `Counter(s)` has the elements of `s` as keys, in first-seen order, each with its number of occurrences |
| Tables.BumpCounts | topics_viz.py:42 | one `Counter` update of the counter of `p` by `x` gives the counter of `p + [x]` |
| Tables.TallyConserves | topics_viz.py:41-42 | the counts of a `Counter` add up to the length of its input |
| Tables.ValuesAt | topics_viz.py:44-47 | the list under key `k` is as long as the number of pairs with key `k`, and non-empty exactly when `k` occurs |
| Tables.ValuesAtContents | topics_viz.py:44-47 | a value is listed under `k` exactly when the pair `(k, v)` was appended |
| Tables.ValuesAtCount | topics_viz.py:44-47 | each value is listed under `k` as many times as the pair `(k, v)` was appended |
| Tables.Group | topics_viz.py:44-47 | `defaultdict(list)` filled from the pairs has their keys in first-seen order, and under each key the list of its values in order, never empty |
| Sorting.InsertDescStable | topics_viz.py:63 | one insertion step puts the element at the head of its tie class and leaves the other tie classes unchanged |
| Sorting.SortDesc | topics_viz.py:63 | `sorted(..., key, reverse=True)` is a permutation of its input, non-increasing by key, and stable: the elements of each key value keep their relative order |
| Sorting.Top | topics_viz.py:63 | `sorted(...)[:n]` has `min(n, len)` elements, drawn from the input, non-increasing. Every element left out ranks no higher than any element kept, and ties keep their input order |
| Sorting.SortedSet | topic_author_viz.py:40 | `sorted(set(s))` is strictly ascending and has exactly the values of `s` |
| Stats.MeanBetween | topics_viz.py:49 | `sum(ps)/len(ps)` lies between the least and greatest of `ps` |
| Stats.MeanTimesCount | topics_viz.py:74 | the number of values times their mean is their sum |
| Stats.Median | topics_viz.py:112 | `int(np.median(counts))` lies between two of the counts, and is one of them when their number is odd |
| Stats.MedianIsMiddle | topics_viz.py:112 | the median is the middle count of the counts arranged in descending order, or for an even number of counts the mean of the two middle ones truncated toward zero |
| TopicsViz.FrequencyConservation | topics_viz.py:41-42 | `topic_freq` counts every pair of every row exactly once, and each topic's count is its number of occurrences in `all_top2` |
| TopicsViz.AverageProportionsKeys | topics_viz.py:44-49 | `avg_props` has the keys of `topic_freq` in the same order, and each topic averaged as many proportions as its frequency |
| TopicsViz.AverageProportionsBetween | topics_viz.py:49 | each average lies between the least and greatest proportion seen for that topic |
| TopicsViz.CombinedKeys | topics_viz.py:74 | `combined` has the keys of `topic_freq`, in the same order |
| TopicsViz.CombinedIsTotalProportion | topics_viz.py:74 | each combined score `freq × avg` is the sum of that topic's proportions |
| TopicsViz.DispersionBound | topics_viz.py:87-88 | `disp` has one entry per non-null id, and each entry is at most the number of pairs in that id's rows |
| TopicsViz.PairsOfIdContents | topics_viz.py:88 | the pairs gathered for an id are exactly the pairs of the rows with that id |
| TopicsViz.TopicSetContents | topics_viz.py:88 | `{t for t, _ in s}` holds a topic exactly when some pair is on it |
| TopicsViz.DispersionMeaning | topics_viz.py:87-88 | `disp` has an entry exactly for each occurring id, and the set whose size it records for id `k` holds a topic exactly when some row with id `k` has a pair on it |
| TopicsViz.DispersionKeys | topics_viz.py:88 | `disp` has an entry exactly for each occurring id |
| TopicsViz.TopicsOfId | topics_viz.py:88 | the topics counted for id `k` are exactly those of the pairs in rows with id `k` |
| TopicsViz.RowCreditsContents | topics_viz.py:102-106 | a row adds `t` to author `a` exactly when its author string names `a` and it has a pair on `t`; a null author field adds nothing |
| TopicsViz.CreditEventsContents | topics_viz.py:98-106 | over the whole loop, the call `(a, t)` is made exactly when some row credits `a` and has a pair on `t` |
| TopicsViz.AuthorTopicsSets | topics_viz.py:98-106 | `author_topics` has the credited authors in first-insertion order, and each set holds exactly the topics added for that author |
| TopicsViz.AuthorTopicsSound | topics_viz.py:98-106 | every topic in an author's set comes from a row crediting that author |
| TopicsViz.AuthorTopicsComplete | topics_viz.py:98-106 | every row crediting an author puts all of its topics in that author's set |
| TopicsViz.AuthorTopicsNonEmpty | topics_viz.py:104-106 | every author in `author_topics` has at least one topic |
| TopicsViz.AuthorTopicsCovers | topics_viz.py:102-106 | an author named by a row with at least one pair is a key of `author_topics` |
| TopicsViz.AuthorTopicsEmpty | topics_viz.py:98-106 | `author_topics` is empty exactly when no row both credits an author and has a pair |
| TopicsViz.Summarise | topics_viz.py:108-116 | the statistics are `{}` exactly when there are no counts. Otherwise min and max are counts bounding all of them; `mean` is the mean of the counts and `median` their median (`Stats.Median`), both between min and max; `unique_authors` is the number of counts |
| TopicsViz.SummarisePositive | topics_viz.py:108-116 | the least of positive counts is positive |
| TopicsViz.AuthorStatsMeaning | topics_viz.py:98-116 | the statistics are `{}` exactly when no crediting row has a pair. Otherwise `unique_authors` is the number of authors and `min` is at least one |
| TopicsViz.AuthorStatsEmpty | topics_viz.py:98-116 | the statistics are `{}` exactly when no crediting row has a pair |
| TopicsViz.AuthorStatsSizes | topics_viz.py:104-116 | when there are statistics, `unique_authors` is the number of authors and `min` is at least one |
| TopicsViz.LdaInsights | topics_viz.py:26-118 | an empty frame gives four empty charts and `{}`. Every top chart has at most fifteen bars. Otherwise the results are computed from the `safe_parse`d copy |
| TopicsViz.EmptyFrameIsDefault | topics_viz.py:30-31 | the early return for an empty frame is what the computation gives on no rows |
| Authors.SplitPieces | topics_viz.py:103 | `split('|')` gives one piece more than there are separators, and no piece contains one |
| Authors.JoinSplit | topics_viz.py:103 | joining the pieces of a split with the separator gives back the string |
| Authors.SplitJoin | topics_viz.py:103 | splitting a join of separator-free pieces gives back the pieces |
| Authors.SplitPlain | topics_viz.py:103 | a string without the separator splits into itself alone |
| Authors.SplitAtSeparator | topics_viz.py:103 | splitting at the first separator yields the text before it, then the split of the rest |
| Authors.TrimStart | topics_viz.py:103 | the result is a suffix of the input, everything cut off is whitespace, and it does not start with whitespace |
| Authors.TrimEnd | topics_viz.py:103 | the result is a prefix of the input, everything cut off is whitespace, and it does not end with whitespace |
| Authors.LeadingSpace | topics_viz.py:103 | the leading whitespace run is all whitespace and is followed by a non-whitespace character or the end |
| Authors.Strip | topics_viz.py:103 | `strip()` returns the slice starting after the leading whitespace, and what follows it is whitespace |
| Authors.StripEnds | topics_viz.py:103 | a stripped string is empty or neither starts nor ends with whitespace |
| Authors.StripInside | topics_viz.py:103 | stripping introduces no character absent from the input |
| Authors.AuthorNamesShape | topics_viz.py:103 | an author string with `n` separators names `n + 1` authors, none containing `|` |
| Authors.AuthorNamesStripped | topics_viz.py:103 | every author name is empty or has no whitespace at either end |
| TopicAuthorViz.GateParse | topic_author_viz.py:17-25 | years are kept. When the first cell is text and every cell parses, each cell becomes its parsed list. Otherwise, when the first cell is a list or any cell raises, the frame is unchanged |
| TopicAuthorViz.GateParseIdempotent | topic_author_viz.py:17-25 | running the parsing step on its own result changes nothing |
| TopicAuthorViz.Resolve | topic_author_viz.py:33 | `[(t[0], t[1]) for t in x]` raises exactly on non-empty text, gives the empty list for empty text, and copies a list of pairs |
| TopicAuthorViz.ResolveAll | topic_author_viz.py:33 | with no cell raising, every row keeps its year and gets its copied pairs |
| TopicAuthorViz.RowObservationsContents | topic_author_viz.py:33-37 | after `explode`, a row with a year contributes one `((year, t), v)` per pair `(t, v)`, in the pairs' order, and a row without a year contributes nothing; so `((y, t), v)` comes from a row exactly when its year is `y` and it has the pair `(t, v)` |
| TopicAuthorViz.RowObservationsCount | topic_author_viz.py:33-39 | a row contributes `((y, t), v)` as many times as it holds the pair `(t, v)` when its year is `y`, and never otherwise |
| TopicAuthorViz.ObservationsCount | topic_author_viz.py:33-39 | `((y, t), v)` reaches the `groupby` as many times as the pair `(t, v)` occurs, summed over the rows of year `y` |
| TopicAuthorViz.ObservationsContents | topic_author_viz.py:33-39 | an observation reaches the `groupby` exactly when some row with that year carries that pair |
| TopicAuthorViz.GroupMeansMeaning | topic_author_viz.py:39 | `df_agg` has a group exactly for each observed (year, topic). Its value is the mean of that group's proportions, between their least and greatest |
| TopicAuthorViz.GroupValues | topic_author_viz.py:39 | a group's proportions are exactly those of the pairs on that topic in rows of that year, each as many times as it occurs there |
| TopicAuthorViz.SortedTopics | topic_author_viz.py:40 | `topics_sorted` is strictly ascending |
| TopicAuthorViz.SortedTopicsMeaning | topic_author_viz.py:40 | a topic gets a line exactly when some row with a year has a pair on it |
| TopicAuthorViz.Height | topic_author_viz.py:44 | the height is the larger of six inches and half an inch per topic |
| TopicAuthorViz.FullFigure | topic_author_viz.py:39-63 | the figure scatters the group means of `df_agg`; the lines are the sorted topics with ticks `0..n-1`; the height is `Height` of the number of topics, so at least six. `tab10` is used exactly up to ten topics, `gist_ncar` exactly beyond twenty |
| TopicAuthorViz.CellKeys | topic_author_viz.py:78 | a cell contributes one `t[0]` per pair of a list, or per character of a text |
| TopicAuthorViz.CellKeysContents | topic_author_viz.py:78 | the `i`-th key of a list cell is the topic of its `i`-th pair; that of a text cell is its `i`-th character |
| TopicAuthorViz.AllKeysSound | topic_author_viz.py:78 | every key of `all_topics` is a `t[0]` of some row's cell |
| TopicAuthorViz.AllKeysComplete | topic_author_viz.py:78 | every `t[0]` of every row's cell is in `all_topics` |
| TopicAuthorViz.AllKeysAppend | topic_author_viz.py:78 | `all_topics` of two frames joined is that of the first followed by that of the second, and one row gives its cell's keys: the rows' keys laid end to end, each key as often as the cells hold it |
| TopicAuthorViz.TopEntriesFromTally | topic_author_viz.py:79 | each `most_common(5)` entry is an occurring key with its true count |
| TopicAuthorViz.TopFiveBounded | topic_author_viz.py:79 | at most five keys are selected, each occurring in `all_topics` |
| TopicAuthorViz.TopFiveDistinct | topic_author_viz.py:79 | no key is selected twice |
| TopicAuthorViz.TopFiveOrdered | topic_author_viz.py:79 | the selection is ordered by decreasing number of occurrences |
| TopicAuthorViz.TopFiveDominates | topic_author_viz.py:79 | a key left out occurs no more often than any key selected |
| TopicAuthorViz.TopFiveAll | topic_author_viz.py:79 | fewer than five keys are selected only when every key is |
| TopicAuthorViz.KeepSelected | topic_author_viz.py:82-84 | filtering one cell raises exactly on text holding a selected character, keeps nothing from text that does not raise, and keeps the selection of the pairs of a list cell |
| TopicAuthorViz.SelectMeaning | topic_author_viz.py:82-84 | the kept pairs are drawn from the cell, each on a selected topic; a pair on a selected topic is kept as often as it occurs, any other pair never |
| TopicAuthorViz.SelectOrder | topic_author_viz.py:82-84 | the selection keeps the cell's order: selecting from two lists joined joins their selections, and one pair is kept exactly when its topic is selected |
| Seqs.FilterAppend | topic_author_viz.py:82-84 | a filtering comprehension over two lists joined is the join of its results on each |
| Seqs.FilterCount | topic_author_viz.py:82-84 | a filtering comprehension keeps each accepted element as often as it occurs and no other |
| TopicAuthorViz.PlotAuthorTopics | topic_author_viz.py:7-92 | an empty frame gives the "no data" figure and an unknown mode gives `None`. Each mode raises `IndexError` exactly when its comprehension meets a cell it cannot index. Otherwise full mode draws `FullFigure` of the resolved parsed rows, and top-five mode selects `TopFive` of `all_topics` and keeps, for each row, `KeepSelected` of its cell |
| TopicAuthorViz.FullMode | topic_author_viz.py:29-68 | the full branch raises exactly when a cell cannot be indexed, and otherwise draws `FullFigure` of the resolved rows |
| TopicAuthorViz.TopFiveMode | topic_author_viz.py:82-92 | the top-five branch raises exactly when a cell meets a selected character, and otherwise keeps the selection and, per row, that cell's filtered pairs |
| TopicAuthorViz.FullTopicsMeaning | topic_author_viz.py:29-40 | when the full chart is drawn, no cell raised, and a topic has a line exactly when a row with a year has a pair on it |
| TopicAuthorViz.KeysAreCharted | topic_author_viz.py:33-40 | with no raising cell and every year present, every key of `all_topics` is a topic with a line |
| TopicAuthorViz.TopFiveWithinFull | topic_author_viz.py:29-40 | with every year present, each top-five key is a topic of the drawn full chart |
| TopicAuthorViz.TopFiveCharted | topic_author_viz.py:78-79 | the same for the parsed column: each selected key is a topic with a line |
| Graph.Truncate | graph.py:32 | `astype(int)` truncates toward zero: the result is within one below a non-negative value, or within one above a negative one |
| Graph.TruncateWhole | graph.py:32 | truncating a whole number gives it back |
| Graph.CoerceYear | graph.py:32 | a missing cell or unparseable text becomes 0; a number or parsed text becomes its truncation |
| Graph.Coerced | graph.py:32 | the coerced column has one year per cell, in order |
| Graph.CairnYears | graph.py:32-33 | every surviving CAIRN year is above 1000, and there are no more of them than cells |
| Graph.CairnYearsCounts | graph.py:32-33 | a year above 1000 survives as often as cells coerce to it, and any other year never does |
| Graph.LeMondeYears | graph.py:42-44 | the years of the dates that parse, no more of them than there are dates; `Graph.LeMondeYearsSound` and `Graph.LeMondeYearsCounts` say which years they are |
| Graph.LeMondeYearsSound | graph.py:42-44 | every kept year is the year of some non-null date that parses |
| Graph.ParsedYears | graph.py:42-44 | each date's parsed year, absent exactly for a null or unparseable date |
| Graph.LeMondeYearsCounts | graph.py:42-44 | every year survives as often as a date parses to it, with no threshold |
| Graph.CountByYear | graph.py:35 | `value_counts().sort_index()` lists each occurring year once, ascending, with its positive number of occurrences |
| Graph.CountByYearTotal | graph.py:35 | the bars add up to the number of years counted |
| Graph.GetGraphs | graph.py:22-49 | the Le Monde chart comes first. A chart is `""` exactly when its frame is empty. CAIRN bars are all above 1000, and each chart is the year count of its filtered years |
| Graph.CairnChartMeaning | graph.py:28-36 | the CAIRN bars add up to the surviving rows, and each bar counts the cells whose coerced year is that year |
| Graph.LeMondeChartMeaning | graph.py:38-47 | the Le Monde bars add up to the parsed dates, and each bar counts the dates that parse to that year |

## Left out

- Rendering is not modelled: matplotlib figures, base64 encoding, the
  histogram's bins, the scatter's random jitter, the exact colours, titles,
  the figure widths and the fixed sizes of the other charts. Each chart is
  replaced by the data it plots; the full timeline keeps its height.
- `ast.literal_eval`, `pd.to_numeric` and `pd.to_datetime` are parameters,
  and their internals are not modelled. For `ast.literal_eval`, only texts
  that decode to a list of pairs are considered as its results.
- Proportions and means are exact reals: floating-point rounding is not
  modelled.
- A topic cell is text or a list of pairs. A null cell, a literal that
  decodes to something other than a list of pairs, and malformed pairs are
  not modelled.
- The choice between `url` and the frame's first column as the dispersion id
  is abstracted as the article's `id`. The choice between `name` and
  `nom_auteur` as the author column is abstracted as `authors`.
- `Stats.Median`: the median is characterised as the middle of a descending
  arrangement of the counts (`Stats.MedianIsMiddle`), not by counting how
  many counts lie on each side of it. That any two descending arrangements
  of the same counts coincide is standard and not proved, because no
  statistic of the dashboard depends on more than the arrangement given.
- Missing columns are not modelled: every record has every field. The code
  indexes `top_2_topics_with_prop` (`topics_viz.py:41`,
  `topic_author_viz.py:19`), `annee` (`graph.py:32`) and `date_published`
  (`graph.py:42`) with no guard, so a frame without one raises `KeyError`.
- The default `graph_type="full"` of `plot_author_topics`
  (`topic_author_viz.py:7`) is not modelled: Dafny functions have no default
  arguments, so every call passes the mode explicitly.
- `Graph.Truncate`: `astype(int)` on infinities, NaN or values beyond 64 bits
  is not modelled; the integers are unbounded.
- `Graph.LeMondeYears`: `pd.to_datetime` parses the whole column with one
  inferred format, so whether a date parses can depend on the other rows.
  The model's year parser works one cell at a time.
- `Graph.LeMondeYears`: time zones are not modelled. The year of a date is
  whatever the year parser returns.
- `TopicAuthorViz.GroupMeans`: the row order of `df_agg` and the scatter
  points drawn from it are not modelled. The figure holds the means as a map.
- `TopicAuthorViz.TopFiveOrdered`: the order among equally frequent keys is
  not stated. `Counter.most_common` orders them by first occurrence, and the
  model does too, through `Sorting.Top`'s stability.
- The top-five mode draws a placeholder text, not a chart. The model keeps
  the selection and the filtered pairs it computes first.
- `app.py`, `script.js`, the CSV/JSON import and the contact form are not
  part of this model.
