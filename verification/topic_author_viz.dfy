/** `plot_author_topics`: one author's topics over time. In `"full"` mode it
    plots the mean proportion of every (year, topic) pair on a topic-per-line
    chart; in `"top5"` mode it selects the author's five most frequent topics
    and keeps only their pairs. Charts are modelled by the data they carry. */
module TopicAuthorViz {
  import opened Options
  import opened Seqs
  import opened Tables
  import opened Sorting
  import opened Stats
  import opened Articles

  /** One row of the author's frame: the year (`annee`) and the topic cell. */
  datatype Entry = Entry(year: Option<int>, cell: TopicCell)

  /** A row whose topic cell has been resolved to its list of pairs. */
  datatype Dated = Dated(year: Option<int>, pairs: seq<Assignment>)

  /** Whether every cell is text that `ast.literal_eval` accepts. */
  predicate AllParse(entries: seq<Entry>, literal: LiteralParser) {
    forall i :: 0 <= i < |entries| ==> entries[i].cell.Raw? && literal(entries[i].cell.text).Some?
  }

  /** The parsing step: when the first cell is text, `literal_eval` is applied
      to the whole column, and the column is replaced only if no cell raises
      (a cell that is already a list raises too). Otherwise the frame is left
      as it is. */
  function GateParse(entries: seq<Entry>, literal: LiteralParser): (r: seq<Entry>)
    ensures |r| == |entries|
    ensures forall i :: 0 <= i < |r| ==> r[i].year == entries[i].year
    ensures entries != [] && entries[0].cell.Raw? && AllParse(entries, literal) ==>
      forall i :: 0 <= i < |r| ==> r[i].cell == Parsed(literal(entries[i].cell.text).value)
    ensures !(entries != [] && entries[0].cell.Raw? && AllParse(entries, literal)) ==> r == entries
  {
    if entries != [] && entries[0].cell.Raw? && AllParse(entries, literal) then
      seq(|entries|, i requires 0 <= i < |entries| =>
        Entry(entries[i].year, Parsed(literal(entries[i].cell.text).value)))
    else entries
  }

  /** Running the parsing step again changes nothing: a parsed column starts
      with a list. */
  lemma GateParseIdempotent(entries: seq<Entry>, literal: LiteralParser)
    ensures GateParse(GateParse(entries, literal), literal) == GateParse(entries, literal)
  {
  }

  /** `[(t[0], t[1]) for t in x]` on one cell, `None` where it raises. On a
      list it copies the pairs; on text it walks the characters, and `t[1]`
      of a one-character string raises `IndexError` unless the text is
      empty. */
  function Resolve(cell: TopicCell): (r: Option<seq<Assignment>>)
    ensures r.None? <==> cell.Raw? && cell.text != []
    ensures cell.Parsed? ==> r == Some(cell.pairs)
    ensures cell == Raw([]) ==> r == Some([])
  {
    match cell
    case Parsed(pairs) => Some(pairs)
    case Raw(text) => if text == [] then Some([]) else None
  }

  /** Whether some cell makes the full-mode comprehension raise. */
  predicate FullRaises(entries: seq<Entry>) {
    exists i :: 0 <= i < |entries| && Resolve(entries[i].cell).None?
  }

  /** The resolved rows of a frame that does not raise. */
  function ResolveAll(entries: seq<Entry>): (rows: seq<Dated>)
    requires !FullRaises(entries)
    ensures |rows| == |entries|
    ensures forall i :: 0 <= i < |rows| ==>
      rows[i].year == entries[i].year && Some(rows[i].pairs) == Resolve(entries[i].cell)
  {
    seq(|entries|, i requires 0 <= i < |entries| =>
      Dated(entries[i].year, Resolve(entries[i].cell).value))
  }

  /** One row's `(year, topic), proportion` observations after `explode`:
      one per pair. The `dropna` after `explode` removes the placeholder of a
      row with no pair, and `groupby` drops a row whose year is null. */
  function RowObservations(r: Dated): seq<((int, TopicId), real)> {
    match r.year
    case None => []
    case Some(y) => seq(|r.pairs|, j requires 0 <= j < |r.pairs| => ((y, r.pairs[j].0), r.pairs[j].1))
  }

  /** All observations that reach the `groupby`, in row order. */
  function Observations(rows: seq<Dated>): seq<((int, TopicId), real)> {
    if rows == [] then [] else Observations(rows[..|rows| - 1]) + RowObservations(rows[|rows| - 1])
  }

  /** Whether row `rows[j]` has year `y` and the pair `(t, v)`. */
  predicate Observed(rows: seq<Dated>, j: int, y: int, t: TopicId, v: real) {
    0 <= j < |rows| && rows[j].year == Some(y) && (t, v) in rows[j].pairs
  }

  /** A dated row yields one observation per pair, in the order of its pairs,
      and a row without a year yields none; so a row observes `((y, t), v)`
      exactly when its year is `y` and it has the pair `(t, v)`. */
  lemma RowObservationsContents(r: Dated)
    ensures |RowObservations(r)| == if r.year.Some? then |r.pairs| else 0
    ensures r.year.Some? ==> forall j :: 0 <= j < |r.pairs| ==>
      RowObservations(r)[j] == ((r.year.value, r.pairs[j].0), r.pairs[j].1)
    ensures forall y, t, v :: ((y, t), v) in RowObservations(r) ==> r.year == Some(y) && (t, v) in r.pairs
    ensures forall y, t, v :: r.year == Some(y) && (t, v) in r.pairs ==> ((y, t), v) in RowObservations(r)
  {
    var obs := RowObservations(r);
    forall y, t, v | ((y, t), v) in obs
      ensures r.year == Some(y) && (t, v) in r.pairs
    {
      var k :| 0 <= k < |obs| && obs[k] == ((y, t), v);
      assert r.pairs[k] == (t, v);
    }
    forall y, t, v | r.year == Some(y) && (t, v) in r.pairs
      ensures ((y, t), v) in obs
    {
      var k :| 0 <= k < |r.pairs| && r.pairs[k] == (t, v);
      assert obs[k] == ((y, t), v);
    }
  }

  /** Every observation comes from a dated row carrying that pair. */
  lemma {:induction false} ObservationsSound(rows: seq<Dated>)
    ensures forall y, t, v :: ((y, t), v) in Observations(rows) ==> exists j :: Observed(rows, j, y, t, v)
  {
    if rows != [] {
      var p := rows[..|rows| - 1];
      var last := rows[|rows| - 1];
      ObservationsSound(p);
      RowObservationsContents(last);
      assert Observations(rows) == Observations(p) + RowObservations(last);
      forall y, t, v | ((y, t), v) in Observations(rows)
        ensures exists j :: Observed(rows, j, y, t, v)
      {
        if ((y, t), v) in Observations(p) {
          var j :| Observed(p, j, y, t, v);
          assert rows[j] == p[j];
          assert Observed(rows, j, y, t, v);
        } else {
          assert Observed(rows, |rows| - 1, y, t, v);
        }
      }
    }
  }

  /** Every pair of a dated row is observed. */
  lemma {:induction false} ObservationsComplete(rows: seq<Dated>)
    ensures forall y, t, v, j :: Observed(rows, j, y, t, v) ==> ((y, t), v) in Observations(rows)
  {
    if rows != [] {
      var p := rows[..|rows| - 1];
      var last := rows[|rows| - 1];
      ObservationsComplete(p);
      RowObservationsContents(last);
      assert Observations(rows) == Observations(p) + RowObservations(last);
      forall y, t, v, j | Observed(rows, j, y, t, v)
        ensures ((y, t), v) in Observations(rows)
      {
        if j < |p| {
          assert rows[j] == p[j];
          assert Observed(p, j, y, t, v);
        }
      }
    }
  }

  /** An observation is present exactly when some dated row carries that
      pair. */
  lemma ObservationsContents(rows: seq<Dated>)
    ensures forall y, t, v :: ((y, t), v) in Observations(rows) ==> exists j :: Observed(rows, j, y, t, v)
    ensures forall y, t, v, j :: Observed(rows, j, y, t, v) ==> ((y, t), v) in Observations(rows)
  {
    ObservationsSound(rows);
    ObservationsComplete(rows);
  }

  /** How many times the pair `(t, v)` occurs, summed over the rows whose
      year is `y`. */
  function Occurrences(rows: seq<Dated>, y: int, t: TopicId, v: real): nat {
    if rows == [] then 0
    else
      var last := rows[|rows| - 1];
      Occurrences(rows[..|rows| - 1], y, t, v) + (if last.year == Some(y) then multiset(last.pairs)[(t, v)] else 0)
  }

  /** A row observes `((y, t), v)` once per occurrence of `(t, v)` among its
      pairs when its year is `y`, and never otherwise. */
  lemma {:induction false} RowObservationsCount(r: Dated, y: int, t: TopicId, v: real)
    ensures multiset(RowObservations(r))[((y, t), v)] == if r.year == Some(y) then multiset(r.pairs)[(t, v)] else 0
    decreases |r.pairs|
  {
    if r.year.Some? && r.pairs != [] {
      var p := Dated(r.year, r.pairs[..|r.pairs| - 1]);
      var x := r.pairs[|r.pairs| - 1];
      RowObservationsCount(p, y, t, v);
      assert r.pairs == p.pairs + [x];
      assert RowObservations(r) == RowObservations(p) + [((r.year.value, x.0), x.1)];
    }
  }

  /** The observations hold `((y, t), v)` as many times as the rows of year
      `y` hold the pair `(t, v)`. */
  lemma {:induction false} ObservationsCount(rows: seq<Dated>, y: int, t: TopicId, v: real)
    ensures multiset(Observations(rows))[((y, t), v)] == Occurrences(rows, y, t, v)
  {
    if rows != [] {
      var p := rows[..|rows| - 1];
      var last := rows[|rows| - 1];
      ObservationsCount(p, y, t, v);
      RowObservationsCount(last, y, t, v);
      assert Observations(rows) == Observations(p) + RowObservations(last);
    }
  }

  /** `df_agg`: the mean proportion of every (year, topic) group. */
  function GroupMeans(rows: seq<Dated>): map<(int, TopicId), real> {
    var g := Group(Observations(rows));
    map k | k in Keys(g) :: Mean(Lookup(g, k))
  }

  /** The groups are exactly the (year, topic) pairs observed, and each mean
      is the mean of that group's proportions, so it lies between their least
      and greatest. */
  lemma GroupMeansMeaning(rows: seq<Dated>, y: int, t: TopicId)
    ensures (y, t) in GroupMeans(rows) <==> (y, t) in Keys(Observations(rows))
    ensures (y, t) in GroupMeans(rows) ==>
      var ps := ValuesAt(Observations(rows), (y, t));
      && |ps| > 0
      && GroupMeans(rows)[(y, t)] == Mean(ps)
      && Min(ps) <= GroupMeans(rows)[(y, t)] <= Max(ps)
  {
    var obs := Observations(rows);
    var g := Group(obs);
    FirstSeenMembers(Keys(obs), (y, t));
    if (y, t) in Keys(g) {
      var i :| 0 <= i < |g| && g[i].0 == (y, t);
      LookupAt(g, i);
      MeanBetween(g[i].1);
    }
  }

  /** A group's proportions are exactly the proportions of the pairs on that
      topic in the rows of that year, each as many times as it occurs there,
      so the group's mean is the mean over those occurrences. */
  lemma GroupValues(rows: seq<Dated>, y: int, t: TopicId)
    ensures forall v :: v in ValuesAt(Observations(rows), (y, t)) ==> exists j :: Observed(rows, j, y, t, v)
    ensures forall v, j :: Observed(rows, j, y, t, v) ==> v in ValuesAt(Observations(rows), (y, t))
    ensures forall v :: multiset(ValuesAt(Observations(rows), (y, t)))[v] == Occurrences(rows, y, t, v)
  {
    ObservationsContents(rows);
    ValuesAtContents(Observations(rows), (y, t));
    ValuesAtCount(Observations(rows), (y, t));
    forall v
      ensures multiset(ValuesAt(Observations(rows), (y, t)))[v] == Occurrences(rows, y, t, v)
    {
      ObservationsCount(rows, y, t, v);
    }
  }

  /** `topics_sorted`: the distinct topics of the groups, ascending. */
  function SortedTopics(rows: seq<Dated>): (topics: seq<TopicId>)
    ensures StrictlyIncreasing(topics)
  {
    var ks := Keys(Observations(rows));
    SortedSet(seq(|ks|, i requires 0 <= i < |ks| => ks[i].1))
  }

  /** A topic gets a line exactly when some row with a year has a pair on it. */
  lemma SortedTopicsMeaning(rows: seq<Dated>, t: TopicId)
    ensures t in SortedTopics(rows) ==> exists j, y, v :: Observed(rows, j, y, t, v)
    ensures forall j, y, v :: Observed(rows, j, y, t, v) ==> t in SortedTopics(rows)
  {
    var obs := Observations(rows);
    var ks := Keys(obs);
    var ts := seq(|ks|, i requires 0 <= i < |ks| => ks[i].1);
    ObservationsContents(rows);
    if t in SortedTopics(rows) {
      var i :| 0 <= i < |ts| && ts[i] == t;
      assert obs[i].0.1 == t;
      assert obs[i] in obs;
      var j :| Observed(rows, j, obs[i].0.0, t, obs[i].1);
    }
    forall j, y, v | Observed(rows, j, y, t, v)
      ensures t in SortedTopics(rows)
    {
      var k :| 0 <= k < |obs| && obs[k] == ((y, t), v);
      assert ts[k] == t;
    }
  }

  /** The colour map chosen for the lines. */
  datatype Palette = Tab10 | Tab20 | GistNcar

  /** `height = max(0.5 * num_topics, 6)`: half an inch per topic line, and
      never less than six inches. */
  function Height(topicCount: nat): (h: real)
    ensures h >= 6.0 && h >= 0.5 * topicCount as real
    ensures h == 6.0 || h == 0.5 * topicCount as real
  {
    if 0.5 * topicCount as real > 6.0 then 0.5 * topicCount as real else 6.0
  }

  /** `tab10` for up to ten topics, `tab20` for up to twenty, `gist_ncar`
      beyond. */
  function PaletteFor(topicCount: nat): Palette {
    if topicCount <= 10 then Tab10 else if topicCount <= 20 then Tab20 else GistNcar
  }

  /** The full-mode figure: the group means it scatters, the topic of each
      line from bottom to top, the figure height, the colour map and the
      y tick positions `range(num_topics)`. */
  datatype FullChart = FullChart(
    means: map<(int, TopicId), real>,
    topics: seq<TopicId>,
    height: real,
    palette: Palette,
    yTicks: seq<int>)

  /** The full-mode figure for resolved rows. */
  function FullFigure(rows: seq<Dated>): (c: FullChart)
    ensures c.topics == SortedTopics(rows)
    ensures |c.yTicks| == |c.topics| && forall i :: 0 <= i < |c.yTicks| ==> c.yTicks[i] == i
    ensures c.means == GroupMeans(rows)
    ensures c.height == Height(|c.topics|) && c.height >= 6.0
    ensures |c.topics| <= 10 <==> c.palette == Tab10
    ensures |c.topics| > 20 <==> c.palette == GistNcar
  {
    var topics := SortedTopics(rows);
    FullChart(GroupMeans(rows), topics, Height(|topics|), PaletteFor(|topics|),
      seq(|topics|, i requires 0 <= i < |topics| => i))
  }

  /** A key of the top-five `Counter`: `t[0]` of a pair is a topic, while
      `t[0]` of a character of an unparsed cell is that character. */
  datatype Key = Topic(id: TopicId) | Char(c: char)

  /** The `t[0]` values one cell contributes to `all_topics`. */
  function CellKeys(cell: TopicCell): (ks: seq<Key>)
    ensures cell.Parsed? ==> |ks| == |cell.pairs|
    ensures cell.Raw? ==> |ks| == |cell.text|
  {
    match cell
    case Parsed(pairs) => seq(|pairs|, i requires 0 <= i < |pairs| => Topic(pairs[i].0))
    case Raw(text) => seq(|text|, i requires 0 <= i < |text| => Char(text[i]))
  }

  /** A cell's keys follow the cell element by element: the topic of each
      pair of a list, or each character of a text. */
  lemma CellKeysContents(cell: TopicCell)
    ensures cell.Parsed? ==> forall i :: 0 <= i < |cell.pairs| ==> CellKeys(cell)[i] == Topic(cell.pairs[i].0)
    ensures cell.Raw? ==> forall i :: 0 <= i < |cell.text| ==> CellKeys(cell)[i] == Char(cell.text[i])
  {
  }

  /** `all_topics`, in row order. */
  function AllKeys(entries: seq<Entry>): seq<Key> {
    if entries == [] then [] else AllKeys(entries[..|entries| - 1]) + CellKeys(entries[|entries| - 1].cell)
  }

  /** The sort key of a `Counter` entry: its count. */
  function Count(e: (Key, nat)): real {
    e.1 as real
  }

  /** `Counter(all_topics).most_common(5)`. */
  function TopEntries(keys: seq<Key>): seq<(Key, nat)> {
    Top(Tally(keys), 5, Count)
  }

  /** The keys of `most_common(5)`: the `top5` list. */
  function TopFive(keys: seq<Key>): seq<Key> {
    Keys(TopEntries(keys))
  }

  /** Every key of the tally occurs in `all_topics`. */
  lemma TallyKeysOccur(keys: seq<Key>)
    ensures forall i :: 0 <= i < |Tally(keys)| ==> Tally(keys)[i].0 in keys
  {
    var t := Tally(keys);
    forall i | 0 <= i < |t|
      ensures t[i].0 in keys
    {
      assert Keys(t)[i] in FirstSeen(keys);
      FirstSeenMembers(keys, t[i].0);
    }
  }

  /** Every key of `all_topics` has a tally entry. */
  lemma TallyCovers(keys: seq<Key>, k: Key)
    requires k in keys
    ensures exists a :: 0 <= a < |Tally(keys)| && Tally(keys)[a].0 == k
  {
    var t := Tally(keys);
    FirstSeenMembers(keys, k);
    var a :| 0 <= a < |t| && Keys(t)[a] == k;
  }

  /** Each selected entry is a tally entry: an occurring key with its count. */
  lemma TopEntriesFromTally(keys: seq<Key>)
    ensures forall i :: 0 <= i < |TopEntries(keys)| ==>
      && TopEntries(keys)[i] in Tally(keys)
      && TopEntries(keys)[i].1 == multiset(keys)[TopEntries(keys)[i].0]
      && TopEntries(keys)[i].0 in keys
  {
    var t := Tally(keys);
    var r := TopEntries(keys);
    TallyKeysOccur(keys);
    forall i | 0 <= i < |r|
      ensures r[i] in t && r[i].1 == multiset(keys)[r[i].0] && r[i].0 in keys
    {
      assert r[i] in multiset(r);
      var a :| 0 <= a < |t| && t[a] == r[i];
    }
  }

  /** At most five keys are selected, each occurring in `all_topics`. */
  lemma TopFiveBounded(keys: seq<Key>)
    ensures |TopFive(keys)| <= 5
    ensures forall i :: 0 <= i < |TopFive(keys)| ==> TopFive(keys)[i] in keys
  {
    TopEntriesFromTally(keys);
  }

  /** No key is selected twice. */
  lemma TopFiveDistinct(keys: seq<Key>)
    ensures Distinct(TopFive(keys))
  {
    SubTableDistinctKeys(TopEntries(keys), Tally(keys));
  }

  /** The selection is ordered by decreasing number of occurrences. */
  lemma TopFiveOrdered(keys: seq<Key>)
    ensures forall i, j :: 0 <= i < j < |TopFive(keys)| ==>
      multiset(keys)[TopFive(keys)[i]] >= multiset(keys)[TopFive(keys)[j]]
  {
    var r := TopEntries(keys);
    TopEntriesFromTally(keys);
    forall i, j | 0 <= i < j < |r|
      ensures multiset(keys)[Keys(r)[i]] >= multiset(keys)[Keys(r)[j]]
    {
      assert Count(r[i]) >= Count(r[j]);
    }
  }

  /** A key left out occurs no more often than any key selected. */
  lemma TopFiveDominates(keys: seq<Key>)
    ensures forall k, i :: k in keys && k !in TopFive(keys) && 0 <= i < |TopFive(keys)| ==>
      multiset(keys)[k] <= multiset(keys)[TopFive(keys)[i]]
  {
    var t := Tally(keys);
    var r := TopEntries(keys);
    TopEntriesFromTally(keys);
    forall k, i | k in keys && k !in Keys(r) && 0 <= i < |r|
      ensures multiset(keys)[k] <= multiset(keys)[r[i].0]
    {
      TallyCovers(keys, k);
      var a :| 0 <= a < |t| && t[a].0 == k;
      LeftOut(r, t, a);
      assert Count(t[a]) <= Count(r[i]);
    }
  }

  /** Fewer than five keys are selected only when every key is. */
  lemma TopFiveAll(keys: seq<Key>)
    ensures |TopFive(keys)| < 5 ==> forall k :: k in keys ==> k in TopFive(keys)
  {
    var t := Tally(keys);
    var r := TopEntries(keys);
    if |r| < 5 {
      SubTableAll(r, t);
      forall k | k in keys
        ensures k in Keys(r)
      {
        TallyCovers(keys, k);
        var a :| 0 <= a < |t| && t[a].0 == k;
        assert t[a].0 in Keys(r);
      }
    }
  }

  /** `[(t[0], t[1]) for t in x if t[0] in top5]` on one cell, `None` where
      it raises: pairs on selected topics are kept in order; on text, a
      character that is itself a selected key reaches `t[1]` and raises. */
  function KeepSelected(cell: TopicCell, top5: seq<Key>): (r: Option<seq<Assignment>>)
    ensures r.None? <==> cell.Raw? && exists i :: 0 <= i < |cell.text| && Char(cell.text[i]) in top5
    ensures cell.Raw? && r.Some? ==> r.value == []
    ensures cell.Parsed? ==> r == Some(Select(cell.pairs, top5))
  {
    match cell
    case Parsed(pairs) => Some(Select(pairs, top5))
    case Raw(text) => if exists i :: 0 <= i < |text| && Char(text[i]) in top5 then None else Some([])
  }

  /** The pairs whose topic is selected, in their original order. */
  function Select(pairs: seq<Assignment>, top5: seq<Key>): seq<Assignment> {
    Filter(pairs, (p: Assignment) => Topic(p.0) in top5)
  }

  /** The kept pairs are drawn from the cell's pairs, every one of them on a
      selected topic, and no pair on a selected topic is lost: a pair on a
      selected topic is kept as often as it occurs, any other pair never. */
  lemma SelectMeaning(pairs: seq<Assignment>, top5: seq<Key>)
    ensures multiset(Select(pairs, top5)) <= multiset(pairs)
    ensures forall x :: multiset(Select(pairs, top5))[x] == if Topic(x.0) in top5 then multiset(pairs)[x] else 0
    ensures forall i :: 0 <= i < |Select(pairs, top5)| ==>
      Select(pairs, top5)[i] in pairs && Topic(Select(pairs, top5)[i].0) in top5
    ensures forall i :: 0 <= i < |pairs| && Topic(pairs[i].0) in top5 ==> pairs[i] in Select(pairs, top5)
  {
    var keep := (p: Assignment) => Topic(p.0) in top5;
    FilterSound(pairs, keep);
    FilterComplete(pairs, keep);
    FilterSubMultiset(pairs, keep);
    FilterCount(pairs, keep);
  }

  /** The selection keeps the order of the cell: selecting from two lists
      joined is joining their selections, and a single pair is kept exactly
      when its topic is selected. Together these fix the selection as the
      order-preserving subsequence of pairs on selected topics. */
  lemma SelectOrder(a: seq<Assignment>, b: seq<Assignment>, top5: seq<Key>)
    ensures Select(a + b, top5) == Select(a, top5) + Select(b, top5)
    ensures |a| == 1 ==> Select(a, top5) == if Topic(a[0].0) in top5 then a else []
  {
    FilterAppend(a, b, (p: Assignment) => Topic(p.0) in top5);
    if |a| == 1 {
      assert a[1..] == [];
    }
  }

  /** Whether some cell makes the top-five comprehension raise. */
  predicate TopFiveRaises(entries: seq<Entry>, top5: seq<Key>) {
    exists i :: 0 <= i < |entries| && KeepSelected(entries[i].cell, top5).None?
  }

  /** The figures `plot_author_topics` can build. The top-five figure is a
      placeholder text; the model keeps the selection and the filtered
      pairs it computes before drawing it. */
  datatype Plot = NoDataPlot | FullPlot(chart: FullChart) | TopFivePlot(selected: seq<Key>, kept: seq<seq<Assignment>>)

  /** The outcome of a call: a figure, `None` (an unknown `graph_type` falls
      off the end of the function), or an `IndexError` from a comprehension. */
  datatype Outcome = Figure(plot: Plot) | NoFigure | IndexError

  /** `plot_author_topics(df_author, graph_type)`. */
  function PlotAuthorTopics(entries: seq<Entry>, graphType: string, literal: LiteralParser): (o: Outcome)
    ensures entries == [] ==> o == Figure(NoDataPlot)
    ensures entries != [] && graphType != "full" && graphType != "top5" ==> o == NoFigure
    ensures entries != [] && graphType == "full" ==>
      (o == IndexError <==> FullRaises(GateParse(entries, literal)))
    ensures entries != [] && graphType == "top5" ==>
      (o == IndexError <==> TopFiveRaises(GateParse(entries, literal), TopFive(AllKeys(GateParse(entries, literal)))))
    ensures o.Figure? && o.plot.TopFivePlot? ==> |o.plot.kept| == |entries|
    ensures entries != [] && graphType == "full" && o != IndexError ==>
      o == Figure(FullPlot(FullFigure(ResolveAll(GateParse(entries, literal)))))
    ensures entries != [] && graphType == "top5" && o != IndexError ==>
      && o.Figure? && o.plot.TopFivePlot?
      && o.plot.selected == TopFive(AllKeys(GateParse(entries, literal)))
      && |o.plot.kept| == |entries|
      && forall i :: 0 <= i < |entries| ==>
           KeepSelected(GateParse(entries, literal)[i].cell, o.plot.selected) == Some(o.plot.kept[i])
  {
    if entries == [] then Figure(NoDataPlot)
    else
      var parsed := GateParse(entries, literal);
      if graphType == "full" then FullMode(parsed)
      else if graphType == "top5" then TopFiveMode(parsed, TopFive(AllKeys(parsed)))
      else NoFigure
  }

  /** The `"full"` branch on the parsed column. */
  function FullMode(parsed: seq<Entry>): (o: Outcome)
    ensures o == IndexError <==> FullRaises(parsed)
    ensures o != IndexError ==> o == Figure(FullPlot(FullFigure(ResolveAll(parsed))))
  {
    if FullRaises(parsed) then IndexError else Figure(FullPlot(FullFigure(ResolveAll(parsed))))
  }

  /** The `"top5"` branch on the parsed column, given the selection `top5`:
      each row's filtered pairs. */
  function TopFiveMode(parsed: seq<Entry>, top5: seq<Key>): (o: Outcome)
    ensures o == IndexError <==> TopFiveRaises(parsed, top5)
    ensures o != IndexError ==>
      && o.Figure? && o.plot.TopFivePlot?
      && o.plot.selected == top5
      && |o.plot.kept| == |parsed|
      && forall i :: 0 <= i < |parsed| ==> KeepSelected(parsed[i].cell, top5) == Some(o.plot.kept[i])
  {
    if TopFiveRaises(parsed, top5) then IndexError
    else Figure(TopFivePlot(top5, seq(|parsed|, i requires 0 <= i < |parsed| => KeepSelected(parsed[i].cell, top5).value)))
  }

  /** Every key of `all_topics` is a `t[0]` of some row's cell. */
  lemma {:induction false} AllKeysSound(entries: seq<Entry>)
    ensures forall k :: k in AllKeys(entries) ==> exists j :: 0 <= j < |entries| && k in CellKeys(entries[j].cell)
  {
    if entries != [] {
      var p := entries[..|entries| - 1];
      AllKeysSound(p);
      forall k | k in AllKeys(entries)
        ensures exists j :: 0 <= j < |entries| && k in CellKeys(entries[j].cell)
      {
        if k in AllKeys(p) {
          var j :| 0 <= j < |p| && k in CellKeys(p[j].cell);
          assert entries[j] == p[j];
        } else {
          assert k in CellKeys(entries[|entries| - 1].cell);
        }
      }
    }
  }

  /** Every key of every row's cell is in `all_topics`. */
  lemma {:induction false} AllKeysComplete(entries: seq<Entry>)
    ensures forall j, k :: 0 <= j < |entries| && k in CellKeys(entries[j].cell) ==> k in AllKeys(entries)
  {
    if entries != [] {
      var p := entries[..|entries| - 1];
      AllKeysComplete(p);
      forall j, k | 0 <= j < |entries| && k in CellKeys(entries[j].cell)
        ensures k in AllKeys(entries)
      {
        if j < |p| {
          assert entries[j] == p[j];
        }
      }
    }
  }

  /** `all_topics` is the rows' keys laid end to end: the keys of two frames
      joined are the keys of the first followed by those of the second, and a
      single row contributes its cell's keys. With `AllKeysSound` and
      `AllKeysComplete`, this fixes each key's multiplicity as the sum of its
      multiplicities in the cells. */
  lemma {:induction false} AllKeysAppend(a: seq<Entry>, b: seq<Entry>)
    ensures AllKeys(a + b) == AllKeys(a) + AllKeys(b)
    ensures |b| == 1 ==> AllKeys(b) == CellKeys(b[0].cell)
    decreases |b|
  {
    if b == [] {
      assert a + b == a;
    } else {
      var q := b[..|b| - 1];
      AllKeysAppend(a, q);
      AllKeysStep(a, b);
      if |b| == 1 {
        assert q == [];
      }
    }
  }

  /** One step of `AllKeysAppend`: the last row of `a + b` is the last row of
      `b`. */
  lemma AllKeysStep(a: seq<Entry>, b: seq<Entry>)
    requires b != []
    requires AllKeys(a + b[..|b| - 1]) == AllKeys(a) + AllKeys(b[..|b| - 1])
    ensures AllKeys(a + b) == AllKeys(a) + AllKeys(b)
  {
    var q, last := b[..|b| - 1], b[|b| - 1];
    JoinLast(a, b);
    AllKeysLast(a + b);
    AllKeysLast(b);
    JoinRegroup(AllKeys(a + b), AllKeys(b), AllKeys(a), AllKeys(q), CellKeys(last.cell));
  }

  /** `all_topics` of a non-empty frame ends with its last row's keys. */
  lemma AllKeysLast(es: seq<Entry>)
    requires es != []
    ensures AllKeys(es) == AllKeys(es[..|es| - 1]) + CellKeys(es[|es| - 1].cell)
  {
  }

  /** In full mode, a topic gets a line exactly when some row with a year has
      a pair on it once the column is parsed. */
  lemma FullTopicsMeaning(entries: seq<Entry>, literal: LiteralParser, t: TopicId)
    requires PlotAuthorTopics(entries, "full", literal).Figure?
    requires PlotAuthorTopics(entries, "full", literal).plot.FullPlot?
    ensures !FullRaises(GateParse(entries, literal))
    ensures var rows := ResolveAll(GateParse(entries, literal));
      t in PlotAuthorTopics(entries, "full", literal).plot.chart.topics <==>
      exists j, y, v :: Observed(rows, j, y, t, v)
  {
    var rows := ResolveAll(GateParse(entries, literal));
    SortedTopicsMeaning(rows, t);
  }

  /** When no cell raises and every row has a year, every key of
      `all_topics` is a topic with a line in the full chart. */
  lemma KeysAreCharted(parsed: seq<Entry>)
    requires !FullRaises(parsed)
    requires forall i :: 0 <= i < |parsed| ==> parsed[i].year.Some?
    ensures forall k :: k in AllKeys(parsed) ==> k.Topic? && k.id in SortedTopics(ResolveAll(parsed))
  {
    var rows := ResolveAll(parsed);
    AllKeysSound(parsed);
    forall k | k in AllKeys(parsed)
      ensures k.Topic? && k.id in SortedTopics(rows)
    {
      var j :| 0 <= j < |parsed| && k in CellKeys(parsed[j].cell);
      var m :| 0 <= m < |CellKeys(parsed[j].cell)| && CellKeys(parsed[j].cell)[m] == k;
      assert parsed[j].cell.Parsed?;
      var pr := parsed[j].cell.pairs[m];
      assert rows[j].pairs == parsed[j].cell.pairs;
      assert Observed(rows, j, parsed[j].year.value, k.id, pr.1);
      SortedTopicsMeaning(rows, k.id);
    }
  }

  /** When every row has a year and the full chart can be drawn, every topic
      the top-five mode selects is a topic of the full chart. A row with a
      null year breaks this: `groupby` drops it in full mode while the
      top-five count still sees its topics. */
  lemma TopFiveWithinFull(entries: seq<Entry>, literal: LiteralParser)
    requires forall i :: 0 <= i < |entries| ==> entries[i].year.Some?
    requires PlotAuthorTopics(entries, "full", literal).Figure?
    requires PlotAuthorTopics(entries, "full", literal).plot.FullPlot?
    ensures forall k :: k in TopFive(AllKeys(GateParse(entries, literal))) ==>
      k.Topic? && k.id in PlotAuthorTopics(entries, "full", literal).plot.chart.topics
  {
    var parsed := GateParse(entries, literal);
    assert PlotAuthorTopics(entries, "full", literal).plot.chart == FullFigure(ResolveAll(parsed));
    TopFiveCharted(parsed);
  }

  /** The same on the parsed column: every selected key is a charted topic. */
  lemma TopFiveCharted(parsed: seq<Entry>)
    requires !FullRaises(parsed)
    requires forall i :: 0 <= i < |parsed| ==> parsed[i].year.Some?
    ensures forall k :: k in TopFive(AllKeys(parsed)) ==> k.Topic? && k.id in SortedTopics(ResolveAll(parsed))
  {
    var keys := AllKeys(parsed);
    TopFiveBounded(keys);
    KeysAreCharted(parsed);
    forall k | k in TopFive(keys)
      ensures k in keys
    {
      var i :| 0 <= i < |TopFive(keys)| && TopFive(keys)[i] == k;
    }
  }
}
