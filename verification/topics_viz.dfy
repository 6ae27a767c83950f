/** `get_lda_insights`: corpus-wide topic statistics (frequency, average
    proportion, combined score, per-article dispersion) and per-author
    topic-diversity statistics. Each chart is modelled by the series it would
    draw. */
module TopicsViz {
  import opened Options
  import opened Seqs
  import opened Tables
  import opened Sorting
  import opened Stats
  import opened Articles
  import opened Authors

  /** Number of bars in each of the three top-topic charts. */
  const TopCount: nat := 15

  /** The author statistics dictionary (`mean`, `median`, `min`, `max`,
      `unique_authors`). */
  datatype AuthorStats = AuthorStats(mean: real, median: int, min: int, max: int, uniqueAuthors: nat)

  /** The five results of `get_lda_insights`. A chart is replaced by the
      series it plots; an empty series stands for the `""` returned in place
      of a chart, and `None` for the empty statistics dictionary. */
  datatype Insights = Insights(
    frequency: Table<TopicId, nat>,
    proportion: Table<TopicId, real>,
    combined: Table<TopicId, real>,
    dispersion: map<string, nat>,
    authorStats: Option<AuthorStats>)

  /** What an empty frame yields. */
  const NoInsights := Insights([], [], [], map[], None)

  /** `all_top2` with proportions: every pair of every row, in row order. */
  function AllPairs(rows: seq<Row>): seq<Assignment> {
    if rows == [] then [] else AllPairs(rows[..|rows| - 1]) + rows[|rows| - 1].pairs
  }

  /** The number of pairs over all rows. */
  function PairCount(rows: seq<Row>): nat {
    if rows == [] then 0 else PairCount(rows[..|rows| - 1]) + |rows[|rows| - 1].pairs|
  }

  /** `topic_freq = Counter(all_top2)`. */
  function TopicFrequency(rows: seq<Row>): Table<TopicId, nat> {
    Tally(Keys(AllPairs(rows)))
  }

  /** `topic_props`: each topic with the list of its proportions. */
  function TopicProportions(rows: seq<Row>): Table<TopicId, seq<real>> {
    Group(AllPairs(rows))
  }

  /** `avg_props`: each topic with the mean of its proportions. */
  function AverageProportions(rows: seq<Row>): Table<TopicId, real> {
    var g := TopicProportions(rows);
    seq(|g|, i requires 0 <= i < |g| => (g[i].0, Mean(g[i].1)))
  }

  /** `combined`: for every key of `topic_freq`, its count times its average
      proportion. */
  function CombinedScores(freq: Table<TopicId, nat>, avg: Table<TopicId, real>): Table<TopicId, real>
    requires forall i :: 0 <= i < |freq| ==> freq[i].0 in Keys(avg)
  {
    seq(|freq|, i requires 0 <= i < |freq| => (freq[i].0, freq[i].1 as real * Lookup(avg, freq[i].0)))
  }

  /** Conservation: the frequencies count every pair of every row once, and
      each topic's frequency is its number of occurrences. */
  lemma {:induction false} FrequencyConservation(rows: seq<Row>)
    ensures ValueSum(TopicFrequency(rows)) == PairCount(rows)
    ensures forall i :: 0 <= i < |TopicFrequency(rows)| ==>
      TopicFrequency(rows)[i].1 == multiset(Keys(AllPairs(rows)))[TopicFrequency(rows)[i].0]
  {
    TallyConserves(Keys(AllPairs(rows)));
    AllPairsLength(rows);
  }

  lemma {:induction false} AllPairsLength(rows: seq<Row>)
    ensures |AllPairs(rows)| == PairCount(rows)
  {
    if rows != [] {
      AllPairsLength(rows[..|rows| - 1]);
    }
  }

  /** `avg_props` has the keys of `topic_freq`, in the same order, and each
      topic collected as many proportions as its frequency. */
  lemma AverageProportionsKeys(rows: seq<Row>)
    ensures Keys(AverageProportions(rows)) == Keys(TopicFrequency(rows))
    ensures forall i :: 0 <= i < |AverageProportions(rows)| ==>
      |ValuesAt(AllPairs(rows), AverageProportions(rows)[i].0)| == TopicFrequency(rows)[i].1
  {
    var g := TopicProportions(rows);
    var avg := AverageProportions(rows);
    var freq := TopicFrequency(rows);
    assert Keys(avg) == Keys(g);
    forall i | 0 <= i < |avg|
      ensures avg[i].0 == freq[i].0
    {
      assert Keys(avg)[i] == avg[i].0 && Keys(freq)[i] == freq[i].0;
    }
  }

  /** Each average lies between that topic's smallest and largest proportion. */
  lemma AverageProportionsBetween(rows: seq<Row>)
    ensures forall i :: 0 <= i < |AverageProportions(rows)| ==>
      var ps := ValuesAt(AllPairs(rows), AverageProportions(rows)[i].0);
      |ps| > 0 && Min(ps) <= AverageProportions(rows)[i].1 <= Max(ps)
  {
    var g := TopicProportions(rows);
    var avg := AverageProportions(rows);
    forall i | 0 <= i < |avg|
      ensures Min(g[i].1) <= avg[i].1 <= Max(g[i].1)
    {
      MeanBetween(g[i].1);
    }
  }

  /** `combined` has the keys of `topic_freq`, in the same order. */
  lemma CombinedKeys(rows: seq<Row>)
    ensures Keys(Combined(rows)) == Keys(TopicFrequency(rows))
  {
  }

  /** Each combined score is the sum of that topic's proportions: frequency
      times average loses nothing. */
  lemma CombinedIsTotalProportion(rows: seq<Row>)
    ensures forall i :: 0 <= i < |Combined(rows)| ==>
      Combined(rows)[i].1 == Sum(ValuesAt(AllPairs(rows), Combined(rows)[i].0))
  {
    var freq := TopicFrequency(rows);
    var avg := AverageProportions(rows);
    var comb := Combined(rows);
    AverageProportionsKeys(rows);
    forall i | 0 <= i < |comb|
      ensures comb[i].1 == Sum(ValuesAt(AllPairs(rows), comb[i].0))
    {
      assert Keys(avg)[i] == avg[i].0 && Keys(freq)[i] == freq[i].0;
      var ps := ValuesAt(AllPairs(rows), avg[i].0);
      CombinedEntry(freq, avg, i, ps);
    }
  }

  /** One combined score: a count times the mean of that many proportions. */
  lemma CombinedEntry(freq: Table<TopicId, nat>, avg: Table<TopicId, real>, i: nat, ps: seq<real>)
    requires forall j :: 0 <= j < |freq| ==> freq[j].0 in Keys(avg)
    requires Distinct(Keys(avg)) && i < |freq| && i < |avg| && avg[i].0 == freq[i].0
    requires |ps| > 0 && |ps| == freq[i].1 && avg[i].1 == Mean(ps)
    ensures CombinedScores(freq, avg)[i].1 == Sum(ps)
  {
    LookupAt(avg, i);
    MeanTimesCount(ps);
  }

  /** The combined scores of the corpus. */
  function Combined(rows: seq<Row>): Table<TopicId, real> {
    AverageProportionsKeys(rows);
    CombinedScores(TopicFrequency(rows), AverageProportions(rows))
  }

  /** The distinct topic ids of a list of pairs. */
  function TopicSet(ps: seq<Assignment>): set<TopicId> {
    set i | 0 <= i < |ps| :: ps[i].0
  }

  /** The ids that occur (null ids are not grouped by pandas). */
  function Ids(rows: seq<Row>): set<string> {
    set i | 0 <= i < |rows| && rows[i].id.Some? :: rows[i].id.value
  }

  /** Every pair of the rows whose id is `k`. */
  function PairsOfId(rows: seq<Row>, k: string): seq<Assignment> {
    if rows == [] then []
    else
      PairsOfId(rows[..|rows| - 1], k)
        + (if rows[|rows| - 1].id == Some(k) then rows[|rows| - 1].pairs else [])
  }

  /** `disp`: for each id, the number of distinct topics over its rows. */
  function Dispersion(rows: seq<Row>): map<string, nat> {
    map k | k in Ids(rows) :: |TopicSet(PairsOfId(rows, k))|
  }

  /** Distinct topics are at most as many as pairs. */
  lemma {:induction false} TopicSetSize(ps: seq<Assignment>)
    ensures |TopicSet(ps)| <= |ps|
  {
    if ps != [] {
      var p := ps[..|ps| - 1];
      TopicSetSize(p);
      assert TopicSet(ps) == TopicSet(p) + {ps[|ps| - 1].0};
    }
  }

  /** One dispersion value per distinct id, each at most the number of pairs
      in that id's rows. */
  lemma DispersionBound(rows: seq<Row>)
    ensures Dispersion(rows).Keys == Ids(rows)
    ensures forall k :: k in Dispersion(rows) ==> Dispersion(rows)[k] <= |PairsOfId(rows, k)|
  {
    forall k | k in Dispersion(rows)
      ensures Dispersion(rows)[k] <= |PairsOfId(rows, k)|
    {
      TopicSetSize(PairsOfId(rows, k));
    }
  }

  /** The pairs gathered for id `k` are exactly the pairs of the rows with
      that id. */
  lemma {:induction false} PairsOfIdContents(rows: seq<Row>, k: string)
    ensures forall x :: x in PairsOfId(rows, k) <==>
      exists j :: 0 <= j < |rows| && rows[j].id == Some(k) && x in rows[j].pairs
  {
    if rows != [] {
      var p, last := rows[..|rows| - 1], rows[|rows| - 1];
      PairsOfIdContents(p, k);
      assert PairsOfId(rows, k) == PairsOfId(p, k) + (if last.id == Some(k) then last.pairs else []);
      forall x | x in PairsOfId(rows, k)
        ensures exists j :: 0 <= j < |rows| && rows[j].id == Some(k) && x in rows[j].pairs
      {
        if x in PairsOfId(p, k) {
          var j :| 0 <= j < |p| && p[j].id == Some(k) && x in p[j].pairs;
          assert rows[j] == p[j];
        } else {
          assert x in last.pairs;
        }
      }
      forall x, j | 0 <= j < |rows| && rows[j].id == Some(k) && x in rows[j].pairs
        ensures x in PairsOfId(rows, k)
      {
        if j < |p| {
          assert p[j] == rows[j];
        }
      }
    }
  }

  /** `disp` has an entry exactly for each id that occurs, and the topics it
      counts for id `k` are exactly the topics of the pairs in the rows with
      that id: each is counted once however often it occurs. */
  lemma DispersionMeaning(rows: seq<Row>, k: string, t: TopicId)
    ensures k in Dispersion(rows) <==> exists j :: 0 <= j < |rows| && rows[j].id == Some(k)
    ensures t in TopicSet(PairsOfId(rows, k)) <==>
      exists j, v :: 0 <= j < |rows| && rows[j].id == Some(k) && (t, v) in rows[j].pairs
  {
    DispersionKeys(rows, k);
    TopicsOfId(rows, k, t);
  }

  /** The first half of `DispersionMeaning`. */
  lemma DispersionKeys(rows: seq<Row>, k: string)
    ensures k in Dispersion(rows) <==> exists j :: 0 <= j < |rows| && rows[j].id == Some(k)
  {
    assert k in Dispersion(rows) <==> k in Ids(rows);
    if k in Ids(rows) {
      var j :| 0 <= j < |rows| && rows[j].id.Some? && rows[j].id.value == k;
    }
  }

  /** The second half of `DispersionMeaning`. */
  lemma TopicsOfId(rows: seq<Row>, k: string, t: TopicId)
    ensures t in TopicSet(PairsOfId(rows, k)) <==>
      exists j, v :: 0 <= j < |rows| && rows[j].id == Some(k) && (t, v) in rows[j].pairs
  {
    var ps := PairsOfId(rows, k);
    PairsOfIdContents(rows, k);
    TopicSetContents(ps, t);
    if t in TopicSet(ps) {
      var v :| (t, v) in ps;
      var j :| 0 <= j < |rows| && rows[j].id == Some(k) && (t, v) in rows[j].pairs;
    }
  }

  /** A topic is in the topic set exactly when some pair is on it. */
  lemma TopicSetContents(ps: seq<Assignment>, t: TopicId)
    ensures t in TopicSet(ps) <==> exists v :: (t, v) in ps
  {
    if t in TopicSet(ps) {
      var i :| 0 <= i < |ps| && ps[i].0 == t;
      assert (t, ps[i].1) == ps[i];
    }
    if exists v :: (t, v) in ps {
      var v :| (t, v) in ps;
      var i :| 0 <= i < |ps| && ps[i] == (t, v);
    }
  }

  /** Whether a row's author string credits `a`. Rows with a null author
      field credit nobody. */
  predicate Credits(r: Row, a: string) {
    r.authors.Some? && a in AuthorNames(r.authors.value)
  }

  /** The `author_topics[author].add(topic_id)` calls one row makes, in loop
      order: for each author name, for each pair. */
  function RowCredits(r: Row): seq<(string, TopicId)> {
    match r.authors
    case None => []
    case Some(raw) => Cross(AuthorNames(raw), Keys(r.pairs))
  }

  /** The calls the whole author loop makes, in order. */
  function CreditEvents(rows: seq<Row>): seq<(string, TopicId)> {
    if rows == [] then [] else CreditEvents(rows[..|rows| - 1]) + RowCredits(rows[|rows| - 1])
  }

  /** `author_topics`: each author with the set of topics credited to them,
      keyed in first-insertion order. A `defaultdict(set)` has the keys of the
      `defaultdict(list)` fed the same calls, and the sets of its lists. */
  function AuthorTopics(rows: seq<Row>): Table<string, set<TopicId>> {
    var g := Group(CreditEvents(rows));
    seq(|g|, i requires 0 <= i < |g| => (g[i].0, set t | t in g[i].1))
  }

  /** Whether row `rows[j]` credits author `a` with topic `t`. */
  predicate CreditedBy(rows: seq<Row>, j: int, a: string, t: TopicId) {
    0 <= j < |rows| && Credits(rows[j], a) && t in Keys(rows[j].pairs)
  }

  /** A row makes the call `(a, t)` exactly when it credits `a` and has a
      pair on topic `t`. */
  lemma RowCreditsContents(r: Row)
    ensures forall a, t :: (a, t) in RowCredits(r) ==> Credits(r, a) && t in Keys(r.pairs)
    ensures forall a, t :: Credits(r, a) && t in Keys(r.pairs) ==> (a, t) in RowCredits(r)
  {
    if r.authors.Some? {
      var names := AuthorNames(r.authors.value);
      var ts := Keys(r.pairs);
      CrossContents(names, ts);
      forall a, t | Credits(r, a) && t in ts
        ensures (a, t) in RowCredits(r)
      {
        var i :| 0 <= i < |names| && names[i] == a;
        var j :| 0 <= j < |ts| && ts[j] == t;
      }
    }
  }

  /** Every call the loop makes comes from a row crediting that author with
      that topic. */
  lemma {:induction false} CreditEventsSound(rows: seq<Row>)
    ensures forall a, t :: (a, t) in CreditEvents(rows) ==> exists j :: CreditedBy(rows, j, a, t)
  {
    if rows != [] {
      var p := rows[..|rows| - 1];
      var last := rows[|rows| - 1];
      CreditEventsSound(p);
      RowCreditsContents(last);
      assert CreditEvents(rows) == CreditEvents(p) + RowCredits(last);
      forall a, t | (a, t) in CreditEvents(rows)
        ensures exists j :: CreditedBy(rows, j, a, t)
      {
        if (a, t) in CreditEvents(p) {
          var j :| CreditedBy(p, j, a, t);
          assert rows[j] == p[j];
          assert CreditedBy(rows, j, a, t);
        } else {
          assert CreditedBy(rows, |rows| - 1, a, t);
        }
      }
    }
  }

  /** A row crediting `a` and having a pair on `t` makes the call `(a, t)`. */
  lemma RowCreditsHas(r: Row, a: string, t: TopicId)
    requires Credits(r, a) && t in Keys(r.pairs)
    ensures (a, t) in RowCredits(r)
  {
    var names := AuthorNames(r.authors.value);
    var ts := Keys(r.pairs);
    CrossContents(names, ts);
    var i :| 0 <= i < |names| && names[i] == a;
    var j :| 0 <= j < |ts| && ts[j] == t;
  }

  /** A row crediting `a` with topic `t` makes that call. */
  lemma {:induction false} CreditEventsHas(rows: seq<Row>, j: int, a: string, t: TopicId)
    requires CreditedBy(rows, j, a, t)
    ensures (a, t) in CreditEvents(rows)
  {
    var p := rows[..|rows| - 1];
    var last := rows[|rows| - 1];
    assert CreditEvents(rows) == CreditEvents(p) + RowCredits(last);
    if j < |p| {
      assert rows[j] == p[j];
      CreditEventsHas(p, j, a, t);
    } else {
      assert j == |rows| - 1;
      assert Credits(last, a) && t in Keys(last.pairs);
      RowCreditsHas(last, a, t);
    }
  }

  /** Every row crediting an author with a topic makes that call. */
  lemma CreditEventsComplete(rows: seq<Row>)
    ensures forall a, t, j :: CreditedBy(rows, j, a, t) ==> (a, t) in CreditEvents(rows)
  {
    forall a, t, j | CreditedBy(rows, j, a, t)
      ensures (a, t) in CreditEvents(rows)
    {
      CreditEventsHas(rows, j, a, t);
    }
  }

  /** The loop makes the call `(a, t)` exactly when some row credits `a` and
      has a pair on topic `t`. */
  lemma CreditEventsContents(rows: seq<Row>)
    ensures forall a, t :: (a, t) in CreditEvents(rows) ==> exists j :: CreditedBy(rows, j, a, t)
    ensures forall a, t, j :: CreditedBy(rows, j, a, t) ==> (a, t) in CreditEvents(rows)
  {
    CreditEventsSound(rows);
    CreditEventsComplete(rows);
  }

  /** Each set in `author_topics` is the set of topics the loop credited to
      that author. */
  lemma AuthorTopicsSets(rows: seq<Row>)
    ensures Keys(AuthorTopics(rows)) == FirstSeen(Keys(CreditEvents(rows)))
    ensures forall i, t :: 0 <= i < |AuthorTopics(rows)| ==>
      (t in AuthorTopics(rows)[i].1 <==> (AuthorTopics(rows)[i].0, t) in CreditEvents(rows))
  {
    var events := CreditEvents(rows);
    var g := Group(events);
    var at := AuthorTopics(rows);
    assert Keys(at) == Keys(g);
    forall i, t | 0 <= i < |at|
      ensures t in at[i].1 <==> (at[i].0, t) in events
    {
      ValuesAtContents(events, at[i].0);
    }
  }

  /** Every author in `author_topics` has at least one topic. */
  lemma AuthorTopicsNonEmpty(rows: seq<Row>)
    ensures forall i :: 0 <= i < |AuthorTopics(rows)| ==> |AuthorTopics(rows)[i].1| > 0
  {
    var g := Group(CreditEvents(rows));
    var at := AuthorTopics(rows);
    forall i | 0 <= i < |at|
      ensures |at[i].1| > 0
    {
      assert g[i].1[0] in at[i].1;
    }
  }

  /** Each topic in an author's set comes from a row crediting that author. */
  lemma AuthorTopicsSound(rows: seq<Row>)
    ensures forall i, t :: 0 <= i < |AuthorTopics(rows)| && t in AuthorTopics(rows)[i].1 ==>
      exists j :: CreditedBy(rows, j, AuthorTopics(rows)[i].0, t)
  {
    CreditEventsSound(rows);
    AuthorTopicsSets(rows);
  }

  /** Each row crediting an author puts its topics in that author's set. */
  lemma AuthorTopicsComplete(rows: seq<Row>)
    ensures forall i, j, t :: 0 <= i < |AuthorTopics(rows)| && CreditedBy(rows, j, AuthorTopics(rows)[i].0, t) ==>
      t in AuthorTopics(rows)[i].1
  {
    CreditEventsComplete(rows);
    AuthorTopicsSets(rows);
  }

  /** An author is a key whenever some row credits them and has a pair. */
  lemma AuthorTopicsCovers(rows: seq<Row>, a: string, j: int)
    requires 0 <= j < |rows| && Credits(rows[j], a) && |rows[j].pairs| > 0
    ensures a in Keys(AuthorTopics(rows))
  {
    var events := CreditEvents(rows);
    var t := rows[j].pairs[0].0;
    assert Keys(rows[j].pairs)[0] == t;
    CreditEventsHas(rows, j, a, t);
    var k :| 0 <= k < |events| && events[k] == (a, t);
    assert Keys(events)[k] == a;
    FirstSeenMembers(Keys(events), a);
    assert Keys(AuthorTopics(rows)) == Keys(Group(events));
  }

  /** An author is a key whenever some row credits them and has a pair. */
  lemma AuthorTopicsCoversAll(rows: seq<Row>)
    ensures forall a, j :: 0 <= j < |rows| && Credits(rows[j], a) && |rows[j].pairs| > 0 ==>
      a in Keys(AuthorTopics(rows))
  {
    forall a, j | 0 <= j < |rows| && Credits(rows[j], a) && |rows[j].pairs| > 0
      ensures a in Keys(AuthorTopics(rows))
    {
      AuthorTopicsCovers(rows, a, j);
    }
  }

  /** The statistics of the authors' topic-set sizes: `{}` when there is no
      author, otherwise the mean, the median truncated to an int, the least
      and greatest size and the number of authors. */
  function Summarise(counts: seq<nat>): (r: Option<AuthorStats>)
    ensures r.None? <==> counts == []
    ensures r.Some? ==> r.value.uniqueAuthors == |counts|
    ensures r.Some? ==> exists i :: 0 <= i < |counts| && counts[i] == r.value.min
    ensures r.Some? ==> exists i :: 0 <= i < |counts| && counts[i] == r.value.max
    ensures r.Some? ==> forall i :: 0 <= i < |counts| ==> r.value.min <= counts[i] <= r.value.max
    ensures r.Some? ==> r.value.min <= r.value.median <= r.value.max
    ensures r.Some? ==> r.value.min as real <= r.value.mean <= r.value.max as real
    ensures r.Some? ==> r.value.median == Median(counts)
    ensures r.Some? ==> r.value.mean == Mean(AsReals(counts))
  {
    if counts == [] then None
    else
      var sorted := SortDesc(counts, (c: nat) => c as real);
      SortedEnds(counts, sorted);
      var lo, hi := sorted[|sorted| - 1], sorted[0];
      var sizes := AsReals(counts);
      MeanWithin(sizes, lo as real, hi as real);
      Some(AuthorStats(Mean(sizes), Median(counts), lo, hi, |counts|))
  }

  /** The last and first elements of a descending sort are the least and
      greatest elements. */
  lemma SortedEnds(counts: seq<nat>, sorted: seq<nat>)
    requires |counts| > 0
    requires multiset(sorted) == multiset(counts)
    requires NonIncreasing(sorted, (c: nat) => c as real)
    ensures |sorted| == |counts|
    ensures sorted[|sorted| - 1] in counts && sorted[0] in counts
    ensures forall i :: 0 <= i < |counts| ==> sorted[|sorted| - 1] <= counts[i] <= sorted[0]
  {
    assert |sorted| == |multiset(sorted)|;
    assert sorted[0] in multiset(counts) && sorted[|sorted| - 1] in multiset(counts);
    forall i | 0 <= i < |counts|
      ensures sorted[|sorted| - 1] <= counts[i] <= sorted[0]
    {
      assert counts[i] in multiset(sorted);
      var j :| 0 <= j < |sorted| && sorted[j] == counts[i];
    }
  }

  /** `author_stats` for the corpus. */
  function AuthorStatsOf(rows: seq<Row>): Option<AuthorStats> {
    var at := AuthorTopics(rows);
    Summarise(seq(|at|, i requires 0 <= i < |at| => |at[i].1|))
  }

  /** `author_topics` is empty exactly when no row both credits an author
      and has a pair. */
  lemma AuthorTopicsEmpty(rows: seq<Row>)
    ensures AuthorTopics(rows) == [] <==>
      forall a, j :: 0 <= j < |rows| && Credits(rows[j], a) ==> |rows[j].pairs| == 0
  {
    var at := AuthorTopics(rows);
    if at != [] {
      AuthorTopicsSound(rows);
      var a := at[0].0;
      var t := Group(CreditEvents(rows))[0].1[0];
      assert t in at[0].1;
      var j :| CreditedBy(rows, j, a, t);
      assert |rows[j].pairs| > 0;
    } else {
      AuthorTopicsCoversAll(rows);
      forall a, j | 0 <= j < |rows| && Credits(rows[j], a)
        ensures |rows[j].pairs| == 0
      {
        assert a !in Keys(at);
      }
    }
  }

  /** `{}` exactly when no row credits an author and has a topic; otherwise
      `unique_authors` counts the keys of `author_topics` and every author has
      at least one topic, so the minimum is at least one. */
  lemma AuthorStatsMeaning(rows: seq<Row>)
    ensures AuthorStatsOf(rows).None? <==>
      forall a, j :: 0 <= j < |rows| && Credits(rows[j], a) ==> |rows[j].pairs| == 0
    ensures AuthorStatsOf(rows).Some? ==>
      && AuthorStatsOf(rows).value.uniqueAuthors == |AuthorTopics(rows)|
      && AuthorStatsOf(rows).value.min >= 1
  {
    AuthorStatsEmpty(rows);
    AuthorStatsSizes(rows);
  }

  /** The empty half of `AuthorStatsMeaning`. */
  lemma AuthorStatsEmpty(rows: seq<Row>)
    ensures AuthorStatsOf(rows).None? <==>
      forall a, j :: 0 <= j < |rows| && Credits(rows[j], a) ==> |rows[j].pairs| == 0
  {
    var at := AuthorTopics(rows);
    var counts := seq(|at|, i requires 0 <= i < |at| => |at[i].1|);
    AuthorTopicsEmpty(rows);
    assert AuthorStatsOf(rows) == Summarise(counts);
    assert counts == [] <==> at == [];
  }

  /** The sizes half of `AuthorStatsMeaning`. */
  lemma AuthorStatsSizes(rows: seq<Row>)
    ensures AuthorStatsOf(rows).Some? ==>
      && AuthorStatsOf(rows).value.uniqueAuthors == |AuthorTopics(rows)|
      && AuthorStatsOf(rows).value.min >= 1
  {
    var at := AuthorTopics(rows);
    var counts := seq(|at|, i requires 0 <= i < |at| => |at[i].1|);
    assert forall i :: 0 <= i < |counts| ==> counts[i] > 0 by {
      AuthorTopicsNonEmpty(rows);
      forall i | 0 <= i < |counts|
        ensures counts[i] > 0
      {
        assert counts[i] == |at[i].1|;
      }
    }
    SummarisePositive(counts);
    assert AuthorStatsOf(rows) == Summarise(counts);
  }

  /** The least of positive sizes is positive. */
  lemma SummarisePositive(counts: seq<nat>)
    requires forall i :: 0 <= i < |counts| ==> counts[i] > 0
    ensures Summarise(counts).Some? ==> Summarise(counts).value.min >= 1
  {
    if counts != [] {
      var k :| 0 <= k < |counts| && counts[k] == Summarise(counts).value.min;
    }
  }

  /** Everything `get_lda_insights` computes once the frame is non-empty. */
  function Summary(rows: seq<Row>): Insights {
    Insights(
      Top(TopicFrequency(rows), TopCount, (e: (TopicId, nat)) => e.1 as real),
      Top(AverageProportions(rows), TopCount, (e: (TopicId, real)) => e.1),
      Top(Combined(rows), TopCount, (e: (TopicId, real)) => e.1),
      Dispersion(rows),
      AuthorStatsOf(rows))
  }

  /** `get_lda_insights(df)`: an empty frame returns four empty charts and `{}`
      straight away; otherwise the topic column is parsed with `safe_parse` on
      a copy and summarised. Each top chart has at most fifteen bars. */
  function LdaInsights(articles: seq<Article>, literal: LiteralParser): (r: Insights)
    ensures articles == [] ==> r == NoInsights
    ensures |r.frequency| <= TopCount && |r.proportion| <= TopCount && |r.combined| <= TopCount
    ensures articles != [] ==> r == Summary(ParseAll(articles, literal))
  {
    if articles == [] then NoInsights else Summary(ParseAll(articles, literal))
  }

  /** The early return for an empty frame agrees with what the computation
      would give on no rows. */
  lemma EmptyFrameIsDefault()
    ensures Summary([]) == NoInsights
  {
    assert Top(TopicFrequency([]), TopCount, (e: (TopicId, nat)) => e.1 as real) == [] by {
      assert AllPairs([]) == [];
      assert TopicFrequency([]) == [];
    }
    assert Top(AverageProportions([]), TopCount, (e: (TopicId, real)) => e.1) == [] by {
      assert AllPairs([]) == [];
      assert AverageProportions([]) == [];
    }
    assert Top(Combined([]), TopCount, (e: (TopicId, real)) => e.1) == [] by {
      assert AllPairs([]) == [];
      assert Combined([]) == [];
    }
    assert Dispersion([]) == map[] by {
      assert Ids([]) == {};
    }
    assert AuthorStatsOf([]) == None by {
      assert AuthorTopics([]) == [];
    }
  }
}
