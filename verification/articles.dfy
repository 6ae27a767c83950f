/** The article records the dashboard aggregates, and `safe_parse`, which
    normalises their topic cell. */
module Articles {
  import opened Options

  /** Topic identifiers produced by the upstream topic model. */
  type TopicId = int

  /** One `(topic, proportion)` pair of an article's `top_2_topics_with_prop`. */
  type Assignment = (TopicId, real)

  /** The `top_2_topics_with_prop` cell: the literal text the database stored,
      or a list that is already structured. */
  datatype TopicCell = Raw(text: string) | Parsed(pairs: seq<Assignment>)

  /** `ast.literal_eval` on a cell's text, for texts that denote a list of
      pairs: `None` where it raises. */
  type LiteralParser = string -> Option<seq<Assignment>>

  /** One row of an article frame: the grouping id (`url`, or the frame's first
      column), the year (`annee`), the author string (`name` or `nom_auteur`)
      and the topic cell. Every field but the topic cell may be null. */
  datatype Article = Article(id: Option<string>, year: Option<int>, authors: Option<string>, topics: TopicCell)

  /** An article whose topic cell has been resolved to a list of pairs. */
  datatype Row = Row(id: Option<string>, year: Option<int>, authors: Option<string>, pairs: seq<Assignment>)

  /** `safe_parse`: a structured cell is returned unchanged; a text cell is
      decoded, and one that fails to decode becomes the empty list. It never
      fails. */
  function SafeParse(cell: TopicCell, literal: LiteralParser): (r: seq<Assignment>)
    ensures cell.Parsed? ==> r == cell.pairs
    ensures cell.Raw? ==> (if literal(cell.text).Some? then r == literal(cell.text).value else r == [])
  {
    match cell
    case Parsed(pairs) => pairs
    case Raw(text) => literal(text).GetOr([])
  }

  /** Parsing an already parsed cell changes nothing. */
  lemma SafeParseIdempotent(cell: TopicCell, literal: LiteralParser)
    ensures SafeParse(Parsed(SafeParse(cell, literal)), literal) == SafeParse(cell, literal)
  {
  }

  /** `df_work[...].apply(safe_parse)` on every row, other fields untouched. */
  function ParseAll(articles: seq<Article>, literal: LiteralParser): (rows: seq<Row>)
    ensures |rows| == |articles|
    ensures forall i :: 0 <= i < |rows| ==>
      && rows[i].id == articles[i].id
      && rows[i].year == articles[i].year
      && rows[i].authors == articles[i].authors
      && rows[i].pairs == SafeParse(articles[i].topics, literal)
  {
    seq(|articles|, i requires 0 <= i < |articles| =>
      var a := articles[i];
      Row(a.id, a.year, a.authors, SafeParse(a.topics, literal)))
  }
}
