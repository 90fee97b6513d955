/** The requests the client sends to the remote facts table and the shape of the
    store's answers. The store itself is not modelled: its answers reach the client
    operations as parameters. */
module Store {
  import opened Categories
  import opened Facts

  datatype Option<T> = None | Some(value: T)

  /** The outcome of one request: the returned data, or an error. */
  datatype Response<T> = Ok(data: T) | Err(message: string)

  const FACTS_TABLE: string := "facts"

  /** The row cap of every read. */
  const FETCH_LIMIT: nat := 1000

  /** A read of all columns of `table`, filtered on category equality when
      `categoryEq` is present, capped at `limit` rows. */
  datatype Query = Query(table: string, categoryEq: Option<string>, limit: nat)

  /** The read issued for the active filter. */
  function FetchQuery(currentCategory: string): (q: Query)
    ensures q.table == FACTS_TABLE && q.limit == FETCH_LIMIT
    ensures q.categoryEq.None? <==> currentCategory == ALL
    ensures q.categoryEq.Some? ==> q.categoryEq.value == currentCategory
  {
    var q := Query(FACTS_TABLE, None, FETCH_LIMIT);
    if currentCategory != ALL then q.(categoryEq := Some(currentCategory)) else q
  }

  /** Whether a row passes the query's filter. */
  predicate Selects(q: Query, f: Fact)
  {
    match q.categoryEq
    case None => true
    case Some(c) => f.category == c
  }

  /** A list the store may return for `q`: at most `limit` rows, each passing the filter. */
  predicate Answers(q: Query, rows: seq<Fact>)
  {
    |rows| <= q.limit && forall i :: 0 <= i < |rows| ==> Selects(q, rows[i])
  }

  /** The read for "all" selects every row; the read for a category selects the
      rows of that category and no others. */
  lemma FetchQuerySelects(currentCategory: string, f: Fact)
    ensures Selects(FetchQuery(currentCategory), f) <==> currentCategory == ALL || f.category == currentCategory
  {
  }

  /** Any answer to the read for a category holds at most 1000 rows, all of that category. */
  lemma AnswerToFetchQuery(currentCategory: string, rows: seq<Fact>)
    requires Answers(FetchQuery(currentCategory), rows)
    ensures |rows| <= 1000
    ensures currentCategory != ALL ==> forall i :: 0 <= i < |rows| ==> rows[i].category == currentCategory
  {
    forall i | 0 <= i < |rows| && currentCategory != ALL
      ensures rows[i].category == currentCategory
    {
      FetchQuerySelects(currentCategory, rows[i]);
    }
  }

  /** The payload of the insert issued by a submission. */
  datatype NewRow = NewRow(text: string, source: string, category: string)

  /** An update that sets `column` to `value` in the row whose id is `id`. */
  datatype ColumnUpdate = ColumnUpdate(id: int, column: string, value: int)

  /** The update a vote on counter `c` of `f` sends. It is keyed by the fact's id,
      names one of the three vote columns and never any other column, and asks for
      a value above the counter's current one. */
  function VoteRequest(f: Fact, c: Counter): (u: ColumnUpdate)
    ensures u.id == f.id && u.value > Count(f, c)
    ensures u.column == "votesInteresting" || u.column == "votesMindblowing" || u.column == "votesFalse"
  {
    ColumnUpdate(f.id, Column(c), Count(f, c) + 1)
  }

  /** The meaning of an update for one row: the named vote column takes the new
      value in the row with the matching id; any other row is untouched. */
  function AssignColumn(f: Fact, u: ColumnUpdate): (g: Fact)
  {
    if u.id != f.id then f
    else if u.column == Column(VotesInteresting) then f.(votesInteresting := u.value)
    else if u.column == Column(VotesMindblowing) then f.(votesMindblowing := u.value)
    else if u.column == Column(VotesFalse) then f.(votesFalse := u.value)
    else f
  }

  /** A vote is keyed by the fact's id and, applied to that fact, raises the chosen
      counter by exactly one and changes nothing else. */
  lemma VoteIncrementsChosenCounter(f: Fact, c: Counter)
    ensures VoteRequest(f, c).id == f.id
    ensures forall d :: Count(AssignColumn(f, VoteRequest(f, c)), d) == Count(f, d) + (if d == c then 1 else 0)
    ensures AssignColumn(f, VoteRequest(f, c)).(votesInteresting := f.votesInteresting,
                                               votesMindblowing := f.votesMindblowing,
                                               votesFalse := f.votesFalse) == f
  {
    var g := AssignColumn(f, VoteRequest(f, c));
    forall d ensures Count(g, d) == Count(f, d) + (if d == c then 1 else 0) {
      ColumnsDistinct(c, VotesInteresting);
      ColumnsDistinct(c, VotesMindblowing);
      ColumnsDistinct(c, VotesFalse);
    }
  }

  /** When the store answers a vote with the row it wrote, the list with unique ids
      changes only at the voted position, and there only in the chosen counter. */
  lemma VoteOnListedFact(s: seq<Fact>, k: nat, c: Counter)
    requires UniqueIds(s) && k < |s|
    ensures var g := AssignColumn(s[k], VoteRequest(s[k], c));
      ReplaceById(s, VoteRequest(s[k], c).id, g) == s[k := g] &&
      Count(g, c) == Count(s[k], c) + 1
  {
    VoteIncrementsChosenCounter(s[k], c);
    ReplaceByIdAtUniquePosition(s, k, AssignColumn(s[k], VoteRequest(s[k], c)));
  }
}
