/** Fact records and the two list transforms the client applies to its list. */
module Facts {

  /** One row of the facts table as the store returns it. The id, the vote
      counters' defaults and `createdIn` are assigned by the store. */
  datatype Fact = Fact(
    id: int,
    text: string,
    source: string,
    category: string,
    votesInteresting: int,
    votesMindblowing: int,
    votesFalse: int,
    createdIn: int)

  /** The three vote counters, one per vote button. */
  datatype Counter = VotesInteresting | VotesMindblowing | VotesFalse

  /** The table column that holds a counter. */
  function Column(c: Counter): (name: string)
  {
    match c
    case VotesInteresting => "votesInteresting"
    case VotesMindblowing => "votesMindblowing"
    case VotesFalse => "votesFalse"
  }

  /** Distinct counters are stored in distinct columns. */
  lemma ColumnsDistinct(c: Counter, d: Counter)
    ensures Column(c) == Column(d) <==> c == d
  {
  }

  /** The current value of one counter of a fact. */
  function Count(f: Fact, c: Counter): (n: int)
  {
    match c
    case VotesInteresting => f.votesInteresting
    case VotesMindblowing => f.votesMindblowing
    case VotesFalse => f.votesFalse
  }

  function Ids(s: seq<Fact>): (ids: seq<int>)
  {
    seq(|s|, i requires 0 <= i < |s| => s[i].id)
  }

  /** No two records of the list share an id. */
  predicate UniqueIds(s: seq<Fact>)
  {
    forall i, j :: 0 <= i < j < |s| ==> s[i].id != s[j].id
  }

  /** The list after a vote: every record whose id is `id` becomes `x`, every
      other record stays where it was. */
  function ReplaceById(s: seq<Fact>, id: int, x: Fact): (r: seq<Fact>)
    ensures |r| == |s|
    ensures forall i :: 0 <= i < |s| ==> r[i] == (if s[i].id == id then x else s[i])
  {
    if s == [] then []
    else [if s[0].id == id then x else s[0]] + ReplaceById(s[1..], id, x)
  }

  /** A vote on an id that is not in the list leaves the list as it was. */
  lemma ReplaceByIdAbsent(s: seq<Fact>, id: int, x: Fact)
    requires id !in Ids(s)
    ensures ReplaceById(s, id, x) == s
  {
    var r := ReplaceById(s, id, x);
    forall i | 0 <= i < |s| ensures r[i] == s[i] {
      assert Ids(s)[i] == s[i].id;
    }
  }

  /** When the record returned by the store keeps its id, the list keeps its ids in
      the same order, and so keeps them unique. */
  lemma ReplaceByIdKeepsIds(s: seq<Fact>, id: int, x: Fact)
    requires x.id == id
    ensures Ids(ReplaceById(s, id, x)) == Ids(s)
    ensures UniqueIds(s) ==> UniqueIds(ReplaceById(s, id, x))
  {
    var r := ReplaceById(s, id, x);
    assert forall i :: 0 <= i < |s| ==> r[i].id == s[i].id;
  }

  /** In a list with unique ids, replacing by id rewrites exactly the one position
      that holds the id. */
  lemma ReplaceByIdAtUniquePosition(s: seq<Fact>, k: nat, x: Fact)
    requires UniqueIds(s) && k < |s|
    ensures ReplaceById(s, s[k].id, x) == s[k := x]
  {
  }

  /** Applying the same vote result twice is the same as applying it once. */
  lemma ReplaceByIdIdempotent(s: seq<Fact>, id: int, x: Fact)
    requires x.id == id
    ensures ReplaceById(ReplaceById(s, id, x), id, x) == ReplaceById(s, id, x)
  {
  }

  /** Prepending a record whose id is new keeps the ids unique. */
  lemma PrependKeepsUniqueIds(x: Fact, s: seq<Fact>)
    requires UniqueIds(s) && x.id !in Ids(s)
    ensures UniqueIds([x] + s)
  {
    var r := [x] + s;
    forall i, j | 0 <= i < j < |r| ensures r[i].id != r[j].id {
      if i == 0 {
        assert r[j] == s[j - 1] && Ids(s)[j - 1] == s[j - 1].id;
      } else {
        assert r[i] == s[i - 1] && r[j] == s[j - 1];
      }
    }
  }
}
