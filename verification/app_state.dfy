/** The client state of the application and the events that change it: the list
    and filter held by the top-level view, the form flag toggled by the header, and
    the three fields of the new-fact form. Every store request is split at its
    await: the request the event sends is returned, and the store's answer is a
    parameter of the operation that runs when it arrives. Other events may run in
    between, as they can while the browser awaits the answer. */
module AppState {
  import opened Categories
  import opened Url
  import opened Facts
  import opened Store
  import opened Submission

  /** The source field's value each time the form is mounted. */
  const INITIAL_SOURCE: string := "https://www.google.com"

  class App {
    var facts: seq<Fact>
    var isLoading: bool
    var currentCategory: string
    var openForm: bool
    // The form's own fields. The form is mounted only while openForm holds, so its
    // handlers require it.
    var text: string
    var source: string
    var category: string

    /** The filter holds the sentinel or a category name, and the form's selector
        holds its placeholder or a category name. */
    ghost predicate Valid()
      reads this
    {
      IsFilter(currentCategory) && IsFormCategory(category)
    }

    /** The initial state: empty list, not loading, no filter, form closed. */
    constructor ()
      ensures Valid()
      ensures facts == [] && !isLoading && currentCategory == ALL && !openForm
      ensures text == "" && source == INITIAL_SOURCE && category == NO_CATEGORY
    {
      facts, isLoading, currentCategory, openForm := [], false, ALL, false;
      text, source, category := "", INITIAL_SOURCE, NO_CATEGORY;
    }

    /** Start of the fetch effect, run on mount and after each filter change:
        raise the loading flag and issue the read for the active filter. */
    method BeginFetch() returns (q: Query)
      requires Valid()
      modifies this`isLoading
      ensures Valid() && isLoading
      ensures q == FetchQuery(currentCategory)
    {
      isLoading := true;
      q := FetchQuery(currentCategory);
    }

    /** End of the fetch effect: on success the answer replaces the list wholesale,
        on error the list stays; the loading flag drops either way. An answer the
        read admits leaves at most 1000 records, all of the filtered category. */
    method CompleteFetch(response: Response<seq<Fact>>)
      requires Valid()
      modifies this`facts, this`isLoading
      ensures Valid() && !isLoading
      ensures facts == if response.Ok? then response.data else old(facts)
      ensures response.Ok? && Answers(FetchQuery(currentCategory), response.data) ==>
        |facts| <= FETCH_LIMIT &&
        (currentCategory != ALL ==> forall i :: 0 <= i < |facts| ==> facts[i].category == currentCategory)
    {
      if response.Ok? && Answers(FetchQuery(currentCategory), response.data) {
        AnswerToFetchQuery(currentCategory, response.data);
      }
      if response.Ok? {
        facts := response.data;
      }
      isLoading := false;
    }

    /** A sidebar button sets the filter. React re-runs the fetch effect only when
        the value actually changes; `refetch` says whether it does. */
    method SelectCategory(choice: string) returns (refetch: bool)
      requires Valid() && IsFilter(choice)
      modifies this`currentCategory
      ensures Valid() && currentCategory == choice
      ensures refetch <==> choice != old(currentCategory)
    {
      refetch := choice != currentCategory;
      currentCategory := choice;
    }

    /** The header button flips the form flag. Opening mounts the form afresh, so
        its fields take their initial values; closing leaves them unused. */
    method ToggleForm()
      requires Valid()
      modifies this`openForm, this`text, this`source, this`category
      ensures Valid() && openForm == !old(openForm)
      ensures openForm ==> text == "" && source == INITIAL_SOURCE && category == NO_CATEGORY
      ensures !openForm ==> text == old(text) && source == old(source) && category == old(category)
    {
      openForm := !openForm;
      if openForm {
        text, source, category := "", INITIAL_SOURCE, NO_CATEGORY;
      }
    }

    /** Typing in the text field of the open form. */
    method EditText(value: string)
      requires Valid() && openForm
      modifies this`text
      ensures Valid() && text == value
    {
      text := value;
    }

    /** Typing in the source field of the open form. */
    method EditSource(value: string)
      requires Valid() && openForm
      modifies this`source
      ensures Valid() && source == value
    {
      source := value;
    }

    /** Choosing an option of the open form's category selector: the placeholder
        or a name. */
    method EditCategory(value: string)
      requires Valid() && openForm && IsFormCategory(value)
      modifies this`category
      ensures Valid() && category == value
    {
      category := value;
    }

    /** Submitting the open form, up to the insert's await. The gate decides whether the
        insert is sent; nothing changes yet, so a rejected submission changes nothing,
        and until the answer arrives the form stays open and filled. */
    method AddHandle(parse: UrlParser) returns (request: Option<NewRow>)
      requires Valid() && openForm
      ensures request.Some? <==> Accepted(parse, text, source, category)
      ensures request.Some? ==> request.value == NewRow(text, source, category)
      ensures request.Some? <==> WellFormedSubmission(parse, text, source, category)
    {
      AcceptedIffWellFormed(parse, text, source, category);
      if Accepted(parse, text, source, category) {
        request := Some(NewRow(text, source, category));
      } else {
        request := None;
      }
    }

    /** The rest of an accepted submission, run when the insert's answer arrives: a
        returned record goes in front of the list as it is then (an error leaves the
        list), and in both cases the fields are emptied and the form closes. */
    method CompleteInsert(response: Response<Fact>)
      requires Valid()
      modifies this`facts, this`text, this`source, this`category, this`openForm
      ensures Valid()
      ensures text == "" && source == "" && category == NO_CATEGORY && !openForm
      ensures response.Ok? ==> facts == [response.data] + old(facts) && |facts| == |old(facts)| + 1
      ensures response.Err? ==> facts == old(facts)
      ensures UniqueIds(old(facts)) && (response.Ok? ==> response.data.id !in Ids(old(facts))) ==> UniqueIds(facts)
    {
      if response.Ok? {
        if UniqueIds(facts) && response.data.id !in Ids(facts) {
          PrependKeepsUniqueIds(response.data, facts);
        }
        facts := [response.data] + facts;
      }
      text, category, source := "", NO_CATEGORY, "";
      openForm := false;
    }

    /** A vote button on `fact`, a record of the rendered list (the list is
        rendered only while no fetch is loading), up to the update's await: the
        update sets the chosen counter to the record's value plus one, keyed by its
        id, which is an id of the list. Nothing changes yet. */
    method HandleVotes(fact: Fact, counter: Counter) returns (update: ColumnUpdate)
      requires Valid() && !isLoading && fact in facts
      ensures update == VoteRequest(fact, counter)
      ensures update.id == fact.id && update.column == Column(counter) && update.value == Count(fact, counter) + 1
      ensures update.id in Ids(facts)
    {
      var k :| 0 <= k < |facts| && facts[k] == fact;
      assert Ids(facts)[k] == fact.id;
      update := VoteRequest(fact, counter);
    }

    /** The rest of a vote on `voted`, run when the update's answer arrives. On
        success every record with the voted id in the list as it is then becomes
        the returned record and all others stay, in order; on error nothing changes. */
    method CompleteVote(voted: Fact, response: Response<Fact>)
      requires Valid()
      modifies this`facts
      ensures Valid()
      ensures response.Ok? ==> facts == ReplaceById(old(facts), voted.id, response.data)
      ensures |facts| == |old(facts)|
      ensures forall i :: 0 <= i < |facts| ==>
        facts[i] == if response.Ok? && old(facts)[i].id == voted.id then response.data else old(facts)[i]
      ensures response.Err? ==> facts == old(facts)
      ensures UniqueIds(old(facts)) && (response.Ok? ==> response.data.id == voted.id) ==> UniqueIds(facts)
    {
      if response.Ok? {
        if response.data.id == voted.id {
          ReplaceByIdKeepsIds(facts, voted.id, response.data);
        }
        facts := ReplaceById(facts, voted.id, response.data);
      }
    }
  }
}
