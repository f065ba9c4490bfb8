/** The user directory: one fetched page of users, the search query typed
    into the search box, the list derived from both, and the page counters. */
module UsersList {
  import opened Sequences
  import opened Text

  /** A user record as the listing endpoint returns it. */
  datatype User = User(id: int, firstName: string, lastName: string, email: string, avatar: string)

  /** What a page fetch delivers: the users of the page and the server's page count, or an error. */
  datatype PageResponse = PageLoaded(data: seq<User>, totalPages: int) | PageFailed

  /** What a delete request delivers. */
  datatype DeleteResponse = DeleteSucceeded | DeleteFailed

  const DeletedNotice := "User deleted successfully"
  const DeleteFailedNotice := "Failed to delete user"

  /** The displayed name: first and last name joined by one space. */
  function FullName(u: User): (r: string)
    ensures |r| == |u.firstName| + 1 + |u.lastName|
    ensures r[..|u.firstName|] == u.firstName && r[|u.firstName|] == ' '
    ensures r[|u.firstName| + 1..] == u.lastName
  {
    u.firstName + " " + u.lastName
  }

  /** The search test: the query occurs, ignoring case, in the full name or in the email. */
  predicate Matches(u: User, query: string)
    ensures Matches(u, query) ==> |query| <= |FullName(u)| || |query| <= |u.email|
  {
    ContainsIgnoringCase(FullName(u), query) || ContainsIgnoringCase(u.email, query)
  }

  function MatchesQuery(query: string): User -> bool {
    (u: User) => Matches(u, query)
  }

  /** The list the search writes: the whole list for an empty query, the matching users otherwise. */
  function Filter(users: seq<User>, query: string): (r: seq<User>)
    ensures |r| <= |users|
    ensures query != "" ==> forall i :: 0 <= i < |r| ==> Matches(r[i], query)
  {
    if query == "" then users else Select(users, MatchesQuery(query))
  }

  function HasOtherId(id: int): User -> bool {
    (u: User) => u.id != id
  }

  /** The list left after a successful delete of `id`. */
  function RemoveId(users: seq<User>, id: int): (r: seq<User>)
    ensures |r| <= |users|
    ensures forall i :: 0 <= i < |r| ==> r[i].id != id
  {
    Select(users, HasOtherId(id))
  }

  predicate UniqueIds(users: seq<User>) {
    forall i, j :: 0 <= i < j < |users| ==> users[i].id != users[j].id
  }

  // ---------------------------------------------------------------------------
  // The search

  /** Every user matches the empty query, since every string includes "". */
  lemma MatchesEmptyQuery(u: User)
    ensures Matches(u, "")
  {
    ContainsEmpty(Lower(FullName(u)));
  }

  /** Searching for a user's first name, last name or email finds that user. */
  lemma MatchesOwnFields(u: User)
    ensures Matches(u, u.firstName) && Matches(u, u.lastName) && Matches(u, u.email)
  {
    LowerConcat(u.firstName + " ", u.lastName);
    LowerConcat(u.firstName, " ");
    ContainsAffixes(Lower(u.firstName) + Lower(" "), Lower(u.lastName));
    ContainsAffixes(Lower(u.firstName), Lower(" ") + Lower(u.lastName));
    assert Lower(u.firstName) + Lower(" ") + Lower(u.lastName)
        == Lower(u.firstName) + (Lower(" ") + Lower(u.lastName));
    ContainsAffixes(Lower(u.email), "");
    assert Lower(u.email) + "" == Lower(u.email);
  }

  /** The empty-query shortcut agrees with filtering by the search test. */
  lemma FilterWithoutShortcut(users: seq<User>, query: string)
    ensures Filter(users, query) == Select(users, MatchesQuery(query))
  {
    if query == "" {
      forall i | 0 <= i < |users| ensures MatchesQuery(query)(users[i]) {
        MatchesEmptyQuery(users[i]);
      }
      SelectKeepsAll(users, MatchesQuery(query));
    }
  }

  /** An empty query leaves the whole list in view. */
  lemma FilterEmptyQuery(users: seq<User>)
    ensures Filter(users, "") == users
  {
  }

  /** Soundness and completeness: a user is in view exactly when it is in the list and matches. */
  lemma FilterMembership(users: seq<User>, query: string)
    ensures forall u :: u in Filter(users, query) <==> u in users && Matches(u, query)
  {
    FilterWithoutShortcut(users, query);
    forall u ensures u in Filter(users, query) <==> u in users && Matches(u, query) {
      SelectMembership(users, MatchesQuery(query), u);
    }
  }

  /** The view keeps the list's order. */
  lemma FilterIsSubsequence(users: seq<User>, query: string)
    ensures IsSubsequence(Filter(users, query), users)
  {
    FilterWithoutShortcut(users, query);
    SelectIsSubsequence(users, MatchesQuery(query));
  }

  /** The view keeps every copy of a matching user and none of the others. */
  lemma FilterCount(users: seq<User>, query: string, u: User)
    ensures multiset(Filter(users, query))[u] == if Matches(u, query) then multiset(users)[u] else 0
  {
    FilterWithoutShortcut(users, query);
    SelectCount(users, MatchesQuery(query), u);
  }

  /** The "No users found" text shows exactly when no user of the list matches. */
  lemma FilterEmptyIff(users: seq<User>, query: string)
    ensures Filter(users, query) == [] <==> forall u :: u in users ==> !Matches(u, query)
  {
    FilterMembership(users, query);
    if Filter(users, query) != [] {
      assert Filter(users, query)[0] in Filter(users, query);
    }
  }

  /** Typing the query in another case gives the same view. */
  lemma FilterCaseInsensitive(users: seq<User>, query: string)
    ensures Filter(users, Lower(query)) == Filter(users, query)
  {
    forall i | 0 <= i < |users| ensures MatchesQuery(Lower(query))(users[i]) == MatchesQuery(query)(users[i]) {
      IgnoringCaseOfNeedle(FullName(users[i]), query);
      IgnoringCaseOfNeedle(users[i].email, query);
    }
    FilterWithoutShortcut(users, query);
    FilterWithoutShortcut(users, Lower(query));
    SelectCongruent(users, MatchesQuery(Lower(query)), MatchesQuery(query));
  }

  /** Re-running the search on its own result changes nothing. */
  lemma FilterIdempotent(users: seq<User>, query: string)
    ensures Filter(Filter(users, query), query) == Filter(users, query)
  {
    FilterWithoutShortcut(users, query);
    FilterWithoutShortcut(Filter(users, query), query);
    SelectIdempotent(users, MatchesQuery(query));
  }

  /** Three users of the demo service's first page. */
  const George := User(1, "George", "Bluth", "george.bluth@reqres.in", "https://reqres.in/img/faces/1-image.jpg")
  const Janet := User(2, "Janet", "Weaver", "janet.weaver@reqres.in", "https://reqres.in/img/faces/2-image.jpg")
  const Eve := User(4, "Eve", "Holt", "eve.holt@reqres.in", "https://reqres.in/img/faces/4-image.jpg")
  const DemoPage := [George, Janet, Eve]

  /** "george" occurs at the start of George's email. */
  lemma GeorgeMatches()
    ensures Matches(George, "george")
  {
    assert Lower("george") == "george";
    assert Lower(George.email)[..6] == "george";
    assert OccursAt(Lower(George.email), Lower("george"), 0);
  }

  /** Neither Janet's name nor her email holds a "g", in either case. */
  lemma JanetDoesNotMatch()
    ensures !Matches(Janet, "george")
  {
    NotContainsLetterIgnoringCase("Janet Weaver", "george");
    NotContainsLetterIgnoringCase("janet.weaver@reqres.in", "george");
    assert FullName(Janet) == "Janet Weaver";
  }

  /** Neither Eve's name nor her email holds a "g", in either case. */
  lemma EveDoesNotMatch()
    ensures !Matches(Eve, "george")
  {
    NotContainsLetterIgnoringCase("Eve Holt", "george");
    NotContainsLetterIgnoringCase("eve.holt@reqres.in", "george");
    assert FullName(Eve) == "Eve Holt";
  }

  /** Searching "george" on a page holding George Bluth among others shows exactly that record. */
  lemma SearchGeorge()
    ensures Filter(DemoPage, "george") == [George]
  {
    GeorgeMatches();
    JanetDoesNotMatch();
    EveDoesNotMatch();
    var keep := MatchesQuery("george");
    assert Select([George, Janet, Eve], keep) == [George] + Select([Janet, Eve], keep);
    assert Select([Janet, Eve], keep) == Select([Eve], keep);
    assert Select([Eve], keep) == Select([], keep);
  }

  /** Once George is deleted, nothing on the page matches "george". */
  lemma SearchGeorgeAfterDelete()
    ensures Filter([Janet, Eve], "george") == []
  {
    JanetDoesNotMatch();
    EveDoesNotMatch();
    FilterEmptyIff([Janet, Eve], "george");
  }

  // ---------------------------------------------------------------------------
  // The delete

  /** Exactly the entries with `id` go, every copy of every other entry stays, in order. */
  lemma RemoveIdExact(users: seq<User>, id: int)
    ensures forall u :: u in RemoveId(users, id) <==> u in users && u.id != id
    ensures forall u :: multiset(RemoveId(users, id))[u] == if u.id != id then multiset(users)[u] else 0
    ensures IsSubsequence(RemoveId(users, id), users)
  {
    forall u ensures u in RemoveId(users, id) <==> u in users && u.id != id {
      SelectMembership(users, HasOtherId(id), u);
    }
    forall u ensures multiset(RemoveId(users, id))[u] == if u.id != id then multiset(users)[u] else 0 {
      SelectCount(users, HasOtherId(id), u);
    }
    SelectIsSubsequence(users, HasOtherId(id));
  }

  /** Deleting an id that is not in the list changes nothing. */
  lemma RemoveAbsentId(users: seq<User>, id: int)
    requires forall u :: u in users ==> u.id != id
    ensures RemoveId(users, id) == users
  {
    assert forall i :: 0 <= i < |users| ==> users[i] in users;
    SelectKeepsAll(users, HasOtherId(id));
  }

  /** With unique ids, deleting the id found at position `i` removes exactly that one entry. */
  lemma RemoveUniqueId(users: seq<User>, i: nat)
    requires UniqueIds(users) && i < |users|
    ensures RemoveId(users, users[i].id) == users[..i] + users[i + 1..]
    ensures |RemoveId(users, users[i].id)| == |users| - 1
  {
    SelectDropsOne(users, HasOtherId(users[i].id), i);
  }

  /** Deleting George from the demo page leaves the other two, in order. */
  lemma DeleteGeorge()
    ensures RemoveId(DemoPage, George.id) == [Janet, Eve]
  {
    RemoveUniqueId(DemoPage, 0);
  }

  /** Deleting the same id twice leaves the list as after the first delete. */
  lemma RemoveIdIdempotent(users: seq<User>, id: int)
    ensures RemoveId(RemoveId(users, id), id) == RemoveId(users, id)
  {
    SelectIdempotent(users, HasOtherId(id));
  }

  /** Deleting then searching equals searching then deleting: the entry leaves the view too. */
  lemma FilterAfterRemove(users: seq<User>, id: int, query: string)
    ensures Filter(RemoveId(users, id), query) == RemoveId(Filter(users, query), id)
  {
    FilterWithoutShortcut(users, query);
    FilterWithoutShortcut(RemoveId(users, id), query);
    SelectCommutes(users, HasOtherId(id), MatchesQuery(query));
  }

  // ---------------------------------------------------------------------------
  // The component's state

  /** The directory's state and its handlers. Each remote request is an input
      to the handler that receives its completion. */
  class Component {
    var users: seq<User>
    var filteredUsers: seq<User>
    var searchQuery: string
    var page: int
    var totalPages: int

    /** What is shown is always taken, in order, from the fetched page. */
    ghost predicate Valid()
      reads this
    {
      IsSubsequence(filteredUsers, users)
    }

    /** Every card shown is a user of the fetched page. */
    lemma ShownUsersAreOnPage()
      requires Valid()
      ensures forall u :: u in filteredUsers ==> u in users
    {
      SubsequenceElements(filteredUsers, users);
    }

    /** What is shown is what the search over the current page and query gives. */
    predicate Synced()
      reads this
    {
      filteredUsers == Filter(users, searchQuery)
    }

    /** "No users found" is shown instead of the cards. */
    predicate ShowsEmptyState()
      reads this
    {
      |filteredUsers| == 0
    }

    predicate PreviousDisabled()
      reads this
    {
      page == 1
    }

    predicate NextDisabled()
      reads this
    {
      page == totalPages
    }

    constructor ()
      ensures Valid() && Synced()
      ensures users == [] && filteredUsers == [] && searchQuery == ""
      ensures page == 1 && totalPages == 1
    {
      users, filteredUsers, searchQuery := [], [], "";
      page, totalPages := 1, 1;
      SubsequenceReflexive<User>([]);
    }

    /** The search box's change handler. */
    method SetSearchQuery(query: string)
      requires Valid()
      modifies this`searchQuery
      ensures Valid() && searchQuery == query
    {
      searchQuery := query;
    }

    /** Writes the search result for `query` over the current page into the view. */
    method HandleSearch(query: string)
      requires Valid()
      modifies this`filteredUsers
      ensures Valid() && filteredUsers == Filter(users, query)
    {
      if query == "" {
        filteredUsers := users;
      } else {
        filteredUsers := Select(users, MatchesQuery(query));
      }
      FilterIsSubsequence(users, query);
    }

    /** The effect without dependencies: after every render the search runs again. */
    method Rerender()
      requires Valid()
      modifies this`filteredUsers
      ensures Valid() && Synced()
      ensures ShowsEmptyState() <==> forall u :: u in users ==> !Matches(u, searchQuery)
    {
      HandleSearch(searchQuery);
      FilterEmptyIff(users, searchQuery);
    }

    /** The completion of a page fetch. */
    method FetchUsers(response: PageResponse)
      requires Valid()
      modifies this`users, this`filteredUsers, this`totalPages
      ensures Valid()
      ensures response.PageLoaded? ==>
        users == response.data && filteredUsers == response.data && totalPages == response.totalPages
      ensures response.PageFailed? ==>
        users == old(users) && filteredUsers == old(filteredUsers) && totalPages == old(totalPages)
    {
      match response
      case PageLoaded(data, pages) =>
        users := data;
        filteredUsers := data;
        totalPages := pages;
        SubsequenceReflexive(data);
      case PageFailed =>
    }

    /** The completion of a delete request for `id`; returns the text of the alert. */
    method HandleDelete(id: int, response: DeleteResponse) returns (notice: string)
      requires Valid()
      modifies this`users, this`filteredUsers
      ensures Valid()
      ensures response == DeleteSucceeded ==>
        users == RemoveId(old(users), id) && filteredUsers == users && notice == DeletedNotice
      ensures response == DeleteFailed ==>
        users == old(users) && filteredUsers == old(filteredUsers) && notice == DeleteFailedNotice
    {
      match response
      case DeleteSucceeded =>
        var updatedUsers := RemoveId(users, id);
        users := updatedUsers;
        filteredUsers := updatedUsers;
        SubsequenceReflexive(updatedUsers);
        notice := DeletedNotice;
      case DeleteFailed =>
        notice := DeleteFailedNotice;
    }

    /** The Previous button: disabled on the first page, otherwise one page back. */
    method Previous()
      modifies this`page
      ensures old(PreviousDisabled()) ==> page == old(page)
      ensures !old(PreviousDisabled()) ==> page == old(page) - 1
      ensures 1 <= old(page) <= totalPages ==> 1 <= page <= totalPages
    {
      if !PreviousDisabled() {
        page := page - 1;
      }
    }

    /** The Next button: disabled on the last page, otherwise one page on. */
    method Next()
      modifies this`page
      ensures old(NextDisabled()) ==> page == old(page)
      ensures !old(NextDisabled()) ==> page == old(page) + 1
      ensures 1 <= old(page) <= totalPages ==> 1 <= page <= totalPages
    {
      if !NextDisabled() {
        page := page + 1;
      }
    }
  }

  /** A session against the demo page: load, search, delete twice.
      What it asserts follows from the handlers' contracts and the lemmas above. */
  method SearchAndDeleteWalkthrough()
  {
    var c := new Component();
    c.FetchUsers(PageLoaded(DemoPage, 2));
    c.Rerender();
    assert c.filteredUsers == DemoPage;

    c.SetSearchQuery("george");
    c.Rerender();
    SearchGeorge();
    assert c.filteredUsers == [George];

    var notice := c.HandleDelete(George.id, DeleteSucceeded);
    DeleteGeorge();
    // Until the next render the view shows the whole remaining page, query or not.
    assert c.filteredUsers == [Janet, Eve] && notice == DeletedNotice;
    c.Rerender();
    SearchGeorgeAfterDelete();
    assert c.ShowsEmptyState();

    RemoveAbsentId([Janet, Eve], George.id);
    notice := c.HandleDelete(George.id, DeleteSucceeded);
    assert c.users == [Janet, Eve] && notice == DeletedNotice;
  }

  /** Paging through two pages: Previous is disabled on the first, Next on the last. */
  method PagingWalkthrough()
  {
    var c := new Component();
    c.FetchUsers(PageLoaded(DemoPage, 2));
    assert c.PreviousDisabled() && !c.NextDisabled();
    c.Next();
    assert c.page == 2 && c.NextDisabled();
    c.Next();
    assert c.page == 2;
    c.Previous();
    assert c.page == 1;
    c.Previous();
    assert c.page == 1;
  }
}
