/** The users store: the record list and the view settings as the fields of one object,
    the mutations as methods that change them, and the derived views (`filteredUsers`,
    `paginatedUsers`, `totalPages`) recomputed on each call. */
module UsersStore {
  import opened Wrappers
  import opened Seqs
  import opened Users
  import opened Search
  import opened Sorting
  import opened Paging

  /** What the fetch in `loadUsers` delivered: the parsed body, which may be `null`, or a
      failure. */
  datatype FetchResult = Fetched(data: Option<seq<User>>) | FetchFailed

  /** The value of `filteredUsers`: the search stage, then the sort. */
  function FilteredView(s: seq<User>, q: string, f: Field, o: Order): (r: seq<User>)
    ensures |r| <= |s|
    ensures multiset(r) == multiset(SearchFilter(s, q))
    ensures q == "" ==> multiset(r) == multiset(s)
  {
    Sort(SearchFilter(s, q), f, o)
  }

  /** The view is sorted by the chosen field and order; it holds exactly the records that
      pass the search, each as often as in the list; and an empty query reorders the whole
      list into it. */
  lemma FilteredViewSpec(s: seq<User>, q: string, f: Field, o: Order)
    ensures Sorted(FilteredView(s, q, f, o), f, o)
    ensures forall u :: u in FilteredView(s, q, f, o) <==> u in s && (q == "" || Matches(u, Text.Lower(q)))
    ensures UniqueIds(s) ==> UniqueIds(FilteredView(s, q, f, o))
  {
    SortSorted(SearchFilter(s, q), f, o);
    if UniqueIds(s) {
      SortKeepsIdsUnique(SearchFilter(s, q), f, o);
    }
  }

  /** With an empty query the view is the whole list sorted, so computing it on the list it
      left behind gives the same list again: the value does not depend on how often the
      view is recomputed. */
  lemma FilteredViewStable(s: seq<User>, f: Field, o: Order)
    ensures FilteredView(FilteredView(s, "", f, o), "", f, o) == FilteredView(s, "", f, o)
  {
    SortIdempotent(s, f, o);
  }

  class Store {
    var users: seq<User>
    var loading: bool
    var searchQuery: string
    var sortField: Field
    var sortOrder: Order
    var currentPage: int
    var itemsPerPage: int

    /** The store as created: no records, not loading, no query, ascending by id, page 1 of
        10 records each. */
    constructor ()
      ensures users == [] && !loading && searchQuery == ""
      ensures sortField == Id && sortOrder == Asc
      ensures currentPage == 1 && itemsPerPage == 10
    {
      users := [];
      loading := false;
      searchQuery := "";
      sortField := Id;
      sortOrder := Asc;
      currentPage := 1;
      itemsPerPage := 10;
    }

    /** `loadUsers`, with the fetch's outcome as a parameter: the fetched list replaces the
        old one (a `null` body gives the empty list), a failure leaves it, and either way
        the store ends up not loading. */
    method LoadUsers(result: FetchResult)
      modifies this`users, this`loading
      ensures !loading
      ensures result.Fetched? ==> users == result.data.GetOr([])
      ensures result.FetchFailed? ==> users == old(users)
    {
      loading := true;
      match result {
        case Fetched(data) =>
          users := if data.Some? then data.value else [];
        case FetchFailed =>
      }
      loading := false;
    }

    /** `addUser(d)`: appends `d` under a fresh id. */
    method AddUser(d: Draft)
      modifies this`users
      ensures users == Added(old(users), d)
      ensures UniqueIds(old(users)) ==> UniqueIds(users)
    {
      var newId := MaxId(users) + 1;
      users := users + [d.WithId(newId)];
    }

    /** `updateUser(id, p)`: overlays the first record with that id, in place. */
    method UpdateUser(id: int, p: Patch)
      modifies this`users
      ensures users == Updated(old(users), id, p)
      ensures UniqueIds(old(users)) && (p.id == None || p.id == Some(id)) ==> UniqueIds(users)
    {
      ghost var before := users;
      var index := FindIndex(users, id);
      if index != -1 {
        users := users[index := Overlay(users[index], p)];
      }
      assert users == Updated(before, id, p) by {
        var r := Updated(before, id, p);
        assert forall i :: 0 <= i < |before| ==> (IsFirstMatch(before, id, i) <==> i == index);
        assert forall i :: 0 <= i < |before| ==> users[i] == r[i];
      }
      if UniqueIds(before) && (p.id == None || p.id == Some(id)) {
        UpdatedKeepsIdsUnique(before, id, p);
      }
    }

    /** `deleteUser(id)`: keeps the records whose id differs. */
    method DeleteUser(id: int)
      modifies this`users
      ensures users == Without(old(users), id)
      ensures UniqueIds(old(users)) ==> UniqueIds(users)
    {
      WithoutSpec(users, id);
      users := Filter(IdDiffers(id), users);
    }

    /** `filteredUsers`. The sort works in place on the list it is given, and with an empty
        query that list is `users` itself, so the stored list ends up sorted; with a query
        the filter has made a copy and `users` is left alone. */
    method FilteredUsers() returns (filtered: seq<User>)
      modifies this`users
      ensures filtered == FilteredView(old(users), searchQuery, sortField, sortOrder)
      ensures users == if searchQuery == "" then filtered else old(users)
    {
      filtered := users;
      if searchQuery != "" {
        filtered := Filter(Matcher(Text.Lower(searchQuery)), filtered);
      }
      filtered := Sort(filtered, sortField, sortOrder);
      if searchQuery == "" {
        users := filtered;
      }
    }

    /** `paginatedUsers`: the page `currentPage` of the view. */
    method PaginatedUsers() returns (page: seq<User>)
      modifies this`users
      ensures page == Page(FilteredView(old(users), searchQuery, sortField, sortOrder), currentPage, itemsPerPage)
      ensures users == if searchQuery == "" then FilteredView(old(users), searchQuery, sortField, sortOrder) else old(users)
    {
      var all := FilteredUsers();
      page := Page(all, currentPage, itemsPerPage);
    }

    /** `totalPages`: the number of pages the view fills. */
    method TotalPages() returns (pages: nat)
      requires itemsPerPage > 0
      modifies this`users
      ensures pages == PageCount(|FilteredView(old(users), searchQuery, sortField, sortOrder)|, itemsPerPage)
      ensures users == if searchQuery == "" then FilteredView(old(users), searchQuery, sortField, sortOrder) else old(users)
    {
      var all := FilteredUsers();
      pages := PageCount(|all|, itemsPerPage);
    }

    /** `setSearchQuery(q)`: a new query starts again at page 1. */
    method SetSearchQuery(q: string)
      modifies this`searchQuery, this`currentPage
      ensures searchQuery == q && currentPage == 1
    {
      searchQuery := q;
      currentPage := 1;
    }

    /** `setSorting(f, o)`. */
    method SetSorting(f: Field, o: Order)
      modifies this`sortField, this`sortOrder
      ensures sortField == f && sortOrder == o
    {
      sortField := f;
      sortOrder := o;
    }

    /** `setPage(page)`: the page number is taken as given, without clamping. */
    method SetPage(page: int)
      modifies this`currentPage
      ensures currentPage == page
    {
      currentPage := page;
    }
  }
}
