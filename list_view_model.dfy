/** `DessertsListViewModel`: every dessert loaded, the ones the search keeps, and the loading state. */
module ListViewModel {
  import opened Results
  import opened Strings
  import opened ServiceErrors
  import opened ErrorHandling
  import opened Desserts

  /** `a` is `b` with some elements left out, the rest in their order. */
  predicate IsSubsequence<T(==)>(a: seq<T>, b: seq<T>)
    decreases |b|
  {
    if a == [] then true
    else if b == [] then false
    else if a[0] == b[0] then IsSubsequence(a[1..], b[1..])
    else IsSubsequence(a, b[1..])
  }

  lemma {:induction false} IsSubsequenceOfTail<T>(a: seq<T>, b: seq<T>)
    requires b != [] && IsSubsequence(a, b[1..])
    ensures IsSubsequence(a, b)
    decreases |b|, 0
  {
    if a != [] && a[0] == b[0] {
      IsSubsequenceNext(a, b[1..]);
    }
  }

  lemma {:induction false} IsSubsequenceNext<T>(a: seq<T>, c: seq<T>)
    requires a != [] && IsSubsequence(a, c)
    ensures IsSubsequence(a[1..], c)
    decreases |c|, 1
  {
    if a[0] != c[0] {
      IsSubsequenceNext(a, c[1..]);
    }
    IsSubsequenceOfTail(a[1..], c);
  }

  lemma {:induction false} IsSubsequenceReflexive<T>(a: seq<T>)
    ensures IsSubsequence(a, a)
    decreases |a|
  {
    if a != [] {
      IsSubsequenceReflexive(a[1..]);
    }
  }

  /** The search keeps a dessert whose lowercased name contains the lowercased query. */
  predicate NameMatches(d: Dessert, query: string)
  {
    Contains(Lowercased(d.name), Lowercased(query))
  }

  /** A dessert matches exactly when the lowercased query occurs at some position of its lowercased name. */
  lemma NameMatchesIff(d: Dessert, query: string)
    ensures NameMatches(d, query) <==> exists i :: OccursAt(Lowercased(d.name), Lowercased(query), i)
  {
    ContainsIff(Lowercased(d.name), Lowercased(query));
  }

  /** `allDesserts.filter { … }`: the matching desserts, in their order, each as often as in `ds`. */
  function FilterByName(ds: seq<Dessert>, query: string): (r: seq<Dessert>)
    ensures forall i :: 0 <= i < |r| ==> NameMatches(r[i], query)
    ensures forall d :: multiset(r)[d] == if NameMatches(d, query) then multiset(ds)[d] else 0
    ensures IsSubsequence(r, ds)
    decreases |ds|
  {
    if ds == [] then []
    else
      var rest := FilterByName(ds[1..], query);
      assert ds == [ds[0]] + ds[1..];
      if NameMatches(ds[0], query) then
        assert ([ds[0]] + rest)[1..] == rest;
        [ds[0]] + rest
      else
        IsSubsequenceOfTail(rest, ds);
        rest
  }

  /** The desserts `getFilteredDesserts(searchQuery:)` shows for a query. */
  function FilteredDesserts(all: seq<Dessert>, query: string): (r: seq<Dessert>)
    ensures IsSubsequence(r, all)
    ensures query != [] ==> forall i :: 0 <= i < |r| ==> NameMatches(r[i], query)
  {
    if query == [] then IsSubsequenceReflexive(all); all else FilterByName(all, query)
  }

  /** A dessert is shown exactly when it is loaded and matches the query, or the query is empty. */
  lemma FilteredDessertsMembership(all: seq<Dessert>, query: string, d: Dessert)
    ensures d in FilteredDesserts(all, query) <==> d in all && (query == [] || NameMatches(d, query))
  {
    if query != [] {
      assert multiset(FilterByName(all, query))[d] == if NameMatches(d, query) then multiset(all)[d] else 0;
    }
  }

  /** The empty query, answered without filtering, is what filtering by it would give. */
  lemma {:induction false} EmptyQueryKeepsEverything(ds: seq<Dessert>)
    ensures FilterByName(ds, "") == ds
    decreases |ds|
  {
    if ds != [] {
      assert Lowercased("") == [];
      assert StartsWith(Lowercased(ds[0].name), []);
      EmptyQueryKeepsEverything(ds[1..]);
      assert ds == [ds[0]] + ds[1..];
    }
  }

  /** The search ignores the case of the query. */
  lemma {:induction false} FilterIgnoresQueryCase(ds: seq<Dessert>, q1: string, q2: string)
    requires Lowercased(q1) == Lowercased(q2)
    ensures FilterByName(ds, q1) == FilterByName(ds, q2)
    ensures FilteredDesserts(ds, q1) == FilteredDesserts(ds, q2)
    decreases |ds|
  {
    if ds != [] {
      FilterIgnoresQueryCase(ds[1..], q1, q2);
    }
  }

  /** Searching the search results again with the same query changes nothing. */
  lemma {:induction false} FilterIdempotent(ds: seq<Dessert>, query: string)
    ensures FilterByName(FilterByName(ds, query), query) == FilterByName(ds, query)
    decreases |ds|
  {
    if ds != [] {
      FilterIdempotent(ds[1..], query);
      var rest := FilterByName(ds[1..], query);
      if NameMatches(ds[0], query) {
        assert ([ds[0]] + rest)[1..] == rest;
      }
    }
  }

  /** `DessertsListViewModel`; the service's answer is given to `LoadDesserts`. */
  class DessertsListViewModel {
    var allDesserts: seq<Dessert>
    var filteredDesserts: seq<Dessert>
    var isLoading: bool
    var errorMessage: Option<string>

    /** The desserts shown are some of the desserts loaded, in their order. */
    predicate Valid()
      reads this
    {
      IsSubsequence(filteredDesserts, allDesserts)
    }

    /** Nothing is loaded yet, and the view starts out loading. */
    constructor ()
      ensures allDesserts == [] && filteredDesserts == [] && isLoading && errorMessage == None
      ensures Valid()
    {
      allDesserts := [];
      filteredDesserts := [];
      isLoading := true;
      errorMessage := None;
    }

    /** `hasError`. */
    predicate HasError()
      reads this
    {
      errorMessage != None
    }

    /**
     * `loadDesserts()`. `fetched` is the service's answer. A `DessertServiceError`
     * is described by its own `localizedDescription`; any other error by
     * `describe`, Foundation's description of an `any Error`.
     */
    method LoadDesserts(fetched: Result<seq<Dessert>, Error>, describe: Error -> string, handler: ErrorHandler)
      requires Valid()
      modifies this, handler
      ensures Valid() && !isLoading
      ensures fetched.Success? ==>
        && allDesserts == fetched.value && filteredDesserts == fetched.value
        && errorMessage == old(errorMessage)
        && handler.currentError == old(handler.currentError)
      ensures fetched.Failure? ==>
        && allDesserts == old(allDesserts) && filteredDesserts == old(filteredDesserts)
        && handler.currentError == Some(fetched.error)
        && errorMessage == Some(if fetched.error.Service? then LocalizedDescription(fetched.error.kind)
                                else describe(fetched.error))
      ensures HasError() <==> old(HasError()) || fetched.Failure?
    {
      isLoading := true;
      match fetched {
        case Success(desserts) =>
          allDesserts := desserts;
          filteredDesserts := allDesserts;
          IsSubsequenceReflexive(allDesserts);
        case Failure(error) =>
          if error.Service? {
            handler.Report(error);
            errorMessage := Some(LocalizedDescription(error.kind));
          } else {
            handler.Report(error);
            errorMessage := Some(describe(error));
          }
      }
      isLoading := false;
    }

    /** `getFilteredDesserts(searchQuery:)`: shows the loaded desserts the query keeps. */
    method GetFilteredDesserts(searchQuery: string)
      modifies this
      ensures filteredDesserts == FilteredDesserts(allDesserts, searchQuery)
      ensures allDesserts == old(allDesserts) && isLoading == old(isLoading) && errorMessage == old(errorMessage)
      ensures Valid()
    {
      if searchQuery == [] {
        filteredDesserts := allDesserts;
        IsSubsequenceReflexive(allDesserts);
      } else {
        filteredDesserts := FilterByName(allDesserts, searchQuery);
      }
    }
  }

  lemma ExampleMatches()
    ensures NameMatches(Dessert("2", "Banana Bread", ""), "Bread")
  {
    assert Lowercased("Bread") == "bread";
    assert Lowercased("Banana Bread") == "banana bread";
    ContainsIff("banana bread", "bread");
    assert OccursAt("banana bread", "bread", 7);
  }

  lemma ExampleMismatches()
    ensures !NameMatches(Dessert("1", "Apple Pie", ""), "Bread")
    ensures !NameMatches(Dessert("3", "Cherry Tart", ""), "Bread")
  {
    var query := Lowercased("Bread");
    assert query[0] == 'b';
    LowercasedMisses("Apple Pie", 'b');
    LowercasedMisses("Cherry Tart", 'b');
    MissingFirstCharNotContained(Lowercased("Apple Pie"), query);
    MissingFirstCharNotContained(Lowercased("Cherry Tart"), query);
  }

  /** Of three desserts, a query that only the middle one matches keeps that one alone. */
  lemma FilterKeepsOnlyMiddle(x: Dessert, y: Dessert, z: Dessert, query: string)
    requires query != []
    requires !NameMatches(x, query) && NameMatches(y, query) && !NameMatches(z, query)
    ensures FilteredDesserts([x, y, z], query) == [y]
  {
    var ds := [x, y, z];
    assert ds[1..] == [y, z] && ds[1..][1..] == [z] && ds[1..][1..][1..] == [];
    assert FilterByName([z], query) == [];
    assert FilterByName([y, z], query) == [y];
  }

  /** Searching "Bread" among Apple Pie, Banana Bread and Cherry Tart keeps Banana Bread only. */
  lemma SearchExample()
    ensures FilteredDesserts([Dessert("1", "Apple Pie", ""), Dessert("2", "Banana Bread", ""), Dessert("3", "Cherry Tart", "")], "Bread")
            == [Dessert("2", "Banana Bread", "")]
  {
    ExampleMatches();
    ExampleMismatches();
    FilterKeepsOnlyMiddle(Dessert("1", "Apple Pie", ""), Dessert("2", "Banana Bread", ""), Dessert("3", "Cherry Tart", ""), "Bread");
  }

  /** `MockDessertService.fetchDesserts()`: two mock desserts, or `URLError(.badServerResponse)`. */
  function MockFetchDesserts(shouldThrow: bool): Result<seq<Dessert>, Error>
  {
    if shouldThrow then Failure(Url(BadServerResponseCode))
    else Success([Dessert("1", "Mock Dessert 1", ""), Dessert("2", "Mock Dessert 2", "")])
  }

  /**
   * Loads the list from the mock service: both desserts arrive in order when
   * the service answers, and the handler holds an error when it throws.
   */
  method LoadFromMock(shouldThrow: bool, describe: Error -> string)
    returns (desserts: seq<Dessert>, currentError: Option<Error>)
    ensures !shouldThrow ==> |desserts| == 2 && desserts[0].name == "Mock Dessert 1" && desserts[1].name == "Mock Dessert 2"
    ensures shouldThrow ==> currentError.Some? && desserts == []
  {
    var handler := new ErrorHandler();
    var viewModel := new DessertsListViewModel();
    viewModel.LoadDesserts(MockFetchDesserts(shouldThrow), describe, handler);
    desserts := viewModel.allDesserts;
    currentError := handler.GetCurrentError();
  }
}
