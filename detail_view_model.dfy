/** `DessertDetailViewModel`: the loaded detail, its loading state, and the sorted ingredient list. */
module DetailViewModel {
  import opened Results
  import opened Strings
  import opened ServiceErrors
  import opened ErrorHandling
  import opened DessertDetails

  /** `DessertDetailViewModel`; the service it calls is given to `LoadDessertDetail`. */
  class DessertDetailViewModel {
    var dessertDetail: Option<DessertDetail>
    var isLoading: bool
    var errorMessage: Option<string>

    /** Nothing is loaded yet, and the view starts out loading. */
    constructor ()
      ensures dessertDetail == None && isLoading && errorMessage == None
    {
      dessertDetail := None;
      isLoading := true;
      errorMessage := None;
    }

    /** `hasError`. */
    predicate HasError()
      reads this
    {
      errorMessage != None
    }

    /**
     * `loadDessertDetail(dessertID:)`. `fetchDessertDetail` is the service's
     * answer for an id; `describe` is Foundation's `localizedDescription` of an
     * error seen as `any Error`.
     */
    method LoadDessertDetail(dessertID: string, fetchDessertDetail: string -> Result<DessertDetail, Error>,
                             describe: Error -> string, handler: ErrorHandler)
      modifies this, handler
      ensures !isLoading
      ensures fetchDessertDetail(dessertID).Success? ==>
        && dessertDetail == Some(fetchDessertDetail(dessertID).value)
        && errorMessage == old(errorMessage)
        && handler.currentError == old(handler.currentError)
      ensures fetchDessertDetail(dessertID).Failure? ==>
        && dessertDetail == old(dessertDetail)
        && errorMessage == Some(describe(fetchDessertDetail(dessertID).error))
        && handler.currentError == Some(fetchDessertDetail(dessertID).error)
      ensures HasError() <==> old(HasError()) || fetchDessertDetail(dessertID).Failure?
    {
      isLoading := true;
      var outcome := fetchDessertDetail(dessertID);
      match outcome {
        case Success(detail) =>
          dessertDetail := Some(detail);
        case Failure(error) =>
          errorMessage := Some(describe(error));
          handler.Report(error);
      }
      isLoading := false;
    }
  }

  // ---------------------------------------------------------------------------
  // sortIngredients(ingredients:ascending:)
  // ---------------------------------------------------------------------------

  /**
   * The comparator's order on ingredient names: by lowercased name. Names that
   * lowercase alike, whose order Swift leaves unspecified, are put in the order
   * of the names themselves.
   */
  predicate Before(a: string, b: string)
  {
    Less(Lowercased(a), Lowercased(b)) || (Lowercased(a) == Lowercased(b) && Less(a, b))
  }

  lemma BeforeAsymmetric(a: string, b: string)
    requires Before(a, b)
    ensures !Before(b, a)
  {
    if Less(Lowercased(a), Lowercased(b)) {
      LessAsymmetric(Lowercased(a), Lowercased(b));
      if Lowercased(a) == Lowercased(b) { LessIrreflexive(Lowercased(a)); }
    } else {
      LessAsymmetric(a, b);
      LessIrreflexive(Lowercased(a));
    }
  }

  lemma BeforeTransitive(a: string, b: string, c: string)
    requires Before(a, b) && Before(b, c)
    ensures Before(a, c)
  {
    var la, lb, lc := Lowercased(a), Lowercased(b), Lowercased(c);
    if Less(la, lb) && Less(lb, lc) {
      LessTransitive(la, lb, lc);
    } else if la == lb && lb == lc {
      LessTransitive(a, b, c);
    }
  }

  lemma BeforeTotal(a: string, b: string)
    requires a != b
    ensures Before(a, b) || Before(b, a)
  {
    if Lowercased(a) != Lowercased(b) {
      LessTotal(Lowercased(a), Lowercased(b));
    } else {
      LessTotal(a, b);
    }
  }

  /** `a` comes before `b` in the requested direction. */
  predicate InOrder(a: string, b: string, ascending: bool)
  {
    if ascending then Before(a, b) else Before(b, a)
  }

  /** `key` is the name of `keys` that comes first in the requested direction. */
  predicate IsFirst(key: string, keys: set<string>, ascending: bool)
  {
    key in keys && forall k :: k in keys && k != key ==> InOrder(key, k, ascending)
  }

  lemma {:induction false} FirstExists(keys: set<string>, ascending: bool)
    requires keys != {}
    ensures exists key :: IsFirst(key, keys, ascending)
    decreases |keys|
  {
    var x :| x in keys;
    if keys != {x} {
      FirstExists(keys - {x}, ascending);
      var m :| IsFirst(m, keys - {x}, ascending);
      BeforeTotal(x, m);
      if InOrder(x, m, ascending) {
        forall k | k in keys && k != x
          ensures InOrder(x, k, ascending)
        {
          if k != m {
            assert k in keys - {x};
            assert InOrder(m, k, ascending);
            if ascending { BeforeTransitive(x, m, k); } else { BeforeTransitive(k, m, x); }
          }
        }
        assert IsFirst(x, keys, ascending);
      } else {
        assert IsFirst(m, keys, ascending);
      }
    } else {
      assert IsFirst(x, keys, ascending);
    }
  }

  lemma FirstUnique(keys: set<string>, ascending: bool)
    ensures forall a, b :: IsFirst(a, keys, ascending) && IsFirst(b, keys, ascending) ==> a == b
  {
    forall a, b | IsFirst(a, keys, ascending) && IsFirst(b, keys, ascending)
      ensures a == b
    {
      if a != b {
        BeforeAsymmetric(if ascending then a else b, if ascending then b else a);
      }
    }
  }

  /** The name that comes first in the requested direction. */
  function First(keys: set<string>, ascending: bool): (key: string)
    requires keys != {}
    ensures IsFirst(key, keys, ascending)
  {
    FirstExists(keys, ascending);
    FirstUnique(keys, ascending);
    var key :| IsFirst(key, keys, ascending);
    key
  }

  /** The names of `r` strictly follow the requested direction. */
  predicate SortedBy(r: seq<string>, ascending: bool)
  {
    forall i, j :: 0 <= i < j < |r| ==> InOrder(r[i], r[j], ascending)
  }

  /** `r` lists exactly the names of `keys`, each once. */
  predicate Lists(r: seq<string>, keys: set<string>)
  {
    |r| == |keys| && (forall i :: 0 <= i < |r| ==> r[i] in keys) && (forall k :: k in keys ==> k in r)
  }

  lemma SortNamesStep(keys: set<string>, ascending: bool, key: string, rest: seq<string>)
    requires IsFirst(key, keys, ascending)
    requires Lists(rest, keys - {key}) && SortedBy(rest, ascending)
    ensures Lists([key] + rest, keys) && SortedBy([key] + rest, ascending)
  {
    var r := [key] + rest;
    forall k | k in keys
      ensures k in r
    {
      if k != key {
        assert k in keys - {key};
      }
    }
    SortedCons(keys, ascending, key, rest);
  }

  /** The first name followed by a sorted listing of the others is sorted. */
  lemma SortedCons(keys: set<string>, ascending: bool, key: string, rest: seq<string>)
    requires IsFirst(key, keys, ascending)
    requires (forall i :: 0 <= i < |rest| ==> rest[i] in keys - {key}) && SortedBy(rest, ascending)
    ensures SortedBy([key] + rest, ascending)
  {
    var r := [key] + rest;
    forall i, j | 0 <= i < j < |r|
      ensures InOrder(r[i], r[j], ascending)
    {
      assert r[j] == rest[j - 1];
      if i == 0 {
        assert r[j] in keys - {key};
      } else {
        assert r[i] == rest[i - 1];
      }
    }
  }

  /** The names of `keys`, each once, in the requested direction. */
  function SortNames(keys: set<string>, ascending: bool): (r: seq<string>)
    ensures Lists(r, keys)
    ensures SortedBy(r, ascending)
    decreases |keys|
  {
    if keys == {} then []
    else
      var key := First(keys, ascending);
      var rest := SortNames(keys - {key}, ascending);
      SortNamesStep(keys, ascending, key, rest);
      [key] + rest
  }

  /** Each name of `names` with its measure in `ingredients`, in order. */
  function EntriesOf(names: seq<string>, ingredients: map<string, string>): (r: seq<IngredientEntry>)
    requires forall i :: 0 <= i < |names| ==> names[i] in ingredients
  {
    seq(|names|, i requires 0 <= i < |names| => IngredientEntry(names[i], ingredients[names[i]]))
  }

  /** Each entry of listed names pairs a name of the dictionary with its measure, and every pair is there. */
  lemma EntriesOfListed(names: seq<string>, ingredients: map<string, string>)
    requires Lists(names, ingredients.Keys)
    ensures var r := EntriesOf(names, ingredients);
      && |r| == |ingredients|
      && (forall i :: 0 <= i < |r| ==> r[i].ingredient in ingredients && r[i].measure == ingredients[r[i].ingredient])
      && (forall k :: k in ingredients ==> exists i :: 0 <= i < |r| && r[i] == IngredientEntry(k, ingredients[k]))
  {
    var r := EntriesOf(names, ingredients);
    forall k | k in ingredients
      ensures exists i :: 0 <= i < |r| && r[i] == IngredientEntry(k, ingredients[k])
    {
      assert k in names;
      var i :| 0 <= i < |names| && names[i] == k;
      assert r[i] == IngredientEntry(k, ingredients[k]);
    }
  }

  /** The entries of sorted names are sorted by name. */
  lemma EntriesOfSorted(names: seq<string>, ingredients: map<string, string>, ascending: bool)
    requires forall i :: 0 <= i < |names| ==> names[i] in ingredients
    requires SortedBy(names, ascending)
    ensures var r := EntriesOf(names, ingredients);
      forall i, j :: 0 <= i < j < |r| ==> InOrder(r[i].ingredient, r[j].ingredient, ascending)
  {
  }

  /**
   * `sortIngredients(ingredients:ascending:)`: the dictionary's pairs, each
   * once, sorted by lowercased name in the requested direction.
   */
  function SortIngredients(ingredients: map<string, string>, ascending: bool): (r: seq<IngredientEntry>)
    ensures |r| == |ingredients|
    ensures forall i :: 0 <= i < |r| ==> r[i].ingredient in ingredients && r[i].measure == ingredients[r[i].ingredient]
    ensures forall k :: k in ingredients ==> exists i :: 0 <= i < |r| && r[i] == IngredientEntry(k, ingredients[k])
    ensures forall i, j :: 0 <= i < j < |r| ==> InOrder(r[i].ingredient, r[j].ingredient, ascending)
  {
    var names := SortNames(ingredients.Keys, ascending);
    EntriesOfListed(names, ingredients);
    EntriesOfSorted(names, ingredients, ascending);
    EntriesOf(names, ingredients)
  }

  /** Ascending: the lowercased names never decrease. */
  lemma SortAscendingLowercasedNondecreasing(ingredients: map<string, string>, i: nat, j: nat)
    requires i < j < |SortIngredients(ingredients, true)|
    ensures var r := SortIngredients(ingredients, true);
      !Less(Lowercased(r[j].ingredient), Lowercased(r[i].ingredient))
  {
    var r := SortIngredients(ingredients, true);
    var a, b := Lowercased(r[i].ingredient), Lowercased(r[j].ingredient);
    assert Before(r[i].ingredient, r[j].ingredient);
    if Less(a, b) { LessAsymmetric(a, b); } else { LessIrreflexive(a); }
  }

  /** Descending: the lowercased names never increase. */
  lemma SortDescendingLowercasedNonincreasing(ingredients: map<string, string>, i: nat, j: nat)
    requires i < j < |SortIngredients(ingredients, false)|
    ensures var r := SortIngredients(ingredients, false);
      !Less(Lowercased(r[i].ingredient), Lowercased(r[j].ingredient))
  {
    var r := SortIngredients(ingredients, false);
    var a, b := Lowercased(r[j].ingredient), Lowercased(r[i].ingredient);
    assert Before(r[j].ingredient, r[i].ingredient);
    if Less(a, b) { LessAsymmetric(a, b); } else { LessIrreflexive(a); }
  }

  /** No name appears twice in the sorted list. */
  lemma SortIngredientsDistinct(ingredients: map<string, string>, ascending: bool, i: nat, j: nat)
    requires i < j < |SortIngredients(ingredients, ascending)|
    ensures SortIngredients(ingredients, ascending)[i].ingredient != SortIngredients(ingredients, ascending)[j].ingredient
  {
    var r := SortIngredients(ingredients, ascending);
    assert InOrder(r[i].ingredient, r[j].ingredient, ascending);
    if r[i].ingredient == r[j].ingredient {
      BeforeAsymmetric(r[i].ingredient, r[j].ingredient);
    }
  }

  /** Distinct ingredient names of a decoded record never lowercase alike. */
  lemma DecodedNamesDifferCaselessly(fields: Fields, k1: string, k2: string)
    requires k1 in Ingredients(fields) && k2 in Ingredients(fields) && k1 != k2
    ensures Lowercased(k1) != Lowercased(k2)
  {
    IngredientsComeFromScannedIndices(fields, k1);
    IngredientsComeFromScannedIndices(fields, k2);
    var i1 :| 1 <= i1 < Gap(fields) && PairAt(fields, i1) == Some(IngredientEntry(k1, Ingredients(fields)[k1]));
    var i2 :| 1 <= i2 < Gap(fields) && PairAt(fields, i2) == Some(IngredientEntry(k2, Ingredients(fields)[k2]));
    var raw1, raw2 := IfPresent(fields, IngredientKey(i1)).value, IfPresent(fields, IngredientKey(i2)).value;
    assert k1 == Capitalized(raw1) && k2 == Capitalized(raw2);
    if Lowercased(k1) == Lowercased(k2) {
      CapitalizedCaselessInjective(raw1, raw2);
    }
  }

  /**
   * For a decoded detail the listing follows the comparator exactly: every
   * name is strictly before (or, descending, after) each later one when
   * lowercased, so no tie is ever broken.
   */
  lemma DecodedIngredientsSortWithoutTies(fields: Fields, ascending: bool, i: nat, j: nat)
    requires i < j < |SortIngredients(Ingredients(fields), ascending)|
    ensures var r := SortIngredients(Ingredients(fields), ascending);
      if ascending then Less(Lowercased(r[i].ingredient), Lowercased(r[j].ingredient))
      else Less(Lowercased(r[j].ingredient), Lowercased(r[i].ingredient))
  {
    var r := SortIngredients(Ingredients(fields), ascending);
    SortIngredientsDistinct(Ingredients(fields), ascending, i, j);
    DecodedNamesDifferCaselessly(fields, r[i].ingredient, r[j].ingredient);
  }

  /** The first name of a sorted listing is the name that comes first. */
  lemma SortedHeadIsFirst(r: seq<string>, keys: set<string>, ascending: bool)
    requires Lists(r, keys) && SortedBy(r, ascending) && r != []
    ensures IsFirst(r[0], keys, ascending)
  {
    forall k | k in keys && k != r[0]
      ensures InOrder(r[0], k, ascending)
    {
      var i :| 0 <= i < |r| && r[i] == k;
      assert i != 0;
    }
  }

  lemma SortedTail(r: seq<string>, keys: set<string>, ascending: bool)
    requires Lists(r, keys) && SortedBy(r, ascending) && r != []
    ensures Lists(r[1..], keys - {r[0]}) && SortedBy(r[1..], ascending)
  {
    var key, tail := r[0], r[1..];
    forall i | 0 <= i < |tail|
      ensures tail[i] in keys - {key}
    {
      assert r[i + 1] == tail[i];
      assert InOrder(key, r[i + 1], ascending);
      if tail[i] == key {
        BeforeAsymmetric(key, key);
      }
    }
    forall k | k in keys - {key}
      ensures k in tail
    {
      var i :| 0 <= i < |r| && r[i] == k;
      assert tail[i - 1] == k;
    }
    assert |keys - {key}| == |keys| - 1;
  }

  /** Two sorted listings of the same names start with the same name. */
  lemma SortedHeadsAgree(a: seq<string>, b: seq<string>, keys: set<string>, ascending: bool)
    requires Lists(a, keys) && SortedBy(a, ascending) && a != []
    requires Lists(b, keys) && SortedBy(b, ascending)
    ensures b != [] && a[0] == b[0]
  {
    SortedHeadIsFirst(a, keys, ascending);
    SortedHeadIsFirst(b, keys, ascending);
    FirstUnique(keys, ascending);
  }

  /** A listing of the names that is sorted in one direction is unique. */
  lemma {:induction false} SortedListingUnique(a: seq<string>, b: seq<string>, keys: set<string>, ascending: bool)
    requires Lists(a, keys) && SortedBy(a, ascending)
    requires Lists(b, keys) && SortedBy(b, ascending)
    ensures a == b
    decreases |a|
  {
    if a != [] {
      SortedHeadsAgree(a, b, keys, ascending);
      SortedTail(a, keys, ascending);
      SortedTail(b, keys, ascending);
      SortedListingUnique(a[1..], b[1..], keys - {a[0]}, ascending);
      assert a == [a[0]] + a[1..] && b == [b[0]] + b[1..];
    }
  }

  function Reverse<T>(s: seq<T>): (r: seq<T>)
    ensures |r| == |s| && forall i :: 0 <= i < |s| ==> r[i] == s[|s| - 1 - i]
  {
    seq(|s|, i requires 0 <= i < |s| => s[|s| - 1 - i])
  }

  lemma ReverseLists(r: seq<string>, keys: set<string>)
    requires Lists(r, keys) && SortedBy(r, true)
    ensures Lists(Reverse(r), keys) && SortedBy(Reverse(r), false)
  {
    var d := Reverse(r);
    forall k | k in keys
      ensures k in d
    {
      var i :| 0 <= i < |r| && r[i] == k;
      assert d[|r| - 1 - i] == k;
    }
    forall i, j | 0 <= i < j < |d|
      ensures InOrder(d[i], d[j], false)
    {
      assert InOrder(r[|r| - 1 - j], r[|r| - 1 - i], true);
    }
  }

  lemma SortNamesDescendingIsReversed(keys: set<string>)
    ensures SortNames(keys, false) == Reverse(SortNames(keys, true))
  {
    ReverseLists(SortNames(keys, true), keys);
    SortedListingUnique(SortNames(keys, false), Reverse(SortNames(keys, true)), keys, false);
  }

  lemma EntriesOfReverse(names: seq<string>, ingredients: map<string, string>)
    requires forall i :: 0 <= i < |names| ==> names[i] in ingredients
    ensures EntriesOf(Reverse(names), ingredients) == Reverse(EntriesOf(names, ingredients))
  {
    var left, right := EntriesOf(Reverse(names), ingredients), Reverse(EntriesOf(names, ingredients));
    forall i | 0 <= i < |left|
      ensures left[i] == right[i]
    {
      assert Reverse(names)[i] == names[|names| - 1 - i];
    }
  }

  /** Sorting descending gives the ascending list backwards. */
  lemma SortDescendingIsReversedAscending(ingredients: map<string, string>)
    ensures SortIngredients(ingredients, false) == Reverse(SortIngredients(ingredients, true))
  {
    var up := SortNames(ingredients.Keys, true);
    SortNamesDescendingIsReversed(ingredients.Keys);
    EntriesOfReverse(up, ingredients);
    assert SortIngredients(ingredients, true) == EntriesOf(up, ingredients);
    assert SortIngredients(ingredients, false) == EntriesOf(Reverse(up), ingredients);
  }

  /** The names of an ingredient list, in order. */
  function Names(entries: seq<IngredientEntry>): (names: seq<string>)
  {
    seq(|entries|, i requires 0 <= i < |entries| => entries[i].ingredient)
  }

  lemma NamesOfSortIngredients(ingredients: map<string, string>, ascending: bool)
    ensures Names(SortIngredients(ingredients, ascending)) == SortNames(ingredients.Keys, ascending)
  {
  }

  lemma MockNamesOrder()
    ensures Before("Eggs", "Flour") && Before("Flour", "Sugar") && Before("Eggs", "Sugar")
  {
    assert Lowercased("Eggs") == "eggs";
    assert Lowercased("Flour") == "flour";
    assert Lowercased("Sugar") == "sugar";
  }

  /** Three names in order are listed and sorted by `[x, y, z]`, and descending by `[z, y, x]`. */
  lemma ThreeListed(x: string, y: string, z: string, keys: set<string>)
    requires Before(x, y) && Before(y, z) && keys == {x, y, z}
    ensures Lists([x, y, z], keys) && SortedBy([x, y, z], true)
    ensures Lists([z, y, x], keys) && SortedBy([z, y, x], false)
  {
    BeforeTransitive(x, y, z);
    BeforeAsymmetric(x, y);
    BeforeAsymmetric(y, z);
    BeforeAsymmetric(x, z);
    assert |keys| == 3;
  }

  /** Three names in order sort to `[x, y, z]`. */
  lemma SortThreeAscending(x: string, y: string, z: string, keys: set<string>)
    requires Before(x, y) && Before(y, z) && keys == {x, y, z}
    ensures SortNames(keys, true) == [x, y, z]
  {
    var sorted := SortNames(keys, true);
    ThreeListed(x, y, z, keys);
    SortedListingUnique(sorted, [x, y, z], keys, true);
  }

  /** Three names in order sort to `[z, y, x]` descending. */
  lemma SortThreeDescending(x: string, y: string, z: string, keys: set<string>)
    requires Before(x, y) && Before(y, z) && keys == {x, y, z}
    ensures SortNames(keys, false) == [z, y, x]
  {
    var sorted := SortNames(keys, false);
    ThreeListed(x, y, z, keys);
    SortedListingUnique(sorted, [z, y, x], keys, false);
  }

  /** The ingredients of the mock recipe. */
  function MockIngredients(): map<string, string>
  {
    map["Sugar" := "1 cup", "Flour" := "2 cups", "Eggs" := "2 large"]
  }

  lemma MockSortedNames()
    ensures SortNames(MockIngredients().Keys, true) == ["Eggs", "Flour", "Sugar"]
    ensures SortNames(MockIngredients().Keys, false) == ["Sugar", "Flour", "Eggs"]
  {
    var keys := MockIngredients().Keys;
    assert keys == {"Eggs", "Flour", "Sugar"};
    MockNamesOrder();
    SortThreeAscending("Eggs", "Flour", "Sugar", keys);
    SortThreeDescending("Eggs", "Flour", "Sugar", keys);
  }

  /** The ingredients of the mock recipe sort to Eggs, Flour, Sugar, and backwards when descending. */
  lemma MockIngredientsSorted()
    ensures Names(SortIngredients(MockIngredients(), true)) == ["Eggs", "Flour", "Sugar"]
    ensures Names(SortIngredients(MockIngredients(), false)) == ["Sugar", "Flour", "Eggs"]
  {
    var m := MockIngredients();
    NamesOfSortIngredients(m, true);
    NamesOfSortIngredients(m, false);
    MockSortedNames();
  }

  /** `MockDessertService.fetchDessertDetail(by:)`: the mock recipe, or `URLError(.badServerResponse)`. */
  function MockFetchDessertDetail(shouldThrow: bool, id: string): Result<DessertDetail, Error>
  {
    if shouldThrow then Failure(Url(BadServerResponseCode))
    else Success(DessertDetail(id, "Mock Dessert", Some("Add sugar, then flour, and finally eggs. Mix well."),
                               MockIngredients(), ""))
  }

  /**
   * Loads dessert "1" from the mock service: the detail arrives when the
   * service answers, and the handler holds an error when it throws.
   */
  method LoadFromMock(shouldThrow: bool, describe: Error -> string)
    returns (detail: Option<DessertDetail>, currentError: Option<Error>)
    ensures !shouldThrow ==> detail.Some? && detail.value.name == "Mock Dessert"
    ensures shouldThrow ==> currentError.Some? && detail.None?
  {
    var handler := new ErrorHandler();
    var viewModel := new DessertDetailViewModel();
    viewModel.LoadDessertDetail("1", id => MockFetchDessertDetail(shouldThrow, id), describe, handler);
    detail := viewModel.dessertDetail;
    currentError := handler.GetCurrentError();
  }

  /** Sorts the ingredients of the recipe loaded from the mock service, as the view does. */
  method SortMockIngredients(ascending: bool, describe: Error -> string) returns (names: seq<string>)
    ensures ascending ==> names == ["Eggs", "Flour", "Sugar"]
    ensures !ascending ==> names == ["Sugar", "Flour", "Eggs"]
  {
    var handler := new ErrorHandler();
    var viewModel := new DessertDetailViewModel();
    viewModel.LoadDessertDetail("1", id => MockFetchDessertDetail(false, id), describe, handler);
    assert viewModel.dessertDetail == Some(MockFetchDessertDetail(false, "1").value);
    var ingredients := if viewModel.dessertDetail.Some? then viewModel.dessertDetail.value.ingredients else map[];
    assert ingredients == MockIngredients();
    MockIngredientsSorted();
    names := Names(SortIngredients(ingredients, ascending));
  }
}
