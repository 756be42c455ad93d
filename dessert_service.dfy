/**
 * `DessertService`: the request URLs and what the two fetch operations do
 * with the outcome of the network request and the JSON decoding, which are
 * given as functions of the URL.
 */
module DessertServices {
  import opened Results
  import opened Strings
  import opened ServiceErrors
  import opened ErrorHandling
  import opened Desserts
  import opened DessertDetails

  const Scheme := "https"
  const Host := "www.themealdb.com"
  const BasePath := "/api/json/v1/1/"

  /** `URLQueryItem`. */
  datatype QueryItem = QueryItem(name: string, value: string)

  /** The parts of a request URL, as `URLComponents` holds them. */
  datatype UrlComponents = UrlComponents(scheme: string, host: string, path: string, queryItems: seq<QueryItem>)

  /**
   * `makeURL(endpoint:queryItems:)`. Whether `URLComponents.url` can form a URL
   * from the parts is Foundation's decision, given as `resolves`.
   */
  method MakeUrl(endpoint: string, queryItems: seq<QueryItem>, resolves: UrlComponents -> bool)
    returns (url: Option<UrlComponents>)
    ensures url.Some? <==> resolves(UrlComponents(Scheme, Host, BasePath + endpoint, queryItems))
    ensures url.Some? ==> url.value == UrlComponents(Scheme, Host, BasePath + endpoint, queryItems)
  {
    var components := UrlComponents("", "", "", []);
    components := components.(scheme := Scheme);
    components := components.(host := Host);
    components := components.(path := BasePath + endpoint);
    components := components.(queryItems := queryItems);
    url := if resolves(components) then Some(components) else None;
  }

  /** The URL of the dessert list: what `makeURL` builds for `filter.php` with `c=Dessert`. */
  function ListUrl(): (r: UrlComponents)
    ensures r == UrlComponents(Scheme, Host, BasePath + "filter.php", [QueryItem("c", "Dessert")])
  {
    UrlComponents("https", "www.themealdb.com", "/api/json/v1/1/filter.php", [QueryItem("c", "Dessert")])
  }

  /** The URL of the detail of dessert `id`: what `makeURL` builds for `lookup.php` with `i=id`. */
  function DetailUrl(id: string): (r: UrlComponents)
    ensures r == UrlComponents(Scheme, Host, BasePath + "lookup.php", [QueryItem("i", id)])
  {
    UrlComponents("https", "www.themealdb.com", "/api/json/v1/1/lookup.php", [QueryItem("i", id)])
  }

  /** Different ids are looked up at different URLs. */
  lemma DetailUrlInjective(a: string, b: string)
    requires DetailUrl(a) == DetailUrl(b)
    ensures a == b
  {
    assert DetailUrl(a).queryItems[0].value == a;
  }

  /** No dessert is followed by one whose name is smaller under `<`. */
  predicate SortedByName(ds: seq<Dessert>)
  {
    forall i, j :: 0 <= i < j < |ds| ==> !Less(ds[j].name, ds[i].name)
  }

  /** Every dessert of `ds` has a name no smaller than `name`. */
  predicate NoneBefore(ds: seq<Dessert>, name: string)
  {
    forall i :: 0 <= i < |ds| ==> !Less(ds[i].name, name)
  }

  lemma ConsSorted(h: Dessert, ds: seq<Dessert>)
    requires NoneBefore(ds, h.name) && SortedByName(ds)
    ensures SortedByName([h] + ds)
  {
    forall i, j | 0 <= i < j < |[h] + ds|
      ensures !Less(([h] + ds)[j].name, ([h] + ds)[i].name)
    {
      assert ([h] + ds)[j] == ds[j - 1];
      if i > 0 {
        assert ([h] + ds)[i] == ds[i - 1];
      }
    }
  }

  /** Everything in a permutation of `ds` with `d` added is no smaller than `name`. */
  lemma NoneBeforeAfterInsert(ds: seq<Dessert>, d: Dessert, r: seq<Dessert>, name: string)
    requires multiset(r) == multiset(ds) + multiset{d}
    requires NoneBefore(ds, name) && !Less(d.name, name)
    ensures NoneBefore(r, name)
  {
    forall j | 0 <= j < |r|
      ensures !Less(r[j].name, name)
    {
      assert r[j] in multiset(r);
      if r[j] != d {
        assert r[j] in multiset(ds);
        var k :| 0 <= k < |ds| && ds[k] == r[j];
      }
    }
  }

  /** Inserts `d` into a list sorted by name, after the desserts with smaller names. */
  function InsertByName(d: Dessert, ds: seq<Dessert>): (r: seq<Dessert>)
    requires SortedByName(ds)
    ensures multiset(r) == multiset(ds) + multiset{d}
    ensures SortedByName(r)
    decreases |ds|
  {
    if ds == [] then [d]
    else if Less(ds[0].name, d.name) then
      var rest := InsertByName(d, ds[1..]);
      assert NoneBefore(ds[1..], ds[0].name) by {
        forall i | 0 <= i < |ds[1..]| ensures !Less(ds[1..][i].name, ds[0].name) {
          assert ds[1..][i] == ds[i + 1];
        }
      }
      LessAsymmetric(ds[0].name, d.name);
      NoneBeforeAfterInsert(ds[1..], d, rest, ds[0].name);
      ConsSorted(ds[0], rest);
      assert ds == [ds[0]] + ds[1..];
      [ds[0]] + rest
    else
      assert NoneBefore(ds, d.name) by {
        forall i | 0 <= i < |ds| ensures !Less(ds[i].name, d.name) {
          if i > 0 {
            NotLessTransitive(d.name, ds[0].name, ds[i].name);
          }
        }
      }
      ConsSorted(d, ds);
      [d] + ds
  }

  /** `sorted { $0.name < $1.name }`: a permutation of `ds` in non-decreasing name order. */
  function SortByName(ds: seq<Dessert>): (r: seq<Dessert>)
    ensures multiset(r) == multiset(ds)
    ensures SortedByName(r)
  {
    if ds == [] then []
    else
      assert ds == [ds[0]] + ds[1..];
      InsertByName(ds[0], SortByName(ds[1..]))
  }

  /** Sorting a list already in name order leaves it as it is. */
  lemma {:induction false} SortByNameKeepsSorted(ds: seq<Dessert>)
    requires SortedByName(ds)
    ensures SortByName(ds) == ds
  {
    if ds != [] {
      assert SortedByName(ds[1..]) by {
        forall i, j | 0 <= i < j < |ds[1..]| ensures !Less(ds[1..][j].name, ds[1..][i].name) {
          assert ds[1..][i] == ds[i + 1] && ds[1..][j] == ds[j + 1];
        }
      }
      SortByNameKeepsSorted(ds[1..]);
      if |ds| > 1 {
        assert !Less(ds[1].name, ds[0].name);
        assert ds[1..][0] == ds[1];
      }
      assert ds == [ds[0]] + ds[1..];
    }
  }

  /** Two desserts delivered in reverse name order come back swapped. */
  lemma SortByNameSwaps(first: Dessert, second: Dessert)
    requires Less(first.name, second.name)
    ensures SortByName([second, first]) == [first, second]
  {
    assert [second, first][1..] == [first];
    assert [first][1..] == [];
    LessAsymmetric(first.name, second.name);
  }

  lemma MockNamesOrdered()
    ensures Less("Mock Dessert 1", "Mock Dessert 2")
  {
    assert "Mock Dessert 1" == "Mock Dessert " + "1" && "Mock Dessert 2" == "Mock Dessert " + "2";
    LessCommonPrefix("Mock Dessert ", "1", "2");
  }

  /** The mock service's desserts "Mock Dessert 2", "Mock Dessert 1" are put in name order. */
  lemma SortByNameExample()
    ensures SortByName([Dessert("2", "Mock Dessert 2", ""), Dessert("1", "Mock Dessert 1", "")])
            == [Dessert("1", "Mock Dessert 1", ""), Dessert("2", "Mock Dessert 2", "")]
  {
    MockNamesOrdered();
    SortByNameSwaps(Dessert("1", "Mock Dessert 1", ""), Dessert("2", "Mock Dessert 2", ""));
  }

  /**
   * `fetchDesserts()`. `load` gives, for a URL, the outcome of the request
   * and of decoding its body as the `meals` list.
   */
  method FetchDesserts(handler: ErrorHandler, resolves: UrlComponents -> bool,
                       load: UrlComponents -> Result<seq<Dessert>, Error>)
    returns (result: Result<seq<Dessert>, Error>)
    modifies handler
    ensures !resolves(ListUrl()) ==> result == Failure(Url(BadUrlCode))
    ensures resolves(ListUrl()) && load(ListUrl()).Failure? ==> result == load(ListUrl())
    ensures resolves(ListUrl()) && load(ListUrl()).Success? ==>
      && result.Success?
      && multiset(result.value) == multiset(load(ListUrl()).value)
      && SortedByName(result.value)
    ensures result.Failure? ==> handler.currentError == Some(result.error)
    ensures result.Success? ==> handler.currentError == old(handler.currentError)
  {
    var url := MakeUrl("filter.php", [QueryItem("c", "Dessert")], resolves);
    assert BasePath + "filter.php" == "/api/json/v1/1/filter.php";
    if url.None? {
      var error := Url(BadUrlCode);
      handler.Report(error);
      // thrown inside the `do` block, so the `catch` clause reports it again
      handler.Report(error);
      return Failure(error);
    }
    var response := load(url.value);
    if response.Failure? {
      handler.Report(response.error);
      return Failure(response.error);
    }
    return Success(SortByName(response.value));
  }

  /**
   * Decoding the `meals` array: each record in turn through `init(from:)`;
   * the first record that fails fails the whole response.
   */
  function DecodeMeals(meals: seq<Fields>): (r: Result<seq<DessertDetail>, DecodingFailure>)
    ensures r.Success? ==> |r.value| == |meals|
    ensures r.Success? ==> forall i :: 0 <= i < |meals| ==> Decode(meals[i]) == Success(r.value[i])
    ensures r.Failure? <==> exists i :: 0 <= i < |meals| && Decode(meals[i]).Failure?
    ensures r.Failure? ==> exists i :: FailsFirstAt(meals, i, r.error)
  {
    if meals == [] then Success([])
    else
      var first := Decode(meals[0]);
      var rest := DecodeMeals(meals[1..]);
      DecodeMealsStep(meals, first, rest);
      DecodeMealsFailureStep(meals, first, rest);
      if first.Failure? then Failure(first.error)
      else if rest.Failure? then Failure(rest.error)
      else Success([first.value] + rest.value)
  }

  lemma DecodeMealsStep(meals: seq<Fields>, first: Result<DessertDetail, DecodingFailure>,
                        rest: Result<seq<DessertDetail>, DecodingFailure>)
    requires meals != [] && first == Decode(meals[0])
    requires rest.Success? ==> |rest.value| == |meals| - 1
    requires rest.Success? ==> forall i :: 0 <= i < |meals| - 1 ==> Decode(meals[1..][i]) == Success(rest.value[i])
    requires rest.Failure? <==> exists i :: 0 <= i < |meals| - 1 && Decode(meals[1..][i]).Failure?
    ensures first.Success? && rest.Success? ==>
      forall i :: 0 <= i < |meals| ==> Decode(meals[i]) == Success(([first.value] + rest.value)[i])
    ensures (first.Failure? || rest.Failure?) <==> exists i :: 0 <= i < |meals| && Decode(meals[i]).Failure?
  {
    forall i | 1 <= i < |meals| ensures meals[i] == meals[1..][i - 1] { }
    if rest.Failure? {
      var i :| 0 <= i < |meals| - 1 && Decode(meals[1..][i]).Failure?;
      assert Decode(meals[i + 1]).Failure?;
    }
  }

  /** Record `i` is the first one of `meals` that fails to decode, and it fails with `e`. */
  ghost predicate FailsFirstAt(meals: seq<Fields>, i: int, e: DecodingFailure)
  {
    && 0 <= i < |meals|
    && Decode(meals[i]) == Failure(e)
    && forall j :: 0 <= j < i ==> Decode(meals[j]).Success?
  }

  lemma DecodeMealsFailureStep(meals: seq<Fields>, first: Result<DessertDetail, DecodingFailure>,
                               rest: Result<seq<DessertDetail>, DecodingFailure>)
    requires meals != [] && first == Decode(meals[0])
    requires rest.Failure? ==> exists i :: FailsFirstAt(meals[1..], i, rest.error)
    ensures first.Failure? ==> FailsFirstAt(meals, 0, first.error)
    ensures first.Success? && rest.Failure? ==> exists i :: FailsFirstAt(meals, i, rest.error)
  {
    if first.Success? && rest.Failure? {
      var i :| FailsFirstAt(meals[1..], i, rest.error);
      forall j | 0 <= j < i + 1
        ensures Decode(meals[j]).Success?
      {
        if j > 0 {
          assert meals[j] == meals[1..][j - 1];
        }
      }
      assert meals[i + 1] == meals[1..][i];
      assert FailsFirstAt(meals, i + 1, rest.error);
    }
  }

  /**
   * `fetchDessertDetail(by:)`. `load` gives, for a URL, the outcome of the
   * request and of parsing its body into the raw records of `meals`.
   */
  method FetchDessertDetail(id: string, handler: ErrorHandler, resolves: UrlComponents -> bool,
                            load: UrlComponents -> Result<seq<Fields>, Error>)
    returns (result: Result<DessertDetail, Error>)
    modifies handler
    ensures !resolves(DetailUrl(id)) ==> result == Failure(Url(BadUrlCode))
    ensures resolves(DetailUrl(id)) && load(DetailUrl(id)).Failure? ==>
      result == Failure(load(DetailUrl(id)).error)
    ensures resolves(DetailUrl(id)) && load(DetailUrl(id)).Success? ==>
      match DecodeMeals(load(DetailUrl(id)).value)
      case Failure(e) => result == Failure(Decoding(e))
      case Success(meals) =>
        result == if meals == [] then Failure(Url(BadServerResponseCode)) else Success(meals[0])
    ensures result.Failure? ==> handler.currentError == Some(result.error)
    ensures result.Success? ==> handler.currentError == old(handler.currentError)
  {
    var url := MakeUrl("lookup.php", [QueryItem("i", id)], resolves);
    assert BasePath + "lookup.php" == "/api/json/v1/1/lookup.php";
    if url.None? {
      var error := Url(BadUrlCode);
      handler.Report(error);
      handler.Report(error);
      return Failure(error);
    }
    var response := load(url.value);
    if response.Failure? {
      handler.Report(response.error);
      return Failure(response.error);
    }
    var detailResponse := DecodeMeals(response.value);
    if detailResponse.Failure? {
      var error := Decoding(detailResponse.error);
      handler.Report(error);
      return Failure(error);
    }
    if detailResponse.value == [] {
      var error := Url(BadServerResponseCode);
      handler.Report(error);
      handler.Report(error);
      return Failure(error);
    }
    var rawDetail := detailResponse.value[0];
    result := Success(DessertDetail(
      rawDetail.id,
      rawDetail.name,
      rawDetail.instructions,
      rawDetail.ingredients,
      rawDetail.imageUrl));
  }
}
