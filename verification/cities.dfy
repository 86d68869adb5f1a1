/**
 * The Australian cities the site has pages for, the same list ordered by population and its
 * first eight entries, and the lookups by slug and by position.
 */
module Cities {
  import opened Wrappers
  import opened Lookup

  datatype City = City(
    slug: string,
    name: string,
    state: string,
    stateCode: string,
    lat: real,
    lng: real,
    population: nat,
    radarId: string)

  const CityList: seq<City> := [
    City("sydney", "Sydney", "New South Wales", "NSW", -33.8688, 151.2093, 5312000, "IDR713"),
    City("newcastle", "Newcastle", "New South Wales", "NSW", -32.9283, 151.7817, 322000, "IDR043"),
    City("wollongong", "Wollongong", "New South Wales", "NSW", -34.4278, 150.8931, 302000, "IDR033"),
    City("central-coast", "Central Coast", "New South Wales", "NSW", -33.4245, 151.3416, 333000, "IDR713"),
    City("wagga-wagga", "Wagga Wagga", "New South Wales", "NSW", -35.1082, 147.3598, 67000, "IDR403"),
    City("coffs-harbour", "Coffs Harbour", "New South Wales", "NSW", -30.2963, 153.1157, 73000, "IDR283"),
    City("melbourne", "Melbourne", "Victoria", "VIC", -37.8136, 144.9631, 5078000, "IDR023"),
    City("geelong", "Geelong", "Victoria", "VIC", -38.1499, 144.3617, 270000, "IDR023"),
    City("ballarat", "Ballarat", "Victoria", "VIC", -37.5622, 143.8503, 111000, "IDR023"),
    City("bendigo", "Bendigo", "Victoria", "VIC", -36.7570, 144.2794, 100000, "IDR023"),
    City("brisbane", "Brisbane", "Queensland", "QLD", -27.4698, 153.0251, 2514000, "IDR663"),
    City("gold-coast", "Gold Coast", "Queensland", "QLD", -28.0167, 153.4000, 679000, "IDR503"),
    City("sunshine-coast", "Sunshine Coast", "Queensland", "QLD", -26.6500, 153.0667, 351000, "IDR943"),
    City("townsville", "Townsville", "Queensland", "QLD", -19.2500, 146.8167, 180000, "IDR733"),
    City("cairns", "Cairns", "Queensland", "QLD", -16.9186, 145.7781, 153000, "IDR083"),
    City("perth", "Perth", "Western Australia", "WA", -31.9505, 115.8605, 2085000, "IDR703"),
    City("bunbury", "Bunbury", "Western Australia", "WA", -33.3333, 115.6333, 75000, "IDR703"),
    City("adelaide", "Adelaide", "South Australia", "SA", -34.9285, 138.6007, 1376000, "IDR643"),
    City("hobart", "Hobart", "Tasmania", "TAS", -42.8821, 147.3272, 238000, "IDR763"),
    City("launceston", "Launceston", "Tasmania", "TAS", -41.4333, 147.1333, 90000, "IDR523"),
    City("darwin", "Darwin", "Northern Territory", "NT", -12.4634, 130.8456, 147000, "IDR633"),
    City("alice-springs", "Alice Springs", "Northern Territory", "NT", -23.6980, 133.8807, 26000, "IDR253"),
    City("canberra", "Canberra", "Australian Capital Territory", "ACT", -35.2809, 149.1300, 457000, "IDR403")
  ]

  /** Populations never increase from one entry of `s` to the next. */
  ghost predicate NonIncreasing(s: seq<City>)
  {
    forall i :: 0 < i < |s| ==> s[i - 1].population >= s[i].population
  }

  /** In a list whose populations never increase, no city outranks an earlier one. */
  lemma {:induction false} NonIncreasingPairs(s: seq<City>, i: nat, j: nat)
    requires NonIncreasing(s) && i <= j < |s|
    ensures s[i].population >= s[j].population
    decreases j - i
  {
    if i < j {
      NonIncreasingPairs(s, i, j - 1);
    }
  }

  /** The cities of `s` with population `p`, in the order `s` lists them. */
  function WithPopulation(s: seq<City>, p: nat): (r: seq<City>)
    ensures |r| <= |s|
  {
    if |s| == 0 then []
    else (if s[0].population == p then [s[0]] else []) + WithPopulation(s[1..], p)
  }

  /**
   * `sorted` with `c` placed after every entry at least as populous as `c`, so that `c` follows
   * the entries that tie with it.
   */
  function Insert(sorted: seq<City>, c: City): (r: seq<City>)
    ensures |r| == |sorted| + 1
    ensures multiset(r) == multiset(sorted) + multiset{c}
    ensures r[0] == c || (|sorted| > 0 && r[0] == sorted[0])
  {
    if |sorted| == 0 then [c]
    else if sorted[0].population < c.population then [c] + sorted
    else
      assert sorted == [sorted[0]] + sorted[1..];
      [sorted[0]] + Insert(sorted[1..], c)
  }

  /**
   * `[...s].sort((a, b) => b.population - a.population)`: the comparator orders by population,
   * most populous first, and the sort is stable, so a city comes after the earlier cities it ties with.
   */
  function SortByPopulation(s: seq<City>): (r: seq<City>)
    ensures |r| == |s|
    ensures multiset(r) == multiset(s)
  {
    if |s| == 0 then []
    else
      assert s == s[..|s| - 1] + [s[|s| - 1]];
      Insert(SortByPopulation(s[..|s| - 1]), s[|s| - 1])
  }

  lemma {:induction false} InsertNonIncreasing(sorted: seq<City>, c: City)
    requires NonIncreasing(sorted)
    ensures NonIncreasing(Insert(sorted, c))
  {
    if |sorted| > 0 && sorted[0].population >= c.population {
      var rest := sorted[1..];
      assert NonIncreasing(rest);
      InsertNonIncreasing(rest, c);
      var r := Insert(sorted, c);
      assert r == [sorted[0]] + Insert(rest, c);
      assert |rest| > 0 ==> rest[0] == sorted[1];
    }
  }

  /** Leaving out the cities of population `p` from a list without any changes nothing. */
  lemma {:induction false} NoneWithPopulation(s: seq<City>, p: nat)
    requires forall i :: 0 <= i < |s| ==> s[i].population != p
    ensures WithPopulation(s, p) == []
  {
    if |s| > 0 {
      NoneWithPopulation(s[1..], p);
    }
  }

  lemma {:induction false} InsertWithPopulation(sorted: seq<City>, c: City, p: nat)
    requires NonIncreasing(sorted)
    ensures WithPopulation(Insert(sorted, c), p)
      == WithPopulation(sorted, p) + (if c.population == p then [c] else [])
  {
    if |sorted| == 0 || sorted[0].population < c.population {
      InsertAheadWithPopulation(sorted, c, p);
    } else {
      var head, rest := sorted[0], sorted[1..];
      var lead: seq<City> := if head.population == p then [head] else [];
      var tail: seq<City> := if c.population == p then [c] else [];
      assert sorted == [head] + rest;
      assert NonIncreasing(rest);
      assert Insert(sorted, c) == [head] + Insert(rest, c);
      WithPopulationCons(head, Insert(rest, c), p);
      InsertWithPopulation(rest, c, p);
      WithPopulationCons(head, rest, p);
      AppendAssociates(lead, WithPopulation(rest, p), tail);
    }
  }

  lemma AppendAssociates(a: seq<City>, b: seq<City>, c: seq<City>)
    ensures a + (b + c) == (a + b) + c
  {
  }

  /** A city placed in front of a list of less populous cities ends its own population's run. */
  lemma InsertAheadWithPopulation(sorted: seq<City>, c: City, p: nat)
    requires NonIncreasing(sorted)
    requires |sorted| == 0 || sorted[0].population < c.population
    ensures WithPopulation(Insert(sorted, c), p)
      == WithPopulation(sorted, p) + (if c.population == p then [c] else [])
  {
    assert Insert(sorted, c) == [c] + sorted;
    WithPopulationCons(c, sorted, p);
    if c.population == p {
      forall i | 0 <= i < |sorted|
        ensures sorted[i].population != p
      {
        NonIncreasingPairs(sorted, 0, i);
      }
      NoneWithPopulation(sorted, p);
    }
  }

  lemma WithPopulationCons(x: City, s: seq<City>, p: nat)
    ensures WithPopulation([x] + s, p) == (if x.population == p then [x] else []) + WithPopulation(s, p)
  {
    assert ([x] + s)[1..] == s;
  }

  lemma {:induction false} WithPopulationAppend(a: seq<City>, b: seq<City>, p: nat)
    ensures WithPopulation(a + b, p) == WithPopulation(a, p) + WithPopulation(b, p)
  {
    if |a| > 0 {
      WithPopulationAppend(a[1..], b, p);
      assert (a + b)[1..] == a[1..] + b;
    } else {
      assert a + b == b;
    }
  }

  /** The sorted list is ordered by population, most populous first. */
  lemma {:induction false} SortedByPopulation(s: seq<City>)
    ensures NonIncreasing(SortByPopulation(s))
  {
    if |s| > 0 {
      SortedByPopulation(s[..|s| - 1]);
      InsertNonIncreasing(SortByPopulation(s[..|s| - 1]), s[|s| - 1]);
    }
  }

  /** The sort is stable: the cities of each population keep their relative order. */
  lemma {:induction false} SortIsStable(s: seq<City>, p: nat)
    ensures WithPopulation(SortByPopulation(s), p) == WithPopulation(s, p)
  {
    if |s| > 0 {
      var init, last := s[..|s| - 1], s[|s| - 1];
      assert s == init + [last];
      SortLastStep(init, last, p);
      WithPopulationSnoc(init, last, p);
      SortIsStable(init, p);
    }
  }

  /** Sorting one more city adds it to its population's run, after the cities already there. */
  lemma SortLastStep(init: seq<City>, last: City, p: nat)
    ensures WithPopulation(SortByPopulation(init + [last]), p)
      == WithPopulation(SortByPopulation(init), p) + (if last.population == p then [last] else [])
  {
    var s := init + [last];
    assert s[..|s| - 1] == init && s[|s| - 1] == last;
    assert SortByPopulation(s) == Insert(SortByPopulation(init), last);
    SortedByPopulation(init);
    InsertWithPopulation(SortByPopulation(init), last, p);
  }

  lemma WithPopulationSnoc(init: seq<City>, last: City, p: nat)
    ensures WithPopulation(init + [last], p) == WithPopulation(init, p) + (if last.population == p then [last] else [])
  {
    WithPopulationAppend(init, [last], p);
    assert [last][1..] == [];
  }

  /** `CITIES_BY_POPULATION`. */
  const CitiesByPopulation: seq<City> := SortByPopulation(CityList)

  /** How many cities the home page features. */
  const PopularCount := 8

  /** `slice(0, 8)`: the first eight entries, or all of them when there are fewer. */
  function Popular(byPopulation: seq<City>): (r: seq<City>)
    ensures |r| == if |byPopulation| < PopularCount then |byPopulation| else PopularCount
    ensures r == byPopulation[..|r|]
  {
    byPopulation[..if |byPopulation| < PopularCount then |byPopulation| else PopularCount]
  }

  /** `POPULAR_CITIES`. */
  const PopularCities: seq<City> := Popular(CitiesByPopulation)

  /** Every featured city is at least as populous as every city left off the list. */
  lemma PopularOutrankRest(s: seq<City>, i: nat, j: nat)
    requires i < |Popular(SortByPopulation(s))| <= j < |s|
    ensures Popular(SortByPopulation(s))[i].population >= SortByPopulation(s)[j].population
  {
    SortedByPopulation(s);
    NonIncreasingPairs(SortByPopulation(s), i, j);
  }

  /** The first city whose slug is `slug` (`find`). */
  function GetCityBySlug(slug: string): (c: Option<City>)
    ensures c.Some? ==> exists i :: 0 <= i < |CityList| && CityList[i] == c.value
                          && c.value.slug == slug && forall j :: 0 <= j < i ==> CityList[j].slug != slug
    ensures c.None? <==> forall i :: 0 <= i < |CityList| ==> CityList[i].slug != slug
  {
    match FindFirst(CityList, (city: City) => city.slug == slug)
    case None => None
    case Some(i) => Some(CityList[i])
  }

  /** No two cities share a slug, so each city's page finds that city. */
  lemma CityByOwnSlug(i: nat)
    requires i < |CityList|
    ensures GetCityBySlug(CityList[i].slug) == Some(CityList[i])
  {
    SlugsDistinct();
  }

  /** The slugs of the city list are pairwise different. */
  lemma SlugsDistinct()
    ensures forall i, j :: 0 <= i < j < |CityList| ==> CityList[i].slug != CityList[j].slug
  {
  }

  /** Where each city lies, in list order. */
  function CityCoords(): (cs: seq<Coord>)
    ensures |cs| == |CityList|
    ensures forall i :: 0 <= i < |cs| ==> cs[i] == Coord(CityList[i].lat, CityList[i].lng)
  {
    seq(|CityList|, i requires 0 <= i < |CityList| => Coord(CityList[i].lat, CityList[i].lng))
  }

  /** The city nearest to (`lat`, `lng`), the earlier one on a tie; the search starts from the first city. */
  method GetNearestCity(lat: real, lng: real) returns (city: City)
    ensures exists i: nat :: EarliestNearest(CityCoords(), Coord(lat, lng), i) && city == CityList[i]
  {
    var best := Nearest(CityCoords(), Coord(lat, lng));
    city := CityList[best.GetOr(0)];
  }
}
