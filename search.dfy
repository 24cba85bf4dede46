/**
  The three searches of the menu (by name, by opening hours, by city) and the
  one-pass index of the catalog's opening hours and cities. `Matching` is the
  specification of what a search keeps; `Scan` and `IndexCatalog` are the
  loops the menu's handlers run over the catalog.
 */
module Search {
  import opened Catalog
  import opened StringOrder

  /** `sub` occurs in `s` starting at index `i`. */
  predicate OccursAt(s: string, sub: string, i: int)
  {
    0 <= i && i + |sub| <= |s| && s[i..i + |sub|] == sub
  }

  lemma OccursAtShift(s: string, sub: string, i: int)
    requires s != [] && 0 <= i
    ensures OccursAt(s[1..], sub, i) <==> OccursAt(s, sub, i + 1)
  {
    if 0 <= i && i + |sub| <= |s| - 1 {
      assert s[1..][i..i + |sub|] == s[i + 1..i + 1 + |sub|];
    }
  }

  /**
    The model of `String.prototype.includes`: `sub` is a contiguous,
    case-sensitive substring of `s` (the empty string is in every string).
   */
  function Includes(s: string, sub: string): (r: bool)
    ensures r <==> exists i :: OccursAt(s, sub, i)
    decreases |s|
  {
    if |sub| > |s| then
      false
    else if s[..|sub|] == sub then
      assert OccursAt(s, sub, 0);
      true
    else
      var r := Includes(s[1..], sub);
      assert r <==> exists i :: OccursAt(s, sub, i) by {
        forall i | 0 <= i ensures OccursAt(s[1..], sub, i) <==> OccursAt(s, sub, i + 1) {
          OccursAtShift(s, sub, i);
        }
        if r {
          var i :| OccursAt(s[1..], sub, i);
          assert OccursAt(s, sub, i + 1);
        }
        if exists i :: OccursAt(s, sub, i) {
          var i :| OccursAt(s, sub, i);
          assert i != 0;
          assert OccursAt(s[1..], sub, i - 1);
        }
      }
      r
  }

  /** What a search is asked for: one value of one of the three filter modes. */
  datatype Criterion =
    | NameContains(query: string)
    | HoursAre(hours: string)
    | CityIs(city: string)

  /** The test each handler's loop applies to a site. */
  predicate Matches(c: Criterion, site: Site)
  {
    match c
    case NameContains(q) => Includes(site.name, q)
    case HoursAre(h) => site.openingHours == h
    case CityIs(t) => site.city == t
  }

  /** The sites of `catalog` that match `c`, in catalog order. */
  function Matching(catalog: seq<Site>, c: Criterion): (r: seq<Site>)
    ensures |r| <= |catalog|
    ensures forall s :: s in r <==> s in catalog && Matches(c, s)
  {
    if catalog == [] then
      []
    else
      (if Matches(c, catalog[0]) then [catalog[0]] else []) + Matching(catalog[1..], c)
  }

  lemma {:induction false} MatchingAppend(a: seq<Site>, b: seq<Site>, c: Criterion)
    ensures Matching(a + b, c) == Matching(a, c) + Matching(b, c)
  {
    if a == [] {
      assert a + b == b;
    } else {
      assert (a + b)[1..] == a[1..] + b;
      MatchingAppend(a[1..], b, c);
    }
  }

  /**
    `idx` lists the catalog positions of `found`, strictly increasing, and
    they are exactly the positions whose site matches `c`.
   */
  ghost predicate Positions(idx: seq<int>, found: seq<Site>, catalog: seq<Site>, c: Criterion)
  {
    && |idx| == |found|
    && (forall k :: 0 <= k < |idx| ==> 0 <= idx[k] < |catalog| && catalog[idx[k]] == found[k])
    && (forall k, l :: 0 <= k < l < |idx| ==> idx[k] < idx[l])
    && (forall i :: 0 <= i < |catalog| ==> (Matches(c, catalog[i]) <==> i in idx))
  }

  /**
    `shifted` lists the positions after the first where the sites of `rest`
    sit in the catalog: `Positions` for the catalog without its first site,
    each index moved one place to the right.
   */
  ghost predicate ShiftedPositions(shifted: seq<int>, rest: seq<Site>, catalog: seq<Site>, c: Criterion)
  {
    && |shifted| == |rest| && 0 !in shifted
    && (forall k :: 0 <= k < |shifted| ==> 1 <= shifted[k] < |catalog| && catalog[shifted[k]] == rest[k])
    && (forall k, l :: 0 <= k < l < |shifted| ==> shifted[k] < shifted[l])
    && (forall i :: 1 <= i < |catalog| ==> (Matches(c, catalog[i]) <==> i in shifted))
  }

  /** Every position moved one place to the right. */
  lemma Shift(tail: seq<int>) returns (shifted: seq<int>)
    ensures |shifted| == |tail|
    ensures forall k :: 0 <= k < |tail| ==> shifted[k] == tail[k] + 1
    ensures forall i :: i in shifted <==> i - 1 in tail
  {
    shifted := seq(|tail|, k requires 0 <= k < |tail| => tail[k] + 1);
    forall i ensures i in shifted <==> i - 1 in tail {
      if i in shifted {
        var k :| 0 <= k < |shifted| && shifted[k] == i;
        assert tail[k] == i - 1;
      }
      if i - 1 in tail {
        var k :| 0 <= k < |tail| && tail[k] == i - 1;
        assert shifted[k] == i;
      }
    }
  }

  /** Positions in the tail of a catalog, moved one place to the right. */
  lemma ShiftPositions(catalog: seq<Site>, c: Criterion, tail: seq<int>, rest: seq<Site>)
    returns (shifted: seq<int>)
    requires catalog != [] && Positions(tail, rest, catalog[1..], c)
    ensures ShiftedPositions(shifted, rest, catalog, c)
  {
    shifted := Shift(tail);
    assert -1 !in tail;
    forall i | 1 <= i < |catalog| ensures Matches(c, catalog[i]) <==> i in shifted {
      assert catalog[i] == catalog[1..][i - 1];
    }
  }

  /** Adds position 0 in front of the shifted positions when the first site matches. */
  lemma PrependPosition(catalog: seq<Site>, c: Criterion, shifted: seq<int>, rest: seq<Site>)
    returns (idx: seq<int>)
    requires catalog != [] && Matches(c, catalog[0])
    requires ShiftedPositions(shifted, rest, catalog, c)
    ensures Positions(idx, [catalog[0]] + rest, catalog, c)
  {
    idx := [0] + shifted;
    var found := [catalog[0]] + rest;
    forall k | 0 <= k < |idx| ensures 0 <= idx[k] < |catalog| && catalog[idx[k]] == found[k] {
      if k > 0 { assert idx[k] == shifted[k - 1] && found[k] == rest[k - 1]; }
    }
    forall k, l | 0 <= k < l < |idx| ensures idx[k] < idx[l] {
      assert idx[l] == shifted[l - 1];
      if k > 0 { assert idx[k] == shifted[k - 1]; }
    }
    forall i | 0 <= i < |catalog| ensures Matches(c, catalog[i]) <==> i in idx {
      if i > 0 { assert i in idx <==> i in shifted; }
    }
  }

  /** Keeps the shifted positions when the first site does not match. */
  lemma SkipPosition(catalog: seq<Site>, c: Criterion, shifted: seq<int>, rest: seq<Site>)
    returns (idx: seq<int>)
    requires catalog != [] && !Matches(c, catalog[0])
    requires ShiftedPositions(shifted, rest, catalog, c)
    ensures Positions(idx, rest, catalog, c)
  {
    idx := shifted;
  }

  lemma {:induction false} MatchingPositions(catalog: seq<Site>, c: Criterion) returns (idx: seq<int>)
    ensures Positions(idx, Matching(catalog, c), catalog, c)
  {
    if catalog == [] {
      idx := [];
    } else {
      var rest := Matching(catalog[1..], c);
      var tail := MatchingPositions(catalog[1..], c);
      var shifted := ShiftPositions(catalog, c, tail, rest);
      if Matches(c, catalog[0]) {
        assert Matching(catalog, c) == [catalog[0]] + rest;
        idx := PrependPosition(catalog, c, shifted, rest);
      } else {
        assert Matching(catalog, c) == rest;
        idx := SkipPosition(catalog, c, shifted, rest);
      }
    }
  }

  /**
    A search returns exactly the matching sites, each once, in catalog order:
    its result is the subsequence of the catalog at the matching positions.
   */
  lemma MatchingInCatalogOrder(catalog: seq<Site>, c: Criterion) returns (idx: seq<int>)
    ensures |idx| == |Matching(catalog, c)|
    ensures forall k :: 0 <= k < |idx| ==> 0 <= idx[k] < |catalog| && catalog[idx[k]] == Matching(catalog, c)[k]
    ensures forall k, l :: 0 <= k < l < |idx| ==> idx[k] < idx[l]
    ensures forall i :: 0 <= i < |catalog| ==> (Matches(c, catalog[i]) <==> i in idx)
  {
    idx := MatchingPositions(catalog, c);
  }

  /** The first catalog site that matches is the head of the search result. */
  lemma {:induction false} FirstMatchLeads(catalog: seq<Site>, c: Criterion, i: int)
    requires 0 <= i < |catalog| && Matches(c, catalog[i])
    requires forall j :: 0 <= j < i ==> !Matches(c, catalog[j])
    ensures Matching(catalog, c) != [] && Matching(catalog, c)[0] == catalog[i]
  {
    if i > 0 {
      FirstMatchLeads(catalog[1..], c, i - 1);
    }
  }

  /** Searching a search result again with the same criterion changes nothing. */
  lemma {:induction false} MatchingIdempotent(catalog: seq<Site>, c: Criterion)
    ensures Matching(Matching(catalog, c), c) == Matching(catalog, c)
  {
    if catalog != [] {
      var rest := Matching(catalog[1..], c);
      MatchingIdempotent(catalog[1..], c);
      if Matches(c, catalog[0]) {
        assert Matching(catalog, c) == [catalog[0]] + rest;
        assert ([catalog[0]] + rest)[1..] == rest;
        assert Matching([catalog[0]] + rest, c) == [catalog[0]] + Matching(rest, c);
      } else {
        assert Matching(catalog, c) == rest;
      }
    }
  }

  /**
    Every name contains the empty string, so the name search for "" keeps
    the whole catalog: the catalog shown for an empty name box is a search
    result too.
   */
  lemma {:induction false} EmptyNameKeepsAll(catalog: seq<Site>)
    ensures Matching(catalog, NameContains("")) == catalog
  {
    if catalog != [] {
      assert OccursAt(catalog[0].name, "", 0);
      EmptyNameKeepsAll(catalog[1..]);
      assert catalog == [catalog[0]] + catalog[1..];
    }
  }

  /** The loop of each filter handler: push every catalog site that passes the test. */
  method Scan(catalog: seq<Site>, c: Criterion) returns (found: seq<Site>)
    ensures found == Matching(catalog, c)
  {
    found := [];
    for i := 0 to |catalog|
      invariant found == Matching(catalog[..i], c)
    {
      assert catalog[..i + 1] == catalog[..i] + [catalog[i]];
      MatchingAppend(catalog[..i], [catalog[i]], c);
      if Matches(c, catalog[i]) {
        found := found + [catalog[i]];
      }
    }
    assert catalog[..|catalog|] == catalog;
  }

  /**
    The choices offered by a select box: sorted, each value once, and exactly
    the values of `values`.
   */
  ghost predicate IsIndex(xs: seq<string>, values: set<string>)
  {
    && Sorted(xs)
    && NoDuplicates(xs)
    && forall v :: v in xs <==> v in values
  }

  /** Extending a catalog prefix by one site adds that site's values. */
  lemma CatalogPrefixValues(catalog: seq<Site>, i: int)
    requires 0 <= i < |catalog|
    ensures HoursIn(catalog[..i + 1]) == HoursIn(catalog[..i]) + {catalog[i].openingHours}
    ensures CitiesIn(catalog[..i + 1]) == CitiesIn(catalog[..i]) + {catalog[i].city}
  {
    assert catalog[..i + 1] == catalog[..i] + [catalog[i]];
  }

  /** Sorting a duplicate-free list of the right values yields the index. */
  lemma SortIndexes(xs: seq<string>, values: set<string>)
    requires NoDuplicates(xs)
    requires forall v :: v in xs <==> v in values
    ensures IsIndex(Sort(xs), values)
  {
    var r := Sort(xs);
    forall v ensures v in r <==> v in values {
      assert v in r <==> v in multiset(r);
      assert v in xs <==> v in multiset(xs);
    }
  }

  /**
    The catalog index: one pass that collects each opening-hours value and
    each city the first time it is seen, then sorts both lists.
   */
  method IndexCatalog(catalog: seq<Site>) returns (hours: seq<string>, cities: seq<string>)
    ensures IsIndex(hours, HoursIn(catalog))
    ensures IsIndex(cities, CitiesIn(catalog))
  {
    hours, cities := [], [];
    for i := 0 to |catalog|
      invariant NoDuplicates(hours) && NoDuplicates(cities)
      invariant forall v :: v in hours <==> v in HoursIn(catalog[..i])
      invariant forall v :: v in cities <==> v in CitiesIn(catalog[..i])
    {
      CatalogPrefixValues(catalog, i);
      var site := catalog[i];
      if site.openingHours !in hours {
        hours := hours + [site.openingHours];
      }
      if site.city !in cities {
        cities := cities + [site.city];
      }
    }
    assert catalog[..|catalog|] == catalog;
    SortIndexes(hours, HoursIn(catalog));
    SortIndexes(cities, CitiesIn(catalog));
    hours, cities := Sort(hours), Sort(cities);
  }
}
