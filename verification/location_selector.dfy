/**
 * The service-area selector. A click on the map resolves the primary city of the point and,
 * for a seeker, the named places around it; those are sorted by distance (stably), reduced
 * to their first, nearest occurrence, and split into the ten selected areas (the primary city
 * and the nine nearest others) and the remaining searchable ones. Areas can then be added
 * from the search list or removed as chips.
 *
 * Distances are given with the places; how they are computed from coordinates is not part of
 * this model.
 */
module LocationSelector {
  import opened Wrappers
  import opened Text
  import opened Lists

  // ---------------------------------------------------------------- primary city

  /** The address fields of a reverse-geocoding answer; a missing field is None. */
  datatype Address = Address(city: Option<string>, town: Option<string>, village: Option<string>, county: Option<string>)

  /** A string field is truthy when it is present and non-empty. */
  predicate Truthy(s: Option<string>) {
    s.Some? && s.value != ""
  }

  /** `city || town || village || county || ''`. */
  function PrimaryCity(a: Address): (c: string)
    ensures Truthy(a.city) ==> c == a.city.value
    ensures !Truthy(a.city) && Truthy(a.town) ==> c == a.town.value
    ensures !Truthy(a.city) && !Truthy(a.town) && Truthy(a.village) ==> c == a.village.value
    ensures !Truthy(a.city) && !Truthy(a.town) && !Truthy(a.village) && Truthy(a.county) ==> c == a.county.value
    ensures !Truthy(a.city) && !Truthy(a.town) && !Truthy(a.village) && !Truthy(a.county) ==> c == ""
  {
    if Truthy(a.city) then a.city.value
    else if Truthy(a.town) then a.town.value
    else if Truthy(a.village) then a.village.value
    else if Truthy(a.county) then a.county.value
    else ""
  }

  // ---------------------------------------------------------------- candidates

  /** A place returned by the nearby-place query, with its distance from the clicked point. */
  datatype Element = Element(name: Option<string>, distance: real)

  datatype Candidate = Candidate(name: string, distance: real)

  /** A place the selector lists: it has a non-empty name other than the primary city. */
  predicate Listed(e: Element, primary: string) {
    Truthy(e.name) && e.name.value != primary
  }

  /** The query places the candidates stand for. */
  function Places(r: seq<Candidate>): (es: seq<Element>)
    ensures |es| == |r| && forall k :: 0 <= k < |r| ==> es[k] == Element(Some(r[k].name), r[k].distance)
  {
    seq(|r|, k requires 0 <= k < |r| => Element(Some(r[k].name), r[k].distance))
  }

  /**
   * The named places other than the primary city, in the order the query returned them: the
   * places they stand for are a subsequence of the query's answer that keeps every listed
   * place as often as it occurs there.
   */
  function Candidates(es: seq<Element>, primary: string): (r: seq<Candidate>)
    ensures forall c :: c in r ==> c.name != "" && c.name != primary && Element(Some(c.name), c.distance) in es
    ensures forall e :: e in es && Listed(e, primary) ==> Candidate(e.name.value, e.distance) in r
    ensures IsSubsequence(Places(r), es)
    ensures forall e :: Listed(e, primary) ==> multiset(Places(r))[e] == multiset(es)[e]
    decreases |es|
  {
    if es == [] then []
    else
      var rest := Candidates(es[1..], primary);
      assert forall e :: e in es <==> e == es[0] || e in es[1..];
      var e := es[0];
      if Listed(e, primary) then
        CandidatesStep(es, primary, rest);
        [Candidate(e.name.value, e.distance)] + rest
      else
        CandidatesSkip(es, primary, rest);
        rest
  }

  /** A listed first place leads the candidates, in front of those of the rest of the answer. */
  lemma {:induction false} CandidatesStep(es: seq<Element>, primary: string, rest: seq<Candidate>)
    requires es != [] && Listed(es[0], primary)
    requires IsSubsequence(Places(rest), es[1..])
    requires forall e :: Listed(e, primary) ==> multiset(Places(rest))[e] == multiset(es[1..])[e]
    ensures IsSubsequence(Places([Candidate(es[0].name.value, es[0].distance)] + rest), es)
    ensures forall e :: Listed(e, primary) ==>
      multiset(Places([Candidate(es[0].name.value, es[0].distance)] + rest))[e] == multiset(es)[e]
  {
    var r := [Candidate(es[0].name.value, es[0].distance)] + rest;
    var a := Places(r);
    assert a == [es[0]] + Places(rest);
    assert a[0] == es[0] && a[1..] == Places(rest);
    assert IsSubsequence(a, es);
    assert multiset(a) == multiset([es[0]]) + multiset(Places(rest));
    assert multiset(es) == multiset([es[0]]) + multiset(es[1..]) by {
      assert es == [es[0]] + es[1..];
    }
  }

  /** A first place that is not listed adds no candidate. */
  lemma {:induction false} CandidatesSkip(es: seq<Element>, primary: string, rest: seq<Candidate>)
    requires es != [] && !Listed(es[0], primary)
    requires IsSubsequence(Places(rest), es[1..])
    requires forall e :: Listed(e, primary) ==> multiset(Places(rest))[e] == multiset(es[1..])[e]
    ensures IsSubsequence(Places(rest), es)
    ensures forall e :: Listed(e, primary) ==> multiset(Places(rest))[e] == multiset(es)[e]
  {
    assert es == [es[0]] + es[1..];
  }

  // ---------------------------------------------------------------- stable sort by distance

  ghost predicate SortedByDistance(s: seq<Candidate>) {
    forall i, j :: 0 <= i < j < |s| ==> s[i].distance <= s[j].distance
  }

  /** The candidates at distance `d`, in order. */
  function AtDistance(s: seq<Candidate>, d: real): seq<Candidate>
    decreases |s|
  {
    if s == [] then []
    else (if s[0].distance == d then [s[0]] else []) + AtDistance(s[1..], d)
  }

  /** The group at `d` holds exactly the candidates at distance `d`. */
  lemma {:induction false} AtDistanceMembers(s: seq<Candidate>, d: real)
    ensures forall c :: c in AtDistance(s, d) <==> c in s && c.distance == d
    decreases |s|
  {
    if s != [] {
      AtDistanceMembers(s[1..], d);
      assert forall c :: c in s <==> c == s[0] || c in s[1..];
    }
  }

  lemma {:induction false} AtDistanceNone(s: seq<Candidate>, d: real)
    requires forall k :: 0 <= k < |s| ==> s[k].distance != d
    ensures AtDistance(s, d) == []
    decreases |s|
  {
    if s != [] {
      AtDistanceNone(s[1..], d);
    }
  }

  lemma {:induction false} AtDistanceConcat(a: seq<Candidate>, b: seq<Candidate>, d: real)
    ensures AtDistance(a + b, d) == AtDistance(a, d) + AtDistance(b, d)
    decreases |a|
  {
    if a == [] {
      assert a + b == b;
    } else {
      var ab := a + b;
      assert ab[0] == a[0] && ab[1..] == a[1..] + b;
      AtDistanceConcat(a[1..], b, d);
      var head := if a[0].distance == d then [a[0]] else [];
      assert AtDistance(ab, d) == head + AtDistance(a[1..] + b, d);
      assert AtDistance(a, d) == head + AtDistance(a[1..], d);
      assert head + (AtDistance(a[1..], d) + AtDistance(b, d)) == (head + AtDistance(a[1..], d)) + AtDistance(b, d);
    }
  }

  /**
   * `r` is `s` stably sorted by distance: ordered by distance, and the candidates at each
   * distance appear in `r` exactly as, and in the order, they appear in `s`.
   */
  ghost predicate StableSortOf(r: seq<Candidate>, s: seq<Candidate>) {
    SortedByDistance(r) && forall d :: AtDistance(r, d) == AtDistance(s, d)
  }

  /** A stable sort loses and invents nothing. */
  lemma StableSortSameElements(r: seq<Candidate>, s: seq<Candidate>)
    requires StableSortOf(r, s)
    ensures forall c :: c in r <==> c in s
  {
    forall c ensures c in r <==> c in s {
      AtDistanceMembers(r, c.distance);
      AtDistanceMembers(s, c.distance);
      assert c in r <==> c in AtDistance(r, c.distance);
      assert c in s <==> c in AtDistance(s, c.distance);
    }
  }

  /** Inserting `x` where everything before is not farther and everything after is farther keeps the order. */
  lemma InsertKeepsSorted(pre: seq<Candidate>, x: Candidate, j: nat)
    requires SortedByDistance(pre)
    requires j <= |pre|
    requires j == 0 || pre[j - 1].distance <= x.distance
    requires forall k :: j <= k < |pre| ==> pre[k].distance > x.distance
    ensures SortedByDistance(pre[..j] + [x] + pre[j..])
  {
    var ins := pre[..j] + [x] + pre[j..];
    forall p, q | 0 <= p < q < |ins| ensures ins[p].distance <= ins[q].distance {
      if q < j {
        assert ins[p] == pre[p] && ins[q] == pre[q];
      } else if q == j {
        assert ins[p] == pre[p];
        assert pre[p].distance <= pre[j - 1].distance;
      } else if p < j {
        assert ins[p] == pre[p] && ins[q] == pre[q - 1];
      } else if p == j {
        assert ins[q] == pre[q - 1];
      } else {
        assert ins[p] == pre[p - 1] && ins[q] == pre[q - 1];
      }
    }
  }

  /** Inserting `x` before everything farther appends it to the group at its own distance. */
  lemma InsertKeepsGroups(left: seq<Candidate>, right: seq<Candidate>, orig: seq<Candidate>, x: Candidate, d: real)
    requires AtDistance(left + right, d) == AtDistance(orig, d)
    requires forall k :: 0 <= k < |right| ==> right[k].distance > x.distance
    ensures AtDistance(left + [x] + right, d) == AtDistance(orig + [x], d)
  {
    AtDistanceConcat(left + [x], right, d);
    AtDistanceConcat(left, [x], d);
    AtDistanceConcat(orig, [x], d);
    AtDistanceConcat(left, right, d);
    if d == x.distance {
      AtDistanceNone(right, d);
    } else {
      assert AtDistance([x], d) == [] + AtDistance([], d);
    }
  }

  lemma InsertKeepsStable(pre: seq<Candidate>, orig: seq<Candidate>, x: Candidate, j: nat)
    requires StableSortOf(pre, orig)
    requires j <= |pre|
    requires j == 0 || pre[j - 1].distance <= x.distance
    requires forall k :: j <= k < |pre| ==> pre[k].distance > x.distance
    ensures StableSortOf(pre[..j] + [x] + pre[j..], orig + [x])
  {
    InsertKeepsSorted(pre, x, j);
    var left, right := pre[..j], pre[j..];
    assert left + right == pre;
    forall d ensures AtDistance(left + [x] + right, d) == AtDistance(orig + [x], d) {
      InsertKeepsGroups(left, right, orig, x, d);
    }
  }

  /**
   * The inner loop of the insertion sort: shift the candidates left of `i` that are farther
   * than `x` one place right, and report the gap left for `x`.
   */
  method ShiftFarther(a: array<Candidate>, i: int, x: Candidate) returns (j: int)
    requires 0 <= i < a.Length
    modifies a
    ensures 0 <= j <= i
    ensures forall k :: 0 <= k < j ==> a[k] == old(a[k])
    ensures forall k :: j < k <= i ==> a[k] == old(a[k - 1])
    ensures forall k :: i < k < a.Length ==> a[k] == old(a[k])
    ensures forall k :: j <= k < i ==> old(a[k]).distance > x.distance
    ensures j > 0 ==> old(a[j - 1]).distance <= x.distance
  {
    j := i;
    while j > 0 && a[j - 1].distance > x.distance
      invariant 0 <= j <= i
      invariant forall k :: 0 <= k < j ==> a[k] == old(a[k])
      invariant forall k :: j < k <= i ==> a[k] == old(a[k - 1])
      invariant forall k :: i < k < a.Length ==> a[k] == old(a[k])
      invariant forall k :: j <= k < i ==> old(a[k]).distance > x.distance
    {
      a[j] := a[j - 1];
      j := j - 1;
    }
  }

  /** One round of the insertion sort, stated on the array's contents before and after it. */
  lemma InsertionRound(before: seq<Candidate>, after: seq<Candidate>, orig: seq<Candidate>, i: nat, j: nat)
    requires j <= i < |before| == |after| == |orig|
    requires StableSortOf(before[..i], orig[..i]) && before[i..] == orig[i..]
    requires forall k :: 0 <= k < j ==> after[k] == before[k]
    requires after[j] == before[i]
    requires forall k :: j < k <= i ==> after[k] == before[k - 1]
    requires forall k :: i < k < |after| ==> after[k] == before[k]
    requires forall k :: j <= k < i ==> before[k].distance > before[i].distance
    requires j > 0 ==> before[j - 1].distance <= before[i].distance
    ensures StableSortOf(after[..i + 1], orig[..i + 1]) && after[i + 1..] == orig[i + 1..]
  {
    var pre, x := before[..i], before[i];
    var ins := pre[..j] + [x] + pre[j..];
    assert forall k :: 0 <= k <= i ==> after[k] == ins[k];
    assert after[..i + 1] == ins;
    assert orig[..i + 1] == orig[..i] + [x];
    InsertKeepsStable(pre, orig[..i], x, j);
  }

  /** `rawCities.sort((a, b) => a.distance - b.distance)`: an insertion sort, stable like the built-in one. */
  method SortByDistance(a: array<Candidate>)
    modifies a
    ensures StableSortOf(a[..], old(a[..]))
  {
    ghost var orig := a[..];
    var i := 0;
    while i < a.Length
      invariant 0 <= i <= a.Length
      invariant StableSortOf(a[..i], orig[..i])
      invariant a[i..] == orig[i..]
    {
      ghost var before := a[..];
      var x := a[i];
      var j := ShiftFarther(a, i, x);
      a[j] := x;
      InsertionRound(before, a[..], orig, i, j);
      i := i + 1;
    }
    assert a[..] == a[..a.Length] && orig == orig[..a.Length];
  }

  // ---------------------------------------------------------------- first occurrences

  function Names(s: seq<Candidate>): (r: seq<string>)
    ensures |r| == |s| && forall k :: 0 <= k < |s| ==> r[k] == s[k].name
  {
    seq(|s|, k requires 0 <= k < |s| => s[k].name)
  }

  /**
   * The candidates whose name has not been seen before, scanning left to right and adding
   * each kept name to the seen set.
   */
  function KeepFirst(s: seq<Candidate>, seen: set<string>): (r: seq<Candidate>)
    ensures |r| <= |s|
    decreases |s|
  {
    if s == [] then []
    else if s[0].name in seen then KeepFirst(s[1..], seen)
    else [s[0]] + KeepFirst(s[1..], seen + {s[0].name})
  }

  /** Only candidates of the input with unseen names are kept. */
  lemma {:induction false} KeepFirstMembers(s: seq<Candidate>, seen: set<string>)
    ensures forall c :: c in KeepFirst(s, seen) ==> c in s && c.name !in seen
    decreases |s|
  {
    if s != [] {
      var seen' := if s[0].name in seen then seen else seen + {s[0].name};
      KeepFirstMembers(s[1..], seen');
      assert forall c :: c in s[1..] ==> c in s;
    }
  }

  /** Every unseen name of the input is kept. */
  lemma {:induction false} KeepFirstCovers(s: seq<Candidate>, seen: set<string>)
    ensures forall c :: c in s && c.name !in seen ==> c.name in Names(KeepFirst(s, seen))
    decreases |s|
  {
    if s != [] {
      var seen' := if s[0].name in seen then seen else seen + {s[0].name};
      KeepFirstCovers(s[1..], seen');
      var rest := KeepFirst(s[1..], seen');
      if s[0].name !in seen {
        assert Names([s[0]] + rest) == [s[0].name] + Names(rest);
      }
      assert forall c :: c in s ==> c == s[0] || c in s[1..];
    }
  }

  /** No name is kept twice. */
  lemma {:induction false} KeepFirstDistinct(s: seq<Candidate>, seen: set<string>)
    ensures Distinct(Names(KeepFirst(s, seen)))
    decreases |s|
  {
    if s != [] {
      var seen' := if s[0].name in seen then seen else seen + {s[0].name};
      KeepFirstDistinct(s[1..], seen');
      if s[0].name !in seen {
        var rest := KeepFirst(s[1..], seen');
        KeepFirstMembers(s[1..], seen');
        var names := Names([s[0]] + rest);
        assert names == [s[0].name] + Names(rest);
        forall p, q | 0 <= p < q < |names| ensures names[p] != names[q] {
          assert names[q] == Names(rest)[q - 1] == rest[q - 1].name;
          assert rest[q - 1] in rest;
          if p > 0 {
            assert names[p] == Names(rest)[p - 1];
          }
        }
      }
    }
  }

  /** Kept candidates come in the same distance order as the sorted input. */
  lemma {:induction false} KeepFirstSorted(s: seq<Candidate>, seen: set<string>)
    requires SortedByDistance(s)
    ensures SortedByDistance(KeepFirst(s, seen))
    decreases |s|
  {
    if s != [] {
      var seen' := if s[0].name in seen then seen else seen + {s[0].name};
      KeepFirstSorted(s[1..], seen');
      KeepFirstMembers(s[1..], seen');
      var rest := KeepFirst(s[1..], seen');
      forall c | c in rest ensures s[0].distance <= c.distance {
        var i :| 0 <= i < |s[1..]| && s[1..][i] == c;
        assert s[i + 1] == c;
      }
    }
  }

  /** Each kept candidate is the nearest occurrence of its name in a sorted input. */
  lemma {:induction false} KeepFirstNearest(s: seq<Candidate>, seen: set<string>)
    requires SortedByDistance(s)
    ensures forall k, c :: 0 <= k < |KeepFirst(s, seen)| && c in s && c.name == KeepFirst(s, seen)[k].name ==>
      KeepFirst(s, seen)[k].distance <= c.distance
    decreases |s|
  {
    if s != [] {
      var r := KeepFirst(s, seen);
      var seen' := if s[0].name in seen then seen else seen + {s[0].name};
      KeepFirstNearest(s[1..], seen');
      KeepFirstMembers(s[1..], seen');
      var rest := KeepFirst(s[1..], seen');
      forall k, c | 0 <= k < |r| && c in s && c.name == r[k].name
        ensures r[k].distance <= c.distance
      {
        if s[0].name !in seen && k == 0 {
          var i :| 0 <= i < |s| && s[i] == c;
          assert s[0].distance <= s[i].distance;
        } else {
          var k' := if s[0].name in seen then k else k - 1;
          assert r[k] == rest[k'];
          assert r[k].name !in seen';
          assert c != s[0];
          assert c in s[1..];
        }
      }
    }
  }

  lemma NamesConcat(a: seq<Candidate>, b: seq<Candidate>)
    ensures Names(a + b) == Names(a) + Names(b)
  {
  }

  /** One step of the scan, with the kept names spelled out. */
  lemma KeepFirstStep(s: seq<Candidate>, seen: set<string>)
    requires s != []
    ensures s[0].name in seen ==> Names(KeepFirst(s, seen)) == Names(KeepFirst(s[1..], seen))
    ensures s[0].name !in seen ==> Names(KeepFirst(s, seen)) == [s[0].name] + Names(KeepFirst(s[1..], seen + {s[0].name}))
  {
    if s[0].name !in seen {
      var rest := KeepFirst(s[1..], seen + {s[0].name});
      assert KeepFirst(s, seen) == [s[0]] + rest;
      NamesConcat([s[0]], rest);
    }
  }

  /** The dedup loop: a set of seen names starting with the primary city, and the names kept in order. */
  method UniqueNames(sorted: seq<Candidate>, primary: string) returns (sortedUnique: seq<string>)
    ensures sortedUnique == Names(KeepFirst(sorted, {primary}))
  {
    var uniqueNames := {primary};
    sortedUnique := [];
    for i := 0 to |sorted|
      invariant sortedUnique + Names(KeepFirst(sorted[i..], uniqueNames)) == Names(KeepFirst(sorted, {primary}))
    {
      var rc := sorted[i];
      KeepFirstStep(sorted[i..], uniqueNames);
      assert sorted[i..][0] == rc && sorted[i..][1..] == sorted[i + 1..];
      if !(rc.name in uniqueNames) {
        uniqueNames := uniqueNames + {rc.name};
        sortedUnique := sortedUnique + [rc.name];
      }
    }
    assert sorted[|sorted|..] == [];
  }

  /**
   * The neighbour list after sorting and dedup: no name twice, never the primary city, every
   * other candidate name present, each entry at its nearest distance, nearest first.
   */
  lemma SortedUniqueSpec(raw: seq<Candidate>, sorted: seq<Candidate>, primary: string)
    requires StableSortOf(sorted, raw)
    ensures var kept := KeepFirst(sorted, {primary});
      Distinct(Names(kept)) &&
      primary !in Names(kept) &&
      (forall c :: c in raw && c.name != primary ==> c.name in Names(kept)) &&
      (forall x :: x in Names(kept) ==> exists c :: c in raw && c.name == x) &&
      SortedByDistance(kept) &&
      (forall k, c :: 0 <= k < |kept| && c in raw && c.name == kept[k].name ==> kept[k].distance <= c.distance)
  {
    var kept := KeepFirst(sorted, {primary});
    StableSortSameElements(sorted, raw);
    KeepFirstMembers(sorted, {primary});
    KeepFirstCovers(sorted, {primary});
    KeepFirstDistinct(sorted, {primary});
    KeepFirstSorted(sorted, {primary});
    KeepFirstNearest(sorted, {primary});
    var names := Names(kept);
    assert forall c :: c in raw && c.name != primary ==> c in sorted && c.name !in {primary};
    forall x | x in names ensures exists c :: c in raw && c.name == x {
      var k :| 0 <= k < |names| && names[k] == x;
      assert kept[k] in kept;
    }
    forall x | x in names ensures x != primary {
      var k :| 0 <= k < |names| && names[k] == x;
      assert kept[k] in kept;
    }
  }

  // ---------------------------------------------------------------- selection and pool

  function Min(a: nat, b: nat): nat {
    if a < b then a else b
  }

  /** `[cityData, ...sortedUnique.slice(0, 9)]`. */
  function Selection(primary: string, sortedUnique: seq<string>): (r: seq<string>)
    ensures 1 <= |r| <= 10 && r[0] == primary
  {
    [primary] + sortedUnique[..Min(9, |sortedUnique|)]
  }

  /** `sortedUnique.slice(9)`: the neighbours left for the search list. */
  function Pool(sortedUnique: seq<string>): (r: seq<string>)
    ensures r == [] <==> |sortedUnique| <= 9
  {
    sortedUnique[Min(9, |sortedUnique|)..]
  }

  /** The primary city leads a selection of at most ten areas, and selection and pool together are everything, in order. */
  lemma SelectionPoolSplit(primary: string, sortedUnique: seq<string>)
    ensures |Selection(primary, sortedUnique)| <= 10 && Selection(primary, sortedUnique)[0] == primary
    ensures Selection(primary, sortedUnique) + Pool(sortedUnique) == [primary] + sortedUnique
    ensures |sortedUnique| >= 9 ==> |Selection(primary, sortedUnique)| == 10
  {
    var m := Min(9, |sortedUnique|);
    assert sortedUnique[..m] + sortedUnique[m..] == sortedUnique;
  }

  // ---------------------------------------------------------------- search options

  /** Lower-case substring search, as the search box applies it. */
  predicate MatchesQuery(c: string, query: string) {
    Contains(Lower(c), Lower(query))
  }

  /** The found cities that are not selected and match the query, in order. */
  function SearchOptions(found: seq<string>, selected: seq<string>, query: string): (r: seq<string>)
    ensures forall c :: c in r <==> c in found && c !in selected && MatchesQuery(c, query)
    ensures IsSubsequence(r, found)
    decreases |found|
  {
    if found == [] then []
    else
      var c := found[0];
      var rest := SearchOptions(found[1..], selected, query);
      assert forall x :: x in found <==> x == c || x in found[1..];
      if c !in selected && MatchesQuery(c, query) then [c] + rest else rest
  }

  lemma {:induction false} SearchOptionsConcat(a: seq<string>, b: seq<string>, selected: seq<string>, query: string)
    ensures SearchOptions(a + b, selected, query) == SearchOptions(a, selected, query) + SearchOptions(b, selected, query)
    decreases |a|
  {
    if a == [] {
      assert a + b == b;
    } else {
      assert (a + b)[0] == a[0] && (a + b)[1..] == a[1..] + b;
      SearchOptionsConcat(a[1..], b, selected, query);
    }
  }

  /** Nothing already selected is offered. */
  lemma {:induction false} SearchOptionsOfSelected(found: seq<string>, selected: seq<string>, query: string)
    requires forall c :: c in found ==> c in selected
    ensures SearchOptions(found, selected, query) == []
    decreases |found|
  {
    if found != [] {
      assert found[0] in found;
      assert forall c :: c in found[1..] ==> c in found;
      SearchOptionsOfSelected(found[1..], selected, query);
    }
  }

  lemma {:induction false} SearchOptionsIgnoreUnrelated(found: seq<string>, selected: seq<string>, query: string)
    requires forall c :: c in found ==> c !in selected
    ensures SearchOptions(found, selected, query) == SearchOptions(found, [], query)
    decreases |found|
  {
    if found != [] {
      assert found[0] in found;
      assert forall c :: c in found[1..] ==> c in found;
      SearchOptionsIgnoreUnrelated(found[1..], selected, query);
    }
  }

  /**
   * Right after a seeker picks a point, the search list offers exactly the pool (the
   * neighbours beyond the nine nearest) that match the query, nearest first.
   */
  lemma SearchOptionsAfterPick(primary: string, sortedUnique: seq<string>, query: string)
    requires Distinct(sortedUnique) && primary !in sortedUnique
    ensures SearchOptions(sortedUnique, Selection(primary, sortedUnique), query) == SearchOptions(Pool(sortedUnique), [], query)
  {
    var m := Min(9, |sortedUnique|);
    var sel := Selection(primary, sortedUnique);
    var head, tail := sortedUnique[..m], sortedUnique[m..];
    assert head + tail == sortedUnique;
    SearchOptionsConcat(head, tail, sel, query);
    assert forall c :: c in head ==> c in sel;
    SearchOptionsOfSelected(head, sel, query);
    forall c | c in tail ensures c !in sel {
      var t :| 0 <= t < |tail| && tail[t] == c;
      assert sortedUnique[m + t] == c;
    }
    SearchOptionsIgnoreUnrelated(tail, sel, query);
  }

  // ---------------------------------------------------------------- the component

  /** What the owner may pass in: coordinates, the primary city and the saved service areas. */
  datatype InitialData = InitialData(latitude: Option<real>, longitude: Option<real>, location: Option<string>, locations: Option<seq<string>>)

  /** What the component reports to its owner. */
  datatype LocationUpdate = LocationUpdate(latitude: real, longitude: real, location: string, locations: seq<string>)

  /** A number is truthy when it is present and not zero. */
  predicate NumTruthy(x: Option<real>) {
    x.Some? && x.value != 0.0
  }

  /** Both coordinates of the initial data are truthy. */
  predicate HasPosition(init: Option<InitialData>) {
    init.Some? && NumTruthy(init.value.latitude) && NumTruthy(init.value.longitude)
  }

  const DefaultLatitude: real := 12.9716
  const DefaultLongitude: real := 77.5946

  /**
   * The neighbour list of a primary city: the names of `raw`, stably sorted by distance, each
   * kept at its first (nearest) occurrence, the primary city never.
   */
  ghost predicate NeighboursOf(sortedUnique: seq<string>, raw: seq<Candidate>, primary: string) {
    exists sorted :: StableSortOf(sorted, raw) && sortedUnique == Names(KeepFirst(sorted, {primary}))
  }

  class Selector {
    const isSeeker: bool
    var latitude: real
    var longitude: real
    var city: string
    var surroundingCities: seq<string>
    var allFoundCities: seq<string>
    var searchQuery: string
    var loading: bool

    /** The search list: found cities not yet selected whose name contains the query, ignoring case. */
    function FilteredOptions(): (r: seq<string>)
      reads this
      ensures forall c :: c in r <==> c in allFoundCities && c !in surroundingCities && MatchesQuery(c, searchQuery)
    {
      SearchOptions(allFoundCities, surroundingCities, searchQuery)
    }

    /** Mounting: the initial data where it is truthy, the default point and empty lists otherwise. */
    constructor(init: Option<InitialData>, seeker: bool)
      ensures isSeeker == seeker
      ensures HasPosition(init) ==> latitude == init.value.latitude.value && longitude == init.value.longitude.value
      ensures !HasPosition(init) ==> latitude == DefaultLatitude && longitude == DefaultLongitude
      ensures city == (if init.Some? && Truthy(init.value.location) then init.value.location.value else "")
      ensures surroundingCities == (if init.Some? && init.value.locations.Some? then init.value.locations.value else [])
      ensures allFoundCities == [] && searchQuery == "" && !loading
    {
      isSeeker := seeker;
      if HasPosition(init) {
        latitude, longitude := init.value.latitude.value, init.value.longitude.value;
      } else {
        latitude, longitude := DefaultLatitude, DefaultLongitude;
      }
      city := if init.Some? && Truthy(init.value.location) then init.value.location.value else "";
      surroundingCities := if init.Some? && init.value.locations.Some? then init.value.locations.value else [];
      allFoundCities := [];
      searchQuery := "";
      loading := false;
    }

    /** New initial data from the owner: each truthy part overwrites the state it seeds; nothing is cleared. */
    method InitialDataChanged(init: Option<InitialData>)
      modifies this
      ensures HasPosition(init) ==> latitude == init.value.latitude.value && longitude == init.value.longitude.value
      ensures !HasPosition(init) ==> latitude == old(latitude) && longitude == old(longitude)
      ensures city == (if init.Some? && Truthy(init.value.location) then init.value.location.value else old(city))
      ensures surroundingCities == (if init.Some? && init.value.locations.Some? then init.value.locations.value else old(surroundingCities))
      ensures allFoundCities == old(allFoundCities) && searchQuery == old(searchQuery) && loading == old(loading)
    {
      if HasPosition(init) {
        latitude, longitude := init.value.latitude.value, init.value.longitude.value;
      }
      if init.Some? && Truthy(init.value.location) {
        city := init.value.location.value;
      }
      if init.Some? && init.value.locations.Some? {
        surroundingCities := init.value.locations.value;
      }
    }

    /**
     * A point picked on the map (or the device position). `reverse` is the address the reverse
     * lookup answered, None when it failed; `nearby` the places the nearby query answered, None
     * when it failed (it is only asked for a seeker). The result is what is reported, None when
     * a lookup failed. The pin always moves; the primary city is set as soon as it is known.
     */
    method HandleLocationChange(lat: real, lng: real, reverse: Option<Address>, nearby: Option<seq<Element>>)
      returns (update: Option<LocationUpdate>)
      modifies this
      ensures latitude == lat && longitude == lng && !loading
      ensures searchQuery == old(searchQuery)
      ensures reverse.None? ==> update.None? && city == old(city)
      ensures reverse.Some? ==> city == PrimaryCity(reverse.value)
      ensures update.None? || !isSeeker ==>
        surroundingCities == old(surroundingCities) && allFoundCities == old(allFoundCities)
      ensures !isSeeker && reverse.Some? ==> update == Some(LocationUpdate(lat, lng, city, []))
      ensures isSeeker && reverse.Some? ==> (update.Some? <==> nearby.Some?)
      ensures isSeeker && update.Some? ==>
        var raw := Candidates(nearby.value, city);
        NeighboursOf(allFoundCities, raw, city) &&
        Distinct(allFoundCities) && city !in allFoundCities &&
        (forall c :: c in raw ==> c.name in allFoundCities) &&
        surroundingCities == Selection(city, allFoundCities) &&
        update == Some(LocationUpdate(lat, lng, city, surroundingCities)) &&
        FilteredOptions() == SearchOptions(Pool(allFoundCities), [], searchQuery)
    {
      latitude, longitude := lat, lng;
      loading := true;
      if reverse.None? {
        loading := false;
        return None;
      }
      var cityData := PrimaryCity(reverse.value);
      city := cityData;
      var selectedCities: seq<string> := [];
      if isSeeker {
        if nearby.None? {
          loading := false;
          return None;
        }
        var raw := Candidates(nearby.value, cityData);
        var arr := new Candidate[|raw|](k requires 0 <= k < |raw| => raw[k]);
        assert arr[..] == raw;
        SortByDistance(arr);
        var sorted := arr[..];
        var sortedUnique := UniqueNames(sorted, cityData);
        SortedUniqueSpec(raw, sorted, cityData);
        selectedCities := Selection(cityData, sortedUnique);
        surroundingCities := selectedCities;
        allFoundCities := sortedUnique;
        assert Distinct(sortedUnique) by {
          var kept := KeepFirst(sorted, {cityData});
          assert sortedUnique == Names(kept);
        }
        SearchOptionsAfterPick(cityData, sortedUnique, searchQuery);
      }
      update := Some(LocationUpdate(lat, lng, cityData, if isSeeker then selectedCities else []));
      loading := false;
    }

    /** The search box. */
    method SetSearchQuery(q: string)
      modifies this
      ensures searchQuery == q
      ensures latitude == old(latitude) && longitude == old(longitude) && city == old(city)
      ensures surroundingCities == old(surroundingCities) && allFoundCities == old(allFoundCities) && loading == old(loading)
    {
      searchQuery := q;
    }

    /**
     * Picking a city from the search list: a city not yet selected is appended, the query is
     * cleared and the new list reported; a city already selected changes nothing.
     */
    method AddCityFromSearch(name: string) returns (update: Option<LocationUpdate>)
      modifies this
      ensures name !in old(surroundingCities) ==>
        surroundingCities == old(surroundingCities) + [name] && searchQuery == "" &&
        update == Some(LocationUpdate(latitude, longitude, city, surroundingCities)) &&
        name !in FilteredOptions()
      ensures name in old(surroundingCities) ==>
        surroundingCities == old(surroundingCities) && searchQuery == old(searchQuery) && update.None?
      ensures Distinct(old(surroundingCities)) ==> Distinct(surroundingCities)
      ensures latitude == old(latitude) && longitude == old(longitude) && city == old(city)
      ensures allFoundCities == old(allFoundCities) && loading == old(loading)
    {
      if name !in surroundingCities {
        ToggleKeepsDistinctIfAbsent(surroundingCities, name);
        surroundingCities := surroundingCities + [name];
        searchQuery := "";
        update := Some(LocationUpdate(latitude, longitude, city, surroundingCities));
      } else {
        update := None;
      }
    }

    /**
     * The remove control of a chip: every copy of the city leaves the list and the new list is
     * reported. Only chips other than the primary city carry the control, so the primary city stays.
     */
    method RemoveCity(name: string) returns (update: LocationUpdate)
      modifies this
      ensures surroundingCities == RemoveAll(old(surroundingCities), name)
      ensures name !in surroundingCities
      ensures forall c :: c != name ==> (c in surroundingCities <==> c in old(surroundingCities))
      ensures name != city && city in old(surroundingCities) ==> city in surroundingCities
      ensures update == LocationUpdate(latitude, longitude, city, surroundingCities)
      ensures latitude == old(latitude) && longitude == old(longitude) && city == old(city)
      ensures allFoundCities == old(allFoundCities) && searchQuery == old(searchQuery) && loading == old(loading)
    {
      surroundingCities := RemoveAll(surroundingCities, name);
      update := LocationUpdate(latitude, longitude, city, surroundingCities);
    }
  }

  /** Appending a missing name keeps a list free of repeats. */
  lemma ToggleKeepsDistinctIfAbsent(s: seq<string>, name: string)
    requires name !in s
    ensures Distinct(s) ==> Distinct(s + [name])
  {
    if Distinct(s) {
      ToggleKeepsDistinct(s, name);
      assert Toggle(s, name) == s + [name];
    }
  }

  /** Adding a city from the search list and removing it again gives back the list it started from. */
  lemma AddThenRemoveCity(surrounding: seq<string>, name: string)
    requires name !in surrounding
    ensures RemoveAll(surrounding + [name], name) == surrounding
  {
    RemoveAppendedItem(surrounding, name);
    RemoveAbsent(surrounding, name);
  }
}
