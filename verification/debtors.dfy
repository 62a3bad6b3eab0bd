/** `Debtors` page: the favourite-first, name-ascending ordering, favourite
    toggling, the initial favourite set, and the client-side search fallback.
    `localeCompare` is modelled as code-unit lexicographic comparison, a total
    order, and `toLowerCase` as ASCII lower-casing. */
module Debtors {
  import opened Base
  import opened Text

  datatype Debtor = Debtor(id: string, name: string, phone: string, totalDebt: int, favorite: bool)

  /** `a.localeCompare(b)`: negative, zero or positive. */
  function LocaleCompare(a: string, b: string): (r: int)
    ensures -1 <= r <= 1
    ensures r == 0 <==> a == b
  {
    if a == [] && b == [] then 0
    else if a == [] then -1
    else if b == [] then 1
    else if a[0] < b[0] then -1
    else if a[0] > b[0] then 1
    else
      var r := LocaleCompare(a[1..], b[1..]);
      assert a == [a[0]] + a[1..] && b == [b[0]] + b[1..];
      r
  }

  lemma {:induction false} LocaleCompareFlips(a: string, b: string)
    ensures LocaleCompare(a, b) == -LocaleCompare(b, a)
  {
    if a != [] && b != [] && a[0] == b[0] {
      LocaleCompareFlips(a[1..], b[1..]);
    }
  }

  lemma {:induction false} LocaleCompareTransitive(a: string, b: string, c: string)
    requires LocaleCompare(a, b) <= 0 && LocaleCompare(b, c) <= 0
    ensures LocaleCompare(a, c) <= 0
  {
    if a != [] && b != [] && c != [] && a[0] == b[0] && b[0] == c[0] {
      LocaleCompareTransitive(a[1..], b[1..], c[1..]);
    }
  }

  function FavoriteRank(d: Debtor, favoriteIds: set<string>): int
  {
    if d.id in favoriteIds then 1 else 0
  }

  /** The comparator handed to `Array.prototype.sort`. */
  function Compare(a: Debtor, b: Debtor, favoriteIds: set<string>): int
  {
    var aFav := FavoriteRank(a, favoriteIds);
    var bFav := FavoriteRank(b, favoriteIds);
    if bFav != aFav then bFav - aFav else LocaleCompare(a.name, b.name)
  }

  lemma CompareFlips(a: Debtor, b: Debtor, favoriteIds: set<string>)
    ensures Compare(a, b, favoriteIds) == -Compare(b, a, favoriteIds)
  {
    LocaleCompareFlips(a.name, b.name);
  }

  lemma CompareTransitive(a: Debtor, b: Debtor, c: Debtor, favoriteIds: set<string>)
    requires Compare(a, b, favoriteIds) <= 0 && Compare(b, c, favoriteIds) <= 0
    ensures Compare(a, c, favoriteIds) <= 0
  {
    if FavoriteRank(a, favoriteIds) == FavoriteRank(b, favoriteIds) == FavoriteRank(c, favoriteIds) {
      LocaleCompareTransitive(a.name, b.name, c.name);
    }
  }

  /** No later entry should sort before an earlier one. */
  predicate SortedBy(xs: seq<Debtor>, favoriteIds: set<string>)
  {
    forall i, j :: 0 <= i < j < |xs| ==> Compare(xs[i], xs[j], favoriteIds) <= 0
  }

  /** Inserts `x` before the first entry it does not sort after, so that
      entries that compare equal keep their order (a stable sort). */
  function Insert(x: Debtor, sorted: seq<Debtor>, favoriteIds: set<string>): (r: seq<Debtor>)
    ensures multiset(r) == multiset(sorted) + multiset{x}
  {
    if sorted == [] then [x]
    else if Compare(x, sorted[0], favoriteIds) <= 0 then [x] + sorted
    else
      assert sorted == [sorted[0]] + sorted[1..];
      [sorted[0]] + Insert(x, sorted[1..], favoriteIds)
  }

  lemma InsertAtFront(x: Debtor, sorted: seq<Debtor>, favoriteIds: set<string>)
    requires SortedBy(sorted, favoriteIds) && sorted != []
    requires Compare(x, sorted[0], favoriteIds) <= 0
    ensures SortedBy([x] + sorted, favoriteIds)
  {
    var r := [x] + sorted;
    forall j | 1 <= j < |r| ensures Compare(x, r[j], favoriteIds) <= 0 {
      if j > 1 { CompareTransitive(x, sorted[0], r[j], favoriteIds); }
    }
  }

  /** An entry that sorts before every entry of a list, and before `x`, sorts
      before every entry of the list with `x` inserted. */
  lemma LowerBoundOfInsert(head: Debtor, x: Debtor, tail: seq<Debtor>, favoriteIds: set<string>)
    requires forall k :: 0 <= k < |tail| ==> Compare(head, tail[k], favoriteIds) <= 0
    requires Compare(head, x, favoriteIds) <= 0
    ensures forall y :: y in multiset(Insert(x, tail, favoriteIds)) ==> Compare(head, y, favoriteIds) <= 0
  {
    forall y | y in multiset(Insert(x, tail, favoriteIds)) ensures Compare(head, y, favoriteIds) <= 0 {
      if y != x {
        assert y in multiset(tail);
        var k :| 0 <= k < |tail| && tail[k] == y;
      }
    }
  }

  lemma PrependLowerBound(head: Debtor, rest: seq<Debtor>, favoriteIds: set<string>)
    requires SortedBy(rest, favoriteIds)
    requires forall y :: y in multiset(rest) ==> Compare(head, y, favoriteIds) <= 0
    ensures SortedBy([head] + rest, favoriteIds)
  {
    var r := [head] + rest;
    forall i, j | 0 <= i < j < |r| ensures Compare(r[i], r[j], favoriteIds) <= 0 {
      assert r[j] == rest[j - 1];
      if i == 0 {
        assert r[j] in multiset(rest);
      } else {
        assert r[i] == rest[i - 1];
      }
    }
  }

  lemma {:induction false} InsertKeepsSorted(x: Debtor, sorted: seq<Debtor>, favoriteIds: set<string>)
    requires SortedBy(sorted, favoriteIds)
    ensures SortedBy(Insert(x, sorted, favoriteIds), favoriteIds)
  {
    if sorted == [] {
    } else if Compare(x, sorted[0], favoriteIds) <= 0 {
      InsertAtFront(x, sorted, favoriteIds);
    } else {
      var head, tail := sorted[0], sorted[1..];
      assert SortedBy(tail, favoriteIds);
      assert forall k :: 0 <= k < |tail| ==> tail[k] == sorted[k + 1];
      InsertKeepsSorted(x, tail, favoriteIds);
      CompareFlips(x, head, favoriteIds);
      LowerBoundOfInsert(head, x, tail, favoriteIds);
      PrependLowerBound(head, Insert(x, tail, favoriteIds), favoriteIds);
    }
  }

  /** `[...debtorsList].sort(comparator)`: a stable insertion sort on a copy. */
  function SortDebtors(xs: seq<Debtor>, favoriteIds: set<string>): (r: seq<Debtor>)
    ensures multiset(r) == multiset(xs) && |r| == |xs|
    ensures SortedBy(r, favoriteIds)
  {
    if xs == [] then []
    else
      assert xs == [xs[0]] + xs[1..];
      var sortedTail := SortDebtors(xs[1..], favoriteIds);
      InsertKeepsSorted(xs[0], sortedTail, favoriteIds);
      Insert(xs[0], sortedTail, favoriteIds)
  }

  /** The order the list is shown in: a permutation of the list in which every
      favourite comes before every other debtor, and names ascend within each
      group. */
  lemma SortedDebtorsOrder(xs: seq<Debtor>, favoriteIds: set<string>)
    ensures var r := SortDebtors(xs, favoriteIds);
            && multiset(r) == multiset(xs)
            && (forall i, j :: 0 <= i < j < |r| && r[j].id in favoriteIds ==> r[i].id in favoriteIds)
            && (forall i, j :: 0 <= i < j < |r| && (r[i].id in favoriteIds <==> r[j].id in favoriteIds) ==>
                  LocaleCompare(r[i].name, r[j].name) <= 0)
  {
    var r := SortDebtors(xs, favoriteIds);
    forall i, j | 0 <= i < j < |r|
      ensures r[j].id in favoriteIds ==> r[i].id in favoriteIds
      ensures (r[i].id in favoriteIds <==> r[j].id in favoriteIds) ==> LocaleCompare(r[i].name, r[j].name) <= 0
    {
      assert Compare(r[i], r[j], favoriteIds) <= 0;
    }
  }

  /** Gives each debtor the amount `amount` assigns it. */
  function Revalue(xs: seq<Debtor>, amount: Debtor -> int): (r: seq<Debtor>)
    ensures |r| == |xs|
  {
    if xs == [] then [] else [xs[0].(totalDebt := amount(xs[0]))] + Revalue(xs[1..], amount)
  }

  lemma {:induction false} InsertIgnoresDebt(x: Debtor, sorted: seq<Debtor>, favoriteIds: set<string>, amount: Debtor -> int)
    ensures Insert(x.(totalDebt := amount(x)), Revalue(sorted, amount), favoriteIds) ==
            Revalue(Insert(x, sorted, favoriteIds), amount)
  {
    var x' := x.(totalDebt := amount(x));
    if sorted == [] {
    } else {
      var rs := Revalue(sorted, amount);
      assert rs[0] == sorted[0].(totalDebt := amount(sorted[0]));
      assert rs[1..] == Revalue(sorted[1..], amount);
      assert Compare(x', rs[0], favoriteIds) == Compare(x, sorted[0], favoriteIds);
      if Compare(x, sorted[0], favoriteIds) <= 0 {
        assert ([x] + sorted)[1..] == sorted;
      } else {
        InsertIgnoresDebt(x, sorted[1..], favoriteIds, amount);
        var ins := Insert(x, sorted[1..], favoriteIds);
        assert ([sorted[0]] + ins)[1..] == ins;
      }
    }
  }

  /** The order never looks at `totalDebt`: changing the amounts and sorting
      gives the sorted list with the amounts changed. */
  lemma {:induction false} SortIgnoresDebt(xs: seq<Debtor>, favoriteIds: set<string>, amount: Debtor -> int)
    ensures SortDebtors(Revalue(xs, amount), favoriteIds) == Revalue(SortDebtors(xs, favoriteIds), amount)
  {
    if xs != [] {
      var rx := Revalue(xs, amount);
      assert rx[0] == xs[0].(totalDebt := amount(xs[0]));
      assert rx[1..] == Revalue(xs[1..], amount);
      SortIgnoresDebt(xs[1..], favoriteIds, amount);
      InsertIgnoresDebt(xs[0], SortDebtors(xs[1..], favoriteIds), favoriteIds, amount);
    }
  }

  /** `toggleFavorite(id)`. */
  function ToggleFavorite(favoriteIds: set<string>, id: string): (r: set<string>)
    ensures id in r <==> id !in favoriteIds
    ensures forall other :: other != id ==> (other in r <==> other in favoriteIds)
  {
    if id in favoriteIds then favoriteIds - {id} else favoriteIds + {id}
  }

  lemma ToggleTwice(favoriteIds: set<string>, id: string)
    ensures ToggleFavorite(ToggleFavorite(favoriteIds, id), id) == favoriteIds
  {
  }

  /** `new Set(list.filter(d => d.favorite).map(d => d.id))`. */
  function InitialFavorites(xs: seq<Debtor>): (r: set<string>)
    ensures forall id :: id in r <==> exists i :: 0 <= i < |xs| && xs[i].favorite && xs[i].id == id
  {
    if xs == [] then {}
    else
      var rest := InitialFavorites(xs[1..]);
      var r := (if xs[0].favorite then {xs[0].id} else {}) + rest;
      assert forall i :: 0 < i < |xs| ==> xs[i] == xs[1..][i - 1];
      r
  }

  /** The list shown when the server has nothing. */
  const FallbackDebtors := [
    Debtor("1", "Anvarjon Soliyjonov", "+998555555555", 14786000, true),
    Debtor("2", "Farida Karimova", "+998555555556", 9450000, false),
    Debtor("3", "Otabek Tohirov", "+998555555557", 7825000, false),
    Debtor("4", "Avazbek Jahongirov", "+998555555558", 12550000, false),
    Debtor("5", "Nodira Azimova", "+998555555559", 5320000, false)
  ]

  /** The answer of a `debtors.getAll()` or `debtors.search()` call. */
  datatype Answer = Failed | Items(items: seq<Debtor>)

  predicate HasItems(a: Answer)
  {
    a.Items? && |a.items| > 0
  }

  /** The first-load effect: the server's list, or the fallback list when the
      call fails or returns nothing; favourites come from the list's flags. */
  function FetchDebtors(answer: Answer): (r: (seq<Debtor>, set<string>))
    ensures HasItems(answer) ==> r.0 == answer.items
    ensures !HasItems(answer) ==> r.0 == FallbackDebtors
    ensures forall id :: id in r.1 <==> exists i :: 0 <= i < |r.0| && r.0[i].favorite && r.0[i].id == id
  {
    var list := if HasItems(answer) then answer.items else FallbackDebtors;
    (list, InitialFavorites(list))
  }

  /** On the fallback list only Anvarjon is a favourite. */
  lemma FallbackFavorites()
    ensures FetchDebtors(Failed).1 == {"1"}
  {
    var favs := FetchDebtors(Failed).1;
    assert FallbackDebtors[0].favorite;
    forall id | id in favs ensures id == "1" {
      var i :| 0 <= i < |FallbackDebtors| && FallbackDebtors[i].favorite && FallbackDebtors[i].id == id;
    }
  }

  /** The search fallback's test for one debtor. */
  predicate Matches(d: Debtor, query: string)
  {
    Includes(ToLower(d.name), ToLower(query)) || Includes(d.phone, query)
  }

  /** `debtorsList.filter(...)` of the search fallback. */
  function FallbackSearch(xs: seq<Debtor>, query: string): (r: seq<Debtor>)
    ensures IsSubsequence(r, xs)
    ensures forall i :: 0 <= i < |r| ==> Matches(r[i], query)
    ensures forall i :: 0 <= i < |xs| && Matches(xs[i], query) ==> xs[i] in r
  {
    if xs == [] then []
    else
      var rest := FallbackSearch(xs[1..], query);
      assert xs == [xs[0]] + xs[1..];
      SubsequenceCons(xs[0], rest, xs[1..]);
      assert forall i :: 0 < i < |xs| ==> xs[i] == xs[1..][i - 1];
      if Matches(xs[0], query) then
        var r := [xs[0]] + rest;
        assert r[1..] == rest;
        r
      else rest
  }

  /** Each matching entry is kept as often as it occurs, so duplicates survive. */
  lemma {:induction false} FallbackSearchCounts(xs: seq<Debtor>, query: string)
    ensures forall d :: multiset(FallbackSearch(xs, query))[d] == (if Matches(d, query) then multiset(xs)[d] else 0)
  {
    if xs != [] {
      var rest := xs[1..];
      FallbackSearchCounts(rest, query);
      assert xs == [xs[0]] + rest;
      if Matches(xs[0], query) {
        assert FallbackSearch(xs, query) == [xs[0]] + FallbackSearch(rest, query);
      } else {
        assert FallbackSearch(xs, query) == FallbackSearch(rest, query);
      }
    }
  }

  /** The debounced search effect for `query`, where `answer` is what the
      server call made by that branch returned. */
  function SearchEffect(xs: seq<Debtor>, query: string, answer: Answer): (r: seq<Debtor>)
    // An empty query does not run the effect.
    ensures query == "" ==> r == xs
    // A blank query reloads everything, keeping the list when nothing comes back.
    ensures query != "" && Trim(query) == "" ==> r == (if HasItems(answer) then answer.items else xs)
    // Otherwise the server's hits, or the local filter when there are none.
    ensures Trim(query) != "" && HasItems(answer) ==> r == answer.items
    ensures Trim(query) != "" && !HasItems(answer) ==> r == FallbackSearch(xs, query)
  {
    if query == "" then xs
    else if Trim(query) == "" then
      if HasItems(answer) then answer.items else xs
    else if HasItems(answer) then answer.items
    else FallbackSearch(xs, query)
  }
}
