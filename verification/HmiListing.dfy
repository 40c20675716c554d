/** The screen table and the order in which it is listed: by sort order, then by id. */
module HmiListing {

  datatype Screen = Screen(
    title: string,
    content: string,
    revision: int,
    sortOrder: int,
    updatedAt: string,
    updatedBy: string)

  type Screens = map<string, Screen>

  // ---------------------------------------------------------------- text order

  predicate TextLess(a: string, b: string) {
    if b == "" then false
    else if a == "" then true
    else if a[0] != b[0] then a[0] < b[0]
    else TextLess(a[1..], b[1..])
  }

  lemma {:induction false} TextOrderIsTotal(a: string, b: string)
    ensures a == b || TextLess(a, b) || TextLess(b, a)
    ensures !(TextLess(a, b) && TextLess(b, a))
    decreases |a|
  {
    if a != "" && b != "" && a[0] == b[0] {
      TextOrderIsTotal(a[1..], b[1..]);
      assert a == [a[0]] + a[1..] && b == [b[0]] + b[1..];
    }
  }

  lemma {:induction false} TextOrderIsTransitive(a: string, b: string, c: string)
    requires TextLess(a, b) && TextLess(b, c)
    ensures TextLess(a, c)
    decreases |a|
  {
    if a != "" && a[0] == b[0] && b[0] == c[0] {
      TextOrderIsTransitive(a[1..], b[1..], c[1..]);
    }
  }

  // ---------------------------------------------------------------- listing order

  // Row a comes before row b in "ORDER BY sort_order, id".
  predicate Before(screens: Screens, a: string, b: string)
    requires a in screens && b in screens
  {
    var x, y := screens[a].sortOrder, screens[b].sortOrder;
    x < y || (x == y && TextLess(a, b))
  }

  lemma BeforeIsTotal(screens: Screens, a: string, b: string)
    requires a in screens && b in screens
    ensures a == b || Before(screens, a, b) || Before(screens, b, a)
    ensures !(Before(screens, a, b) && Before(screens, b, a))
  {
    TextOrderIsTotal(a, b);
  }

  lemma BeforeIsTransitive(screens: Screens, a: string, b: string, c: string)
    requires a in screens && b in screens && c in screens
    requires Before(screens, a, b) && Before(screens, b, c)
    ensures Before(screens, a, c)
  {
    if screens[a].sortOrder == screens[b].sortOrder == screens[c].sortOrder {
      TextOrderIsTransitive(a, b, c);
    }
  }

  ghost predicate Ascending(screens: Screens, ids: seq<string>)
    requires forall i | 0 <= i < |ids| :: ids[i] in screens
  {
    forall i, j | 0 <= i < j < |ids| :: Before(screens, ids[i], ids[j])
  }

  predicate Covers(screens: Screens, ids: seq<string>) {
    && (forall i | 0 <= i < |ids| :: ids[i] in screens)
    && (forall id | id in screens :: id in ids)
  }

  /** `ids` is what the table lists: every id, in order. */
  ghost predicate IsListing(screens: Screens, ids: seq<string>) {
    Covers(screens, ids) && Ascending(screens, ids)
  }

  predicate Distinct(ids: seq<string>) {
    forall i, j | 0 <= i < j < |ids| :: ids[i] != ids[j]
  }

  lemma ListingIsDistinct(screens: Screens, ids: seq<string>)
    requires IsListing(screens, ids)
    ensures Distinct(ids)
  {
    forall i, j | 0 <= i < j < |ids|
      ensures ids[i] != ids[j]
    {
      assert Before(screens, ids[i], ids[j]);
      BeforeIsTotal(screens, ids[i], ids[j]);
    }
  }

  /** A table has one listing only. */
  lemma {:induction false} ListingIsUnique(screens: Screens, a: seq<string>, b: seq<string>)
    requires IsListing(screens, a) && IsListing(screens, b)
    ensures a == b
    decreases |a|
  {
    EmptyTogether(screens, a, b);
    if a != [] {
      SameFirst(screens, a, b);
      TailIsListing(screens, a);
      TailIsListing(screens, b);
      hide IsListing;
      ListingIsUnique(screens - {a[0]}, a[1..], b[1..]);
      assert a == [a[0]] + a[1..] && b == [b[0]] + b[1..];
    }
  }

  lemma SameFirst(screens: Screens, a: seq<string>, b: seq<string>)
    requires IsListing(screens, a) && IsListing(screens, b) && a != [] && b != []
    ensures a[0] == b[0]
  {
    hide Ascending, Before;
    assert a[0] in screens && b[0] in screens;
    FirstIsSmallest(screens, a, b[0]);
    FirstIsSmallest(screens, b, a[0]);
    BeforeIsTotal(screens, a[0], b[0]);
  }

  lemma EmptyTogether(screens: Screens, a: seq<string>, b: seq<string>)
    requires IsListing(screens, a) && IsListing(screens, b)
    ensures a == [] <==> b == []
  {
    if a != [] {
      assert a[0] in b;
    }
    if b != [] {
      assert b[0] in a;
    }
  }

  lemma FirstIsSmallest(screens: Screens, ids: seq<string>, id: string)
    requires IsListing(screens, ids) && id in screens
    ensures |ids| > 0 && (id == ids[0] || Before(screens, ids[0], id))
  {
    var k :| 0 <= k < |ids| && ids[k] == id;
  }

  lemma TailIsListing(screens: Screens, ids: seq<string>)
    requires IsListing(screens, ids) && ids != []
    ensures IsListing(screens - {ids[0]}, ids[1..])
  {
    ListingIsDistinct(screens, ids);
    var rest := screens - {ids[0]};
    forall i | 0 <= i < |ids[1..]|
      ensures ids[1..][i] in rest
    {
      assert ids[0] != ids[i + 1];
    }
    forall i, j | 0 <= i < j < |ids[1..]|
      ensures Before(rest, ids[1..][i], ids[1..][j])
    {
      assert Before(screens, ids[i + 1], ids[j + 1]);
    }
    forall id | id in rest
      ensures id in ids[1..]
    {
      var k :| 0 <= k < |ids| && ids[k] == id;
      assert ids[1..][k - 1] == id;
    }
  }

  // ---------------------------------------------------------------- order against the table

  // The multiset comparison of the two sorted lists, in terms of ids.
  lemma PermutationIff(screens: Screens, listing: seq<string>, order: seq<string>)
    requires IsListing(screens, listing)
    ensures multiset(order) == multiset(listing) <==> Distinct(order) && Covers(screens, order)
  {
    if multiset(order) == multiset(listing) {
      SameMultisetCovers(screens, listing, order);
    }
    if Distinct(order) && Covers(screens, order) {
      CoveringIsSameMultiset(screens, listing, order);
    }
  }

  lemma SameMultisetCovers(screens: Screens, listing: seq<string>, order: seq<string>)
    requires IsListing(screens, listing) && multiset(order) == multiset(listing)
    ensures Distinct(order) && Covers(screens, order)
  {
    ListingIsDistinct(screens, listing);
    DistinctMultiset(listing);
    MultisetDistinct(order);
    forall id
      ensures id in order <==> id in screens
    {
      assert id in multiset(order) <==> id in order;
      assert id in multiset(listing) <==> id in listing;
      assert id in listing <==> id in screens;
    }
    forall i | 0 <= i < |order|
      ensures order[i] in screens
    {
      assert order[i] in order;
    }
  }

  lemma CoveringIsSameMultiset(screens: Screens, listing: seq<string>, order: seq<string>)
    requires IsListing(screens, listing) && Distinct(order) && Covers(screens, order)
    ensures multiset(order) == multiset(listing)
  {
    ListingIsDistinct(screens, listing);
    DistinctMultiset(listing);
    DistinctMultiset(order);
    forall id: string
      ensures multiset(order)[id] == multiset(listing)[id]
    {
      assert id in order <==> id in screens;
      assert id in listing <==> id in screens;
    }
  }

  lemma {:induction false} DistinctMultiset(ids: seq<string>)
    requires Distinct(ids)
    ensures forall id :: multiset(ids)[id] == if id in ids then 1 else 0
    decreases |ids|
  {
    if ids != [] {
      DistinctMultiset(ids[1..]);
      assert ids == [ids[0]] + ids[1..];
      assert multiset(ids) == multiset{ids[0]} + multiset(ids[1..]);
      forall id
        ensures multiset(ids)[id] == if id in ids then 1 else 0
      {
        if id in ids[1..] {
          var k :| 0 <= k < |ids[1..]| && ids[1..][k] == id;
          assert ids[k + 1] == id && ids[0] != ids[k + 1];
        }
      }
    }
  }

  lemma {:induction false} MultisetDistinct(ids: seq<string>)
    requires forall id :: multiset(ids)[id] <= 1
    ensures Distinct(ids)
    decreases |ids|
  {
    if ids != [] {
      assert ids == [ids[0]] + ids[1..];
      assert multiset(ids) == multiset{ids[0]} + multiset(ids[1..]);
      forall id
        ensures multiset(ids[1..])[id] <= 1
      {
        assert multiset(ids)[id] <= 1;
      }
      MultisetDistinct(ids[1..]);
      assert multiset(ids)[ids[0]] <= 1;
      assert ids[0] !in ids[1..];
      forall i, j | 0 <= i < j < |ids|
        ensures ids[i] != ids[j]
      {
        assert ids[j] == ids[1..][j - 1];
        if i > 0 {
          assert ids[i] == ids[1..][i - 1];
        }
      }
    }
  }

  // ---------------------------------------------------------------- the two queries

  /** "SELECT id FROM hmi_screens ORDER BY sort_order, id". */
  method QueryIds(screens: Screens) returns (ids: seq<string>)
    ensures IsListing(screens, ids)
    ensures forall id :: id in ids <==> id in screens
    ensures forall i, j | 0 <= i < j < |ids| ::
              ids[i] in screens && ids[j] in screens && screens[ids[i]].sortOrder <= screens[ids[j]].sortOrder
  {
    ids := [];
    var rest := screens.Keys;
    while rest != {}
      invariant rest <= screens.Keys
      invariant forall id | id in ids :: id in screens && id !in rest
      invariant forall id | id in screens :: id in rest || id in ids
      invariant Ascending(screens, ids)
      decreases |rest|
    {
      var id :| id in rest;
      ids := Place(screens, ids, id);
      rest := rest - {id};
    }
  }

  method Place(screens: Screens, ids: seq<string>, id: string) returns (placed: seq<string>)
    requires id in screens && id !in ids
    requires forall i | 0 <= i < |ids| :: ids[i] in screens
    requires Ascending(screens, ids)
    ensures forall x :: x in placed <==> x == id || x in ids
    ensures forall i | 0 <= i < |placed| :: placed[i] in screens
    ensures Ascending(screens, placed)
  {
    hide Before;
    var k := 0;
    while k < |ids| && Before(screens, ids[k], id)
      invariant 0 <= k <= |ids|
      invariant forall i | 0 <= i < k :: Before(screens, ids[i], id)
    {
      k := k + 1;
    }
    placed := ids[..k] + [id] + ids[k..];
    forall x
      ensures x in placed <==> x == id || x in ids
    {
      assert ids == ids[..k] + ids[k..];
    }
    forall j | k <= j < |ids|
      ensures Before(screens, id, ids[j])
    {
      BeforeIsTotal(screens, ids[k], id);
      if j > k {
        BeforeIsTransitive(screens, id, ids[k], ids[j]);
      }
    }
    forall i, j | 0 <= i < j < |placed|
      ensures Before(screens, placed[i], placed[j])
    {
      if j < k {
        assert placed[i] == ids[i] && placed[j] == ids[j];
      } else if j == k {
        assert placed[i] == ids[i];
      } else if i == k {
        assert placed[j] == ids[j - 1];
      } else if i < k {
        assert placed[i] == ids[i] && placed[j] == ids[j - 1];
      } else {
        assert placed[i] == ids[i - 1] && placed[j] == ids[j - 1];
      }
    }
  }

  // COALESCE(MAX(sort_order), -1)
  ghost predicate IsTopSort(screens: Screens, m: int) {
    && (screens == map[] ==> m == -1)
    && (screens != map[] ==> exists id :: id in screens && screens[id].sortOrder == m)
    && (forall id | id in screens :: screens[id].sortOrder <= m)
  }

  lemma TopSortIsUnique(screens: Screens, m: int, n: int)
    requires IsTopSort(screens, m) && IsTopSort(screens, n)
    ensures m == n
  {
  }

  lemma {:induction false} TopSortExists(screens: Screens)
    ensures exists m :: IsTopSort(screens, m)
    decreases |screens|
  {
    if screens == map[] {
      assert IsTopSort(screens, -1);
    } else {
      var id :| id in screens;
      var rest := screens - {id};
      assert |rest| < |screens| by {
        assert rest.Keys == screens.Keys - {id};
      }
      TopSortExists(rest);
      var m :| IsTopSort(rest, m);
      var s := screens[id].sortOrder;
      if rest == map[] || m <= s {
        assert forall x | x in screens :: x == id || x in rest;
        assert IsTopSort(screens, s);
      } else {
        var top :| top in rest && rest[top].sortOrder == m;
        assert top in screens && screens[top].sortOrder == m;
        assert forall x | x in screens :: x == id || x in rest;
        assert IsTopSort(screens, m);
      }
    }
  }

  ghost function TopSort(screens: Screens): (m: int)
    ensures IsTopSort(screens, m)
  {
    TopSortExists(screens);
    var m :| IsTopSort(screens, m);
    m
  }

  method QueryTopSort(screens: Screens) returns (m: int)
    ensures m == TopSort(screens)
  {
    var rest := screens.Keys;
    m := -1;
    var seen := false;
    ghost var from := "";
    while rest != {}
      invariant rest <= screens.Keys
      invariant !seen ==> rest == screens.Keys && m == -1
      invariant seen ==> from in screens && screens[from].sortOrder == m
      invariant forall id | id in screens && id !in rest :: screens[id].sortOrder <= m
      decreases |rest|
    {
      var id :| id in rest;
      if !seen || screens[id].sortOrder > m {
        m := screens[id].sortOrder;
        from := id;
        seen := true;
      }
      rest := rest - {id};
    }
    assert IsTopSort(screens, m);
    TopSortIsUnique(screens, m, TopSort(screens));
  }
}
