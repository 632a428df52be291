/**
  * The Heritage Circuits explorer page: the dynasty buttons, the dynasty
  * filter and the backend search over `sites_info.json`, with the fallback
  * taken when reading or filtering raises.
  */
module Explorer {
  import opened Base
  import opened Text
  import opened Seqs
  import opened Records

  /** Placeholder dynasty buttons shown when the archive cannot be read. */
  const FallbackCategories: seq<string> := ["Chola", "Pandya", "Pallava", "Nayak"]

  /** The template context of `explorer.html`, less the request object. */
  datatype ExplorerView = ExplorerView(
    sites: seq<Site>,
    categories: seq<string>,
    activeFilter: string,
    searchQuery: Option<string>)

  // ---------------------------------------------------------------------
  // Dynasty buttons: sorted(set(truthy categories))
  // ---------------------------------------------------------------------

  predicate StrictlyAscending(xs: seq<string>) {
    forall i, j :: 0 <= i < j < |xs| ==> LexLess(xs[i], xs[j])
  }

  /** The category of a record when `site.get("category")` is truthy. */
  function TruthyCategory(s: Site): Option<string> {
    if s.category.Text? && s.category.value != "" then Some(s.category.value) else None
  }

  /** Some record of `sites` has the truthy category `c`. */
  predicate HasCategory(sites: seq<Site>, c: string) {
    exists k :: 0 <= k < |sites| && TruthyCategory(sites[k]) == Some(c)
  }

  /** Places `x` into an ascending list unless it is already there. */
  function InsertSorted(x: string, xs: seq<string>): seq<string> {
    if xs == [] then [x]
    else if x == xs[0] then xs
    else if LexLess(x, xs[0]) then [x] + xs
    else [xs[0]] + InsertSorted(x, xs[1..])
  }

  lemma {:induction false} InsertSortedFacts(x: string, xs: seq<string>)
    requires StrictlyAscending(xs)
    ensures StrictlyAscending(InsertSorted(x, xs))
    ensures forall y :: y in InsertSorted(x, xs) <==> y == x || y in xs
    decreases |xs|
  {
    if xs != [] && x != xs[0] {
      if LexLess(x, xs[0]) {
        var r := [x] + xs;
        forall i, j | 0 <= i < j < |r| ensures LexLess(r[i], r[j]) {
          if i == 0 && j > 1 {
            LexLessTransitive(x, xs[0], xs[j - 1]);
          }
        }
      } else {
        LexLessTotal(x, xs[0]);
        InsertSortedFacts(x, xs[1..]);
        var rest := InsertSorted(x, xs[1..]);
        var r := [xs[0]] + rest;
        forall i, j | 0 <= i < j < |r| ensures LexLess(r[i], r[j]) {
          if i == 0 {
            assert r[j] in rest;
            if r[j] != x {
              var k :| 1 <= k < |xs| && xs[k] == r[j];
            }
          }
        }
      }
    }
  }

  /** `sorted(set(site.get("category") for site in all_sites if site.get("category")))`. */
  function Categories(sites: seq<Site>): seq<string> {
    if sites == [] then []
    else
      match TruthyCategory(sites[0])
      case None => Categories(sites[1..])
      case Some(c) => InsertSorted(c, Categories(sites[1..]))
  }

  /** The buttons are ascending without repeats, and are exactly the truthy categories of the archive. */
  lemma {:induction false} CategoriesSortedSet(sites: seq<Site>)
    ensures StrictlyAscending(Categories(sites))
    ensures forall c :: c in Categories(sites) <==> HasCategory(sites, c)
    decreases |sites|
  {
    if sites != [] {
      CategoriesSortedSet(sites[1..]);
      var rest := Categories(sites[1..]);
      if TruthyCategory(sites[0]).Some? {
        InsertSortedFacts(TruthyCategory(sites[0]).value, rest);
      }
      forall c ensures c in Categories(sites) <==> HasCategory(sites, c) {
        if HasCategory(sites, c) {
          var k :| 0 <= k < |sites| && TruthyCategory(sites[k]) == Some(c);
          if k > 0 {
            assert TruthyCategory(sites[1..][k - 1]) == Some(c);
          }
        }
        if HasCategory(sites[1..], c) {
          var k :| 0 <= k < |sites[1..]| && TruthyCategory(sites[1..][k]) == Some(c);
          assert TruthyCategory(sites[k + 1]) == Some(c);
        }
      }
    }
  }

  /** An ascending list without repeats is determined by its elements: `sorted(set(...))` has one answer. */
  lemma {:induction false} AscendingListIsUnique(a: seq<string>, b: seq<string>)
    requires StrictlyAscending(a) && StrictlyAscending(b)
    requires forall x :: x in a <==> x in b
    ensures a == b
    decreases |a|
  {
    assert b != [] ==> b[0] in a;
    if a != [] {
      assert a[0] in b;
      assert b != [] && b[0] in a;
      if a[0] != b[0] {
        var i :| 0 <= i < |a| && a[i] == b[0];
        var j :| 0 <= j < |b| && b[j] == a[0];
        LexLessTransitive(a[0], b[0], a[0]);
        LexLessIrreflexive(a[0]);
      }
      forall x ensures x in a[1..] <==> x in b[1..] {
        if x in a[1..] {
          var i :| 1 <= i < |a| && a[i] == x;
          assert LexLess(a[0], x);
          LexLessIrreflexive(x);
          assert x in a && x in b;
          var j :| 0 <= j < |b| && b[j] == x;
          assert j != 0 && b[1..][j - 1] == x;
        }
        if x in b[1..] {
          var j :| 1 <= j < |b| && b[j] == x;
          assert LexLess(b[0], x);
          LexLessIrreflexive(x);
          assert x in b && x in a;
          var i :| 0 <= i < |a| && a[i] == x;
          assert i != 0 && a[1..][i - 1] == x;
        }
      }
      AscendingListIsUnique(a[1..], b[1..]);
      assert a == [a[0]] + a[1..] && b == [b[0]] + b[1..];
    }
  }

  // ---------------------------------------------------------------------
  // Filters
  // ---------------------------------------------------------------------

  /** `s.get("category", "").lower() == dynasty.lower()`; `None` when the category is null and `.lower()` raises. */
  function DynastyMatches(s: Site, dynasty: string): Option<bool> {
    match Get(s.category, "")
    case None => None
    case Some(c) => Some(Lower(c) == Lower(dynasty))
  }

  /**
    * `query in s.get("name", "").lower() or query in s.get("district", "").lower()`
    * for an already lowered `query`: the district is read only when the name
    * does not match, and a null that is read raises.
    */
  function SearchHit(s: Site, query: string): Option<bool> {
    match Get(s.name, "")
    case None => None
    case Some(n) =>
      if Contains(Lower(n), query) then Some(true)
      else
        match Get(s.district, "")
        case None => None
        case Some(d) => Some(Contains(Lower(d), query))
  }

  function DynastyTest(dynasty: string): Site -> Option<bool> {
    s => DynastyMatches(s, dynasty)
  }

  function SearchTest(query: string): Site -> Option<bool> {
    s => SearchHit(s, query)
  }

  /** The dynasty filter is applied for a truthy dynasty other than the exact string "All". */
  predicate DynastyActive(dynasty: Option<string>) {
    Truthy(dynasty) && dynasty.value != "All"
  }

  /** The sites shown, or `None` when the `try` block raises. */
  function Shown(data: Store<Site>, dynasty: Option<string>, search: Option<string>): Option<seq<Site>> {
    if data.Unparsable? then None
    else
      var all := data.ItemsOrEmpty();
      var byDynasty := if DynastyActive(dynasty) then FilterOrFail(all, DynastyTest(dynasty.value)) else Some(all);
      if byDynasty.None? then None
      else if Truthy(search) then FilterOrFail(byDynasty.value, SearchTest(Lower(search.value)))
      else byDynasty
  }

  /** `explorer_home(dynasty, search)` over the archive `data`. */
  function ExplorerHome(data: Store<Site>, dynasty: Option<string>, search: Option<string>): (v: ExplorerView)
    ensures v.activeFilter == (if Truthy(dynasty) then dynasty.value else "All")
    ensures v.searchQuery == search
    ensures Shown(data, dynasty, search).None? ==> v.sites == [] && v.categories == FallbackCategories
  {
    var active := if Truthy(dynasty) then dynasty.value else "All";
    match Shown(data, dynasty, search)
    case None => ExplorerView([], FallbackCategories, active, search)
    case Some(ss) => ExplorerView(ss, Categories(data.ItemsOrEmpty()), active, search)
  }

  // ---------------------------------------------------------------------
  // Properties of the page
  // ---------------------------------------------------------------------

  /** A record the page keeps: it passes the dynasty filter when one is active, and the search when one is given. */
  predicate Selected(s: Site, dynasty: Option<string>, search: Option<string>) {
    && (DynastyActive(dynasty) ==> DynastyMatches(s, dynasty.value) == Some(true))
    && (Truthy(search) ==> SearchHit(s, Lower(search.value)) == Some(true))
  }

  function SelectedBy(dynasty: Option<string>, search: Option<string>): Site -> bool {
    s => Selected(s, dynasty, search)
  }

  /**
    * When nothing raises, the page lists exactly the selected records of the
    * archive, in archive order, under the sorted distinct truthy categories.
    */
  lemma ExplorerListsSelectedSites(data: Store<Site>, dynasty: Option<string>, search: Option<string>)
    requires Shown(data, dynasty, search).Some?
    ensures var v := ExplorerHome(data, dynasty, search);
      && data != Unparsable
      && v.sites == Filter(data.ItemsOrEmpty(), SelectedBy(dynasty, search))
      && (forall s :: s in v.sites <==> s in data.ItemsOrEmpty() && Selected(s, dynasty, search))
      && StrictlyAscending(v.categories)
      && (forall c :: c in v.categories <==> HasCategory(data.ItemsOrEmpty(), c))
  {
    var all := data.ItemsOrEmpty();
    var sel := SelectedBy(dynasty, search);
    var shown := Shown(data, dynasty, search).value;
    if DynastyActive(dynasty) {
      var dt := DynastyTest(dynasty.value);
      FilterOrFailIsFilter(all, dt);
      if Truthy(search) {
        var st := SearchTest(Lower(search.value));
        FilterOrFailIsFilter(Filter(all, Holds(dt)), st);
        FilterOfFilter(all, Holds(dt), Holds(st));
        FilterCongruent(all, Both(Holds(dt), Holds(st)), sel);
      } else {
        FilterCongruent(all, Holds(dt), sel);
      }
    } else if Truthy(search) {
      var st := SearchTest(Lower(search.value));
      FilterOrFailIsFilter(all, st);
      FilterCongruent(all, Holds(st), sel);
    } else {
      FilterAll(all, sel);
    }
    assert shown == Filter(all, sel);
    FilterMembers(all, sel);
    CategoriesSortedSet(all);
  }

  /** An active dynasty filter that meets a null category raises. */
  lemma NullCategoryRaises(data: Store<Site>, dynasty: Option<string>, search: Option<string>, k: nat)
    requires DynastyActive(dynasty) && k < |data.ItemsOrEmpty()| && data.ItemsOrEmpty()[k].category.Null?
    ensures Shown(data, dynasty, search).None?
  {
    assert DynastyTest(dynasty.value)(data.ItemsOrEmpty()[k]).None?;
  }

  /** A search that reads a null name of a record the dynasty filter kept raises. */
  lemma NullNameRaises(data: Store<Site>, dynasty: Option<string>, search: Option<string>, k: nat)
    requires Truthy(search) && k < |data.ItemsOrEmpty()| && data.ItemsOrEmpty()[k].name.Null?
    requires DynastyActive(dynasty) ==> DynastyMatches(data.ItemsOrEmpty()[k], dynasty.value) == Some(true)
    ensures Shown(data, dynasty, search).None?
  {
    var all := data.ItemsOrEmpty();
    var st := SearchTest(Lower(search.value));
    assert st(all[k]).None?;
    if DynastyActive(dynasty) {
      var dt := DynastyTest(dynasty.value);
      if FilterOrFail(all, dt).Some? {
        FilterOrFailIsFilter(all, dt);
        FilterMembers(all, Holds(dt));
        var kept := FilterOrFail(all, dt).value;
        assert all[k] in kept;
        var j :| 0 <= j < |kept| && kept[j] == all[k];
        assert st(kept[j]).None?;
      }
    }
  }

  /**
    * The page falls back to no sites and the placeholder buttons when the
    * archive does not parse, when an active dynasty filter meets a null
    * category, or when the search reads a null name of a record the dynasty
    * filter kept.
    */
  lemma ExplorerFallsBack(data: Store<Site>, dynasty: Option<string>, search: Option<string>)
    ensures var v := ExplorerHome(data, dynasty, search);
      && (data.Unparsable? ==> v.sites == [] && v.categories == FallbackCategories)
      && ((DynastyActive(dynasty) && exists k :: 0 <= k < |data.ItemsOrEmpty()| && data.ItemsOrEmpty()[k].category.Null?)
          ==> v.sites == [] && v.categories == FallbackCategories)
      && ((Truthy(search) && exists k :: 0 <= k < |data.ItemsOrEmpty()| && data.ItemsOrEmpty()[k].name.Null?
                                          && (DynastyActive(dynasty) ==> DynastyMatches(data.ItemsOrEmpty()[k], dynasty.value) == Some(true)))
          ==> v.sites == [] && v.categories == FallbackCategories)
  {
    var all := data.ItemsOrEmpty();
    if DynastyActive(dynasty) && (exists k :: 0 <= k < |all| && all[k].category.Null?) {
      var k :| 0 <= k < |all| && all[k].category.Null?;
      NullCategoryRaises(data, dynasty, search, k);
    }
    if Truthy(search) && exists k :: 0 <= k < |all| && all[k].name.Null? && (DynastyActive(dynasty) ==> DynastyMatches(all[k], dynasty.value) == Some(true)) {
      var k :| 0 <= k < |all| && all[k].name.Null? && (DynastyActive(dynasty) ==> DynastyMatches(all[k], dynasty.value) == Some(true));
      NullNameRaises(data, dynasty, search, k);
    }
  }

  /** The dynasty filter ignores letter case: dynasties equal up to case show the same page. */
  lemma DynastyIgnoresCase(data: Store<Site>, d1: string, d2: string, search: Option<string>)
    requires Lower(d1) == Lower(d2)
    requires DynastyActive(Some(d1)) && DynastyActive(Some(d2))
    ensures ExplorerHome(data, Some(d1), search).sites == ExplorerHome(data, Some(d2), search).sites
    ensures ExplorerHome(data, Some(d1), search).categories == ExplorerHome(data, Some(d2), search).categories
  {
    FilterOrFailCongruent(data.ItemsOrEmpty(), DynastyTest(d1), DynastyTest(d2));
  }

  /**
    * Only the exact string "All" (or no dynasty) disables the filter: with
    * no search, every record of a readable archive is shown.
    */
  lemma NoFilterShowsArchive(data: Store<Site>, dynasty: Option<string>, search: Option<string>)
    requires !data.Unparsable?
    requires !DynastyActive(dynasty) && !Truthy(search)
    ensures ExplorerHome(data, dynasty, search).sites == data.ItemsOrEmpty()
    ensures ExplorerHome(data, dynasty, search).activeFilter == "All"
  {
  }
}
