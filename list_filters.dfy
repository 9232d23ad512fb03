/**
 * The narrowing half of the activity list's `applyFilters`
 * (src/screens/ActivitiesListScreen.tsx): text search, favourites only,
 * category and date window, each applied to the list left by the previous one.
 */
module ListFilters {
  import opened Wrappers
  import opened Text
  import opened ActivityModel

  /** A row of the list: an activity plus the optional favourite flag the screen keeps beside it. */
  datatype Entry = Entry(activity: Activity, isFavorite: Option<bool>)

  /** JavaScript truthiness of `isFavorite`: a missing flag counts as not favourite. */
  predicate IsFav(e: Entry) {
    e.isFavorite == Some(true)
  }

  /**
   * What the screen takes from the JavaScript platform and does not define
   * itself: the case mapping of `toLowerCase`, the calendar day of
   * `toDateString` in the device's time zone, and `String.prototype.localeCompare`.
   */
  datatype Locale = Locale(lower: char -> char, day: Millis -> int, localeCompare: (string, string) -> int)

  /** `1000 * 3600 * 24`: one day in milliseconds. */
  const DayMs: int := 1000 * 3600 * 24

  /** The screen's filter state: search text, the favourites switch, and the category, distance, date and sort keys. */
  datatype Settings = Settings(
    searchQuery: string,
    favoritesOnly: bool,
    category: string,
    distance: string,
    dateFilter: string,
    sortMode: string)

  /** The state the screen starts in: every filter off, newest first. */
  const InitialSettings := Settings("", false, "all", "all", "all", "newest")

  /** One `list.filter(...)` predicate; `TextSearch` carries the already lower-cased query. */
  datatype Criterion =
    | TextSearch(query: string)
    | Favorites
    | InCategory(category: string)
    | DateWindow(key: string, now: Millis)

  predicate Meets(e: Entry, c: Criterion, loc: Locale) {
    match c
    case TextSearch(q) =>
      Contains(Lower(e.activity.name, loc.lower), q) || Contains(Lower(e.activity.description, loc.lower), q)
    case Favorites => IsFav(e)
    case InCategory(cat) => e.activity.category == cat
    case DateWindow(key, now) =>
      if key == "today" then loc.day(e.activity.time) == loc.day(now)
      else if key == "week" then 0 <= e.activity.time - now <= 7 * DayMs
      else true
  }

  /** `s.filter(e => Meets(e, c))`: the elements meeting `c`, in their original order. */
  function Filter(s: seq<Entry>, c: Criterion, loc: Locale): (r: seq<Entry>)
    ensures |r| <= |s|
  {
    if s == [] then []
    else Filter(s[..|s| - 1], c, loc) + (if Meets(s[|s| - 1], c, loc) then [s[|s| - 1]] else [])
  }

  /** Filtering keeps every copy of an element that meets the criterion and drops every copy of one that does not. */
  lemma {:induction false} FilterCount(s: seq<Entry>, c: Criterion, loc: Locale, x: Entry)
    ensures multiset(Filter(s, c, loc))[x] == if Meets(x, c, loc) then multiset(s)[x] else 0
  {
    if s != [] {
      var init, last := s[..|s| - 1], s[|s| - 1];
      FilterCount(init, c, loc, x);
      assert s == init + [last];
    }
  }

  /** An element is in the filtered list exactly when it is in the list and meets the criterion. */
  lemma FilterMembership(s: seq<Entry>, c: Criterion, loc: Locale, x: Entry)
    ensures x in Filter(s, c, loc) <==> x in s && Meets(x, c, loc)
  {
    FilterCount(s, c, loc, x);
    assert x in Filter(s, c, loc) <==> multiset(Filter(s, c, loc))[x] > 0;
    assert x in s <==> multiset(s)[x] > 0;
  }

  /** A criterion every element meets removes nothing. */
  lemma {:induction false} FilterKeepsAll(s: seq<Entry>, c: Criterion, loc: Locale)
    requires forall i :: 0 <= i < |s| ==> Meets(s[i], c, loc)
    ensures Filter(s, c, loc) == s
  {
    if s != [] {
      var init, last := s[..|s| - 1], s[|s| - 1];
      assert s == init + [last];
      assert forall i :: 0 <= i < |init| ==> init[i] == s[i];
      FilterKeepsAll(init, c, loc);
      FilterSnoc(init, last, c, loc);
      assert Meets(last, c, loc);
    }
  }

  /** Applying two filters in either order gives the same list. */
  lemma {:induction false} FilterCommutes(s: seq<Entry>, a: Criterion, b: Criterion, loc: Locale)
    ensures Filter(Filter(s, a, loc), b, loc) == Filter(Filter(s, b, loc), a, loc)
  {
    if s != [] {
      var init, last := s[..|s| - 1], s[|s| - 1];
      FilterCommutes(init, a, b, loc);
      var fa, fb := Filter(init, a, loc), Filter(init, b, loc);
      assert Filter(s, a, loc) == fa + (if Meets(last, a, loc) then [last] else []);
      assert Filter(s, b, loc) == fb + (if Meets(last, b, loc) then [last] else []);
      if Meets(last, a, loc) { FilterSnoc(fa, last, b, loc); } else { assert fa + [] == fa; }
      if Meets(last, b, loc) { FilterSnoc(fb, last, a, loc); } else { assert fb + [] == fb; }
    }
  }

  lemma FilterSnoc(s: seq<Entry>, x: Entry, c: Criterion, loc: Locale)
    ensures Filter(s + [x], c, loc) == Filter(s, c, loc) + (if Meets(x, c, loc) then [x] else [])
  {
    assert (s + [x])[..|s|] == s;
  }

  /** One step of `applyFilters`: `if (active) list = list.filter(...)`. */
  function Stage(s: seq<Entry>, active: bool, c: Criterion, loc: Locale): seq<Entry> {
    if active then Filter(s, c, loc) else s
  }

  /** The list left after the four filters of `applyFilters`, in the order the source applies them. */
  function Narrow(acts: seq<Entry>, st: Settings, now: Millis, loc: Locale): seq<Entry> {
    var bySearch := Stage(acts, !IsBlank(st.searchQuery), TextSearch(Lower(st.searchQuery, loc.lower)), loc);
    var byFavorite := Stage(bySearch, st.favoritesOnly, Favorites, loc);
    var byCategory := Stage(byFavorite, st.category != "all", InCategory(st.category), loc);
    Stage(byCategory, st.dateFilter != "all", DateWindow(st.dateFilter, now), loc)
  }

  lemma StageCount(s: seq<Entry>, active: bool, c: Criterion, loc: Locale, x: Entry)
    ensures multiset(Stage(s, active, c, loc))[x] == if !active || Meets(x, c, loc) then multiset(s)[x] else 0
  {
    if active { FilterCount(s, c, loc, x); }
  }

  /** The search condition: a blank query admits everything, any other query must occur (untrimmed) in the name or description. */
  predicate SearchAdmits(st: Settings, loc: Locale, e: Entry) {
    IsBlank(st.searchQuery) || Meets(e, TextSearch(Lower(st.searchQuery, loc.lower)), loc)
  }

  /** All four conditions of `applyFilters`, joined by AND. */
  predicate Admits(st: Settings, now: Millis, loc: Locale, e: Entry) {
    && SearchAdmits(st, loc, e)
    && (st.favoritesOnly ==> IsFav(e))
    && (st.category != "all" ==> e.activity.category == st.category)
    && (st.dateFilter != "all" ==> Meets(e, DateWindow(st.dateFilter, now), loc))
  }

  /**
   * The narrowed list is a sub-multiset of the loaded one: it holds every copy
   * of each activity that passes all four conditions and nothing else.
   */
  lemma NarrowCount(acts: seq<Entry>, st: Settings, now: Millis, loc: Locale, x: Entry)
    ensures multiset(Narrow(acts, st, now, loc))[x] == if Admits(st, now, loc, x) then multiset(acts)[x] else 0
  {
    var bySearch := Stage(acts, !IsBlank(st.searchQuery), TextSearch(Lower(st.searchQuery, loc.lower)), loc);
    var byFavorite := Stage(bySearch, st.favoritesOnly, Favorites, loc);
    var byCategory := Stage(byFavorite, st.category != "all", InCategory(st.category), loc);
    StageCount(acts, !IsBlank(st.searchQuery), TextSearch(Lower(st.searchQuery, loc.lower)), loc, x);
    StageCount(bySearch, st.favoritesOnly, Favorites, loc, x);
    StageCount(byFavorite, st.category != "all", InCategory(st.category), loc, x);
    StageCount(byCategory, st.dateFilter != "all", DateWindow(st.dateFilter, now), loc, x);
  }

  /** Every element of the narrowed list comes from the loaded list and passes all four conditions, and conversely. */
  lemma NarrowMembership(acts: seq<Entry>, st: Settings, now: Millis, loc: Locale, x: Entry)
    ensures x in Narrow(acts, st, now, loc) <==> x in acts && Admits(st, now, loc, x)
  {
    NarrowCount(acts, st, now, loc, x);
    assert x in Narrow(acts, st, now, loc) <==> multiset(Narrow(acts, st, now, loc))[x] > 0;
    assert x in acts <==> multiset(acts)[x] > 0;
  }

  /** A query made only of white space leaves the search switched off. */
  lemma BlankQueryKeepsAll(acts: seq<Entry>, st: Settings, now: Millis, loc: Locale)
    requires AllWhiteSpace(st.searchQuery)
    ensures Narrow(acts, st, now, loc) == Narrow(acts, st.(searchQuery := ""), now, loc)
  {
    TrimEmptyIff(st.searchQuery);
  }

  /**
   * A non-blank query keeps an activity exactly when the lower-cased query,
   * white space included, occurs in the lower-cased name or description.
   */
  lemma SearchAdmitsIff(st: Settings, loc: Locale, e: Entry)
    requires !AllWhiteSpace(st.searchQuery)
    ensures SearchAdmits(st, loc, e) <==>
      var q := Lower(st.searchQuery, loc.lower);
      (exists i :: OccursAt(Lower(e.activity.name, loc.lower), q, i))
      || (exists i :: OccursAt(Lower(e.activity.description, loc.lower), q, i))
  {
    TrimEmptyIff(st.searchQuery);
    var q := Lower(st.searchQuery, loc.lower);
    ContainsIff(Lower(e.activity.name, loc.lower), q);
    ContainsIff(Lower(e.activity.description, loc.lower), q);
  }

  /** An activity whose name or description contains the query literally is never removed by the search. */
  lemma LiteralMatchAdmitted(st: Settings, loc: Locale, e: Entry, i: int)
    requires OccursAt(e.activity.name, st.searchQuery, i) || OccursAt(e.activity.description, st.searchQuery, i)
    ensures SearchAdmits(st, loc, e)
  {
    if OccursAt(e.activity.name, st.searchQuery, i) {
      FoundIgnoringCase(e.activity.name, st.searchQuery, i, loc.lower);
    } else {
      FoundIgnoringCase(e.activity.description, st.searchQuery, i, loc.lower);
    }
  }

  /** The week window admits exactly the activities from now up to seven days ahead; past ones are out. */
  lemma WeekWindow(e: Entry, now: Millis, loc: Locale)
    ensures Meets(e, DateWindow("week", now), loc) <==> now <= e.activity.time <= now + 604800000
  {
  }

  /** With every filter switched off, as in the screen's initial settings, nothing is removed. */
  lemma FiltersOffKeepAll(acts: seq<Entry>, st: Settings, now: Millis, loc: Locale)
    requires AllWhiteSpace(st.searchQuery) && !st.favoritesOnly && st.category == "all" && st.dateFilter == "all"
    ensures Narrow(acts, st, now, loc) == acts
  {
    TrimEmptyIff(st.searchQuery);
  }

  /** `list.filter(e => Meets(e, c))` as the loop that builds the new array element by element. */
  method KeepWhere(list: seq<Entry>, c: Criterion, loc: Locale) returns (r: seq<Entry>)
    ensures r == Filter(list, c, loc)
  {
    r := [];
    var i := 0;
    while i < |list|
      invariant 0 <= i <= |list|
      invariant r == Filter(list[..i], c, loc)
    {
      if Meets(list[i], c, loc) {
        r := r + [list[i]];
      }
      assert list[..i + 1][..i] == list[..i];
      i := i + 1;
    }
    assert list[..|list|] == list;
  }
}
