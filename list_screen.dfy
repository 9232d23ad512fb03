/**
 * The activity list screen (src/screens/ActivitiesListScreen.tsx): its state,
 * `applyFilters` (narrow, then sort, then publish as `filtered`),
 * `toggleFavorite` and the category colour lookup.
 */
module ListScreen {
  import opened Wrappers
  import opened Text
  import opened ActivityModel
  import opened ListFilters
  import opened ListSort
  import opened ListFavorites

  /** What `applyFilters` publishes: the narrowed list, sorted when the mode is one of the three known ones. */
  function Pipeline(acts: seq<Entry>, st: Settings, now: Millis, loc: Locale): seq<Entry> {
    var narrowed := Narrow(acts, st, now, loc);
    match OrderOf(st.sortMode)
    case Some(order) => InsertionSort(narrowed, order, loc)
    case None => narrowed
  }

  /**
   * The result is a reordering of a sub-multiset of the loaded activities:
   * every copy of each activity that passes all filters, and nothing else.
   */
  lemma PipelineCount(acts: seq<Entry>, st: Settings, now: Millis, loc: Locale, x: Entry)
    ensures multiset(Pipeline(acts, st, now, loc))[x] == if Admits(st, now, loc, x) then multiset(acts)[x] else 0
  {
    NarrowCount(acts, st, now, loc, x);
    if OrderOf(st.sortMode).Some? {
      SortPermutes(Narrow(acts, st, now, loc), OrderOf(st.sortMode).value, loc);
    }
  }

  lemma PipelineSubMultiset(acts: seq<Entry>, st: Settings, now: Millis, loc: Locale)
    ensures multiset(Pipeline(acts, st, now, loc)) <= multiset(acts)
  {
    forall x ensures multiset(Pipeline(acts, st, now, loc))[x] <= multiset(acts)[x] {
      PipelineCount(acts, st, now, loc, x);
    }
  }

  /** Each element shown passes every active filter, and every one that does and was loaded is shown. */
  lemma PipelineMembership(acts: seq<Entry>, st: Settings, now: Millis, loc: Locale, x: Entry)
    ensures x in Pipeline(acts, st, now, loc) <==> x in acts && Admits(st, now, loc, x)
  {
    PipelineCount(acts, st, now, loc, x);
    assert x in Pipeline(acts, st, now, loc) <==> multiset(Pipeline(acts, st, now, loc))[x] > 0;
    assert x in acts <==> multiset(acts)[x] > 0;
  }

  /** "newest" shows times in non-increasing order. */
  lemma PipelineNewest(acts: seq<Entry>, st: Settings, now: Millis, loc: Locale)
    requires st.sortMode == "newest"
    ensures var r := Pipeline(acts, st, now, loc);
      forall i, j :: 0 <= i < j < |r| ==> r[i].activity.time >= r[j].activity.time
  {
    var narrowed := Narrow(acts, st, now, loc);
    assert OrderOf(st.sortMode) == Some(Newest);
    NewestDescending(narrowed, loc, Pipeline(acts, st, now, loc));
  }

  /** "oldest" shows times in non-decreasing order. */
  lemma PipelineOldest(acts: seq<Entry>, st: Settings, now: Millis, loc: Locale)
    requires st.sortMode == "oldest"
    ensures var r := Pipeline(acts, st, now, loc);
      forall i, j :: 0 <= i < j < |r| ==> r[i].activity.time <= r[j].activity.time
  {
    var narrowed := Narrow(acts, st, now, loc);
    assert OrderOf(st.sortMode) == Some(Oldest);
    OldestAscending(narrowed, loc, Pipeline(acts, st, now, loc));
  }

  /** "az" shows names in `localeCompare` order. */
  lemma PipelineAlphabetical(acts: seq<Entry>, st: Settings, now: Millis, loc: Locale)
    requires st.sortMode == "az" && CompareConsistent(loc.localeCompare)
    ensures var r := Pipeline(acts, st, now, loc);
      forall i, j :: 0 <= i < j < |r| ==> loc.localeCompare(r[i].activity.name, r[j].activity.name) <= 0
  {
    var narrowed := Narrow(acts, st, now, loc);
    assert OrderOf(st.sortMode) == Some(Alphabetical);
    NamesAscending(narrowed, loc, Pipeline(acts, st, now, loc));
  }

  /** Any other sort key keeps the filtered order. */
  lemma PipelineUnknownModeKeepsOrder(acts: seq<Entry>, st: Settings, now: Millis, loc: Locale)
    requires st.sortMode != "newest" && st.sortMode != "oldest" && st.sortMode != "az"
    ensures Pipeline(acts, st, now, loc) == Narrow(acts, st, now, loc)
  {
  }

  /** The distance setting is a placeholder: it has no effect on the result. */
  lemma PipelineIgnoresDistance(acts: seq<Entry>, st: Settings, now: Millis, loc: Locale, d: string)
    ensures Pipeline(acts, st.(distance := d), now, loc) == Pipeline(acts, st, now, loc)
  {
  }

  /** The four filter steps of `applyFilters`, each a loop over the list the previous one left. */
  method NarrowList(activities: seq<Entry>, st: Settings, now: Millis, loc: Locale) returns (list: seq<Entry>)
    ensures list == Narrow(activities, st, now, loc)
  {
    list := activities;
    if !IsBlank(st.searchQuery) {
      var q := Lower(st.searchQuery, loc.lower);
      list := KeepWhere(list, TextSearch(q), loc);
    }
    if st.favoritesOnly {
      list := KeepWhere(list, Favorites, loc);
    }
    if st.category != "all" {
      list := KeepWhere(list, InCategory(st.category), loc);
    }
    if st.dateFilter != "all" {
      list := KeepWhere(list, DateWindow(st.dateFilter, now), loc);
    }
  }

  /** The body of `applyFilters`: successive filters on a copy of the list, then an in-place sort. */
  method FilterAndSort(activities: seq<Entry>, st: Settings, now: Millis, loc: Locale) returns (list: seq<Entry>)
    ensures list == Pipeline(activities, st, now, loc)
  {
    list := NarrowList(activities, st, now, loc);
    var order := OrderOf(st.sortMode);
    if order.Some? {
      list := SortList(list, order.value, loc);
    }
  }

  /** The save a favourite toggle issues. */
  datatype FavoriteCall = AddFavorite(id: string) | RemoveFavorite(id: string)

  /** `CATEGORY_COLORS`: the tag background of each known category. */
  const CategoryColors: map<string, string> :=
    map["liikunta" := "#DCFCE7", "kulttuuri" := "#FEF3C7", "yhteisö" := "#DBEAFE"]

  /** `CATEGORY_COLORS[category] || CATEGORY_COLORS['yhteisö']`: unknown categories get the "yhteisö" colour. */
  function CategoryColor(category: string): (c: string)
    ensures c in CategoryColors.Values
    ensures category in CategoryColors ==> c == CategoryColors[category]
    ensures category !in CategoryColors ==> c == CategoryColors["yhteisö"]
  {
    if category in CategoryColors then CategoryColors[category] else CategoryColors["yhteisö"]
  }

  /** The screen's state: the loaded activities, the list on display, and the filter settings. */
  class ActivitiesList {
    var activities: seq<Entry>
    var filtered: seq<Entry>
    var searchQuery: string
    var favoritesOnly: bool
    var category: string
    var distance: string
    var dateFilter: string
    var sortMode: string

    function CurrentSettings(): Settings
      reads this
    {
      Settings(searchQuery, favoritesOnly, category, distance, dateFilter, sortMode)
    }

    /** The state before anything is loaded. */
    constructor ()
      ensures activities == [] && filtered == []
      ensures CurrentSettings() == InitialSettings
    {
      activities, filtered := [], [];
      searchQuery, favoritesOnly := "", false;
      category, distance, dateFilter, sortMode := "all", "all", "all", "newest";
    }

    /** The load effect: a successful fetch replaces both lists; a failed one leaves them. */
    method Load(fetched: Option<seq<Entry>>)
      modifies this`activities, this`filtered
      ensures fetched.Some? ==> activities == fetched.value && filtered == fetched.value
      ensures fetched.None? ==> activities == old(activities) && filtered == old(filtered)
    {
      if fetched.Some? {
        activities := fetched.value;
        filtered := fetched.value;
      }
    }

    /** The search box and filter chips writing their state. */
    method ChangeSettings(st: Settings)
      modifies this`searchQuery, this`favoritesOnly, this`category, this`distance, this`dateFilter, this`sortMode
      ensures CurrentSettings() == st
    {
      searchQuery, favoritesOnly := st.searchQuery, st.favoritesOnly;
      category, distance, dateFilter, sortMode := st.category, st.distance, st.dateFilter, st.sortMode;
    }

    /** `applyFilters`: only `filtered` changes; the loaded `activities` are never mutated. */
    method ApplyFilters(now: Millis, loc: Locale)
      modifies this`filtered
      ensures filtered == Pipeline(activities, CurrentSettings(), now, loc)
    {
      filtered := FilterAndSort(activities, CurrentSettings(), now, loc);
    }

    /**
     * `toggleFavorite`: an unknown id does nothing; otherwise the flag of the
     * id is flipped, the matching save is issued, and when `saveFails` the flip
     * is rolled back.
     */
    method ToggleFavorite(activityId: string, saveFails: bool) returns (call: Option<FavoriteCall>)
      modifies this`activities
      ensures FindById(old(activities), activityId).None? ==> call == None && activities == old(activities)
      ensures FindById(old(activities), activityId).Some? ==>
        call == Some(if NewFlag(old(activities), activityId) then AddFavorite(activityId) else RemoveFavorite(activityId))
      ensures activities == if saveFails then RolledBack(old(activities), activityId) else Toggled(old(activities), activityId)
    {
      var current := FindById(activities, activityId);
      if current.None? {
        return None;
      }
      var newFav := !IsFav(current.value);
      activities := SetFavorite(activities, activityId, newFav);
      call := Some(if newFav then AddFavorite(activityId) else RemoveFavorite(activityId));
      if saveFails {
        activities := SetFavorite(activities, activityId, !newFav);
      }
    }
  }
}
