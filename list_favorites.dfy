/**
 * `toggleFavorite` of the activity list (src/screens/ActivitiesListScreen.tsx):
 * an optimistic flip of one activity's favourite flag in the in-memory list,
 * rolled back when persisting the change fails.
 */
module ListFavorites {
  import opened Wrappers
  import opened ListFilters

  /** Position `k` holds the first entry whose id is `id`. */
  predicate FirstWithId(s: seq<Entry>, id: string, k: int) {
    0 <= k < |s| && s[k].activity.id == id && forall j :: 0 <= j < k ==> s[j].activity.id != id
  }

  /** `activities.find(a => a.id === id)`. */
  function FindById(s: seq<Entry>, id: string): (r: Option<Entry>)
    ensures r.None? <==> forall k :: 0 <= k < |s| ==> s[k].activity.id != id
    ensures r.Some? ==> exists k :: FirstWithId(s, id, k) && s[k] == r.value
  {
    if s == [] then None
    else if s[0].activity.id == id then
      assert FirstWithId(s, id, 0);
      Some(s[0])
    else
      var r := FindById(s[1..], id);
      if r.Some? then
        var k :| FirstWithId(s[1..], id, k) && s[1..][k] == r.value;
        assert FirstWithId(s, id, k + 1);
        r
      else r
  }

  /** `prev.map(a => a.id === id ? { ...a, isFavorite: flag } : a)`. */
  function SetFavorite(s: seq<Entry>, id: string, flag: bool): seq<Entry> {
    seq(|s|, k requires 0 <= k < |s| => if s[k].activity.id == id then s[k].(isFavorite := Some(flag)) else s[k])
  }

  /** A second update of the same id overwrites the first: the rollback leaves only its own flag. */
  lemma SetFavoriteOverwrites(s: seq<Entry>, id: string, first: bool, second: bool)
    ensures SetFavorite(SetFavorite(s, id, first), id, second) == SetFavorite(s, id, second)
  {
  }

  /** Updating an id no entry has changes nothing. */
  lemma SetFavoriteAbsent(s: seq<Entry>, id: string, flag: bool)
    requires forall k :: 0 <= k < |s| ==> s[k].activity.id != id
    ensures SetFavorite(s, id, flag) == s
  {
  }

  /** The flag `toggleFavorite` writes: the negation of the first match's truthiness. */
  function NewFlag(s: seq<Entry>, id: string): bool
    requires FindById(s, id).Some?
  {
    !IsFav(FindById(s, id).value)
  }

  /** The list after the optimistic update; an unknown id leaves it alone. */
  function Toggled(s: seq<Entry>, id: string): seq<Entry> {
    if FindById(s, id).None? then s else SetFavorite(s, id, NewFlag(s, id))
  }

  /** The list after the optimistic update and the rollback that follows a failed save. */
  function RolledBack(s: seq<Entry>, id: string): seq<Entry> {
    if FindById(s, id).None? then s else SetFavorite(SetFavorite(s, id, NewFlag(s, id)), id, !NewFlag(s, id))
  }

  /** After a failed save the list is a single update of the id to `!newFav`, as if the optimistic one never happened. */
  lemma RollbackIsOneUpdate(s: seq<Entry>, id: string)
    requires FindById(s, id).Some?
    ensures RolledBack(s, id) == SetFavorite(s, id, !NewFlag(s, id))
  {
    SetFavoriteOverwrites(s, id, NewFlag(s, id), !NewFlag(s, id));
  }

  /** Every entry with this id has the same truthiness, as when ids are unique. */
  predicate FlagsAgree(s: seq<Entry>, id: string) {
    forall j, k :: 0 <= j < |s| && 0 <= k < |s| && s[j].activity.id == id && s[k].activity.id == id ==> IsFav(s[j]) == IsFav(s[k])
  }

  predicate UniqueIds(s: seq<Entry>) {
    forall j, k :: 0 <= j < k < |s| ==> s[j].activity.id != s[k].activity.id
  }

  lemma UniqueIdsAgree(s: seq<Entry>, id: string)
    requires UniqueIds(s)
    ensures FlagsAgree(s, id)
  {
  }

  /** Toggling an id that is not in the list changes nothing. */
  lemma ToggleAbsent(s: seq<Entry>, id: string)
    requires forall k :: 0 <= k < |s| ==> s[k].activity.id != id
    ensures Toggled(s, id) == s && RolledBack(s, id) == s
  {
  }

  /**
   * Toggling flips the truthiness of every entry with the id and changes no
   * other flag, no activity field, and neither the length nor the order.
   */
  lemma ToggleFlips(s: seq<Entry>, id: string)
    requires FlagsAgree(s, id)
    ensures |Toggled(s, id)| == |s|
    ensures forall k :: 0 <= k < |s| ==> Toggled(s, id)[k].activity == s[k].activity
    ensures forall k :: 0 <= k < |s| && s[k].activity.id == id ==> IsFav(Toggled(s, id)[k]) == !IsFav(s[k])
    ensures forall k :: 0 <= k < |s| && s[k].activity.id != id ==> Toggled(s, id)[k] == s[k]
  {
    if FindById(s, id).Some? {
      var k0 :| FirstWithId(s, id, k0) && s[k0] == FindById(s, id).value;
      var r := Toggled(s, id);
      forall k | 0 <= k < |s| && s[k].activity.id != id ensures r[k] == s[k] {
        assert r[k].activity == s[k].activity && r[k].isFavorite == s[k].isFavorite;
      }
    }
  }

  /**
   * A failed save restores every entry's truthiness: entries with the id end
   * with an explicit flag equal to their original truthiness, all others are untouched.
   */
  lemma RollbackRestores(s: seq<Entry>, id: string)
    requires FlagsAgree(s, id)
    ensures |RolledBack(s, id)| == |s|
    ensures forall k :: 0 <= k < |s| ==> RolledBack(s, id)[k].activity == s[k].activity
    ensures forall k :: 0 <= k < |s| && s[k].activity.id == id ==> RolledBack(s, id)[k].isFavorite == Some(IsFav(s[k]))
    ensures forall k :: 0 <= k < |s| && s[k].activity.id != id ==> RolledBack(s, id)[k] == s[k]
  {
    if FindById(s, id).Some? {
      var k0 :| FirstWithId(s, id, k0) && s[k0] == FindById(s, id).value;
      var r := RolledBack(s, id);
      forall k | 0 <= k < |s| && s[k].activity.id != id ensures r[k] == s[k] {
        assert r[k].activity == s[k].activity && r[k].isFavorite == s[k].isFavorite;
      }
    }
  }

  /** With two entries sharing an id but not a flag, the rollback does not restore the list. */
  lemma RollbackNeedsAgreeingFlags(e: Entry)
    ensures var s := [e.(isFavorite := Some(false)), e.(isFavorite := Some(true))];
      !FlagsAgree(s, e.activity.id) && RolledBack(s, e.activity.id)[1].isFavorite == Some(false)
  {
    var s := [e.(isFavorite := Some(false)), e.(isFavorite := Some(true))];
    var id := e.activity.id;
    assert FindById(s, id) == Some(s[0]);
    assert !(IsFav(s[0]) == IsFav(s[1]));
    var t := SetFavorite(s, id, true);
    assert SetFavorite(t, id, false)[1].isFavorite == Some(false);
  }
}
