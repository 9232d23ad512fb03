/**
 * The create/edit form (src/screens/CreateActivityScreen.tsx): its state,
 * loading an activity to edit, the map tap, the date picker and the
 * submission rules of `handleSubmit`.
 */
module CreateForm {
  import opened Wrappers
  import opened Text
  import opened ActivityModel

  /** The form's location; either coordinate may still be unset (`null`). */
  datatype FormLocation = FormLocation(latitude: Option<real>, longitude: Option<real>)

  /** JavaScript truthiness of a coordinate: `null` and `0` are both falsy. */
  predicate IsSet(c: Option<real>) {
    c.Some? && c.value != 0.0
  }

  /** `isEditing = !!activityId`: an absent or empty id means create mode. */
  predicate IsEditingId(activityId: Option<string>) {
    activityId.Some? && activityId.value != ""
  }

  /** The record `createActivity` receives: no id, no creator, no participants. */
  datatype Draft = Draft(name: string, description: string, category: string, time: Millis, location: Location)

  /** The record `updateActivity` receives: the activity without its participants. */
  datatype Revision = Revision(id: string, draft: Draft, creatorId: Option<string>)

  /** Why a submission was refused: a blank name or description, or no location picked. */
  datatype Rejection = MissingFields | MissingLocation

  /** The outcome of `handleSubmit`: an alert, or exactly one of the two saves. */
  datatype Submission = Rejected(reason: Rejection) | Create(draft: Draft) | Update(revision: Revision)

  /** The `useState` fields of the form. */
  datatype FormState = FormState(
    name: string,
    description: string,
    category: string,
    location: FormLocation,
    date: Millis,
    original: Option<Activity>)

  /** The record both saves are built from (`base`), defined once both coordinates are set. */
  function Base(st: FormState): Draft
    requires st.location.latitude.Some? && st.location.longitude.Some?
  {
    Draft(Trim(st.name), Trim(st.description), st.category, st.date,
          Location(st.location.latitude.value, st.location.longitude.value))
  }

  /** The draft an accepted submission saves. */
  function DraftOf(s: Submission): Draft
    requires !s.Rejected?
  {
    match s
    case Create(d) => d
    case Update(r) => r.draft
  }

  /**
   * `handleSubmit`: the name/description check comes first, the location
   * check second; an accepted form updates when editing with a loaded
   * original and creates otherwise.
   */
  function HandleSubmit(isEditing: bool, st: FormState): (s: Submission)
    ensures s == Rejected(MissingFields) <==> IsBlank(st.name) || IsBlank(st.description)
    ensures s == Rejected(MissingLocation) <==>
      !IsBlank(st.name) && !IsBlank(st.description) && !(IsSet(st.location.latitude) && IsSet(st.location.longitude))
    ensures s.Update? <==> !s.Rejected? && isEditing && st.original.Some?
    ensures s.Update? ==> s.revision.id == st.original.value.id && s.revision.creatorId == st.original.value.creatorId
    ensures !s.Rejected? ==> IsSet(st.location.latitude) && IsSet(st.location.longitude) && DraftOf(s) == Base(st)
  {
    if IsBlank(st.name) || IsBlank(st.description) then Rejected(MissingFields)
    else if !IsSet(st.location.latitude) || !IsSet(st.location.longitude) then Rejected(MissingLocation)
    else if isEditing && st.original.Some? then Update(Revision(st.original.value.id, Base(st), st.original.value.creatorId))
    else Create(Base(st))
  }

  /**
   * A saved record has a name and a description that are neither blank nor
   * padded with white space, and two non-zero coordinates.
   */
  lemma SavedDraftIsNormalised(isEditing: bool, st: FormState)
    requires !HandleSubmit(isEditing, st).Rejected?
    ensures var d := DraftOf(HandleSubmit(isEditing, st));
      && d.name != [] && !IsWhiteSpace(d.name[0]) && !IsWhiteSpace(d.name[|d.name| - 1]) && Trim(d.name) == d.name
      && d.description != [] && !IsWhiteSpace(d.description[0]) && !IsWhiteSpace(d.description[|d.description| - 1])
      && Trim(d.description) == d.description
      && d.location.latitude != 0.0 && d.location.longitude != 0.0
  {
    TrimIdempotent(st.name);
    TrimIdempotent(st.description);
  }

  /** A field of white space only is refused, whatever the location. */
  lemma WhiteSpaceNameRejected(isEditing: bool, st: FormState)
    requires AllWhiteSpace(st.name)
    ensures HandleSubmit(isEditing, st) == Rejected(MissingFields)
  {
    TrimEmptyIff(st.name);
  }

  /** A coordinate of exactly 0, such as a point on the equator, is refused like a missing one. */
  lemma ZeroCoordinateRejected(isEditing: bool, st: FormState)
    requires !IsBlank(st.name) && !IsBlank(st.description)
    requires st.location.latitude == Some(0.0) || st.location.longitude == Some(0.0)
    ensures HandleSubmit(isEditing, st) == Rejected(MissingLocation)
  {
  }

  /** Edit mode whose activity never loaded falls back to creating a new one. */
  lemma EditingWithoutOriginalCreates(st: FormState)
    requires st.original.None?
    requires !IsBlank(st.name) && !IsBlank(st.description)
    requires IsSet(st.location.latitude) && IsSet(st.location.longitude)
    ensures HandleSubmit(true, st) == Create(Base(st))
  {
  }

  /** The form state `load` leaves after finding `act`. */
  function Loaded(act: Activity): FormState {
    FormState(act.name, act.description, act.category,
              FormLocation(Some(act.location.latitude), Some(act.location.longitude)), act.time, Some(act))
  }

  /**
   * Loading an activity and submitting without edits saves it back: an update
   * with its own id, creator and fields, for an activity whose name and
   * description are already trimmed and whose coordinates are non-zero.
   */
  lemma LoadThenSubmitRoundTrip(act: Activity)
    requires act.name != [] && Trim(act.name) == act.name
    requires act.description != [] && Trim(act.description) == act.description
    requires act.location.latitude != 0.0 && act.location.longitude != 0.0
    ensures HandleSubmit(true, Loaded(act)) ==
      Update(Revision(act.id, Draft(act.name, act.description, act.category, act.time, act.location), act.creatorId))
  {
  }

  /** What the edit screen's fetch produced. */
  datatype LoadResult = Found(activity: Activity) | NotFound | LoadFailed

  /** The form of the create/edit screen. */
  class ActivityForm {
    const activityId: Option<string>
    const isEditing: bool
    var name: string
    var description: string
    var category: string
    var location: FormLocation
    var date: Millis
    var original: Option<Activity>

    function State(): FormState
      reads this
    {
      FormState(name, description, category, location, date, original)
    }

    /** The initial form; `now` is the `new Date()` the date field starts from. */
    constructor (activityId: Option<string>, presetLat: Option<real>, presetLon: Option<real>, now: Millis)
      ensures this.activityId == activityId
      ensures isEditing <==> IsEditingId(activityId)
      ensures State() == FormState("", "", "liikunta", FormLocation(presetLat, presetLon), now, None)
    {
      this.activityId := activityId;
      isEditing := IsEditingId(activityId);
      name, description, category := "", "", "liikunta";
      location := FormLocation(presetLat, presetLon);
      date := now;
      original := None;
    }

    /**
     * The load effect of edit mode: a found activity is copied into the form;
     * a missing one sends the user back; a failed fetch changes nothing.
     * In create mode the effect returns at once.
     */
    method Load(result: LoadResult) returns (goBack: bool)
      modifies this
      ensures !isEditing ==> !goBack && State() == old(State())
      ensures isEditing && result.Found? ==> !goBack && State() == Loaded(result.activity)
      ensures isEditing && result.NotFound? ==> goBack && State() == old(State())
      ensures result.LoadFailed? ==> !goBack && State() == old(State())
    {
      goBack := false;
      if !isEditing {
        return;
      }
      match result
      case Found(act) =>
        original := Some(act);
        name := act.name;
        description := act.description;
        category := act.category;
        date := act.time;
        location := FormLocation(Some(act.location.latitude), Some(act.location.longitude));
      case NotFound =>
        goBack := true;
      case LoadFailed =>
    }

    /** A tap on the map replaces the location with the tapped coordinate. */
    method OnMapPress(latitude: real, longitude: real)
      modifies this`location
      ensures location == FormLocation(Some(latitude), Some(longitude))
    {
      location := FormLocation(Some(latitude), Some(longitude));
    }

    /** The date picker: a picked date replaces the field, a dismissed picker leaves it. */
    method HandleChange(selected: Option<Millis>)
      modifies this`date
      ensures date == selected.GetOr(old(date))
    {
      if selected.Some? {
        date := selected.value;
      }
    }

    /** `handleSubmit` on the current fields; the form itself does not change. */
    method Submit() returns (s: Submission)
      ensures s == HandleSubmit(isEditing, State())
    {
      s := HandleSubmit(isEditing, FormState(name, description, category, location, date, original));
    }
  }
}
