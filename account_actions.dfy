/** The server actions that write the signed-in member's activities:
    `upsertActivity` validates and normalises a form into a row and updates
    or inserts it, `deleteActivity` removes one; every write is filtered by
    `member_id` equal to the signed-in user's id. The `member_activity` table
    is held as a map from row id to row. */
module AccountActions {
  import opened Common
  import opened JsText
  import opened Forms

  /** The value `Number(s)` gives: a finite number, or NaN or an infinity. */
  datatype Num = Finite(value: real) | NotFinite

  /** The host's parsing, supplied from outside: `Number(s)`, and
      `Date.parse(s)` as milliseconds since the epoch (`None` for NaN). */
  datatype Host = Host(toNumber: string -> Num, dateParse: string -> Option<int>)

  /** A row of `member_activity` without its id; `occurredAt` is the instant
      `toISOString` writes out. */
  datatype Activity = Activity(
    memberId: string,
    activityType: string,
    distanceKm: real,
    durationMinutes: real,
    calories: real,
    notes: Option<string>,
    occurredAt: int)

  type Rows = map<string, Activity>

  /** `ActionResult`: `{ success: true }` or `{ error }`. */
  datatype ActionResult = Success | Failure(error: string)

  /** An action either returns its result or throws (a `.trim()` on a file
      entry throws a `TypeError` before anything is written). */
  datatype Outcome = Returned(result: ActionResult) | Threw

  const NotAuthenticated: string := "not_authenticated"
  const ActivityTypeRequired: string := "activity_type_required"
  /** What the store answers to an insert whose generated id is taken. */
  const DuplicateKey: string := "duplicate key value violates unique constraint \"member_activity_pkey\""
  const DefaultFallback: real := 0.0

  // ---------------------------------------------------------------------
  // Parsing the form
  // ---------------------------------------------------------------------

  /** `parseNumber(value, fallback)`: the number a string entry reads as when
      it is finite, and the fallback otherwise (a file or a missing entry
      reads as NaN). */
  function ParseNumber(value: Option<Entry>, toNumber: string -> Num, fallback: real): (r: real)
    ensures (value.Some? && value.value.Text? && toNumber(value.value.text).Finite?) ==>
      r == toNumber(value.value.text).value
    ensures !(value.Some? && value.value.Text? && toNumber(value.value.text).Finite?) ==> r == fallback
  {
    match value
    case Some(Text(s)) => (match toNumber(s) case Finite(x) => x case NotFinite => fallback)
    case _ => fallback
  }

  /** `isValidDate(value)`: false for a missing or empty entry, otherwise
      whether the date parse of its text is finite. */
  function IsValidDate(value: Option<Entry>, dateParse: string -> Option<int>): (b: bool)
    ensures b <==> value.Some? && value.value != Text("") && dateParse(ToJsString(value.value)).Some?
  {
    match value
    case None => false
    case Some(e) => if e == Text("") then false else dateParse(ToJsString(e)).Some?
  }

  /** `(formData.get("id") as string | null) || null`: an empty id is no id;
      a file, used as an id, reads as its string form. */
  function RowIdOf(value: Option<Entry>): Option<string> {
    match value
    case None => None
    case Some(Text(s)) => if s == "" then None else Some(s)
    case Some(File) => Some(ToJsString(File))
  }

  /** `(entry as string | null)?.trim() || null` for the notes. */
  function NotesOf(text: string): (r: Option<string>)
    ensures r.None? <==> AllWhitespace(text)
    ensures r.Some? ==> r.value == Trim(text) && r.value != "" && IsTrimmed(r.value)
  {
    TrimIsTrimmed(text);
    TrimEmptyIffWhitespace(text);
    if Trim(text) == "" then None else Some(Trim(text))
  }

  /** What the form turns into before anything is written: the row id and
      the payload, or the validation error, or a throw. */
  datatype Prepared = Ready(id: Option<string>, payload: Activity) | Rejected(error: string) | Throws

  /** The statements of `upsertActivity` from reading `id` to the check of
      `activity_type`, for the signed-in `userId`; `now` is the current
      instant. */
  function Prepare(form: FormData, userId: string, host: Host, now: int): Prepared {
    var rawType := Get(form, "activity_type");
    var rawNotes := Get(form, "notes");
    // `trim` of a file throws, for the type and for the notes alike; the
    // number parses between the two cannot throw, so either file throws.
    if rawType == Some(File) || rawNotes == Some(File) then Throws
    else
      var activityType := if rawType.Some? then Trim(rawType.value.text) else "";
      if activityType == "" then Rejected(ActivityTypeRequired)
      else Ready(RowIdOf(Get(form, "id")), Payload(form, userId, activityType, host, now))
  }

  /** The row `upsertActivity` writes, once `activity_type` is known. */
  function Payload(form: FormData, userId: string, activityType: string, host: Host, now: int): Activity
    requires Get(form, "notes") != Some(File)
  {
    var rawNotes := Get(form, "notes");
    var rawDate := Get(form, "occurred_at");
    Activity(userId, activityType,
             ParseNumber(Get(form, "distance_km"), host.toNumber, DefaultFallback),
             ParseNumber(Get(form, "duration_minutes"), host.toNumber, DefaultFallback),
             ParseNumber(Get(form, "calories"), host.toNumber, DefaultFallback),
             if rawNotes.Some? then NotesOf(rawNotes.value.text) else None,
             if IsValidDate(rawDate, host.dateParse) then host.dateParse(ToJsString(rawDate.value)).value else now)
  }

  // ---------------------------------------------------------------------
  // The table
  // ---------------------------------------------------------------------

  /** The row the two filters `id = id` and `member_id = memberId` select. */
  predicate Selects(rows: Rows, id: string, memberId: string) {
    id in rows && rows[id].memberId == memberId
  }

  /** `update(payload).eq("id", id).eq("member_id", memberId)`: the selected
      row, if any, takes the payload; every other row is as it was. */
  function UpdateMatching(rows: Rows, id: string, memberId: string, payload: Activity): (r: Rows)
    ensures r.Keys == rows.Keys
    ensures Selects(rows, id, memberId) ==> r[id] == payload
    ensures forall k :: k in rows && !(k == id && Selects(rows, id, memberId)) ==> r[k] == rows[k]
  {
    if Selects(rows, id, memberId) then rows[id := payload] else rows
  }

  /** `delete().eq("id", id).eq("member_id", memberId)`: the selected row, if
      any, is gone; every other row is as it was. */
  function DeleteMatching(rows: Rows, id: string, memberId: string): (r: Rows)
    ensures r.Keys == if Selects(rows, id, memberId) then rows.Keys - {id} else rows.Keys
    ensures forall k :: k in r ==> r[k] == rows[k]
  {
    if Selects(rows, id, memberId) then rows - {id} else rows
  }

  /** The rows of every member other than `memberId` are the same before and
      after: none changed, none removed, none added. */
  predicate OthersUnchanged(before: Rows, after: Rows, memberId: string) {
    && (forall k :: k in before && before[k].memberId != memberId ==> k in after && after[k] == before[k])
    && (forall k :: k in after && after[k].memberId != memberId ==> k in before && before[k] == after[k])
  }

  /** The store's `member_activity` table. A failing statement (`failure`,
      the error the store reports) changes nothing. */
  class MemberActivityTable {
    var rows: Rows

    constructor (initial: Rows)
      ensures rows == initial
    {
      rows := initial;
    }

    method Update(id: string, memberId: string, payload: Activity, failure: Option<string>)
      returns (error: Option<string>)
      modifies this
      ensures error == failure
      ensures rows == if failure.Some? then old(rows) else UpdateMatching(old(rows), id, memberId, payload)
    {
      error := failure;
      if failure.None? {
        rows := UpdateMatching(rows, id, memberId, payload);
      }
    }

    /** `insert(payload)`; `newId` is the id the store generates for the
        row, and a taken id is refused as a primary-key violation. */
    method Insert(payload: Activity, newId: string, failure: Option<string>)
      returns (error: Option<string>)
      modifies this
      ensures error == if failure.Some? then failure else if newId in old(rows) then Some(DuplicateKey) else None
      ensures rows == if error.Some? then old(rows) else old(rows)[newId := payload]
    {
      if failure.Some? {
        error := failure;
      } else if newId in rows {
        error := Some(DuplicateKey);
      } else {
        error := None;
        rows := rows[newId := payload];
      }
    }

    method Delete(id: string, memberId: string, failure: Option<string>)
      returns (error: Option<string>)
      modifies this
      ensures error == failure
      ensures rows == if failure.Some? then old(rows) else DeleteMatching(old(rows), id, memberId)
    {
      error := failure;
      if failure.None? {
        rows := DeleteMatching(rows, id, memberId);
      }
    }
  }

  // ---------------------------------------------------------------------
  // The actions
  // ---------------------------------------------------------------------

  /** What an action leaves behind: its outcome, the table, and the paths it
      revalidated. */
  datatype Effect = Effect(outcome: Outcome, rows: Rows, revalidated: seq<string>)

  /** The write an upsert makes for a prepared row: an update when there is
      an id, an insert otherwise; the store's error and the table after. */
  function Write(rows: Rows, id: Option<string>, memberId: string, payload: Activity, newId: string,
                 failure: Option<string>): (Option<string>, Rows)
  {
    if id.Some? then
      (failure, if failure.Some? then rows else UpdateMatching(rows, id.value, memberId, payload))
    else if failure.Some? then (failure, rows)
    else if newId in rows then (Some(DuplicateKey), rows)
    else (None, rows[newId := payload])
  }

  /** `upsertActivity(formData)` with `user` the session's user, `now` the
      current instant, `newId` the id an insert would get and `failure` the
      error the store reports for the write. */
  function Upsert(rows: Rows, user: Option<User>, form: FormData, host: Host, now: int,
                  newId: string, failure: Option<string>): Effect
  {
    if user.None? then Effect(Returned(Failure(NotAuthenticated)), rows, [])
    else match Prepare(form, user.value.id, host, now)
      case Throws => Effect(Threw, rows, [])
      case Rejected(e) => Effect(Returned(Failure(e)), rows, [])
      case Ready(id, payload) =>
        var (error, after) := Write(rows, id, user.value.id, payload, newId, failure);
        if error.Some? then Effect(Returned(Failure(error.value)), after, [])
        else Effect(Returned(Success), after, ["/account"])
  }

  /** `deleteActivity(id)` */
  function Remove(rows: Rows, user: Option<User>, id: string, failure: Option<string>): Effect {
    if user.None? then Effect(Returned(Failure(NotAuthenticated)), rows, [])
    else if failure.Some? then Effect(Returned(Failure(failure.value)), rows, [])
    else Effect(Returned(Success), DeleteMatching(rows, id, user.value.id), ["/account", "/"])
  }

  /** `upsertActivity(formData)`: reads the form, then updates or inserts
      through the table, and revalidates only after a write that succeeded. */
  method UpsertActivity(table: MemberActivityTable, user: Option<User>, form: FormData, host: Host,
                        now: int, newId: string, failure: Option<string>)
    returns (outcome: Outcome, revalidated: seq<string>)
    modifies table
    ensures Effect(outcome, table.rows, revalidated) == Upsert(old(table.rows), user, form, host, now, newId, failure)
  {
    revalidated := [];
    if user.None? {
      return Returned(Failure(NotAuthenticated)), revalidated;
    }
    var uid := user.value.id;

    // Reading and normalising the form, up to the `activity_type` check.
    var prepared := Prepare(form, uid, host, now);
    if prepared.Throws? {
      return Threw, revalidated;
    }
    if prepared.Rejected? {
      return Returned(Failure(prepared.error)), revalidated;
    }
    var id, payload := prepared.id, prepared.payload;

    var error: Option<string>;
    if id.Some? {
      error := table.Update(id.value, uid, payload, failure);
    } else {
      error := table.Insert(payload, newId, failure);
    }

    if error.Some? {
      return Returned(Failure(error.value)), revalidated;
    }

    revalidated := revalidated + ["/account"];
    return Returned(Success), revalidated;
  }

  /** `deleteActivity(id)`, statement by statement. */
  method DeleteActivity(table: MemberActivityTable, user: Option<User>, id: string, failure: Option<string>)
    returns (outcome: Outcome, revalidated: seq<string>)
    modifies table
    ensures Effect(outcome, table.rows, revalidated) == Remove(old(table.rows), user, id, failure)
  {
    revalidated := [];
    if user.None? {
      return Returned(Failure(NotAuthenticated)), revalidated;
    }
    var error := table.Delete(id, user.value.id, failure);
    if error.Some? {
      return Returned(Failure(error.value)), revalidated;
    }
    revalidated := revalidated + ["/account", "/"];
    return Returned(Success), revalidated;
  }

  // ---------------------------------------------------------------------
  // What the actions guarantee
  // ---------------------------------------------------------------------

  /** Without a session neither action writes anything. */
  lemma UnauthenticatedWritesNothing(rows: Rows, form: FormData, host: Host, now: int, newId: string,
                                     id: string, failure: Option<string>)
    ensures Upsert(rows, None, form, host, now, newId, failure) == Effect(Returned(Failure(NotAuthenticated)), rows, [])
    ensures Remove(rows, None, id, failure) == Effect(Returned(Failure(NotAuthenticated)), rows, [])
  {
  }

  /** A missing or blank `activity_type` is refused before any write (unless
      a file entry made the action throw first). */
  lemma ActivityTypeIsRequired(rows: Rows, user: User, form: FormData, host: Host, now: int, newId: string,
                               failure: Option<string>)
    requires Get(form, "activity_type").None?
          || (Get(form, "activity_type").value.Text? && AllWhitespace(Get(form, "activity_type").value.text))
    requires Get(form, "notes") != Some(File)
    ensures Upsert(rows, Some(user), form, host, now, newId, failure)
         == Effect(Returned(Failure(ActivityTypeRequired)), rows, [])
  {
    if Get(form, "activity_type").Some? {
      TrimEmptyIffWhitespace(Get(form, "activity_type").value.text);
    }
  }

  /** A prepared payload carries the trimmed, non-empty activity type and
      the row id as read from the form. */
  lemma PayloadTypeIsTrimmed(form: FormData, userId: string, host: Host, now: int)
    requires Prepare(form, userId, host, now).Ready?
    ensures var r := Prepare(form, userId, host, now);
      && r.id == RowIdOf(Get(form, "id"))
      && Get(form, "activity_type").Some? && Get(form, "activity_type").value.Text?
      && r.payload.activityType == Trim(Get(form, "activity_type").value.text)
      && r.payload.activityType != "" && IsTrimmed(r.payload.activityType)
  {
    var raw := Get(form, "activity_type");
    assert raw.Some? && raw.value.Text? && Trim(raw.value.text) != "";
    TrimIsTrimmed(raw.value.text);
  }

  /** The stored notes are the form's `notes` trimmed, and null exactly
      when that entry is missing or whitespace only. */
  lemma PayloadNotesAreTrimmed(form: FormData, userId: string, host: Host, now: int)
    requires Prepare(form, userId, host, now).Ready?
    ensures var p := Prepare(form, userId, host, now).payload;
      && (p.notes.None? <==> Get(form, "notes").None? || AllWhitespace(Get(form, "notes").value.text))
      && (p.notes.Some? ==> p.notes.value == Trim(Get(form, "notes").value.text))
      && (p.notes.Some? ==> p.notes.value != "" && IsTrimmed(p.notes.value))
  {
  }

  /** The occurrence instant is the parsed date when the form's date is
      valid, and the current instant otherwise. */
  lemma PayloadDateFallsBack(form: FormData, userId: string, host: Host, now: int)
    requires Prepare(form, userId, host, now).Ready?
    ensures var p := Prepare(form, userId, host, now).payload;
      && (IsValidDate(Get(form, "occurred_at"), host.dateParse) ==>
            Some(p.occurredAt) == host.dateParse(ToJsString(Get(form, "occurred_at").value)))
      && (!IsValidDate(Get(form, "occurred_at"), host.dateParse) ==> p.occurredAt == now)
  {
  }

  /** The three numeric columns are the numeric fields parsed with the
      fallback 0. */
  lemma PayloadNumbersAreParsed(form: FormData, userId: string, host: Host, now: int)
    requires Prepare(form, userId, host, now).Ready?
    ensures var p := Prepare(form, userId, host, now).payload;
      && p.distanceKm == ParseNumber(Get(form, "distance_km"), host.toNumber, 0.0)
      && p.durationMinutes == ParseNumber(Get(form, "duration_minutes"), host.toNumber, 0.0)
      && p.calories == ParseNumber(Get(form, "calories"), host.toNumber, 0.0)
  {
  }

  /** A numeric field that is not a finite number's text reads as 0. */
  lemma NonNumericFieldsReadAsZero(value: Option<Entry>, toNumber: string -> Num)
    requires value.None? || value.value.File? || toNumber(value.value.text).NotFinite?
    ensures ParseNumber(value, toNumber, DefaultFallback) == 0.0
  {
  }

  /** The payload is always the signed-in user's. */
  lemma PayloadIsOwned(form: FormData, userId: string, host: Host, now: int)
    requires Prepare(form, userId, host, now).Ready?
    ensures Prepare(form, userId, host, now).payload.memberId == userId
  {
  }

  /** A write of a payload owned by `memberId` leaves the other members'
      rows alone. */
  lemma WriteKeepsOtherMembersRows(rows: Rows, id: Option<string>, memberId: string, payload: Activity,
                                   newId: string, failure: Option<string>)
    requires payload.memberId == memberId
    ensures OthersUnchanged(rows, Write(rows, id, memberId, payload, newId, failure).1, memberId)
  {
  }

  /** Whatever the form and the store do, an upsert leaves every other
      member's rows as they were. */
  lemma UpsertKeepsOtherMembersRows(rows: Rows, user: User, form: FormData, host: Host, now: int,
                                    newId: string, failure: Option<string>)
    ensures OthersUnchanged(rows, Upsert(rows, Some(user), form, host, now, newId, failure).rows, user.id)
  {
    var prepared := Prepare(form, user.id, host, now);
    if prepared.Ready? {
      PayloadIsOwned(form, user.id, host, now);
      WriteKeepsOtherMembersRows(rows, prepared.id, user.id, prepared.payload, newId, failure);
      assert Upsert(rows, Some(user), form, host, now, newId, failure).rows
          == Write(rows, prepared.id, user.id, prepared.payload, newId, failure).1;
    }
  }

  /** With an id, the upsert is an update of the row with that id and the
      user's `member_id`, and nothing else: no row is added or removed. */
  lemma UpsertWithIdUpdates(rows: Rows, user: User, form: FormData, host: Host, now: int, newId: string)
    requires Prepare(form, user.id, host, now).Ready? && Prepare(form, user.id, host, now).id.Some?
    ensures var r := Prepare(form, user.id, host, now);
      var e := Upsert(rows, Some(user), form, host, now, newId, None);
      && e == Effect(Returned(Success), UpdateMatching(rows, r.id.value, user.id, r.payload), ["/account"])
      && e.rows.Keys == rows.Keys
  {
  }

  /** An update succeeds even when no row matches, such as an id that
      belongs to another member: that row is left alone. */
  lemma UpdateOfForeignRowSucceedsUnchanged(rows: Rows, user: User, form: FormData, host: Host, now: int,
                                            newId: string)
    requires Prepare(form, user.id, host, now).Ready? && Prepare(form, user.id, host, now).id.Some?
    requires !Selects(rows, Prepare(form, user.id, host, now).id.value, user.id)
    ensures Upsert(rows, Some(user), form, host, now, newId, None) == Effect(Returned(Success), rows, ["/account"])
  {
  }

  /** Without an id, a successful upsert adds exactly one row, the payload,
      under the new id. */
  lemma UpsertWithoutIdInserts(rows: Rows, user: User, form: FormData, host: Host, now: int, newId: string)
    requires Prepare(form, user.id, host, now).Ready? && Prepare(form, user.id, host, now).id.None?
    requires newId !in rows
    ensures var e := Upsert(rows, Some(user), form, host, now, newId, None);
      && e.outcome == Returned(Success)
      && e.rows == rows[newId := Prepare(form, user.id, host, now).payload]
      && |e.rows| == |rows| + 1
  {
  }

  /** A store error is returned as it is, and the table is unchanged. */
  lemma StoreErrorIsReturned(rows: Rows, user: User, form: FormData, host: Host, now: int, newId: string,
                             message: string)
    requires Prepare(form, user.id, host, now).Ready?
    ensures Upsert(rows, Some(user), form, host, now, newId, Some(message))
         == Effect(Returned(Failure(message)), rows, [])
  {
  }

  /** Success is reported, and the page revalidated, exactly when the
      write went through. */
  lemma SuccessOnlyAfterWrite(rows: Rows, user: Option<User>, form: FormData, host: Host, now: int,
                              newId: string, failure: Option<string>)
    ensures var e := Upsert(rows, user, form, host, now, newId, failure);
      && (e.outcome == Returned(Success) <==>
            user.Some? && Prepare(form, user.value.id, host, now).Ready? && failure.None?
            && (Prepare(form, user.value.id, host, now).id.Some? || newId !in rows))
      && (e.revalidated != [] <==> e.outcome == Returned(Success))
      && (e.outcome != Returned(Success) ==> e.rows == rows)
  {
  }

  /** `deleteActivity` removes at most the row with that id and the user's
      `member_id`, reports success exactly when the store did not fail, and
      leaves every other member's rows alone. */
  lemma RemoveOnlyOwnRow(rows: Rows, user: User, id: string, failure: Option<string>)
    ensures var e := Remove(rows, Some(user), id, failure);
      && OthersUnchanged(rows, e.rows, user.id)
      && e.rows.Keys <= rows.Keys
      && (e.outcome == Returned(Success) <==> failure.None?)
      && (failure.None? && Selects(rows, id, user.id) ==> e.rows == rows - {id})
      && (failure.Some? || !Selects(rows, id, user.id) ==> e.rows == rows)
  {
  }
}
