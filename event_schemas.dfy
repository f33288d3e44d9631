/** Request bodies for the event routes and their validators. A body that a
    validator rejects never reaches a handler (the framework answers 422). */
module EventSchemas {
  import opened Outcomes
  import opened EventModel

  const MinTitleLength: nat := 1
  const MaxTitleLength: nat := 200

  predicate ValidTitle(title: string) {
    MinTitleLength <= |title| <= MaxTitleLength
  }

  /** Body of `POST /events`: every field required. */
  datatype EventCreate = EventCreate(title: string, start: Time, end: Time)

  /** The title bound and "end_time must be after start_time". */
  predicate ValidCreate(data: EventCreate) {
    ValidTitle(data.title) && data.start < data.end
  }

  /** Body of `PUT /events/{id}`: every field optional (`None` = not sent),
      and `status` may be any of the three statuses. */
  datatype EventUpdate = EventUpdate(
    title: Option<string>,
    start: Option<Time>,
    end: Option<Time>,
    status: Option<EventStatus>)

  /** A title, when sent, obeys the bound; the end is compared with the start
      only when both are sent in the same patch. */
  predicate ValidUpdate(patch: EventUpdate) {
    && (patch.title.Some? ==> ValidTitle(patch.title.value))
    && (patch.start.Some? && patch.end.Some? ==> patch.start.value < patch.end.value)
  }

  /** One (field, value) item of `model_dump(exclude_unset=True)`. */
  datatype FieldValue =
    | TitleField(title: string)
    | StartField(start: Time)
    | EndField(end: Time)
    | StatusField(status: EventStatus)

  /** The position of a field in the declaration of `EventUpdate`. */
  function Position(f: FieldValue): nat {
    match f
    case TitleField(_) => 0
    case StartField(_) => 1
    case EndField(_) => 2
    case StatusField(_) => 3
  }

  /** The patch sent this field with this value. */
  predicate Sent(patch: EventUpdate, f: FieldValue) {
    match f
    case TitleField(v) => patch.title == Some(v)
    case StartField(v) => patch.start == Some(v)
    case EndField(v) => patch.end == Some(v)
    case StatusField(v) => patch.status == Some(v)
  }

  /** How many fields the patch sent. */
  function SentCount(patch: EventUpdate): nat {
    (if patch.title.Some? then 1 else 0) + (if patch.start.Some? then 1 else 0)
    + (if patch.end.Some? then 1 else 0) + (if patch.status.Some? then 1 else 0)
  }

  /** `model_dump(exclude_unset=True)`: exactly the fields that were sent, with
      their values, each once, in declaration order. */
  function SetFields(patch: EventUpdate): (fields: seq<FieldValue>)
    ensures forall i :: 0 <= i < |fields| ==> Sent(patch, fields[i])
    ensures forall i, j :: 0 <= i < j < |fields| ==> Position(fields[i]) < Position(fields[j])
    ensures |fields| == SentCount(patch)
  {
    (if patch.title.Some? then [TitleField(patch.title.value)] else [])
    + (if patch.start.Some? then [StartField(patch.start.value)] else [])
    + (if patch.end.Some? then [EndField(patch.end.value)] else [])
    + (if patch.status.Some? then [StatusField(patch.status.value)] else [])
  }

  /** A patch that sends every column is validated as a create body is; one
      that leaves out the start or the end is never compared, whatever it sends. */
  lemma UpdateSchemaAgreesWithCreate(title: string, start: Time, end: Time, status: Option<EventStatus>)
    ensures ValidUpdate(EventUpdate(Some(title), Some(start), Some(end), status))
            <==> ValidCreate(EventCreate(title, start, end))
    ensures ValidUpdate(EventUpdate(Some(title), None, Some(end), status)) <==> ValidTitle(title)
    ensures ValidUpdate(EventUpdate(Some(title), Some(start), None, status)) <==> ValidTitle(title)
  {
  }
}
