/** The records the spot management page handles: spots as the server sends
    them, districts, the create payload, the HTTP requests the page issues, and
    the notification it shows. */
module SpotTypes {
  import opened Wrappers

  /** A JavaScript number. Latitude and longitude are only copied, never
      computed on, so any carrier with a zero does. */
  type Number = real

  /** A spot as an element of the fetched list or as an edit draft. The list
      is untyped on the client, so every attribute may be undefined. The `id`
      is assigned by the server; the five attributes after it are edited in
      the form; the rest are filled in by the server. */
  datatype Spot = Spot(
    id: Option<string>,
    name: Option<string>,
    description: Option<string>,
    latitude: Option<Number>,
    longitude: Option<Number>,
    districtId: Option<string>,
    districtName: Option<string>,
    provinceName: Option<string>,
    address: Option<string>,
    imageUrl: Option<string>,
    createdAt: Option<string>,
    updatedAt: Option<string>,
    isDeleted: Option<bool>,
    agencies: Option<seq<string>>)

  /** The object with no attributes at all: what spreading `null` yields. */
  const NoAttributes: Spot :=
    Spot(None, None, None, None, None, None, None, None, None, None, None, None, None, None)

  /** The fresh draft the "add" button selects: empty strings, zero
      coordinates, no id and no server attributes. */
  function NewDraft(): (d: Spot)
    ensures d.id == None && !HasId(d)
    ensures ToCreatePayload(d) == CreatePayload(Some(""), Some(""), Some(0.0), Some(0.0), Some(""))
    ensures d.districtName == d.provinceName == d.address == d.imageUrl == None
    ensures d.createdAt == d.updatedAt == None && d.isDeleted == None && d.agencies == None
  {
    NoAttributes.(name := Some(""), description := Some(""), latitude := Some(0.0),
                  longitude := Some(0.0), districtId := Some(""))
  }

  /** JavaScript truthiness of `spot.id`: it is falsy exactly when the id is
      undefined or the empty string. */
  predicate HasId(s: Spot): (b: bool)
    ensures !b <==> s.id == None || s.id == Some("")
  {
    s.id.Some? && s.id.value != ""
  }

  /** A district as `GET /districts` returns it, with whatever further
      attributes the server sends. */
  datatype DistrictRecord = DistrictRecord(id: string, name: string, attributes: map<string, string>)

  /** A district as the page keeps it for the district selector. */
  datatype District = District(id: string, name: string)

  /** The `{id, name}` projection the initial load applies to each district. */
  function ProjectDistricts(records: seq<DistrictRecord>): (r: seq<District>)
    ensures |r| == |records|
    ensures forall i :: 0 <= i < |r| ==> r[i].id == records[i].id && r[i].name == records[i].name
  {
    seq(|records|, i requires 0 <= i < |records| => District(records[i].id, records[i].name))
  }

  /** The body of `POST /spots`: exactly these five attributes. */
  datatype CreatePayload = CreatePayload(
    name: Option<string>,
    description: Option<string>,
    latitude: Option<Number>,
    longitude: Option<Number>,
    districtId: Option<string>)

  /** The create payload built from a draft: its five form attributes,
      copied as they are, whether defined or not. */
  function ToCreatePayload(s: Spot): (p: CreatePayload)
    ensures p.name == s.name && p.description == s.description
    ensures p.latitude == s.latitude && p.longitude == s.longitude
    ensures p.districtId == s.districtId
  {
    CreatePayload(s.name, s.description, s.latitude, s.longitude, s.districtId)
  }

  /** Two drafts give the same create payload exactly when they agree on the
      five client-edited attributes: the id and the server attributes are
      stripped. */
  lemma CreatePayloadKeepsFiveAttributes(a: Spot, b: Spot)
    ensures ToCreatePayload(a) == ToCreatePayload(b) <==>
      (a.name == b.name && a.description == b.description && a.latitude == b.latitude &&
       a.longitude == b.longitude && a.districtId == b.districtId)
  {
  }

  /** The requests the page sends to the backend. */
  datatype Request =
    | GetSpots
    | GetDistricts
    | PutSpot(id: string, body: Spot)
    | PostSpot(payload: CreatePayload)
    | DeleteSpot(id: string)

  /** The write a save issues for the selected spot: an update of the whole
      object keyed by its id when the id is truthy, otherwise a create with the
      restricted payload. */
  function SaveRequest(s: Spot): (r: Request)
    ensures r.PutSpot? <==> HasId(s)
    ensures r.PostSpot? <==> !HasId(s)
    ensures r.PutSpot? ==> Some(r.id) == s.id && r.body == s
    ensures r.PostSpot? ==> r.payload == CreatePayload(s.name, s.description, s.latitude, s.longitude, s.districtId)
  {
    if HasId(s) then PutSpot(s.id.value, s) else PostSpot(ToCreatePayload(s))
  }

  /** The alert colours of the notification. */
  datatype Severity = Success | Error | Info | Warning

  /** The notification texts, as distinct constants; `NoMessage` is the
      initial empty text. */
  datatype Message =
    | NoMessage
    | DeleteSucceeded
    | DeleteFailed
    | UpdateSucceeded
    | CreateSucceeded
    | SaveFailed
}
