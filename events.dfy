/** Projection of an incoming platform event into a row of its category's raw table.

    An event names its category in `endpoint`. A `profile:source` event
    becomes a `source_metrics` row, a `profile:gate` event a `gate_metrics`
    row; any other endpoint yields no row. The two boolean columns follow
    PHP's strict comparison: only the JSON value `true` gives `true`.
 */
module Events {
  import opened Aggregation

  const SourceEndpoint := "profile:source"
  const GateEndpoint := "profile:gate"

  datatype Option<T> = None | Some(value: T)

  /** A JSON value as decoded from the event payload. */
  datatype Json = JNull | JBool(b: bool) | JInt(i: int) | JString(s: string)

  /** The `source` object: its `name` and its optional `tags.sso` value. */
  datatype Source = Source(name: string, ssoTag: Option<Json>)

  /** The `gate` object: its `name` and its `pass` value. */
  datatype Gate = Gate(name: string, pass: Json)

  /** The category-specific nested object the event carries. */
  datatype Payload = SourcePayload(source: Source) | GatePayload(gate: Gate) | NoPayload

  /** An incoming event: `endpoint`, `credential.id`, `action`, `created` and its payload. */
  datatype Event = Event(endpoint: string, credentialId: int, action: string, created: nat, payload: Payload)

  /** Columns of a `source_metrics` row other than `created_at`. */
  datatype SourceAttrs = SourceAttrs(credentialId: int, provider: string, sso: bool, action: string)

  /** Columns of a `gate_metrics` row other than `created_at`. */
  datatype GateAttrs = GateAttrs(credentialId: int, name: string, pass: bool, action: string)

  /** The single insert an event turns into. */
  datatype Insert = IntoSource(sourceRow: Raw<SourceAttrs>) | IntoGate(gateRow: Raw<GateAttrs>)

  /** The precondition of the recorder: an event carries the nested object
      its endpoint reads. Rejection of other endpoints never depends on the
      payload, so an event for any other endpoint is acceptable whatever it
      carries. */
  predicate WellFormed(e: Event)
    ensures e.endpoint != SourceEndpoint && e.endpoint != GateEndpoint ==> WellFormed(e)
  {
    (e.endpoint == SourceEndpoint ==> e.payload.SourcePayload?) &&
    (e.endpoint == GateEndpoint ==> e.payload.GatePayload?)
  }

  /** PHP isset(): present and not null. */
  predicate IsSet(v: Option<Json>)
    ensures v.None? ==> !IsSet(v)
    ensures v == Some(JNull) ==> !IsSet(v)
    ensures v.Some? && v.value.JBool? ==> IsSet(v)
  {
    v.Some? && v.value != JNull
  }

  /** PHP `v === true`: identical type and value. */
  predicate StrictlyTrue(v: Json)
    ensures StrictlyTrue(v) <==> v == JBool(true)
  {
    v.JBool? && v.b
  }

  /** `isset(tags.sso) && tags.sso === true ? true : false`. */
  function SsoFlag(s: Source): (sso: bool)
    ensures sso <==> s.ssoTag == Some(JBool(true))
    ensures s.ssoTag.None? ==> !sso
  {
    IsSet(s.ssoTag) && StrictlyTrue(s.ssoTag.value)
  }

  /** `gate.pass === true ?: false`. */
  function PassFlag(g: Gate): (pass: bool)
    ensures pass <==> g.pass == JBool(true)
  {
    StrictlyTrue(g.pass)
  }

  /** The endpoint switch of the event recorder: the row to insert, or none. */
  function Route(e: Event): (ins: Option<Insert>)
    requires WellFormed(e)
    ensures ins.None? <==> e.endpoint != SourceEndpoint && e.endpoint != GateEndpoint
    ensures ins.Some? && ins.value.IntoSource? <==> e.endpoint == SourceEndpoint
    ensures ins.Some? && ins.value.IntoGate? <==> e.endpoint == GateEndpoint
    ensures ins.Some? && ins.value.IntoSource? ==>
              var row := ins.value.sourceRow;
              row.createdAt == e.created &&
              row.attrs.credentialId == e.credentialId &&
              row.attrs.provider == e.payload.source.name &&
              row.attrs.action == e.action &&
              (row.attrs.sso <==> e.payload.source.ssoTag == Some(JBool(true)))
    ensures ins.Some? && ins.value.IntoGate? ==>
              var row := ins.value.gateRow;
              row.createdAt == e.created &&
              row.attrs.credentialId == e.credentialId &&
              row.attrs.name == e.payload.gate.name &&
              row.attrs.action == e.action &&
              (row.attrs.pass <==> e.payload.gate.pass == JBool(true))
  {
    if e.endpoint == SourceEndpoint then
      var source := e.payload.source;
      Some(IntoSource(Raw(SourceAttrs(e.credentialId, source.name, SsoFlag(source), e.action), e.created)))
    else if e.endpoint == GateEndpoint then
      var gate := e.payload.gate;
      Some(IntoGate(Raw(GateAttrs(e.credentialId, gate.name, PassFlag(gate), e.action), e.created)))
    else
      None
  }
}
