/**
 * The backend's shared constants: HTTP status codes, message texts and the
 * two response-envelope builders `RESPONSE_TEMPLATES.ERROR` and
 * `RESPONSE_TEMPLATES.SUCCESS`.
 */
module Constants {
  import opened Results
  import Js

  // HTTP_STATUS
  const OK: int := 200
  const CREATED: int := 201
  const BAD_REQUEST: int := 400
  const NOT_FOUND: int := 404
  const CONFLICT: int := 409
  const INTERNAL_SERVER_ERROR: int := 500

  // ERROR_MESSAGES and SUCCESS_MESSAGES used by the model
  const RESTAURANT_NOT_FOUND: string := "Restaurant not found"
  const RESTAURANT_ALREADY_EXISTS: string := "Restaurant already exists"
  const RESTAURANT_DELETED: string := "Restaurant deleted successfully"

  /** An optional string argument as JavaScript sees it: absent is `undefined`. */
  function ArgValue(x: Option<string>): Js.Value {
    match x
    case None => Js.Undefined
    case Some(s) => Js.Str(s)
  }

  /** `RESPONSE_TEMPLATES.ERROR(message, details?)`: `{error: message}` with a
      `details` entry only when `details` is a non-empty string. */
  function ErrorEnvelope(message: string, details: Option<string>): (o: map<string, Js.Value>)
    ensures "error" in o && o["error"] == Js.Str(message)
    ensures "details" in o <==> details.Some? && details.value != ""
    ensures "details" in o ==> o["details"] == Js.Str(details.value)
    ensures o.Keys <= {"error", "details"}
  {
    var d := ArgValue(details);
    Js.ConditionalEntry("details", d);
    map["error" := Js.Str(message)] + Js.Spread(Js.And(d, Js.Obj(map["details" := d])))
  }

  /** `RESPONSE_TEMPLATES.SUCCESS(message, data?)`: `{message}` with a `data`
      entry only when `data` is truthy; an absent `data` is `undefined`. */
  function SuccessEnvelope(message: string, data: Js.Value): (o: map<string, Js.Value>)
    ensures "message" in o && o["message"] == Js.Str(message)
    ensures "data" in o <==> Js.Truthy(data)
    ensures "data" in o ==> o["data"] == data
    ensures o.Keys <= {"message", "data"}
  {
    Js.ConditionalEntry("data", data);
    map["message" := Js.Str(message)] + Js.Spread(Js.And(data, Js.Obj(map["data" := data])))
  }

  /** Without details the error envelope is exactly `{error: message}`, the
      body the controller writes by hand in its catch blocks. */
  lemma ErrorEnvelopeWithoutDetails(message: string)
    ensures ErrorEnvelope(message, None) == map["error" := Js.Str(message)]
    ensures ErrorEnvelope(message, Some("")) == map["error" := Js.Str(message)]
  {
  }
}
