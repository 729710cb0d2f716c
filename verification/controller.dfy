/**
 * The four Express handlers of `restaurant.controller.ts` as step functions
 * from a request and the store to the writes the handler makes and the new
 * store. The service layer delegates one-to-one, so the handlers call the
 * repository directly.
 *
 * A handler's writes are listed in the order it attempts them; the client
 * receives the first. After the 404 in update and delete the handler does not
 * return, so it writes again: Express refuses that second write
 * (ERR_HTTP_HEADERS_SENT), the catch block attempts its own write, and that
 * one is refused too.
 */
module RestaurantController {
  import opened Results
  import Js
  import opened Constants
  import opened Schema
  import opened Store
  import Repo = RestaurantRepository

  /** A JSON response body. */
  datatype Body =
    | Json(fields: map<string, Js.Value>)  // an object literal
    | Row(row: Restaurant)                 // one model instance
    | Rows(rows: seq<Restaurant>)          // an array of model instances
    | NullBody                             // `res.json(null)`

  /** One `res.status(code).json(body)`; `res.json(body)` alone keeps the
      status set so far, 200 by default. */
  datatype Write = Write(status: int, body: Body)

  datatype Outcome = Outcome(writes: seq<Write>, store: Store)

  const DUPLICATE_NAME: string := "A restaurant with this name already exists."
  const HEADERS_SENT: string := "Cannot set headers after they are sent to the client"

  /** `{error: message}`. */
  function ErrorBody(message: string): (b: Body)
    ensures b == Json(ErrorEnvelope(message, None))
    ensures b.Json? && b.fields.Keys == {"error"} && b.fields["error"] == Js.Str(message)
  {
    ErrorEnvelopeWithoutDetails(message);
    Json(map["error" := Js.Str(message)])
  }

  /** `{message: text}`. */
  function MessageBody(text: string): (b: Body)
    ensures b == Json(SuccessEnvelope(text, Js.Undefined))
  {
    var e := SuccessEnvelope(text, Js.Undefined);
    assert e.Keys == {"message"};
    assert e == map["message" := Js.Str(text)];
    Json(map["message" := Js.Str(text)])
  }

  /** What the client receives: the first write. */
  function Sent(o: Outcome): Write
    requires o.writes != []
  {
    o.writes[0]
  }

  /** `getAllRestaurants`: the full listing with the default status, or 500
      with the error's message. */
  function GetAllRestaurants(s: Store, fault: Option<string>): (o: Outcome)
    requires Valid(s)
    ensures o.store == s && |o.writes| == 1
    ensures fault.None? ==> (o.writes[0].status == OK && o.writes[0].body.Rows?
      && (forall x :: x in o.writes[0].body.rows <==> Stored(s, x))
      && |o.writes[0].body.rows| == |s.rows|)
    ensures fault.Some? ==> o.writes[0] == Write(INTERNAL_SERVER_ERROR, ErrorBody(fault.value))
  {
    match Repo.GetAll(s, fault)
    case Ok(rows) => Outcome([Write(OK, Rows(rows))], s)
    case Err(e) => Outcome([Write(INTERNAL_SERVER_ERROR, ErrorBody(Message(e)))], s)
  }

  /** The creation data `{name, ...address, ...restOfBody}`: entries written
      later replace earlier ones with the same key. */
  function Flatten(body: map<string, Js.Value>): (data: map<string, Js.Value>)
    ensures "name" in data
    ensures forall k | k != "name" && k != "address" && k in body :: k in data && data[k] == body[k]
    ensures forall k | k in data && k != "name" && k !in body :: k in Js.Spread(Js.Get(body, "address")) && data[k] == Js.Spread(Js.Get(body, "address"))[k]
    ensures forall k | k in Js.Spread(Js.Get(body, "address")) && k != "name" && (k !in body || k == "address") ::
      k in data && data[k] == Js.Spread(Js.Get(body, "address"))[k]
    ensures data.Keys == {"name"} + Js.Spread(Js.Get(body, "address")).Keys + (body.Keys - {"name", "address"})
    ensures data["name"] == if "name" in Js.Spread(Js.Get(body, "address")) then Js.Spread(Js.Get(body, "address"))["name"] else Js.Get(body, "name")
  {
    var name := Js.Get(body, "name");
    var address := Js.Get(body, "address");
    var restOfBody := body - {"name", "address"};
    map["name" := name] + Js.Spread(address) + restOfBody
  }

  /** `createRestaurant`: 409 when a row already has the body's name, 201 with
      the new row on success, 400 with the thrown message otherwise. */
  function CreateRestaurant(s: Store, body: map<string, Js.Value>, now: Time, f: Repo.Faults): (o: Outcome)
    requires Valid(s)
    ensures |o.writes| == 1 && Valid(o.store)
    ensures o.writes[0].status in {CREATED, BAD_REQUEST, CONFLICT}
    ensures o.writes[0].status == CONFLICT <==>
      Js.Get(body, "name").Str? && f.read.None? && exists x | Stored(s, x) :: x.name == Js.Get(body, "name").s
    ensures o.writes[0].status == CONFLICT ==> o.writes[0].body == ErrorBody(DUPLICATE_NAME)
    ensures o.writes[0].status == CREATED <==>
      && (Js.Get(body, "name").Str? || Js.Get(body, "name").Null?)
      && f.read.None? && f.write.None?
      && (Js.Get(body, "name").Str? ==> forall x | Stored(s, x) :: x.name != Js.Get(body, "name").s)
      && (forall c: Column :: Storable(Js.Get(Flatten(body), Key(c))))
    ensures o.writes[0].status != CREATED ==> o.store == s
    ensures o.writes[0].status == BAD_REQUEST ==> o.writes[0].body.Json? && o.writes[0].body.fields.Keys == {"error"}
    ensures o.writes[0].status == CREATED ==> o.writes[0].body.Row? && var x := o.writes[0].body.row;
      && x.id !in s.rows
      && o.store.rows == s.rows[x.id := x]
      && |o.store.rows| == |s.rows| + 1
      && (forall c: Column :: Storable(Js.Get(Flatten(body), Key(c))))
      && (forall c: Column :: Get(x, c) == ColumnText(Js.Get(Flatten(body), Key(c))))
      && x.createdAt == now && x.updatedAt == now
  {
    var name := Js.Get(body, "name");
    match Repo.FindByName(s, name, f.read)
    case Err(e) => Outcome([Write(BAD_REQUEST, ErrorBody(Message(e)))], s)
    case Ok(Some(_)) => Outcome([Write(CONFLICT, ErrorBody(DUPLICATE_NAME))], s)
    case Ok(None) =>
      match Repo.Create(s, Flatten(body), now, f.write)
      case Err(e) => Outcome([Write(BAD_REQUEST, ErrorBody(Message(e)))], s)
      case Ok((x, s')) => Outcome([Write(CREATED, Row(x))], s')
  }

  /** A create whose duplicate lookup throws answers 400 with that error's message. */
  lemma CreateLookupMessage(s: Store, body: map<string, Js.Value>, now: Time, f: Repo.Faults)
    requires Valid(s)
    requires Repo.FindByName(s, Js.Get(body, "name"), f.read).Err?
    ensures CreateRestaurant(s, body, now, f).writes ==
      [Write(BAD_REQUEST, ErrorBody(Message(Repo.FindByName(s, Js.Get(body, "name"), f.read).error)))]
  {
  }

  /** A store fault during the lookup of a string name is answered 400 with the fault's message. */
  lemma CreateFaultMessage(s: Store, body: map<string, Js.Value>, now: Time, f: Repo.Faults)
    requires Valid(s)
    requires Js.Get(body, "name").Str? && f.read.Some?
    ensures CreateRestaurant(s, body, now, f).writes == [Write(BAD_REQUEST, ErrorBody(f.read.value))]
  {
    CreateLookupMessage(s, body, now, f);
  }

  /** After a lookup that finds no duplicate, a failing insert answers 400
      with that error's message. */
  lemma CreateInsertMessage(s: Store, body: map<string, Js.Value>, now: Time, f: Repo.Faults)
    requires Valid(s)
    requires Repo.FindByName(s, Js.Get(body, "name"), f.read) == Ok(None)
    requires Repo.Create(s, Flatten(body), now, f.write).Err?
    ensures CreateRestaurant(s, body, now, f).writes ==
      [Write(BAD_REQUEST, ErrorBody(Message(Repo.Create(s, Flatten(body), now, f.write).error)))]
  {
  }

  /** Unstorable columns are answered 400 with the joined validation
      messages of the full build's violations, one per unstorable column in
      column order. */
  lemma CreateInvalidMessage(s: Store, body: map<string, Js.Value>, now: Time, f: Repo.Faults)
    requires Valid(s)
    requires Repo.FindByName(s, Js.Get(body, "name"), f.read) == Ok(None)
    requires ReadColumns(Flatten(body)).Err?
    ensures CreateRestaurant(s, body, now, f).writes ==
      [Write(BAD_REQUEST, ErrorBody(JoinViolations(Violations(Columns, Flatten(body), false))))]
    ensures InColumnOrder(Violations(Columns, Flatten(body), false))
  {
    CreateInsertMessage(s, body, now, f);
    ColumnViolationsInOrder(Flatten(body), false);
  }

  /** A failing insert of storable columns is answered 400 with the store's message. */
  lemma CreateWriteFaultMessage(s: Store, body: map<string, Js.Value>, now: Time, f: Repo.Faults)
    requires Valid(s)
    requires Repo.FindByName(s, Js.Get(body, "name"), f.read) == Ok(None)
    requires ReadColumns(Flatten(body)).Ok? && f.write.Some?
    ensures CreateRestaurant(s, body, now, f).writes == [Write(BAD_REQUEST, ErrorBody(f.write.value))]
  {
    Repo.CreateStoreFault(s, Flatten(body), now, f.write);
    CreateInsertMessage(s, body, now, f);
  }

  /** `updateRestaurant`: the body goes to the repository unchanged (a nested
      `address` is not flattened). A missing row is answered 404 first; a
      thrown error, including a NaN or infinite id, is answered 400. */
  function UpdateRestaurant(s: Store, id: Id, body: map<string, Js.Value>, now: Time, f: Repo.Faults): (o: Outcome)
    requires Valid(s)
    ensures o.writes != [] && Valid(o.store)
    ensures Sent(o).status in {OK, BAD_REQUEST, NOT_FOUND}
    ensures Sent(o).status != OK ==> o.store == s
    ensures Sent(o).status == NOT_FOUND <==> f.read.None? && !id.NotFinite? && !HasKey(s, id)
    ensures Sent(o).status == NOT_FOUND ==> Sent(o) == Write(NOT_FOUND, ErrorBody(RESTAURANT_NOT_FOUND))
    ensures Sent(o).status == OK <==>
      && f.read.None? && HasKey(s, id) && SuppliedStorable(body)
      && (f.write.None? || !exists c: Column :: Changes(s.rows[id.n], body, c))
    ensures Sent(o).status == OK ==> |o.writes| == 1 && Sent(o).body.Row? && var x := Sent(o).body.row;
      && HasKey(s, id) && x.id == id.n
      && o.store.rows == s.rows[id.n := x]
      && (forall c: Column :: Get(x, c) == if Supplied(body, c) then ColumnText(body[Key(c)]) else Get(s.rows[id.n], c))
      && x.createdAt == s.rows[id.n].createdAt
      && x.updatedAt == if exists c: Column :: Changes(s.rows[id.n], body, c) then now else s.rows[id.n].updatedAt
    ensures Sent(o).status == BAD_REQUEST ==> Sent(o).body.Json? && Sent(o).body.fields.Keys == {"error"}
    ensures Repo.Update(s, id, body, now, f).Err? ==>
      o.writes == [Write(BAD_REQUEST, ErrorBody(Message(Repo.Update(s, id, body, now, f).error)))]
    ensures f.read.Some? ==> o.writes == [Write(BAD_REQUEST, ErrorBody(f.read.value))]
  {
    match Repo.Update(s, id, body, now, f)
    case Err(e) => Outcome([Write(BAD_REQUEST, ErrorBody(Message(e)))], s)
    case Ok((None, s')) =>
      Outcome([Write(NOT_FOUND, ErrorBody(RESTAURANT_NOT_FOUND)),
                Write(NOT_FOUND, NullBody),
                Write(BAD_REQUEST, ErrorBody(HEADERS_SENT))], s')
    case Ok((Some(x), s')) => Outcome([Write(OK, Row(x))], s')
  }

  /** `deleteRestaurant`: 200 with the fixed message when the row was
      destroyed, 404 first when there was none, 500 when the store threw
      (a NaN or infinite id included). */
  function DeleteRestaurant(s: Store, id: Id, f: Repo.Faults): (o: Outcome)
    requires Valid(s)
    ensures o.writes != [] && Valid(o.store)
    ensures Sent(o).status in {OK, NOT_FOUND, INTERNAL_SERVER_ERROR}
    ensures Sent(o).status == NOT_FOUND <==> f.read.None? && !id.NotFinite? && !HasKey(s, id)
    ensures Sent(o).status == NOT_FOUND ==> Sent(o) == Write(NOT_FOUND, ErrorBody(RESTAURANT_NOT_FOUND))
    ensures Sent(o).status == OK <==> f.read.None? && HasKey(s, id) && f.write.None?
    ensures Sent(o).status == OK ==> (o.writes == [Write(OK, MessageBody(RESTAURANT_DELETED))]
      && o.store == Store(s.rows - {id.n}, s.nextId))
    ensures Sent(o).status != OK ==> o.store == s
    ensures Sent(o).status == INTERNAL_SERVER_ERROR ==> Sent(o).body.Json? && Sent(o).body.fields.Keys == {"error"}
    ensures Repo.Delete(s, id, f).Err? ==>
      o.writes == [Write(INTERNAL_SERVER_ERROR, ErrorBody(Message(Repo.Delete(s, id, f).error)))]
    ensures f.read.Some? ==> o.writes == [Write(INTERNAL_SERVER_ERROR, ErrorBody(f.read.value))]
    ensures f.read.None? && HasKey(s, id) && f.write.Some? ==>
      o.writes == [Write(INTERNAL_SERVER_ERROR, ErrorBody(f.write.value))]
  {
    match Repo.Delete(s, id, f)
    case Err(e) => Outcome([Write(INTERNAL_SERVER_ERROR, ErrorBody(Message(e)))], s)
    case Ok((false, s')) =>
      Outcome([Write(NOT_FOUND, ErrorBody(RESTAURANT_NOT_FOUND)),
               Write(NOT_FOUND, MessageBody(RESTAURANT_DELETED)),
               Write(INTERNAL_SERVER_ERROR, ErrorBody(HEADERS_SENT))], s')
    case Ok((true, s')) => Outcome([Write(OK, MessageBody(RESTAURANT_DELETED))], s')
  }
}
