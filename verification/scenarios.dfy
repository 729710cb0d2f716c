/**
 * Properties of request sequences against the controller: what a client
 * observes across several calls.
 */
module Scenarios {
  import opened Results
  import Js
  import opened Constants
  import opened Schema
  import opened Store
  import Repo = RestaurantRepository
  import opened RestaurantController

  /** A create with a new name, no `name` in its address and storable
      columns succeeds, and the next listing holds the new row, under the
      body's name, as the only row with that name. */
  lemma CreateThenList(s: Store, body: map<string, Js.Value>, now: Time, f: Repo.Faults, n: string)
    requires Valid(s)
    requires Js.Get(body, "name") == Js.Str(n)
    requires "name" !in Js.Spread(Js.Get(body, "address"))
    requires forall x | Stored(s, x) :: x.name != n
    requires forall c: Column :: Storable(Js.Get(Flatten(body), Key(c)))
    requires f == Repo.NoFaults
    ensures var o := CreateRestaurant(s, body, now, f);
      var listing := GetAllRestaurants(o.store, None).writes[0].body.rows;
      && o.writes[0].status == CREATED
      && o.writes[0].body.Row?
      && o.writes[0].body.row in listing
      && o.writes[0].body.row.name == n
      && forall y | y in listing && y.name == n :: y == o.writes[0].body.row
  {
    CreatedUnderName(s, body, now, n);
    var o := CreateRestaurant(s, body, now, Repo.NoFaults);
    OnlyRowNamed(o.store, o.writes[0].body.row);
  }

  /** The create of `CreateThenList` stores its row under the body's name, as
      the only stored row with that name. */
  lemma CreatedUnderName(s: Store, body: map<string, Js.Value>, now: Time, n: string)
    requires Valid(s)
    requires Js.Get(body, "name") == Js.Str(n)
    requires "name" !in Js.Spread(Js.Get(body, "address"))
    requires forall x | Stored(s, x) :: x.name != n
    requires forall c: Column :: Storable(Js.Get(Flatten(body), Key(c)))
    ensures var o := CreateRestaurant(s, body, now, Repo.NoFaults);
      && o.writes[0].status == CREATED
      && o.writes[0].body.Row?
      && Valid(o.store) && Stored(o.store, o.writes[0].body.row)
      && o.writes[0].body.row.name == n
      && forall y | Stored(o.store, y) && y.name == n :: y == o.writes[0].body.row
  {
    var o := CreateRestaurant(s, body, now, Repo.NoFaults);
    var x := o.writes[0].body.row;
    assert x.name == n by {
      assert Get(x, Name) == ColumnText(Js.Get(Flatten(body), Key(Name)));
      assert Js.Get(Flatten(body), "name") == Js.Str(n);
    }
    InsertKeepsNameUnique(s, o.store, x, n);
  }

  /** Adding a row under a fresh key with a name no stored row has leaves it
      the only row with that name. */
  lemma InsertKeepsNameUnique(s: Store, s': Store, x: Restaurant, n: string)
    requires Valid(s) && Valid(s')
    requires x.id !in s.rows && s'.rows == s.rows[x.id := x]
    requires x.name == n
    requires forall y | Stored(s, y) :: y.name != n
    ensures Stored(s', x)
    ensures forall y | Stored(s', y) && y.name == n :: y == x
  {
    forall y | Stored(s', y) && y.name == n ensures y == x {
      assert y.id == x.id || Stored(s, y);
    }
  }

  /** A stored row that is the only one with its name is listed, and is the
      only listed row with that name. */
  lemma OnlyRowNamed(s: Store, x: Restaurant)
    requires Valid(s) && Stored(s, x)
    requires forall y | Stored(s, y) && y.name == x.name :: y == x
    ensures var listing := GetAllRestaurants(s, None).writes[0].body.rows;
      && x in listing
      && forall y | y in listing && y.name == x.name :: y == x
  {
  }

  /** When the nested address carries a `name`, it replaces the body's name in
      the stored row, while the duplicate check looked at the body's name: a
      row whose name is already taken gets created beside the existing one. */
  lemma AddressNameBypassesDuplicateCheck(s: Store, existing: Restaurant, body: map<string, Js.Value>, now: Time)
    requires Valid(s) && Stored(s, existing)
    requires Js.Get(body, "name").Str?
    requires forall x | Stored(s, x) :: x.name != Js.Get(body, "name").s
    requires Js.Get(body, "address").Obj? && Js.Get(Js.Get(body, "address").fields, "name") == Js.Str(existing.name)
    requires forall c: Column :: Storable(Js.Get(Flatten(body), Key(c)))
    ensures var o := CreateRestaurant(s, body, now, Repo.NoFaults);
      && o.writes[0].status == CREATED
      && Stored(o.store, existing) && Stored(o.store, o.writes[0].body.row)
      && o.writes[0].body.row.name == existing.name
      && o.writes[0].body.row != existing
  {
    var o := CreateRestaurant(s, body, now, Repo.NoFaults);
    assert Get(o.writes[0].body.row, Name) == ColumnText(Js.Get(Flatten(body), Key(Name)));
  }

  /** The situation above arises: a store holding "A", and a request naming
      "B" whose address names "A" and supplies every other column, is
      answered 201, and the store then holds a second row named "A". */
  lemma AddressNameExample()
    ensures var existing := Restaurant(1, "A", "S", "C", "ST", "12345", "1234567890", 0, 0);
      var s := Store(map[1 := existing], 2);
      var body := map["name" := Js.Str("B"), "address" := Js.Obj(ExampleAddress())];
      var o := CreateRestaurant(s, body, 5, Repo.NoFaults);
      && o.writes[0].status == CREATED
      && o.store.rows[1] == existing
      && Stored(o.store, o.writes[0].body.row)
      && o.writes[0].body.row.name == "A"
      && o.writes[0].body.row.id != 1
  {
    var existing := Restaurant(1, "A", "S", "C", "ST", "12345", "1234567890", 0, 0);
    var s := Store(map[1 := existing], 2);
    var body := map["name" := Js.Str("B"), "address" := Js.Obj(ExampleAddress())];
    ExampleColumnsStorable(body);
    forall x | Stored(s, x) ensures x.name != "B" {
      assert x == existing;
    }
    AddressNameBypassesDuplicateCheck(s, existing, body, 5);
  }

  /** The address of the example: the name "A" and the five other columns. */
  function ExampleAddress(): map<string, Js.Value> {
    map["name" := Js.Str("A"), "street" := Js.Str("S"), "city" := Js.Str("C"),
        "state" := Js.Str("ST"), "zip" := Js.Str("12345"), "contact" := Js.Str("1234567890")]
  }

  /** In the example, the flattened body is the address itself. */
  lemma ExampleColumnsStorable(body: map<string, Js.Value>)
    requires body == map["name" := Js.Str("B"), "address" := Js.Obj(ExampleAddress())]
    ensures forall c: Column :: Storable(Js.Get(Flatten(body), Key(c)))
  {
    assert body - {"name", "address"} == map[];
    assert Flatten(body) == ExampleAddress();
  }

  /** Deleting an existing row removes it from the next listing, and deleting
      it again is answered 404. */
  lemma DeleteTwice(s: Store, k: int)
    requires Valid(s) && k in s.rows
    ensures var o1 := DeleteRestaurant(s, IntId(k), Repo.NoFaults);
      var o2 := DeleteRestaurant(o1.store, IntId(k), Repo.NoFaults);
      && Sent(o1) == Write(OK, MessageBody(RESTAURANT_DELETED))
      && (forall y | y in GetAllRestaurants(o1.store, None).writes[0].body.rows :: y.id != k)
      && Sent(o2) == Write(NOT_FOUND, ErrorBody(RESTAURANT_NOT_FOUND))
      && o2.store == o1.store
  {
  }

  /** An update whose body supplies no column changes nothing and answers
      with the row as it was. */
  lemma UpdateWithoutColumnsChangesNothing(s: Store, k: int, body: map<string, Js.Value>, now: Time)
    requires Valid(s) && k in s.rows
    requires forall c: Column :: !Supplied(body, c)
    ensures var o := UpdateRestaurant(s, IntId(k), body, now, Repo.NoFaults);
      && o.writes == [Write(OK, Row(s.rows[k]))]
      && o.store == s
  {
    var o := UpdateRestaurant(s, IntId(k), body, now, Repo.NoFaults);
    assert !exists c: Column :: Changes(s.rows[k], body, c);
    var x := Sent(o).body.row;
    SameColumns(x, s.rows[k]);
    assert o.store.rows == s.rows;
  }

  /** The update body is not flattened: a body holding only a nested
      `address` leaves the row as it was, whatever the address says. */
  lemma NestedAddressChangesNothing(s: Store, k: int, address: Js.Value, now: Time)
    requires Valid(s) && k in s.rows
    ensures var o := UpdateRestaurant(s, IntId(k), map["address" := address], now, Repo.NoFaults);
      && o.writes == [Write(OK, Row(s.rows[k]))]
      && o.store == s
  {
    UpdateWithoutColumnsChangesNothing(s, k, map["address" := address], now);
  }

  /** A NaN or infinite id (such as the path segment "abc") makes the lookup
      fail: update answers 400 and delete 500, and the store is untouched. */
  lemma NonFiniteIdFails(s: Store, body: map<string, Js.Value>, now: Time)
    requires Valid(s)
    ensures var o := UpdateRestaurant(s, NotFinite, body, now, Repo.NoFaults);
      o.writes == [Write(BAD_REQUEST, ErrorBody(Message(BadKey)))] && o.store == s
    ensures var o := DeleteRestaurant(s, NotFinite, Repo.NoFaults);
      o.writes == [Write(INTERNAL_SERVER_ERROR, ErrorBody(Message(BadKey)))] && o.store == s
  {
  }

  /** An update of an absent integer or fractional id is answered 404 first even though the handler
      goes on to write twice more; the store is untouched. */
  lemma UpdateMissingAnswers404(s: Store, id: Id, body: map<string, Js.Value>, now: Time)
    requires Valid(s) && !HasKey(s, id) && !id.NotFinite?
    ensures var o := UpdateRestaurant(s, id, body, now, Repo.NoFaults);
      && Sent(o) == Write(NOT_FOUND, ErrorBody(RESTAURANT_NOT_FOUND))
      && |o.writes| == 3
      && o.store == s
  {
  }

  /** A row the repository creates is then found by its key and listed. */
  lemma CreateThenFindById(s: Store, data: map<string, Js.Value>, now: Time)
    requires Valid(s)
    requires Repo.Create(s, data, now, None).Ok?
    ensures var (x, s') := Repo.Create(s, data, now, None).value;
      && Repo.FindById(s', IntId(x.id), None) == Ok(Some(x))
      && x in Repo.GetAll(s', None).value
      && forall y | Stored(s, y) :: Repo.FindById(s', IntId(y.id), None) == Ok(Some(y))
  {
  }

  /** After an update of a stored row, looking it up by key gives the
      returned row, and every other key gives what it gave before. */
  lemma UpdateThenFindById(s: Store, k: int, data: map<string, Js.Value>, now: Time, other: Id)
    requires Valid(s)
    requires Repo.Update(s, IntId(k), data, now, Repo.NoFaults).Ok?
    requires other != IntId(k)
    ensures var (x, s') := Repo.Update(s, IntId(k), data, now, Repo.NoFaults).value;
      && (x.Some? <==> k in s.rows)
      && (x.Some? ==> Repo.FindById(s', IntId(k), None) == Ok(x))
      && Repo.FindById(s', other, None) == Repo.FindById(s, other, None)
  {
  }

  /** After a delete, the key finds nothing, and every other key gives what
      it gave before. */
  lemma DeleteThenFindById(s: Store, k: int, other: Id)
    requires Valid(s)
    requires other != IntId(k)
    ensures var (_, s') := Repo.Delete(s, IntId(k), Repo.NoFaults).value;
      && Repo.FindById(s', IntId(k), None) == Ok(None)
      && Repo.FindById(s', other, None) == Repo.FindById(s, other, None)
  {
  }
}
