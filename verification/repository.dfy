/**
 * `RestaurantRepository`: the six operations the service (and so the
 * controller) calls. A store call that throws is modelled by a fault
 * argument: `Some(message)` makes that call fail with that message.
 */
module RestaurantRepository {
  import opened Results
  import Js
  import opened Schema
  import opened Store

  /** Faults for the (at most) two store calls of one operation: the lookup
      and the write that follows it. */
  datatype Faults = Faults(read: Option<string>, write: Option<string>)

  const NoFaults: Faults := Faults(None, None)

  /** `getAll()`: every stored row. */
  function GetAll(s: Store, fault: Option<string>): (r: Result<seq<Restaurant>, StoreError>)
    requires Valid(s)
    ensures r.Err? <==> fault.Some?
    ensures r.Err? ==> r.error == Failure(fault.value)
    ensures r.Ok? ==> (forall x :: x in r.value <==> Stored(s, x)) && |r.value| == |s.rows| && IdsAscending(r.value)
  {
    if fault.Some? then Err(Failure(fault.value)) else Ok(All(s))
  }

  /** `findByName(name)`: `findOne({where: {name}})`. The ORM refuses an
      `undefined` where-value before querying; `null` matches no row because
      the column is non-null. */
  function FindByName(s: Store, name: Js.Value, fault: Option<string>): (r: Result<Option<Restaurant>, StoreError>)
    requires Valid(s)
    ensures name.Undefined? ==> r == Err(UndefinedWhere("name"))
    ensures (name.Str? || name.Null?) && fault.Some? ==> r == Err(Failure(fault.value))
    ensures name.Null? && fault.None? ==> r == Ok(None)
    ensures !(name.Str? || name.Null? || name.Undefined?) ==> r == Err(Rejected("name"))
    ensures name.Str? && fault.None? ==> r.Ok?
    ensures name.Str? && r.Ok? ==> (r.value.None? <==> forall x | Stored(s, x) :: x.name != name.s)
    ensures name.Str? && r.Ok? && r.value.Some? ==> Stored(s, r.value.value) && r.value.value.name == name.s
  {
    match name
    case Undefined => Err(UndefinedWhere("name"))
    case Null => if fault.Some? then Err(Failure(fault.value)) else Ok(None)
    case Str(n) =>
      if fault.Some? then Err(Failure(fault.value))
      else Ok(FirstMatch(All(s), (x: Restaurant) => x.name == n))
    case _ => Err(Rejected("name"))
  }

  /** `findById(id)`: `findByPk(id)`. A NaN or infinite key makes the query
      itself fail. */
  function FindById(s: Store, id: Id, fault: Option<string>): (r: Result<Option<Restaurant>, StoreError>)
    requires Valid(s)
    ensures r.Err? <==> fault.Some? || id.NotFinite?
    ensures fault.Some? ==> r == Err(Failure(fault.value))
    ensures fault.None? && id.NotFinite? ==> r == Err(BadKey)
    ensures r.Ok? ==> (r.value.Some? <==> HasKey(s, id))
    ensures r.Ok? && r.value.Some? ==> r.value.value == s.rows[id.n] && r.value.value.id == id.n
  {
    if fault.Some? then Err(Failure(fault.value))
    else if id.NotFinite? then Err(BadKey)
    else if HasKey(s, id) then Ok(Some(s.rows[id.n]))
    else Ok(None)
  }

  /** `create(data)`: validation of the six columns first, then the insert.
      On success the new row gets a fresh id and both timestamps `now`;
      keys other than the six columns are ignored. */
  function Create(s: Store, data: map<string, Js.Value>, now: Time, fault: Option<string>): (r: Result<(Restaurant, Store), StoreError>)
    requires Valid(s)
    ensures r.Ok? <==> (forall c: Column :: Storable(Js.Get(data, Key(c)))) && fault.None?
    ensures r.Err? && !(forall c: Column :: Storable(Js.Get(data, Key(c)))) ==> r.error.Invalid? && r.error.items != []
    ensures ReadColumns(data).Err? ==> r == Err(Invalid(ReadColumns(data).error))
    ensures (forall c: Column :: Storable(Js.Get(data, Key(c)))) && fault.Some? ==> r == Err(Failure(fault.value))
    ensures r.Ok? ==> var (x, s') := r.value;
      && Valid(s')
      && x.id !in s.rows
      && s'.rows == s.rows[x.id := x]
      && (forall c: Column :: Get(x, c) == ColumnText(Js.Get(data, Key(c))))
      && x.createdAt == now && x.updatedAt == now
  {
    match ReadColumns(data)
    case Err(vs) => Err(Invalid(vs))
    case Ok(cols) =>
      if fault.Some? then Err(Failure(fault.value)) else Ok(Insert(s, cols, now))
  }

  /** Columns that pass validation reach the insert, so a store fault there
      is the error `create` reports. */
  lemma CreateStoreFault(s: Store, data: map<string, Js.Value>, now: Time, fault: Option<string>)
    requires Valid(s)
    requires ReadColumns(data).Ok? && fault.Some?
    ensures Create(s, data, now, fault) == Err(Failure(fault.value))
    ensures Message(Create(s, data, now, fault).error) == fault.value
  {
  }

  /** `update(id, data)`: `null` (here `None`) when no row has that key;
      otherwise `instance.update(data)` on that row alone. The write is issued
      only when some column changes, so only then can it fail. */
  function Update(s: Store, id: Id, data: map<string, Js.Value>, now: Time, f: Faults): (r: Result<(Option<Restaurant>, Store), StoreError>)
    requires Valid(s)
    ensures f.read.Some? ==> r == Err(Failure(f.read.value))
    ensures f.read.None? && id.NotFinite? ==> r == Err(BadKey)
    ensures f.read.None? && !id.NotFinite? && !HasKey(s, id) ==> r == Ok((None, s))
    ensures f.read.None? && HasKey(s, id) && !SuppliedStorable(data) ==>
      r == Err(Invalid(Violations(Columns, Js.Defined(data), true))) && r.error.items != []
    ensures f.read.None? && HasKey(s, id) && SuppliedStorable(data) ==>
      (r.Ok? <==> f.write.None? || !exists c: Column :: Changes(s.rows[id.n], data, c))
    ensures f.read.None? && HasKey(s, id) && r.Err? && SuppliedStorable(data) ==> r == Err(Failure(f.write.value))
    ensures r.Ok? && r.value.0.None? ==> !HasKey(s, id) && r.value.1 == s
    ensures r.Ok? && HasKey(s, id) ==> r.value.0.Some?
    ensures r.Ok? && r.value.0.Some? ==> var x := r.value.0.value;
      && HasKey(s, id) && x.id == id.n
      && r.value.1.rows == s.rows[id.n := x] && r.value.1.nextId == s.nextId
      && Valid(r.value.1)
      && SuppliedStorable(data)
      && (forall c: Column :: Get(x, c) == if Supplied(data, c) then ColumnText(data[Key(c)]) else Get(s.rows[id.n], c))
      && x.createdAt == s.rows[id.n].createdAt
      && x.updatedAt == if exists c: Column :: Changes(s.rows[id.n], data, c) then now else s.rows[id.n].updatedAt
  {
    if f.read.Some? then Err(Failure(f.read.value))
    else if id.NotFinite? then Err(BadKey)
    else if !HasKey(s, id) then Ok((None, s))
    else
      var row := s.rows[id.n];
      match Patch(row, data, now)
      case Err(vs) => Err(Invalid(vs))
      case Ok((x, saved)) =>
        if saved && f.write.Some? then Err(Failure(f.write.value))
        else Ok((Some(x), Store(s.rows[id.n := x], s.nextId)))
  }

  /** `delete(id)`: `null` (here `false`) when no row has that key, otherwise
      the row is destroyed and the result is `true`. */
  function Delete(s: Store, id: Id, f: Faults): (r: Result<(bool, Store), StoreError>)
    requires Valid(s)
    ensures f.read.Some? ==> r == Err(Failure(f.read.value))
    ensures f.read.None? && id.NotFinite? ==> r == Err(BadKey)
    ensures f.read.None? && !id.NotFinite? && !HasKey(s, id) ==> r == Ok((false, s))
    ensures f.read.None? && HasKey(s, id) && f.write.Some? ==> r == Err(Failure(f.write.value))
    ensures f.read.None? && HasKey(s, id) && f.write.None? ==> r.Ok? && r.value.0
    ensures r.Ok? ==> (r.value.0 <==> HasKey(s, id))
    ensures r.Ok? && r.value.0 ==> r.value.1 == Store(s.rows - {id.n}, s.nextId) && Valid(r.value.1)
  {
    if f.read.Some? then Err(Failure(f.read.value))
    else if id.NotFinite? then Err(BadKey)
    else if !HasKey(s, id) then Ok((false, s))
    else if f.write.Some? then Err(Failure(f.write.value))
    else Ok((true, Store(s.rows - {id.n}, s.nextId)))
  }
}
