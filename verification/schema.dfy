/**
 * The `Restaurant` table: its columns, the record type, and the checks the
 * ORM applies to a column value before it is written (every text column is
 * declared `allowNull: false`).
 */
module Schema {
  import opened Results
  import Js
  import Text

  /** A clock reading, kept opaque: the model only copies and compares them. */
  type Time = int

  /** The six required text columns, in declaration order. */
  datatype Column = Name | Street | City | State | Zip | Contact

  const Columns: seq<Column> := [Name, Street, City, State, Zip, Contact]

  /** The attribute name of a column as it appears in request bodies. */
  function Key(c: Column): string {
    match c
    case Name => "name"
    case Street => "street"
    case City => "city"
    case State => "state"
    case Zip => "zip"
    case Contact => "contact"
  }

  lemma ColumnsCovered(c: Column)
    ensures c in Columns
  {
  }

  /** The flat creation input `{name, street, city, state, zip, contact}`. */
  datatype Columns6 = Columns6(name: string, street: string, city: string, state: string, zip: string, contact: string)

  /** A stored row: integer primary key, six non-null text columns and the
      two timestamps the ORM maintains. Being `string`s, the columns cannot
      hold null. */
  datatype Restaurant = Restaurant(
    id: int,
    name: string, street: string, city: string, state: string, zip: string, contact: string,
    createdAt: Time, updatedAt: Time)

  function Get(r: Restaurant, c: Column): string {
    match c
    case Name => r.name
    case Street => r.street
    case City => r.city
    case State => r.state
    case Zip => r.zip
    case Contact => r.contact
  }

  function Set(r: Restaurant, c: Column, v: string): (r': Restaurant)
    ensures Get(r', c) == v
    ensures forall d | d != c :: Get(r', d) == Get(r, d)
    ensures r'.id == r.id && r'.createdAt == r.createdAt && r'.updatedAt == r.updatedAt
  {
    match c
    case Name => r.(name := v)
    case Street => r.(street := v)
    case City => r.(city := v)
    case State => r.(state := v)
    case Zip => r.(zip := v)
    case Contact => r.(contact := v)
  }

  function Column6(x: Columns6, c: Column): string {
    match c
    case Name => x.name
    case Street => x.street
    case City => x.city
    case State => x.state
    case Zip => x.zip
    case Contact => x.contact
  }

  /** A column check that failed, as the ORM reports it. */
  datatype Violation =
    | NotNull(column: Column)       // null or undefined in an allowNull:false column
    | NotString(column: Column)     // an array or object in a text column

  /** Why a store call threw. */
  datatype StoreError =
    | Invalid(items: seq<Violation>)     // validation failed before any query
    | UndefinedWhere(attribute: string)  // a where-clause value was undefined
    | Rejected(attribute: string)        // a where-clause value the model does not translate
    | NegativeWindow(limit: bool)        // a negative LIMIT (true) or OFFSET (false)
    | BadKey                             // a NaN or infinite key, which the database rejects
    | Failure(message: string)           // anything the database itself reports

  function ViolationText(v: Violation): string {
    match v
    case NotNull(c) => "notNull Violation: Restaurant." + Key(c) + " cannot be null"
    case NotString(c) => "string violation: " + Key(c) + " cannot be an array or an object"
  }

  function JoinViolations(vs: seq<Violation>): string {
    if vs == [] then ""
    else if |vs| == 1 then ViolationText(vs[0])
    else ViolationText(vs[0]) + ",\n" + JoinViolations(vs[1..])
  }

  /** `error.message` of a thrown store error. */
  function Message(e: StoreError): string {
    match e
    case Invalid(vs) => JoinViolations(vs)
    case UndefinedWhere(a) => "WHERE parameter \"" + a + "\" has invalid \"undefined\" value"
    case Rejected(a) => "unsupported value for " + a
    case NegativeWindow(limit) => if limit then "LIMIT must not be negative" else "OFFSET must not be negative"
    case BadKey => "invalid primary key value"
    case Failure(m) => m
  }

  /** The value a text column accepts: strings as they are, numbers and
      booleans as their text; `undefined`, `null`, arrays and objects fail. */
  predicate Storable(v: Js.Value) {
    v.Str? || v.Num? || v.Bool?
  }

  function ColumnText(v: Js.Value): string
    requires Storable(v)
  {
    match v
    case Str(s) => s
    case Num(n) => Text.IntText(n)
    case Bool(b) => if b then "true" else "false"
  }

  function Check(c: Column, v: Js.Value): (r: Option<Violation>)
    ensures r.None? <==> Storable(v)
    ensures r.Some? ==> r.value.column == c
    ensures r.Some? ==> (r.value.NotNull? <==> v.Undefined? || v.Null?)
    ensures r.Some? ==> (r.value.NotString? <==> v.Arr? || v.Obj?)
  {
    if v.Undefined? || v.Null? then Some(NotNull(c))
    else if v.Arr? || v.Obj? then Some(NotString(c))
    else None
  }

  /** The value the ORM validates for column `c`: on a build from `data`
      (`partial == false`) a missing key is `undefined`; on an update
      (`partial == true`) a missing key is not validated at all. */
  predicate Checked(data: map<string, Js.Value>, c: Column, partial: bool) {
    !partial || Key(c) in data
  }

  /** The validation errors for the columns `cols`, in column order. */
  function Violations(cols: seq<Column>, data: map<string, Js.Value>, partial: bool): (vs: seq<Violation>)
    ensures vs == [] <==> forall i | 0 <= i < |cols| && Checked(data, cols[i], partial) :: Storable(Js.Get(data, Key(cols[i])))
    ensures forall v | v in vs :: v.column in cols && Checked(data, v.column, partial) && !Storable(Js.Get(data, Key(v.column)))
    ensures forall v | v in vs :: Check(v.column, Js.Get(data, Key(v.column))) == Some(v)
    ensures forall i | 0 <= i < |cols| && Checked(data, cols[i], partial) && !Storable(Js.Get(data, Key(cols[i]))) ::
      Check(cols[i], Js.Get(data, Key(cols[i]))).value in vs
  {
    if cols == [] then []
    else
      var here := if Checked(data, cols[0], partial) then Check(cols[0], Js.Get(data, Key(cols[0]))) else None;
      var rest := Violations(cols[1..], data, partial);
      assert forall i | 1 <= i < |cols| :: cols[i] == cols[1..][i - 1];
      (if here.Some? then [here.value] else []) + rest
  }

  /** Each violation's column comes strictly after the previous one's, so
      there is at most one per column. */
  predicate InColumnOrder(vs: seq<Violation>) {
    forall i, j | 0 <= i < j < |vs| :: ColumnIndex(vs[i].column) < ColumnIndex(vs[j].column)
  }

  /** Violations over columns listed in order come out in that order. */
  lemma {:induction false} ViolationsInOrder(cols: seq<Column>, data: map<string, Js.Value>, partial: bool)
    requires forall i, j | 0 <= i < j < |cols| :: ColumnIndex(cols[i]) < ColumnIndex(cols[j])
    ensures InColumnOrder(Violations(cols, data, partial))
  {
    if cols != [] {
      ViolationsInOrder(cols[1..], data, partial);
      LaterColumns(cols, data, partial);
      var here := if Checked(data, cols[0], partial) then Check(cols[0], Js.Get(data, Key(cols[0]))) else None;
      if here.Some? {
        PrependInOrder(here.value, Violations(cols[1..], data, partial));
      }
    }
  }

  /** The violations of the columns after the first all name a later column. */
  lemma LaterColumns(cols: seq<Column>, data: map<string, Js.Value>, partial: bool)
    requires cols != []
    requires forall i, j | 0 <= i < j < |cols| :: ColumnIndex(cols[i]) < ColumnIndex(cols[j])
    ensures forall v | v in Violations(cols[1..], data, partial) :: ColumnIndex(cols[0]) < ColumnIndex(v.column)
  {
    forall v | v in Violations(cols[1..], data, partial) ensures ColumnIndex(cols[0]) < ColumnIndex(v.column) {
      var j :| 0 <= j < |cols[1..]| && cols[1..][j] == v.column;
      assert cols[j + 1] == v.column;
    }
  }

  /** A violation whose column comes before every column of an ordered list
      keeps the list ordered when put in front. */
  lemma PrependInOrder(v: Violation, rest: seq<Violation>)
    requires InColumnOrder(rest)
    requires forall w | w in rest :: ColumnIndex(v.column) < ColumnIndex(w.column)
    ensures InColumnOrder([v] + rest)
  {
    var vs := [v] + rest;
    forall i, j | 0 <= i < j < |vs| ensures ColumnIndex(vs[i].column) < ColumnIndex(vs[j].column) {
      assert vs[j] == rest[j - 1];
      if i > 0 { assert vs[i] == rest[i - 1]; }
    }
  }

  /** The validation of all six columns reports them in declaration order,
      at most once each. */
  lemma ColumnViolationsInOrder(data: map<string, Js.Value>, partial: bool)
    ensures InColumnOrder(Violations(Columns, data, partial))
  {
    ViolationsInOrder(Columns, data, partial);
  }

  /** Reads the six columns out of creation data: `Ok` with their text when
      every column is storable, otherwise the violations. */
  function ReadColumns(data: map<string, Js.Value>): (r: Result<Columns6, seq<Violation>>)
    ensures r.Ok? <==> forall c: Column :: Storable(Js.Get(data, Key(c)))
    ensures r.Ok? ==> forall c: Column :: Column6(r.value, c) == ColumnText(Js.Get(data, Key(c)))
    ensures r.Err? ==> r.error != [] && r.error == Violations(Columns, data, false)
  {
    var vs := Violations(Columns, data, false);
    if vs != [] then Err(vs)
    else
      assert forall c: Column :: Storable(Js.Get(data, Key(c))) by {
        forall c: Column ensures Storable(Js.Get(data, Key(c))) {
          var i := ColumnIndex(c);
          assert Checked(data, Columns[i], false);
        }
      }
      Ok(Columns6(
        ColumnText(Js.Get(data, Key(Name))), ColumnText(Js.Get(data, Key(Street))),
        ColumnText(Js.Get(data, Key(City))), ColumnText(Js.Get(data, Key(State))),
        ColumnText(Js.Get(data, Key(Zip))), ColumnText(Js.Get(data, Key(Contact)))))
  }

  function ColumnIndex(c: Column): (i: nat)
    ensures i < |Columns| && Columns[i] == c
  {
    match c
    case Name => 0
    case Street => 1
    case City => 2
    case State => 3
    case Zip => 4
    case Contact => 5
  }
}
