/**
 * The table as an abstract store: rows keyed by primary key plus the
 * auto-increment counter, with the primitive reads and writes the
 * repositories are built from.
 */
module Store {
  import opened Results
  import Js
  import opened Schema

  datatype Store = Store(rows: map<int, Restaurant>, nextId: int)

  /** The store invariant: every row sits under its own id, ids come from the
      auto-increment counter (starting at 1), so ids are unique and every
      future id is fresh. */
  predicate Valid(s: Store) {
    && s.nextId >= 1
    && forall k | k in s.rows :: 1 <= k < s.nextId && s.rows[k].id == k
  }

  const Empty: Store := Store(map[], 1)

  lemma EmptyValid()
    ensures Valid(Empty) && |Empty.rows| == 0
  {
  }

  /** A primary-key argument: the result of `Number(...)` on a path segment.
      It is an integer; or a finite fraction, which no integer key equals; or
      NaN or an infinity, which the query builder writes into the SQL as a
      bare word (`WHERE "id" = NaN`) that the database rejects. */
  datatype Id = IntId(n: int) | Fraction | NotFinite

  predicate HasKey(s: Store, id: Id) {
    id.IntId? && id.n in s.rows
  }

  /** `x` is a row of the store (rows sit under their own id). */
  predicate Stored(s: Store, x: Restaurant) {
    x.id in s.rows && s.rows[x.id] == x
  }

  /** The rows with keys in [lo, hi), in ascending key order. */
  function Scan(rows: map<int, Restaurant>, lo: int, hi: int): (rs: seq<Restaurant>)
    requires forall k | k in rows :: rows[k].id == k
    ensures forall i | 0 <= i < |rs| :: lo <= rs[i].id < hi && rs[i].id in rows && rows[rs[i].id] == rs[i]
    ensures forall i, j | 0 <= i < j < |rs| :: rs[i].id < rs[j].id
    decreases hi - lo
  {
    if lo >= hi then []
    else
      var rest := Scan(rows, lo + 1, hi);
      if lo in rows then [rows[lo]] + rest else rest
  }

  /** Every row with a key in [lo, hi) is in the scan. */
  lemma {:induction false} ScanComplete(rows: map<int, Restaurant>, lo: int, hi: int)
    requires forall k | k in rows :: rows[k].id == k
    ensures forall k | k in rows && lo <= k < hi :: rows[k] in Scan(rows, lo, hi)
    decreases hi - lo
  {
    if lo < hi {
      ScanComplete(rows, lo + 1, hi);
    }
  }

  /** Every row of the store, in ascending id order. */
  function All(s: Store): (rs: seq<Restaurant>)
    requires Valid(s)
    ensures forall r :: r in rs <==> Stored(s, r)
    ensures forall i, j | 0 <= i < j < |rs| :: rs[i].id < rs[j].id
    ensures |rs| == |s.rows|
  {
    var rs := Scan(s.rows, 1, s.nextId);
    ScanIsAll(s);
    RowsAreKeys(s, rs);
    rs
  }

  lemma ScanIsAll(s: Store)
    requires Valid(s)
    ensures forall r :: r in Scan(s.rows, 1, s.nextId) <==> Stored(s, r)
  {
    var rs := Scan(s.rows, 1, s.nextId);
    ScanComplete(s.rows, 1, s.nextId);
    forall r | r in rs ensures Stored(s, r) {
      var i :| 0 <= i < |rs| && rs[i] == r;
    }
    forall r | Stored(s, r) ensures r in rs {
      assert s.rows[r.id] in rs;
    }
  }

  /** A duplicate-free listing of the rows has as many entries as there are keys. */
  lemma RowsAreKeys(s: Store, rs: seq<Restaurant>)
    requires Valid(s)
    requires forall i | 0 <= i < |rs| :: rs[i].id in s.rows && s.rows[rs[i].id] == rs[i]
    requires forall k | k in s.rows :: s.rows[k] in rs
    requires forall i, j | 0 <= i < j < |rs| :: rs[i].id < rs[j].id
    ensures |rs| == |s.rows|
  {
    var ids := set i | 0 <= i < |rs| :: rs[i].id;
    assert ids == s.rows.Keys by {
      forall k | k in s.rows ensures k in ids {
        var i :| 0 <= i < |rs| && rs[i] == s.rows[k];
      }
    }
    DistinctCount(rs);
  }

  lemma {:induction false} DistinctCount(rs: seq<Restaurant>)
    requires forall i, j | 0 <= i < j < |rs| :: rs[i].id < rs[j].id
    ensures |set i | 0 <= i < |rs| :: rs[i].id| == |rs|
  {
    if rs != [] {
      var front := rs[..|rs| - 1];
      DistinctCount(front);
      var a := set i | 0 <= i < |front| :: front[i].id;
      var b := set i | 0 <= i < |rs| :: rs[i].id;
      assert b == a + {rs[|rs| - 1].id};
      assert rs[|rs| - 1].id !in a;
    }
  }

  /** The first row of `rs` satisfying `p`. */
  function FirstMatch(rs: seq<Restaurant>, p: Restaurant -> bool): (r: Option<Restaurant>)
    ensures r.Some? ==> r.value in rs && p(r.value)
    ensures r.None? <==> forall i | 0 <= i < |rs| :: !p(rs[i])
    ensures r.Some? ==> exists i | 0 <= i < |rs| :: rs[i] == r.value && forall j | 0 <= j < i :: !p(rs[j])
  {
    if rs == [] then None
    else if p(rs[0]) then Some(rs[0])
    else
      var r := FirstMatch(rs[1..], p);
      if r.Some? then
        var i :| 0 <= i < |rs[1..]| && rs[1..][i] == r.value && forall j | 0 <= j < i :: !p(rs[1..][j]);
        assert rs[i + 1] == r.value && forall j | 0 <= j < i + 1 :: !p(rs[j]);
        r
      else r
  }

  /** The ids of the rows satisfying `p`. */
  function Matching(s: Store, p: Restaurant -> bool): set<int> {
    set k | k in s.rows && p(s.rows[k])
  }

  predicate IdsAscending(rs: seq<Restaurant>) {
    forall i, j | 0 <= i < j < |rs| :: rs[i].id < rs[j].id
  }

  /** The rows of `rs` satisfying `p`, in their original order. */
  function Filter(rs: seq<Restaurant>, p: Restaurant -> bool): (out: seq<Restaurant>)
    ensures forall r :: r in out <==> r in rs && p(r)
    ensures IdsAscending(rs) ==> IdsAscending(out)
  {
    if rs == [] then []
    else
      var rest := Filter(rs[1..], p);
      if p(rs[0]) then
        var out := [rs[0]] + rest;
        assert IdsAscending(rs) ==> IdsAscending(out) by {
          if IdsAscending(rs) {
            assert IdsAscending(rs[1..]);
            forall i | 0 <= i < |rest| ensures rs[0].id < rest[i].id {
              assert rest[i] in rs[1..];
            }
            assert forall i | 1 <= i < |out| :: out[i] == rest[i - 1];
          }
        }
        out
      else
        assert IdsAscending(rs) ==> IdsAscending(rs[1..]);
        rest
  }

  /** Adds a new row built from `cols` under the next id, stamped `now`. */
  function Insert(s: Store, cols: Columns6, now: Time): (out: (Restaurant, Store))
    requires Valid(s)
    ensures Valid(out.1)
    ensures out.0.id == s.nextId && out.0.id !in s.rows
    ensures forall c: Column :: Get(out.0, c) == Column6(cols, c)
    ensures out.0.createdAt == now && out.0.updatedAt == now
    ensures out.1.rows == s.rows[out.0.id := out.0]
    ensures |out.1.rows| == |s.rows| + 1
  {
    var r := Restaurant(s.nextId, cols.name, cols.street, cols.city, cols.state, cols.zip, cols.contact, now, now);
    (r, Store(s.rows[s.nextId := r], s.nextId + 1))
  }

  /** Two rows that agree on the key, the timestamps and every column are equal. */
  lemma SameColumns(a: Restaurant, b: Restaurant)
    requires a.id == b.id && a.createdAt == b.createdAt && a.updatedAt == b.updatedAt
    requires forall c: Column :: Get(a, c) == Get(b, c)
    ensures a == b
  {
    assert Get(a, Name) == Get(b, Name) && Get(a, Street) == Get(b, Street);
    assert Get(a, City) == Get(b, City) && Get(a, State) == Get(b, State);
    assert Get(a, Zip) == Get(b, Zip) && Get(a, Contact) == Get(b, Contact);
  }

  /** The row with its `updatedAt` refreshed to `now`. */
  function Touch(r: Restaurant, now: Time): (r': Restaurant)
    ensures forall c: Column :: Get(r', c) == Get(r, c)
    ensures r'.id == r.id && r'.createdAt == r.createdAt && r'.updatedAt == now
  {
    r.(updatedAt := now)
  }

  /** Whether update data supplies column `c`: the key is present with a
      value other than `undefined` (both update calls drop `undefined`
      entries before anything else). */
  predicate Supplied(data: map<string, Js.Value>, c: Column) {
    Key(c) in data && !data[Key(c)].Undefined?
  }

  /** Every column `data` supplies can be stored. */
  predicate SuppliedStorable(data: map<string, Js.Value>) {
    forall c: Column :: Supplied(data, c) ==> Storable(data[Key(c)])
  }

  /** Whether `data` changes column `c` of `r`: the column is supplied with a
      value other than the identical string. The ORM's setter compares with a
      deep equality, which for strings, numbers and booleans is this one. */
  predicate Changes(r: Restaurant, data: map<string, Js.Value>, c: Column) {
    Supplied(data, c) && data[Key(c)] != Js.Str(Get(r, c))
  }

  /** Writes every column of `cols` that `data` supplies. */
  function SetColumns(r: Restaurant, data: map<string, Js.Value>, cols: seq<Column>): (r': Restaurant)
    requires forall c | c in cols && Key(c) in data :: Storable(data[Key(c)])
    ensures forall c: Column :: Get(r', c) == if c in cols && Key(c) in data then ColumnText(data[Key(c)]) else Get(r, c)
    ensures r'.id == r.id && r'.createdAt == r.createdAt && r'.updatedAt == r.updatedAt
    decreases |cols|
  {
    if cols == [] then r
    else
      var r1 := if Key(cols[0]) in data then Set(r, cols[0], ColumnText(data[Key(cols[0])])) else r;
      assert forall c | c in cols[1..] :: c in cols;
      SetColumns(r1, data, cols[1..])
  }

  /** `instance.update(data)` on one row, before anything is written:
      `undefined` entries are dropped, the supplied columns are validated and
      applied, other keys are ignored, and `updatedAt` moves to `now` only
      when some column changed. The boolean says whether a save is issued at
      all. */
  function Patch(r: Restaurant, data: map<string, Js.Value>, now: Time): (out: Result<(Restaurant, bool), seq<Violation>>)
    ensures out.Ok? <==> SuppliedStorable(data)
    ensures out.Ok? ==> out.value.1 == exists c: Column :: Changes(r, data, c)
    ensures out.Ok? ==> forall c: Column :: Get(out.value.0, c) == if Supplied(data, c) then ColumnText(data[Key(c)]) else Get(r, c)
    ensures out.Ok? ==> out.value.0.id == r.id && out.value.0.createdAt == r.createdAt
    ensures out.Ok? ==> out.value.0.updatedAt == if out.value.1 then now else r.updatedAt
    ensures out.Ok? && !out.value.1 ==> out.value.0 == r
    ensures out.Err? ==> out.error != [] && out.error == Violations(Columns, Js.Defined(data), true)
  {
    var d := Js.Defined(data);
    DefinedSupplies(r, data);
    ApplyColumns(r, d, now)
  }

  /** Dropping `undefined` entries keeps exactly the supplied columns, with
      their values. */
  lemma DefinedSupplies(r: Restaurant, data: map<string, Js.Value>)
    ensures forall c: Column :: Supplied(data, c) <==> Key(c) in Js.Defined(data)
    ensures forall c: Column :: Supplied(data, c) ==> Js.Defined(data)[Key(c)] == data[Key(c)]
    ensures forall c: Column :: Changes(r, Js.Defined(data), c) <==> Changes(r, data, c)
  {
  }

  /** `instance.update` on data without `undefined` entries. */
  function ApplyColumns(r: Restaurant, d: map<string, Js.Value>, now: Time): (out: Result<(Restaurant, bool), seq<Violation>>)
    ensures out.Ok? <==> forall c: Column :: Key(c) in d ==> Storable(d[Key(c)])
    ensures out.Ok? ==> out.value.1 == exists c: Column :: Changes(r, d, c)
    ensures out.Ok? ==> forall c: Column :: Get(out.value.0, c) == if Key(c) in d then ColumnText(d[Key(c)]) else Get(r, c)
    ensures out.Ok? ==> out.value.0.id == r.id && out.value.0.createdAt == r.createdAt
    ensures out.Ok? ==> out.value.0.updatedAt == if out.value.1 then now else r.updatedAt
    ensures out.Ok? && !out.value.1 ==> out.value.0 == r
    ensures out.Err? ==> out.error != [] && out.error == Violations(Columns, d, true)
  {
    var vs := Violations(Columns, d, true);
    PatchViolations(d);
    if vs != [] then Err(vs)
    else if exists c: Column :: Changes(r, d, c) then Ok((Touch(Overwrite(r, d), now), true))
    else
      NothingChanges(r, d);
      Ok((r, false))
  }

  /** `r` with every column `d` supplies written. */
  function Overwrite(r: Restaurant, d: map<string, Js.Value>): (r': Restaurant)
    requires forall c: Column :: Key(c) in d ==> Storable(d[Key(c)])
    ensures forall c: Column :: Get(r', c) == if Key(c) in d then ColumnText(d[Key(c)]) else Get(r, c)
    ensures r'.id == r.id && r'.createdAt == r.createdAt && r'.updatedAt == r.updatedAt
  {
    forall c: Column ensures c in Columns { ColumnsCovered(c); }
    SetColumns(r, d, Columns)
  }

  /** Data that changes no column holds, for each column it names, that
      column's current text. */
  lemma NothingChanges(r: Restaurant, d: map<string, Js.Value>)
    requires forall c: Column :: Key(c) in d ==> Storable(d[Key(c)])
    requires !exists c: Column :: Changes(r, d, c)
    ensures forall c: Column :: Key(c) in d ==> ColumnText(d[Key(c)]) == Get(r, c)
  {
    forall c: Column | Key(c) in d ensures ColumnText(d[Key(c)]) == Get(r, c) {
      assert !Changes(r, d, c);
    }
  }

  /** An update's validation fails exactly when a supplied column is unstorable. */
  lemma PatchViolations(data: map<string, Js.Value>)
    ensures Violations(Columns, data, true) == [] <==> forall c: Column :: Key(c) in data ==> Storable(data[Key(c)])
  {
    if Violations(Columns, data, true) == [] {
      forall c: Column | Key(c) in data ensures Storable(data[Key(c)]) {
        var i := ColumnIndex(c);
        assert Checked(data, Columns[i], true);
      }
    }
  }
}
