/**
 * `BaseRepository<T>`: the generic repository, here instantiated at the
 * restaurant table. Query options are reduced to their `where` part, given as
 * a predicate on rows.
 */
module BaseRepository {
  import opened Results
  import Js
  import opened Schema
  import opened Store
  import RestaurantRepository

  /** `findAll(options)`: the matching rows in ascending id order. */
  function FindAll(s: Store, where: Restaurant -> bool, fault: Option<string>): (r: Result<seq<Restaurant>, StoreError>)
    requires Valid(s)
    ensures r.Err? <==> fault.Some?
    ensures r.Ok? ==> (forall x :: x in r.value <==> Stored(s, x) && where(x)) && IdsAscending(r.value)
  {
    if fault.Some? then Err(Failure(fault.value)) else Ok(Filter(All(s), where))
  }

  /** `findOne(options)`: the first matching row, or `null`. */
  function FindOne(s: Store, where: Restaurant -> bool, fault: Option<string>): (r: Result<Option<Restaurant>, StoreError>)
    requires Valid(s)
    ensures r.Err? <==> fault.Some?
    ensures r.Ok? ==> (r.value.None? <==> forall x | Stored(s, x) :: !where(x))
    ensures r.Ok? && r.value.Some? ==> Stored(s, r.value.value) && where(r.value.value)
    ensures r.Ok? && r.value.Some? ==> forall x | Stored(s, x) && where(x) :: r.value.value.id <= x.id
  {
    if fault.Some? then Err(Failure(fault.value))
    else
      var rs := All(s);
      var m := FirstMatch(rs, where);
      FirstMatchIsLeast(rs, where);
      Ok(m)
  }

  /** In an ascending listing the first match has the least id of all matches. */
  lemma FirstMatchIsLeast(rs: seq<Restaurant>, where: Restaurant -> bool)
    requires IdsAscending(rs)
    ensures FirstMatch(rs, where).Some? ==> forall x | x in rs && where(x) :: FirstMatch(rs, where).value.id <= x.id
  {
    var m := FirstMatch(rs, where);
    if m.Some? {
      var i :| 0 <= i < |rs| && rs[i] == m.value && forall j | 0 <= j < i :: !where(rs[j]);
      forall x | x in rs && where(x) ensures m.value.id <= x.id {
        var j :| 0 <= j < |rs| && rs[j] == x;
        assert !(j < i);
      }
    }
  }

  /** `updateById(id, data)`: look the row up by primary key and, when it is
      there, apply `instance.update(data)` to it; the same steps as the
      restaurant repository's `update`. */
  function UpdateById(s: Store, id: Id, data: map<string, Js.Value>, now: Time, f: RestaurantRepository.Faults): (r: Result<(Option<Restaurant>, Store), StoreError>)
    requires Valid(s)
    ensures f.read.Some? ==> r == Err(Failure(f.read.value))
    ensures f.read.None? && id.NotFinite? ==> r == Err(BadKey)
    ensures f.read.None? && !id.NotFinite? ==> (r == Ok((None, s)) <==> !HasKey(s, id))
    ensures f.read.None? && HasKey(s, id) && !SuppliedStorable(data) ==>
      r == Err(Invalid(Violations(Columns, Js.Defined(data), true)))
    ensures f.read.None? && HasKey(s, id) && SuppliedStorable(data) && (f.write.None? || !exists c: Column :: Changes(s.rows[id.n], data, c)) ==>
      && r.Ok? && r.value.0.Some?
      && var x := r.value.0.value;
      && Patch(s.rows[id.n], data, now) == Ok((x, exists c: Column :: Changes(s.rows[id.n], data, c)))
      && r.value.1 == Store(s.rows[id.n := x], s.nextId)
    ensures r.Ok? && r.value.0.Some? ==> var x := r.value.0.value;
      && HasKey(s, id) && x.id == id.n
      && r.value.1.rows == s.rows[id.n := x] && Valid(r.value.1)
      && (forall c: Column :: Get(x, c) == if Supplied(data, c) then ColumnText(data[Key(c)]) else Get(s.rows[id.n], c))
      && x.createdAt == s.rows[id.n].createdAt
  {
    RestaurantRepository.Update(s, id, data, now, f)
  }

  /** `after` is `before` with the columns `data` supplies and `updatedAt` set to `now`. */
  ghost predicate BulkPatched(before: Restaurant, after: Restaurant, data: map<string, Js.Value>, now: Time)
    requires SuppliedStorable(data)
  {
    && after.id == before.id && after.createdAt == before.createdAt && after.updatedAt == now
    && forall c: Column :: Get(after, c) == if Supplied(data, c) then ColumnText(data[Key(c)]) else Get(before, c)
  }

  /** One row of a bulk update, `undefined` entries dropped. */
  function BulkPatch(before: Restaurant, data: map<string, Js.Value>, now: Time): (after: Restaurant)
    requires SuppliedStorable(data)
    ensures BulkPatched(before, after, data, now)
    ensures after.id == before.id
  {
    var d := Js.Defined(data);
    assert forall c: Column :: Supplied(data, c) <==> Key(c) in d;
    Touch(Overwrite(before, d), now)
  }

  /** Whether `data` supplies at least one column. */
  predicate SuppliesColumn(data: map<string, Js.Value>) {
    exists c: Column :: Supplied(data, c)
  }

  /** `updateMany(data, options)`: the static `Model.update`. The supplied
      columns are validated; when none is supplied only `updatedAt` would be
      set, so no query is sent and the count is 0. Otherwise every matching
      row gets the columns and a fresh `updatedAt`, and the result counts the
      matching rows. */
  function UpdateMany(s: Store, data: map<string, Js.Value>, where: Restaurant -> bool, now: Time, fault: Option<string>): (r: Result<(nat, Store), StoreError>)
    requires Valid(s)
    ensures r.Ok? <==> SuppliedStorable(data) && (fault.None? || !SuppliesColumn(data))
    ensures !SuppliedStorable(data) ==> r == Err(Invalid(Violations(Columns, Js.Defined(data), true)))
    ensures SuppliedStorable(data) && SuppliesColumn(data) && fault.Some? ==> r == Err(Failure(fault.value))
    ensures r.Ok? && !SuppliesColumn(data) ==> r.value == (0, s)
    ensures r.Ok? && SuppliesColumn(data) ==> r.value.0 == |Matching(s, where)|
    ensures r.Ok? ==> Valid(r.value.1) && r.value.1.rows.Keys == s.rows.Keys
    ensures r.Ok? ==> forall k | k in s.rows && !where(s.rows[k]) :: r.value.1.rows[k] == s.rows[k]
    ensures r.Ok? && SuppliesColumn(data) ==>
      forall k | k in s.rows && where(s.rows[k]) :: BulkPatched(s.rows[k], r.value.1.rows[k], data, now)
  {
    var d := Js.Defined(data);
    assert SuppliedStorable(data) <==> forall c: Column :: Key(c) in d ==> Storable(d[Key(c)]);
    var vs := Violations(Columns, d, true);
    PatchViolations(d);
    if vs != [] then Err(Invalid(vs))
    else if !SuppliesColumn(data) then Ok((0, s))
    else if fault.Some? then Err(Failure(fault.value))
    else
      Ok((|Matching(s, where)|, Store(BulkRows(s, data, where, now), s.nextId)))
  }

  /** The table after a bulk update: matching rows patched, the rest as they were. */
  function BulkRows(s: Store, data: map<string, Js.Value>, where: Restaurant -> bool, now: Time): (rows: map<int, Restaurant>)
    requires Valid(s)
    requires SuppliedStorable(data)
    ensures rows.Keys == s.rows.Keys
    ensures forall k | k in rows :: rows[k].id == k
    ensures forall k | k in s.rows && !where(s.rows[k]) :: rows[k] == s.rows[k]
    ensures forall k | k in s.rows && where(s.rows[k]) :: BulkPatched(s.rows[k], rows[k], data, now)
  {
    var rows := map k | k in s.rows :: if where(s.rows[k]) then BulkPatch(s.rows[k], data, now) else s.rows[k];
    forall k | k in s.rows
      ensures rows[k].id == k
      ensures where(s.rows[k]) ==> BulkPatched(s.rows[k], rows[k], data, now)
    {
      if where(s.rows[k]) {
        assert rows[k] == BulkPatch(s.rows[k], data, now);
      }
    }
    rows
  }

  /** `deleteMany(options)`: destroys the matching rows and counts them. */
  function DeleteMany(s: Store, where: Restaurant -> bool, fault: Option<string>): (r: Result<(nat, Store), StoreError>)
    requires Valid(s)
    ensures r.Err? <==> fault.Some?
    ensures r.Ok? ==> r.value.0 == |Matching(s, where)|
    ensures r.Ok? ==> Valid(r.value.1) && r.value.1.nextId == s.nextId
    ensures r.Ok? ==> forall k :: k in r.value.1.rows <==> k in s.rows && !where(s.rows[k])
    ensures r.Ok? ==> forall k | k in r.value.1.rows :: r.value.1.rows[k] == s.rows[k]
  {
    if fault.Some? then Err(Failure(fault.value))
    else
      var rows := map k | k in s.rows && !where(s.rows[k]) :: s.rows[k];
      Ok((|Matching(s, where)|, Store(rows, s.nextId)))
  }

  /** The where-clause `{id}`: rows whose primary key equals `id`. */
  function ByKey(id: Id): Restaurant -> bool {
    (x: Restaurant) => id == IntId(x.id)
  }

  /** At most one row matches a primary key, and one does exactly when the key is stored. */
  lemma ByKeyMatches(s: Store, id: Id)
    requires Valid(s)
    ensures Matching(s, ByKey(id)) == if HasKey(s, id) then {id.n} else {}
  {
    var m := Matching(s, ByKey(id));
    forall k | k in m ensures HasKey(s, id) && k == id.n {
      assert ByKey(id)(s.rows[k]);
    }
    if HasKey(s, id) {
      assert ByKey(id)(s.rows[id.n]);
    }
  }

  /** `deleteById(id)`: `destroy({where: {id}})`, true when it removed a row. */
  function DeleteById(s: Store, id: Id, fault: Option<string>): (r: Result<(bool, Store), StoreError>)
    requires Valid(s)
    ensures r.Err? <==> fault.Some? || id.NotFinite?
    ensures fault.None? && id.NotFinite? ==> r == Err(BadKey)
    ensures r.Ok? ==> (r.value.0 <==> HasKey(s, id))
    ensures r.Ok? && r.value.0 ==> r.value.1 == Store(s.rows - {id.n}, s.nextId)
    ensures r.Ok? && !r.value.0 ==> r.value.1 == s
  {
    if fault.None? && id.NotFinite? then Err(BadKey)
    else
    match DeleteMany(s, ByKey(id), fault)
    case Err(e) => Err(e)
    case Ok((n, s')) =>
      ByKeyMatches(s, id);
      assert forall k | k in s.rows :: ByKey(id)(s.rows[k]) <==> k in Matching(s, ByKey(id));
      assert s'.rows == if HasKey(s, id) then s.rows - {id.n} else s.rows;
      Ok((n > 0, s'))
  }

  /** `count(options)`: the number of matching rows. */
  function Count(s: Store, where: Restaurant -> bool, fault: Option<string>): (r: Result<nat, StoreError>)
    requires Valid(s)
    ensures r.Err? <==> fault.Some?
    ensures r.Ok? ==> r.value == |Matching(s, where)| == |MatchingRows(s, where)|
    ensures r.Ok? ==> (r.value == 0 <==> forall x | Stored(s, x) :: !where(x))
    ensures r.Ok? ==> r.value <= |s.rows|
  {
    if fault.Some? then Err(Failure(fault.value))
    else
      var m := Matching(s, where);
      SubsetSize(m, s.rows.Keys);
      assert m == {} <==> forall x | Stored(s, x) :: !where(x) by {
        if m == {} {
          forall x | Stored(s, x) ensures !where(x) {
            assert x.id !in m;
          }
        }
        if forall x | Stored(s, x) :: !where(x) {
          forall k | k in s.rows ensures !where(s.rows[k]) {
            assert Stored(s, s.rows[k]);
          }
          assert m == {};
        }
      }
      assert |m| == |MatchingRows(s, where)|;
      Ok(|m|)
  }

  lemma {:induction false} SubsetSize<T>(a: set<T>, b: set<T>)
    requires a <= b
    ensures |a| <= |b|
    decreases |a|
  {
    if a != {} {
      var x :| x in a;
      SubsetSize(a - {x}, b - {x});
    }
  }

  /** `exists(options)`: whether `findOne` with the same options finds a row. */
  function Exists(s: Store, where: Restaurant -> bool, fault: Option<string>): (r: Result<bool, StoreError>)
    requires Valid(s)
    ensures r.Err? <==> fault.Some?
    ensures r.Ok? ==> (r.value <==> exists x | Stored(s, x) :: where(x))
  {
    match FindOne(s, where, fault)
    case Err(e) => Err(e)
    case Ok(m) => Ok(m.Some?)
  }

  /** What `paginate` returns. */
  datatype Page = Page(data: seq<Restaurant>, total: nat, page: int, limit: int)

  /** The row offset of a page: `(page - 1) * limit`. */
  function Offset(page: int, limit: int): int {
    (page - 1) * limit
  }

  /** The `page` argument with its default. */
  function PageArg(page: Option<int>): int {
    if page.Some? then page.value else 1
  }

  /** The `limit` argument with its default. */
  function LimitArg(limit: Option<int>): int {
    if limit.Some? then limit.value else 10
  }

  /** With both defaults the first ten rows are asked for. */
  lemma DefaultWindow()
    ensures PageArg(None) == 1 && LimitArg(None) == 10
    ensures Offset(PageArg(None), LimitArg(None)) == 0
  {
  }

  /** `paginate(page = 1, limit = 10, options)`: the window of matching rows
      starting at `Offset(page, limit)`, the total match count, and the two
      arguments as given. An absent argument takes its default. */
  function Paginate(s: Store, page: Option<int>, limit: Option<int>, where: Restaurant -> bool, fault: Option<string>): (r: Result<Page, StoreError>)
    requires Valid(s)
    ensures r.Ok? <==> fault.None? && LimitArg(limit) >= 0 && Offset(PageArg(page), LimitArg(limit)) >= 0
    ensures r.Ok? ==> r.value.page == PageArg(page) && r.value.limit == LimitArg(limit)
    ensures r.Ok? ==> r.value.total == |Matching(s, where)|
    ensures r.Ok? ==> |r.value.data| == WindowSize(r.value.total, Offset(PageArg(page), LimitArg(limit)), LimitArg(limit))
    ensures r.Ok? ==> (forall x | x in r.value.data :: Stored(s, x) && where(x)) && IdsAscending(r.value.data)
    ensures r.Ok? ==> forall i | 0 <= i < |r.value.data| ::
      r.value.data[i] == MatchingRows(s, where)[Offset(PageArg(page), LimitArg(limit)) + i]
  {
    var p := PageArg(page);
    var l := LimitArg(limit);
    var offset := Offset(p, l);
    if l < 0 then Err(NegativeWindow(true))
    else if offset < 0 then Err(NegativeWindow(false))
    else if fault.Some? then Err(Failure(fault.value))
    else Ok(PageAt(s, where, p, l, offset))
  }

  /** The page of matching rows starting at `offset`. */
  function PageAt(s: Store, where: Restaurant -> bool, page: int, limit: nat, offset: nat): (pg: Page)
    requires Valid(s)
    ensures pg.page == page && pg.limit == limit && pg.total == |Matching(s, where)|
    ensures |pg.data| == WindowSize(pg.total, offset, limit)
    ensures forall x | x in pg.data :: Stored(s, x) && where(x)
    ensures IdsAscending(pg.data)
    ensures forall i | 0 <= i < |pg.data| :: pg.data[i] == MatchingRows(s, where)[offset + i]
  {
    var rows := MatchingRows(s, where);
    Page(Window(rows, offset, limit), |rows|, page, limit)
  }

  /** `LIMIT limit OFFSET offset` over a listing. */
  function Window(rows: seq<Restaurant>, offset: nat, limit: nat): (w: seq<Restaurant>)
    ensures |w| == WindowSize(|rows|, offset, limit)
    ensures forall i | 0 <= i < |w| :: w[i] == rows[offset + i]
    ensures IdsAscending(rows) ==> IdsAscending(w)
    ensures forall x | x in w :: x in rows
  {
    if offset >= |rows| then [] else rows[offset..offset + Min(limit, |rows| - offset)]
  }

  /** How many of `count` rows a window at `offset` of at most `limit` rows holds. */
  function WindowSize(count: int, offset: int, limit: int): int {
    if offset >= count then 0 else Min(limit, count - offset)
  }

  function Min(a: int, b: int): int {
    if a <= b then a else b
  }

  /** The matching rows in ascending id order: what `findAndCountAll` counts. */
  function MatchingRows(s: Store, where: Restaurant -> bool): (rows: seq<Restaurant>)
    requires Valid(s)
    ensures forall x :: x in rows <==> Stored(s, x) && where(x)
    ensures IdsAscending(rows)
    ensures |rows| == |Matching(s, where)|
  {
    var rows := Filter(All(s), where);
    MatchCount(s, where, rows);
    rows
  }

  /** The filtered listing has one entry per matching key. */
  lemma MatchCount(s: Store, where: Restaurant -> bool, rows: seq<Restaurant>)
    requires Valid(s)
    requires forall x :: x in rows <==> Stored(s, x) && where(x)
    requires IdsAscending(rows)
    ensures |rows| == |Matching(s, where)|
  {
    var ids := set i | 0 <= i < |rows| :: rows[i].id;
    assert ids == Matching(s, where) by {
      forall k | k in Matching(s, where) ensures k in ids {
        assert s.rows[k] in rows;
        var i :| 0 <= i < |rows| && rows[i] == s.rows[k];
      }
      forall i | 0 <= i < |rows| ensures rows[i].id in Matching(s, where) {
        assert rows[i] in rows;

      }
    }
    DistinctCount(rows);
  }
}
