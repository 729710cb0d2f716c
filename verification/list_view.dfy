/**
 * `RestaurantList`: the listing with its delete confirmation. The state is
 * whether the confirmation is open, the id awaiting confirmation and the
 * locally held copy of the list; the delete request a confirmation makes is
 * returned rather than performed.
 */
module RestaurantList {
  import opened Results
  import opened ClientTypes

  datatype State = State(confirmOpen: bool, deleteId: Option<int>, local: seq<Restaurant>)

  /** The state on mount: closed, nothing selected, the list as given. */
  function Mount(restaurants: seq<Restaurant>): (st: State)
    ensures !st.confirmOpen && st.deleteId.None? && st.local == restaurants
  {
    State(false, None, restaurants)
  }

  /** The effect on a new `restaurants` prop: the local copy is replaced and
      the confirmation state kept. */
  function PropsChanged(st: State, restaurants: seq<Restaurant>): (st': State)
    ensures st'.local == restaurants
    ensures st'.confirmOpen == st.confirmOpen && st'.deleteId == st.deleteId
  {
    st.(local := restaurants)
  }

  /** `handleDeleteClick`: remembers the id and opens the confirmation. */
  function HandleDeleteClick(st: State, id: int): (st': State)
    ensures st'.confirmOpen && st'.deleteId == Some(id) && st'.local == st.local
  {
    st.(deleteId := Some(id), confirmOpen := true)
  }

  /** The delete button of a row: it acts only when the row has an id. */
  function DeleteButton(st: State, row: Restaurant): (st': State)
    ensures row.id.Some? ==> st' == HandleDeleteClick(st, row.id.value)
    ensures row.id.None? ==> st' == st
  {
    if row.id.Some? then HandleDeleteClick(st, row.id.value) else st
  }

  /** `handleCancelDelete`: forgets the id and closes the confirmation. */
  function HandleCancelDelete(st: State): (st': State)
    ensures !st'.confirmOpen && st'.deleteId.None? && st'.local == st.local
  {
    st.(deleteId := None, confirmOpen := false)
  }

  /** How many rows of `rs` carry the id `id`. */
  function Occurrences(rs: seq<Restaurant>, id: int): nat {
    if rs == [] then 0 else (if rs[0].id == Some(id) then 1 else 0) + Occurrences(rs[1..], id)
  }

  /** `a` is `b` with some entries dropped and the rest in their order. */
  predicate IsSubsequence(a: seq<Restaurant>, b: seq<Restaurant>)
    decreases |b|
  {
    if a == [] then true
    else if b == [] then false
    else if a[0] == b[0] then IsSubsequence(a[1..], b[1..])
    else IsSubsequence(a, b[1..])
  }

  /** `rs.filter((r) => r.id !== id)`: the rows whose id is not `id`, every
      one of them, in their order. */
  function Without(rs: seq<Restaurant>, id: int): (out: seq<Restaurant>)
    ensures forall r | r in out :: r in rs && r.id != Some(id)
    ensures forall r | r in rs && r.id != Some(id) :: r in out
    ensures |out| == |rs| - Occurrences(rs, id)
    ensures IsSubsequence(out, rs)
  {
    if rs == [] then []
    else
      var rest := Without(rs[1..], id);
      if rs[0].id == Some(id) then
        assert rest != [] ==> rest[0] != rs[0] by {
          if rest != [] {
            assert rest[0] in rest;
          }
        }
        rest
      else
        var out := [rs[0]] + rest;
        assert out[1..] == rest;
        out
  }

  /** The outcome of confirming: the new state and the id a delete request
      was sent for, if any. */
  datatype Confirmed = Confirmed(state: State, request: Option<int>)

  /** `handleConfirmDelete`, with `apiOk` the outcome of the request: with no
      id selected nothing happens; otherwise the delete is requested, and on
      success every row with that id leaves the local list and the
      confirmation closes, while on failure the state is kept. */
  function HandleConfirmDelete(st: State, apiOk: bool): (out: Confirmed)
    ensures out.request == st.deleteId
    ensures out.request.None? || !apiOk ==> out.state == st
    ensures out.request.Some? && apiOk ==>
      && !out.state.confirmOpen && out.state.deleteId.None?
      && out.state.local == Without(st.local, out.request.value)
  {
    match st.deleteId
    case None => Confirmed(st, None)
    case Some(id) =>
      if apiOk then Confirmed(State(false, None, Without(st.local, id)), Some(id))
      else Confirmed(st, Some(id))
  }

  /** Clicking a row's delete button and confirming successfully requests the
      delete of that row's id and removes it, and only rows with that id,
      from the list. */
  lemma ClickThenConfirm(st: State, row: Restaurant)
    requires row.id.Some?
    ensures var out := HandleConfirmDelete(DeleteButton(st, row), true);
      && out.request == row.id
      && row !in out.state.local
      && (forall r | r in st.local && r.id != row.id :: r in out.state.local)
      && !out.state.confirmOpen
  {
  }

  /** Cancelling before confirming sends no request and keeps the list. */
  lemma CancelThenConfirm(st: State, apiOk: bool)
    ensures HandleConfirmDelete(HandleCancelDelete(st), apiOk).request.None?
    ensures HandleConfirmDelete(HandleCancelDelete(st), apiOk).state.local == st.local
  {
  }

  /** Filtering out an id that no row carries leaves the list as it is. */
  lemma {:induction false} WithoutAbsent(rs: seq<Restaurant>, id: int)
    requires forall r | r in rs :: r.id != Some(id)
    ensures Without(rs, id) == rs
  {
    if rs != [] {
      WithoutAbsent(rs[1..], id);
    }
  }

  /** Filtering twice by the same id changes nothing the second time. */
  lemma WithoutIdempotent(rs: seq<Restaurant>, id: int)
    ensures Without(Without(rs, id), id) == Without(rs, id)
  {
    WithoutAbsent(Without(rs, id), id);
  }
}
