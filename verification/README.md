# Restaurant listing: a Dafny model of the request logic and the form logic

This project models the decision-making parts of a small restaurant-listing
application and proves properties of them. The application has an
Express/Sequelize backend and a React frontend.

- **Backend, one table.** The `Restaurant` model is a record with an
  auto-increment integer key, six non-null string columns, and the two
  timestamps the ORM maintains. The table is an abstract store: a map from key
  to row plus the auto-increment counter. The invariant `Store.Valid` says that
  every row sits under its own key, and that every key lies below the counter.
- **Backend, repositories.** Both repositories are pure functions over the
  store:
  - the restaurant repository: `getAll`, `findByName`, `findById`, `create`,
    `update` and `delete`;
  - the generic base repository: `findAll`, `findOne`, `updateById`,
    `updateMany`, `deleteById`, `deleteMany`, `count`, `exists` and
    `paginate`.
  
  A store call that throws is an argument: a fault carries the error message.
  The clock is an argument too (`now`).
- **Backend, controller.** The four Express handlers are step functions. Each
  takes the request and the store, and gives the writes the handler attempts
  plus the new store. The client receives the first write.
  - The update and delete handlers do not `return` after their 404. Each then
    writes a second time, which Express refuses. Its catch block writes a third
    time, which is refused as well.
  - The model lists all three writes. It proves the property that matters: the
    first write is the 404, and the store is untouched.
- **Backend, response envelopes.** These are the two `RESPONSE_TEMPLATES`
  builders. Their optional key is present exactly when its argument is truthy.
  JavaScript values, truthiness and object spread are modelled in `Js`.
- **Frontend, form dialog.** The dialog's state is the form and the per-field
  error texts. Modelled: the initial form and its reset, the `handleChange`
  input filter, `validateForm`, and the branch `handleSubmit` takes.
  `handleSubmit` returns the API call it would make rather than making it.
- **Frontend, list.** The list's delete confirmation is a state machine over
  `(confirmOpen, deleteId, localRestaurants)`. A successful delete is an
  order-preserving filter.

Creating a restaurant stores `{name, ...address, ...restOfBody}`, and later
entries win. So an `address` object carrying a `name` replaces the body's name.
The duplicate check, however, looked only at the body's name. The lemma
`Scenarios.AddressNameBypassesDuplicateCheck` proves that this lets a second row
with an existing name be created. `Scenarios.AddressNameExample` exhibits a
complete request that is answered 201 and leaves two rows with the same name.

Some behaviour of the handlers is easy to mistake:
- The path id goes through `Number(...)` unchecked. A fraction finds no row.
  NaN (a segment such as "abc") and the infinities reach the SQL as bare words
  that the database rejects, so update answers 400 and delete answers 500
  rather than 404.
- The create handler checks no required field. Missing fields fail at the
  store's non-null columns and reach the client through the catch, as 400.
- The update body is stored unflattened: a nested `address` changes nothing.
- An update that races a delete is not detected; the model runs requests one
  after another.
- Error texts sit under `error`; the `details` field of the error envelope is
  never used by the handlers.
- The 404 paths attempt three writes, not one.

The create handler's duplicate message is its own literal, "A restaurant with
this name already exists.". It is not the `RESTAURANT_ALREADY_EXISTS` constant.
The model uses the literal.

Files:
- `results.dfy`: `Option` and `Result`.
- `text.dfy`: JavaScript `trim`, `\d`, decimal numerals.
- `js.dfy`: JavaScript values, truthiness, spread.
- `constants.dfy`: the backend constants and envelopes.
- `schema.dfy`: the model's columns and column validation.
- `store.dfy`: the store and its primitive reads and writes.
- `repository.dfy`: the restaurant repository.
- `base_repo.dfy`: the generic repository.
- `controller.dfy`: the Express handlers.
- `scenarios.dfy`: properties of request sequences.
- `client_types.dfy`: the frontend record.
- `dialog.dfy`: the form dialog.
- `list_view.dfy`: the list and its delete confirmation.

## Model

| member | source | states |
|---|---|---|
| Text.TrimEmptyIff | frontend/src/components/RestaurantDialog.tsx:63-78 | a value trims to the empty string exactly when every character is JavaScript whitespace |
| Text.NatTextRoundTrip | backend/src/models/Restaurant.ts:27-50 | the decimal text a non-negative number is stored as reads back as that number |
| Js.Spread | backend/src/controllers/restaurant.controller.ts:30 | spreading an object copies its entries; spreading anything else contributes only index keys, never a column name |
| Js.ConditionalEntry | backend/src/constants/index.ts:69 | `...(x && {key: x})` adds the entry `key: x` exactly when `x` is truthy, and nothing otherwise |
| Constants.ErrorEnvelope | backend/src/constants/index.ts:67-70 | `error` is always the message; `details` is present exactly when given as a non-empty string, and then equals it; no other key |
| Constants.SuccessEnvelope | backend/src/constants/index.ts:72-75 | `message` is always the message; `data` is present exactly when the data is truthy, and then equals it; no other key |
| Constants.ErrorEnvelopeWithoutDetails | backend/src/constants/index.ts:67-70 | with absent or empty details the error envelope is exactly `{error: message}` |
| Schema.Set | backend/src/models/Restaurant.ts:8-18 | writing one column leaves the other columns, the key and both timestamps as they were |
| Schema.Check | backend/src/models/Restaurant.ts:27-50 | a column value is rejected exactly when it cannot be stored as a non-null string, and the violation names that column; it is a notNull violation exactly for `null`/`undefined` and a string violation exactly for arrays and objects |
| Schema.Violations | backend/src/models/Restaurant.ts:27-50 | no violation exactly when every checked column is storable; every checked, unstorable column is reported with the kind its value calls for, and nothing else is reported |
| Schema.ViolationsInOrder | backend/src/models/Restaurant.ts:27-50 | columns validated in declaration order are reported in that order, at most once each |
| Schema.ColumnViolationsInOrder | backend/src/models/Restaurant.ts:27-50 | the six-column validation reports its violations in the order the model declares the columns, at most one per column |
| Schema.ReadColumns | backend/src/models/Restaurant.ts:27-50 | a create payload is accepted exactly when all six columns are storable, and each column then holds the text of its value; otherwise the error is the full build's violation list |
| Store.EmptyValid | backend/src/models/Restaurant.ts:22-26 | the empty table satisfies the key invariant |
| Store.All | backend/src/repositories/restaurant.repository.ts:4-6 | the listing holds exactly the stored rows, one entry per key, in ascending key order |
| Store.ScanComplete | backend/src/repositories/restaurant.repository.ts:4-6 | every row with a key in the scanned range is in the scan |
| Store.FirstMatch | backend/src/repositories/base.repo.ts:19-21 | the result is a matching row that no earlier row matches; none exactly when no row matches |
| Store.Filter | backend/src/repositories/base.repo.ts:15-17 | keeps exactly the matching rows and keeps them in key order |
| Store.Insert | backend/src/models/Restaurant.ts:22-26 | the new row gets the counter's key, held by no existing row; the rest of the table is unchanged, the invariant is kept and the row count grows by one |
| Store.SetColumns | backend/src/repositories/restaurant.repository.ts:23 | every supplied column takes the supplied text; every other column, the key and the timestamps keep their values |
| Store.Patch | backend/src/repositories/restaurant.repository.ts:23 | `instance.update` drops `undefined` entries, then fails exactly when a supplied column is unstorable; it applies exactly the supplied columns, never the key or `createdAt`, and moves `updatedAt` only when some column changed; a failure carries the partial validation's violations of the defined entries |
| Store.PatchViolations | backend/src/repositories/restaurant.repository.ts:23 | the partial validation finds nothing exactly when every supplied column is storable |
| RestaurantRepository.GetAll | backend/src/repositories/restaurant.repository.ts:4-6 | returns every stored row and only stored rows; fails only on a store fault |
| RestaurantRepository.FindByName | backend/src/repositories/restaurant.repository.ts:8-10 | returns a stored row whose name is exactly the argument, or none exactly when no row has that name; `null` finds none; `undefined` is an error, and so are booleans, numbers, arrays and objects |
| RestaurantRepository.FindById | backend/src/repositories/restaurant.repository.ts:12-14 | returns the row stored under the key, or none exactly when the key is absent; a store fault is reported with its message, and a NaN or infinite key makes the query fail |
| RestaurantRepository.Create | backend/src/repositories/restaurant.repository.ts:16-18 | succeeds exactly when all six columns are storable and the store does not fail; adds exactly one row under a fresh key, holding the columns supplied and both timestamps `now`, and leaves other rows unchanged; otherwise the error is the validation's violations, or else the store's fault |
| RestaurantRepository.CreateStoreFault | backend/src/repositories/restaurant.repository.ts:16-18 | columns that pass validation reach the insert, so a store fault there is the error reported, with its message |
| RestaurantRepository.Update | backend/src/repositories/restaurant.repository.ts:20-25 | an absent key gives null and an unchanged store; a present key with storable columns succeeds unless a needed write fails, changes only that row as `instance.update` prescribes, and returns it; an unstorable column is a validation error listing the partial validation's violations |
| RestaurantRepository.Delete | backend/src/repositories/restaurant.repository.ts:27-32 | an absent key gives a falsy result and an unchanged store; a present key with no store fault removes exactly that row and gives true |
| BaseRepository.FindAll | backend/src/repositories/base.repo.ts:15-17 | returns exactly the stored rows that satisfy the where-clause, in key order |
| BaseRepository.FindOne | backend/src/repositories/base.repo.ts:19-21 | returns a stored matching row, the one with the least key under the ordering assumption below, or null exactly when nothing matches |
| BaseRepository.FirstMatchIsLeast | backend/src/repositories/base.repo.ts:19-21 | in a key-ordered listing the first match has the least key of all matches |
| BaseRepository.UpdateById | backend/src/repositories/base.repo.ts:27-33 | null with no change exactly when no row has the key; a present key with storable columns and no failing write gives the row `instance.update(data)` produces, stored under its key, with every other row unchanged |
| BaseRepository.BulkPatch | backend/src/repositories/base.repo.ts:35-38 | one row of a bulk update takes the supplied (not `undefined`) columns and a fresh `updatedAt`, keeping its key and `createdAt` |
| BaseRepository.BulkRows | backend/src/repositories/base.repo.ts:35-38 | the table after a bulk update keeps its keys; matching rows are patched and the others are left as they were |
| BaseRepository.UpdateMany | backend/src/repositories/base.repo.ts:35-38 | an unstorable supplied column is a validation error; data supplying no column sends no query and gives 0 with the store unchanged; otherwise the count is the number of matching rows, matching rows are updated, the others left alone, no row is added or removed, and only then can a store fault occur |
| BaseRepository.DeleteMany | backend/src/repositories/base.repo.ts:45-47 | removes exactly the matching rows and returns how many there were |
| BaseRepository.ByKeyMatches | backend/src/repositories/base.repo.ts:41 | a primary-key where-clause matches at most one row, and one exactly when the key is stored |
| BaseRepository.DeleteById | backend/src/repositories/base.repo.ts:40-43 | true exactly when the key was stored, and then exactly that row is gone; otherwise nothing changes |
| BaseRepository.Count | backend/src/repositories/base.repo.ts:49-51 | the result is the number of matching rows, the length of the `findAll` listing for the same clause; zero exactly when no stored row matches; never more than the number of rows |
| BaseRepository.Exists | backend/src/repositories/base.repo.ts:53-56 | true exactly when some stored row matches, that is, when `findOne` finds one |
| BaseRepository.Paginate | backend/src/repositories/base.repo.ts:58-76 | defaults page 1 and limit 10; page and limit are echoed; total is the full match count whatever the window; the window is the run of matching rows, in key order, starting at `offset = (page-1)*limit` and no longer than the limit |
| BaseRepository.DefaultWindow | backend/src/repositories/base.repo.ts:58-63 | the defaults are page 1 and limit 10, which give offset 0 |
| BaseRepository.PageAt | backend/src/repositories/base.repo.ts:64-75 | the page echoes its arguments, counts every match as its total, and holds the matching rows from the offset on, in key order, as many as the limit allows |
| BaseRepository.Window | backend/src/repositories/base.repo.ts:63-68 | `LIMIT`/`OFFSET`: the window is the run of rows starting at the offset, no longer than the limit |
| BaseRepository.MatchingRows | backend/src/repositories/base.repo.ts:64-68 | what `findAndCountAll` counts: exactly the matching rows, in key order, one per matching key |
| RestaurantController.ErrorBody | backend/src/controllers/restaurant.controller.ts:13 | a hand-written `{error: message}` body is the error envelope without details |
| RestaurantController.MessageBody | backend/src/controllers/restaurant.controller.ts:62 | a hand-written `{message}` body is the success envelope without data |
| RestaurantController.GetAllRestaurants | backend/src/controllers/restaurant.controller.ts:7-15 | on success one write with the default status 200 holding every stored row; on a store failure one write of 500 with the error message; the store is unchanged |
| RestaurantController.Flatten | backend/src/controllers/restaurant.controller.ts:20-30 | the creation data is `{name} ⊕ address ⊕ restOfBody`, later entries winning: its keys are exactly those three sources' keys; body keys other than `name`/`address` keep the body's value, every other address key reaches the data with the address's value, and `name` is the address's name when it has one, else the body's |
| RestaurantController.CreateRestaurant | backend/src/controllers/restaurant.controller.ts:18-36 | exactly one write; 409 with the duplicate message exactly when a stored row has the body's name, and then no change; 201 exactly when no duplicate, no fault and all columns storable, adding exactly one row with the flattened columns; otherwise 400 `{error}` and no change |
| RestaurantController.CreateLookupMessage | backend/src/controllers/restaurant.controller.ts:22-34 | a duplicate lookup that throws is answered 400 with `{error: message}` of that error |
| RestaurantController.CreateFaultMessage | backend/src/controllers/restaurant.controller.ts:22-34 | a store fault during the lookup of a string name is answered 400 with the fault's message |
| RestaurantController.CreateInsertMessage | backend/src/controllers/restaurant.controller.ts:30-34 | after no duplicate is found, a failing insert is answered 400 with that error's message |
| RestaurantController.CreateInvalidMessage | backend/src/controllers/restaurant.controller.ts:30-34 | unstorable columns are answered 400 with the joined messages of the full build's violations, which name exactly the unstorable columns, once each, in column order |
| RestaurantController.CreateWriteFaultMessage | backend/src/controllers/restaurant.controller.ts:30-34 | a failing insert of storable columns is answered 400 with the store's message |
| RestaurantController.UpdateRestaurant | backend/src/controllers/restaurant.controller.ts:39-51 | the first write is 404 `{error: "Restaurant not found"}` exactly when the id is a number no key equals, and the store is then unchanged; 200 with the updated row exactly when the key is present, the columns are storable and no needed store call fails; 400 `{error: message}` with the thrown error's message otherwise, including a NaN id |
| RestaurantController.DeleteRestaurant | backend/src/controllers/restaurant.controller.ts:54-66 | the first write is 404 exactly when the id is a number no key equals; 200 `{message: "Restaurant deleted successfully"}` exactly when the row was removed, removing only it; 500 `{error: message}` with the thrown error's message on a store failure or a NaN id; no change unless 200 |
| Scenarios.CreateThenList | backend/src/controllers/restaurant.controller.ts:22-32 | a create with a new name, no `name` inside its address, storable columns and no store fault is answered 201; the next listing holds the new row under the body's name, as the only row with that name |
| Scenarios.OnlyRowNamed | backend/src/controllers/restaurant.controller.ts:9-11 | a row that is the only one with its name appears in the listing and is the only listed row with that name |
| Scenarios.AddressNameBypassesDuplicateCheck | backend/src/controllers/restaurant.controller.ts:20-30 | an address naming an existing restaurant overrides the body's unused name, so a second row with a taken name is created |
| Scenarios.AddressNameExample | backend/src/controllers/restaurant.controller.ts:20-30 | a concrete request naming "B" with an address naming the stored "A" is answered 201 and stores a second row named "A" |
| Scenarios.DeleteTwice | backend/src/controllers/restaurant.controller.ts:54-66 | deleting a row succeeds, the listing no longer shows it, and deleting it again is answered 404 with no change |
| Scenarios.UpdateWithoutColumnsChangesNothing | backend/src/controllers/restaurant.controller.ts:41 | an update body that supplies no column changes nothing and answers with the row as it was |
| Scenarios.NestedAddressChangesNothing | backend/src/controllers/restaurant.controller.ts:41 | the update body is not flattened: a body of only a nested `address` answers 200 with the row unchanged, whatever the address holds |
| Scenarios.NonFiniteIdFails | backend/src/controllers/restaurant.controller.ts:41-56 | a NaN or infinite id makes update answer 400 and delete answer 500, with the store untouched |
| Scenarios.UpdateMissingAnswers404 | backend/src/controllers/restaurant.controller.ts:42-47 | an update of an absent integer or fractional id is answered 404 first although three writes are attempted; the store is unchanged |
| Scenarios.CreateThenFindById | backend/src/repositories/restaurant.repository.ts:12-18 | a created row is found under its key and listed, and every earlier row is still found |
| Scenarios.UpdateThenFindById | backend/src/repositories/restaurant.repository.ts:20-25 | after an update the key finds the returned row and every other key finds what it found before |
| Scenarios.DeleteThenFindById | backend/src/repositories/restaurant.repository.ts:27-32 | after a delete the key finds nothing and every other key finds what it found before |
| RestaurantDialog.InitialForm | frontend/src/components/RestaurantDialog.tsx:26-32 | a copy of the restaurant being edited, or the empty form with no id |
| RestaurantDialog.Reset | frontend/src/components/RestaurantDialog.tsx:43-46 | reopening resets the form to the initial form and clears every error |
| RestaurantDialog.ClearError | frontend/src/components/RestaurantDialog.tsx:50 | clears the error of the named field and no other |
| RestaurantDialog.SetField | frontend/src/components/RestaurantDialog.tsx:52 | sets the named field and leaves every other field unchanged |
| RestaurantDialog.HandleChange | frontend/src/components/RestaurantDialog.tsx:48-58 | clears only the changed field's error; name, street, city, state and zip take any value; contact takes only an empty or all-digit value; every other field, the id, the image and the timestamps are kept |
| RestaurantDialog.HandleChangeKeepsContactClean | frontend/src/components/RestaurantDialog.tsx:53-57 | no edit can make a contact that is empty or all digits into one that is not |
| RestaurantDialog.EmptyFormContactClean | frontend/src/components/RestaurantDialog.tsx:29-30 | the empty form's contact is empty |
| RestaurantDialog.RequiredValidIff | frontend/src/components/RestaurantDialog.tsx:63-78 | a required field has no error exactly when it holds a non-whitespace character |
| RestaurantDialog.ZipValidIff | frontend/src/components/RestaurantDialog.tsx:79-82 | the ZIP has no error exactly when the untrimmed text is five or six ASCII digits, so padding is rejected |
| RestaurantDialog.ZipPasses | frontend/src/components/RestaurantDialog.tsx:79-82 | a non-blank ZIP matching the pattern gets no error |
| RestaurantDialog.ContactValidIff | frontend/src/components/RestaurantDialog.tsx:83-89 | the contact has no error exactly when it is ten ASCII digits |
| RestaurantDialog.ContactPasses | frontend/src/components/RestaurantDialog.tsx:83-89 | a contact of trimmed length ten matching the digits pattern gets no error |
| RestaurantDialog.ContactMessages | frontend/src/components/RestaurantDialog.tsx:83-89 | the length message exactly when the trimmed text is not ten UTF-16 code units long; the digits message exactly when the length fits and a non-digit is present |
| RestaurantDialog.AstralContact | frontend/src/components/RestaurantDialog.tsx:83-89 | five characters outside the Basic Multilingual Plane count as ten units, pass the length check and get the digits message |
| RestaurantDialog.AllClearFields | frontend/src/components/RestaurantDialog.tsx:60-91 | all six errors are clear exactly when each one is |
| RestaurantDialog.ValidateForm | frontend/src/components/RestaurantDialog.tsx:60-92 | each field's error text is the result of that field's own check; the form is reported valid exactly when all six texts are empty; each text is empty or its check's message |
| RestaurantDialog.ValidateFormIff | frontend/src/components/RestaurantDialog.tsx:60-92 | the form is reported valid exactly when the four required fields hold non-whitespace, the ZIP is five or six digits and the contact is ten digits |
| RestaurantDialog.HandleSubmit | frontend/src/components/RestaurantDialog.tsx:94-119 | the validation errors are shown, and a call is made exactly when none is set; an update exactly when the form has a truthy id and a restaurant is being edited, otherwise an add; success empties the form with no id and closes the dialog, failure keeps the form |
| RestaurantDialog.SubmitCallsIffValid | frontend/src/components/RestaurantDialog.tsx:94-98 | a submit issues a request exactly when the form meets the field-by-field validity rules |
| RestaurantList.Mount | frontend/src/components/RestaurantList.tsx:16-19 | starts closed, with nothing selected and the given list |
| RestaurantList.PropsChanged | frontend/src/components/RestaurantList.tsx:21-23 | a new prop replaces the local list and keeps the confirmation state |
| RestaurantList.HandleDeleteClick | frontend/src/components/RestaurantList.tsx:25-28 | selects the id and opens the confirmation, keeping the list |
| RestaurantList.DeleteButton | frontend/src/components/RestaurantList.tsx:81-86 | acts exactly when the row has an id, and then as a click on that id |
| RestaurantList.HandleCancelDelete | frontend/src/components/RestaurantList.tsx:45-48 | clears the selection and closes the confirmation, keeping the list |
| RestaurantList.Without | frontend/src/components/RestaurantList.tsx:34 | exactly the rows with another id, all of them and in their original order |
| RestaurantList.HandleConfirmDelete | frontend/src/components/RestaurantList.tsx:30-43 | with nothing selected, nothing happens; otherwise the delete is requested for the selected id, success removes exactly those rows and closes the confirmation, and failure keeps the whole state |
| RestaurantList.ClickThenConfirm | frontend/src/components/RestaurantList.tsx:25-43 | clicking a row's delete and confirming successfully requests that id and removes that row and only rows with its id |
| RestaurantList.CancelThenConfirm | frontend/src/components/RestaurantList.tsx:30-48 | after a cancel, confirming sends no request and keeps the list |
| RestaurantList.WithoutAbsent | frontend/src/components/RestaurantList.tsx:34 | filtering out an id no row carries leaves the list as it is |
| RestaurantList.WithoutIdempotent | frontend/src/components/RestaurantList.tsx:34 | filtering by an id a second time changes nothing |

## Left out

- HTTP plumbing is not modelled: the server, CORS, JSON parsing, route binding and `sequelize.sync`. The handlers take the parsed body and the path id directly.
- Dependency-injection wiring is not modelled. The service layer delegates one-to-one, so the handlers call the restaurant repository directly.
- The second repository class is not modelled. Its only method, `findByName`, repeats the restaurant repository's.
- The base repository's `create` and `findById` are not modelled separately. They are the same store calls as the restaurant repository's `create` and `findById`.
- Query options other than a where-clause are not modelled: ordering, attribute selection, transactions and hooks. A where-clause is a predicate on rows.
- The path id is not parsed. `Number(req.params.id)` is an argument: an integer, a fraction, or NaN or an infinity.
- The database's error text for a NaN or infinite key is dialect-specific. The model uses a fixed text for it.
- JavaScript numbers are integers here. Fractions, NaN and infinities in body values are not modelled.
- Store failures are arguments. SQL, connections and the store's own error texts are not modelled. The messages of validation errors and of an `undefined` where-value follow the ORM's conventions. The message for a where-value the model refuses ("unsupported value for …") is the model's own, since that path is itself not the ORM's behaviour.
- The clock is an argument, and timestamps are integers.
- Concurrency is not modelled. Requests run one after another, so the race between the duplicate check and the insert is not modelled.
- The order of an unordered `findAll` is fixed as ascending key, which is an assumption: the store promises no order. The same assumption makes `findOne`, and so `findByName`, return the matching row with the least key, since `findOne` is a `findAll` limited to one row without an order.
- RestaurantRepository.FindByName: a `where` value that is a boolean, a number, an array or an object is modelled as an error. The ORM would instead build an `IN` or an operator query, or compare it as text, and the outcome depends on the dialect.
- Schema.ReadColumns: numbers and booleans are stored as their decimal or `true`/`false` text. The exact rendering depends on the database dialect.
- RestaurantRepository.Create: a body's `id`, `createdAt` and `updatedAt` are ignored. The ORM would let a client-supplied key through.
- Store.Patch: `updatedAt` moves exactly when a column's new value differs from the old. The ORM's setter compares values with a deep-equality check; for the strings, numbers and booleans a column accepts, this is inequality.
- Js.Spread: a string spreads by code point, not by UTF-16 unit. Only the absence of column names among its keys matters here.
- BaseRepository.Paginate: a negative limit or offset is modelled as a store error; how a dialect treats one is not modelled.
- BaseRepository.UpdateMany: "supplies no column" counts only the six columns. Data whose only attribute is `id` or `createdAt` makes the ORM send a query, and the model still answers 0 with no change, in line with the BulkPatch line below.
- BaseRepository.BulkPatch: a supplied `id` or `createdAt` is not written. The static `Model.update` writes every supplied table attribute, but rewriting a primary key would move rows between keys, which the store model does not follow.
- Schema.Check: a text longer than 255 characters counts as storable. `DataTypes.STRING` is `VARCHAR(255)`, and whether a longer value is refused depends on the dialect; the database configuration is not part of this model.
- RestaurantController.UpdateRestaurant: on the 404 path the catch block's own write is refused too, and that error escapes the handler as a rejected promise. Express 4 does not handle it; on Node 15 and later an unhandled rejection ends the process by default. The model stops at the attempted writes. The scenarios that send a further request assume the service is running again with its database intact.
- RestaurantController.DeleteRestaurant: the same escaping error follows its 404 path, with the same consequence.
- Frontend API calls are not performed. The dialog's submit returns the request and takes its outcome as an argument, and so does the list's confirm.
- Toasts, console logging, axios error-message selection and all rendering are not modelled. This covers the header, the restaurant card and its locale-dependent date.
- RestaurantDialog.HandleChange: an input with a name outside the six fields would add an error entry that nothing reads. Error texts are a six-field record, so that entry is not kept.
- The frontend's optional `image`, `createdAt` and `updatedAt` are carried along but never examined.
