# Rock resource handler

A model of the rock handler of the rock-of-ages API: a viewset that creates,
lists and deletes rocks, each owned by the user who created it and
classified by a type. The database is two tables of reference data
(`types`, `users`) and one table of rocks, held as maps in the class
`RockViews.RockView`; the authenticated caller is a user id passed in. Each
handler answers with one variant of the closed datatype `Rocks.Response`:
`Created`, `Ok`, `NoContent`, `NotFound(message)`, `Forbidden(message)` or
`InternalError`.

- `rocks.dfy` (module `Rocks`): the entities (`Rock`, `Type`, `User`), the
  create request body, the serialized shape and the responses.
- `rock_serializers.dfy` (module `RockSerializers`): the three serializers as
  projections. A serialized rock has exactly the fields id, name, weight,
  user{first_name, last_name} and type{label}; the datatype `SerializedRock`
  has no other field.
- `rock_view.dfy` (module `RockViews`): the handler class with `Create`,
  `List` and `Destroy`, the listing function `List` is built from, and the
  lemmas that relate listings to creation and deletion.

Modelling choices:

- `create` reads the three keys of the request body in the order the handler
  does. A missing `type_id` fails before the type lookup; a missing `weight`
  or `name` fails after it. Both raise a key error, which the handler turns
  into a 500. The model answers `InternalError` and changes nothing.
- New rocks get their id from a counter `nextId`, standing for the
  database's key sequence. The contracts only promise that the id was not in
  use.
- `list` is a function of the store (`reads this`, no `modifies`), so it
  cannot change the store. Its rocks come in ascending id order.
- The owner check in `destroy` compares user ids, as the handler does.
- Weight is a `real` that is only copied, never computed with.

## Model

| member | source | states |
|---|---|---|
| `RockViews.RockView.Create` | rockapi/views/rock_view.py:12-31 | A missing `type_id` gives InternalError and an unknown type gives NotFound("Type not found"); a missing weight or name gives InternalError. In all three cases the rocks are unchanged. Otherwise exactly one rock is added under an id not in use, owned by the caller, with the looked-up type and the given name and weight. All earlier rocks are unchanged, and the answer is Created with that rock's representation: the caller's names and the type's label. Types and users never change. After a successful create, every listing, with the new rock's entry taken out, is the listing from before. |
| `RockViews.RockView.List` | rockapi/views/rock_view.py:33-48 | The answer is always Ok. Every entry is the representation of a stored rock. With `owner` equal to "current", every entry is owned by the caller, and each rock the caller owns appears exactly once. With `owner` absent or any other value, every stored rock appears exactly once. Entries are in ascending id order. The store is only read. |
| `RockViews.RockView.Destroy` | rockapi/views/rock_view.py:52-67 | An unknown id gives NotFound("Rock not found") whatever the caller. If the caller's id equals the owner's id, exactly that rock is removed and the answer is NoContent. Otherwise the answer is Forbidden("You do not own that rock"). Only the owner's delete changes the store. After it, every listing is the one from before with that rock's entry taken out. |
| `RockViews.OwnerFilter` | rockapi/views/rock_view.py:36-45 | The listing is narrowed to the caller's rocks exactly when the `owner` parameter is present and equal to "current"; any other value, or none, lists every owner's rocks. |
| `RockViews.ListingSound` | rockapi/views/rock_view.py:40-47 | Every entry of a listing is the representation of a stored rock that the filter selects. |
| `RockViews.ListingAscending` | rockapi/views/rock_view.py:40-47 | The ids in a listing strictly increase, so no rock is listed twice. |
| `RockViews.ListedOnce` | rockapi/views/rock_view.py:40-47 | Each rock the filter selects occurs exactly once in the listing, and every other id occurs zero times. |
| `RockViews.ListingAfterRemove` | rockapi/views/rock_view.py:55-58 | After a rock is deleted, a listing equals the earlier listing with that rock's entry taken out, in the same order. |
| `RockViews.ListingAfterInsert` | rockapi/views/rock_view.py:16-21 | After a rock is saved under a fresh id, a listing with the new entry taken out equals the earlier listing. No other entry changes. |
| `RockViews.DestroyTwice` | rockapi/views/rock_view.py:55-67 | When the owner deletes a rock the answer is NoContent; a second delete of the same id, by anyone, gives NotFound("Rock not found"). |
| `RockViews.OwnershipScenario` | rockapi/views/rock_view.py:12-67 | User A creates "Obsidian" (type "Igneous", weight 5.0) and gets Created with A's names and the label "Igneous". User B's delete is Forbidden. The rock is then still listed once. A's delete gives NoContent, and a further delete gives NotFound. |
| `RockSerializers.Serialize` | rockapi/views/rock_view.py:74-104 | A rock's representation carries its id, name and weight unchanged. Under `user` it has the owner's first and last name, and under `type` the type's label. |
| `RockSerializers.SerializeHidesAccountFields` | rockapi/views/rock_view.py:82-87 | A rock's representation depends on its owner only through first and last name. Username and email never reach the response. |
| `RockSerializers.SerializeKeepsListedFields` | rockapi/views/rock_view.py:74-104 | Two representations are equal exactly when they agree on id, name, weight, owner names and type label. |

## Left out

- The generic `except Exception` branches (lines 28-31, 49-50, 68-71) for failures of the database or framework: a failing `save()` or `delete()` or a malformed key is not modelled. `InternalError` arises only from a missing request key, and it carries no exception text.
- `RockViews.RockView.List` never answers with a server error, because the only way `list` fails is such a database failure.
- The race between looking a rock up and deleting it in `destroy`: the model is sequential.
- Authentication: the caller is a user id, and `Create` requires that it names an existing user.
- Django/REST framework plumbing: viewset dispatch, response objects, status codes (each variant of `Response` stands for one), and reading the request body and query string. The create body is three optional fields; the `owner` query parameter is an optional string.
- Primary-key generation and queryset ordering. The model uses a counter for fresh ids and lists in ascending id order; the database may order a listing differently.
- The numeric type of weight: the model copies a `real` and does nothing else with it.
- The rock and type model classes (`rockapi/models`) are not part of this model. Rock and type carry only the fields the handler reads or writes.
