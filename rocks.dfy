/** The entities the rock handler works on: rocks, their types and their
    owners, the request body of a create, and the closed set of responses
    the handler gives back. */
module Rocks {

  datatype Option<+T> = None | Some(value: T)

  type RockId = nat
  type TypeId = nat
  type UserId = nat

  /** A rock's weight is copied from the request to the store and from the
      store to the response, never computed with. */
  type Weight = real

  /** A stored rock: the owner and the type are references by id. */
  datatype Rock = Rock(name: string, weight: Weight, ownerId: UserId, typeId: TypeId)

  /** Reference data a rock is classified by. */
  datatype Type = Type(typeLabel: string)

  /** The authenticated account. Only the two names are ever shown; the
      other fields stand for what the account holds besides. */
  datatype User = User(username: string, firstName: string, lastName: string, email: string)

  /** The body of a create request. A key absent from the body is `None`. */
  datatype CreateRequest = CreateRequest(typeId: Option<TypeId>, weight: Option<Weight>, name: Option<string>)

  /** The serialized rock: exactly id, name, weight, user{first_name,
      last_name} and type{label}. */
  datatype OwnerFields = OwnerFields(firstName: string, lastName: string)
  datatype TypeFields = TypeFields(typeLabel: string)
  datatype SerializedRock = SerializedRock(id: RockId, name: string, weight: Weight, user: OwnerFields, rockType: TypeFields)

  /** What a handler answers, one variant per status the handler uses. */
  datatype Response =
    | Created(rock: SerializedRock)         // 201
    | Ok(rocks: seq<SerializedRock>)        // 200
    | NoContent                             // 204
    | NotFound(message: string)             // 404
    | Forbidden(message: string)            // 403
    | InternalError                         // 500

  const TypeNotFound := "Type not found"
  const RockNotFound := "Rock not found"
  const NotOwner := "You do not own that rock"

  /** Every rock refers to a type and a user that exist. */
  ghost predicate WellFormed(rocks: map<RockId, Rock>, types: map<TypeId, Type>, users: map<UserId, User>)
  {
    forall id :: id in rocks ==> rocks[id].typeId in types && rocks[id].ownerId in users
  }
}
