/** The three serializers of the rock handler, as plain projections: a type
    shows its label, an owner shows first and last name, a rock shows its
    id, name and weight with its owner and its type nested. */
module RockSerializers {
  import opened Rocks

  function SerializeType(t: Type): (fields: TypeFields)
  {
    TypeFields(t.typeLabel)
  }

  function SerializeOwner(u: User): (fields: OwnerFields)
  {
    OwnerFields(u.firstName, u.lastName)
  }

  /** The representation of rock `id`, looking up its owner and its type. */
  function Serialize(id: RockId, rock: Rock, types: map<TypeId, Type>, users: map<UserId, User>): (v: SerializedRock)
    requires rock.typeId in types && rock.ownerId in users
    ensures v.id == id && v.name == rock.name && v.weight == rock.weight
    ensures v.user == OwnerFields(users[rock.ownerId].firstName, users[rock.ownerId].lastName)
    ensures v.rockType == TypeFields(types[rock.typeId].typeLabel)
  {
    SerializedRock(id, rock.name, rock.weight, SerializeOwner(users[rock.ownerId]), SerializeType(types[rock.typeId]))
  }

  /** The representation depends on the owner only through the two names:
      an owner's username and email never reach the response. */
  lemma SerializeHidesAccountFields(id: RockId, rock: Rock, types: map<TypeId, Type>, users: map<UserId, User>, users': map<UserId, User>)
    requires rock.typeId in types && rock.ownerId in users && rock.ownerId in users'
    requires users[rock.ownerId].firstName == users'[rock.ownerId].firstName
    requires users[rock.ownerId].lastName == users'[rock.ownerId].lastName
    ensures Serialize(id, rock, types, users) == Serialize(id, rock, types, users')
  {
  }

  /** Two rocks are shown alike only if they have the same id, name and
      weight, the same owner names and the same type label: the projection
      keeps every field it lists. */
  lemma SerializeKeepsListedFields(id: RockId, rock: Rock, id': RockId, rock': Rock, types: map<TypeId, Type>, users: map<UserId, User>)
    requires rock.typeId in types && rock.ownerId in users
    requires rock'.typeId in types && rock'.ownerId in users
    ensures Serialize(id, rock, types, users) == Serialize(id', rock', types, users) <==>
      id == id' && rock.name == rock'.name && rock.weight == rock'.weight &&
      SerializeOwner(users[rock.ownerId]) == SerializeOwner(users[rock'.ownerId]) &&
      types[rock.typeId].typeLabel == types[rock'.typeId].typeLabel
  {
  }
}
