/**
 Removing an excluded field in place (pkg/render/excludedfields.go): the objects of a
 document are nested maps, and the removal deletes one key of the innermost one.
 */
module JsonObjects {
  import opened Common
  import opened ExcludedFields

  datatype Slot = Nested(node: JsonObject) | Scalar(repr: string)

  class JsonObject {
    var fields: map<string, Slot>
    ghost var value: Fields         // what the nested maps hold
    ghost var Repr: set<JsonObject> // this object and the ones below it

    ghost predicate Valid()
      reads this, Repr
      ensures Valid() ==> this in Repr
      decreases Repr
    {
      && this in Repr
      && fields.Keys == value.Keys
      && (forall k :: k in fields ==> HoldsSlot(fields[k], value[k]))
      && (forall k, l :: k in fields && l in fields && k != l && fields[k].Nested? && fields[l].Nested? ==>
            fields[k].node.Repr !! fields[l].node.Repr)
    }

    /** The slot holds v, and a nested object lies strictly inside this one. */
    ghost predicate HoldsSlot(slot: Slot, v: Value)
      requires this in Repr
      reads this, Repr
      decreases Repr, 0
    {
      match slot
      case Scalar(repr) => v == Other(repr)
      case Nested(node) =>
        && node in Repr && node.Repr <= Repr && this !in node.Repr
        && node.Valid() && v == Object(node.value)
    }

    constructor (scalars: map<string, string>)
      ensures Valid() && fresh(Repr)
      ensures value == map k | k in scalars :: Other(scalars[k])
    {
      fields := map k | k in scalars :: Scalar(scalars[k]);
      value := map k | k in scalars :: Other(scalars[k]);
      Repr := {this};
    }

    /** Deletes what the path leads to, in the map that holds it. */
    method Remove(parts: seq<string>)
      requires Valid()
      modifies Repr
      ensures Valid() && Repr == old(Repr)
      ensures value == Removed(old(value), parts)
      decreases |parts|
    {
      if |parts| == 0 {
        return;
      }
      var part := parts[0];
      if |parts| == 1 {
        fields := fields - {part};
        value := value - {part};
        return;
      }
      if part !in fields {
        return;
      }
      match fields[part] {
        case Scalar(_) => return;
        case Nested(node) =>
          assert HoldsSlot(fields[part], value[part]);
          node.Remove(parts[1..]);
          value := value[part := Object(node.value)];
      }
    }
  }

  /** RemoveExcludedField: parse the path, then delete in place. */
  method RemoveExcludedField(data: JsonObject, path: string)
    requires data.Valid()
    modifies data.Repr
    ensures data.Valid() && data.Repr == old(data.Repr)
    ensures data.value == Removed(old(data.value), Parts(path))
  {
    var parts := ParsePath(path);
    data.Remove(parts);
  }
}
