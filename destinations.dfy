/**
 * What a scan writes into. A struct type is described by an explicit list
 * of field declarations (in place of reflection over the struct); a
 * destination is a struct reached through zero or more pointer levels; a
 * collection destination is a slice of such elements.
 */
module Destinations {
  import opened Wrappers
  import opened GoTypes

  /**
   * One struct field: its name, whether it is exported (reflect's CanSet),
   * its struct tag as the (key, value) pairs in the order written, and its type.
   */
  datatype FieldDecl = FieldDecl(name: string, exported: bool, tags: seq<(string, string)>, ty: GoType)

  /** The type of a location: a struct, or a pointer to a location of the inner shape. */
  datatype Shape = Struct(decls: seq<FieldDecl>) | PtrTo(elem: Shape)

  /** The value held by a location of some shape. */
  datatype PlaceVal = StructV(fields: seq<GoValue>) | PtrV(target: Option<PlaceVal>)

  predicate FieldsConform(vals: seq<GoValue>, decls: seq<FieldDecl>) {
    |vals| == |decls| && forall i :: 0 <= i < |vals| ==> HasType(vals[i], decls[i].ty)
  }

  /** v is a value of shape s. */
  predicate Conforms(v: PlaceVal, s: Shape)
    decreases s
  {
    match s
    case Struct(decls) => v.StructV? && FieldsConform(v.fields, decls)
    case PtrTo(inner) => v.PtrV? && (v.target.Some? ==> Conforms(v.target.value, inner))
  }

  /** The zero value of every field, as a freshly allocated struct has it. */
  function Zeros(decls: seq<FieldDecl>): (vals: seq<GoValue>)
    ensures FieldsConform(vals, decls)
  {
    seq(|decls|, i requires 0 <= i < |decls| => Zero(decls[i].ty))
  }

  /** The zero value of a shape: zeroed fields, or a nil pointer. */
  function ZeroPlace(s: Shape): (v: PlaceVal)
    ensures Conforms(v, s)
  {
    match s
    case Struct(decls) => StructV(Zeros(decls))
    case PtrTo(_) => PtrV(None)
  }

  /**
   * A location of a given shape: a struct's fields, or a pointer to another
   * location (null for nil). Repr is the set of locations reachable from it.
   */
  class Location {
    const shape: Shape
    var fields: seq<GoValue>
    var pointee: Location?
    ghost var Repr: set<Location>

    ghost predicate Valid()
      reads this, Repr
      decreases Repr
    {
      && this in Repr
      && match shape
         case Struct(decls) => FieldsConform(fields, decls)
         case PtrTo(inner) =>
           pointee != null ==>
             && pointee in Repr && pointee.Repr <= Repr && this !in pointee.Repr
             && pointee.shape == inner && pointee.Valid()
    }

    /** The value of the location, following its pointers. */
    ghost function View(): (v: PlaceVal)
      requires Valid()
      reads this, Repr
      ensures Conforms(v, shape)
      decreases Repr
    {
      match shape
      case Struct(_) => StructV(fields)
      case PtrTo(_) => if pointee == null then PtrV(None) else PtrV(Some(pointee.View()))
    }

    /** reflect.New: a fresh location holding the zero value of its shape. */
    constructor (s: Shape)
      ensures shape == s && Valid() && Repr == {this}
      ensures View() == ZeroPlace(s)
    {
      shape := s;
      fields := if s.Struct? then Zeros(s.decls) else [];
      pointee := null;
      Repr := {this};
    }

    /** reflect.Value.Set on field i of a struct location. */
    method SetField(i: nat, v: GoValue)
      requires Valid() && shape.Struct? && i < |shape.decls|
      requires HasType(v, shape.decls[i].ty)
      modifies this
      ensures Valid() && Repr == old(Repr) && pointee == old(pointee)
      ensures fields == old(fields)[i := v]
    {
      fields := fields[i := v];
    }

    /** reflect.Value.Set on a pointer location: it now points at target. */
    method SetPointee(target: Location)
      requires Valid() && shape.PtrTo? && target.Valid() && target.shape == shape.elem
      requires this !in target.Repr
      modifies this
      ensures Valid() && Repr == {this} + target.Repr
      ensures pointee == target && fields == old(fields)
      ensures View() == PtrV(Some(target.View()))
    {
      pointee := target;
      Repr := {this} + target.Repr;
    }
  }

  /** A slice destination: its element shape and the element locations, in order. */
  class SliceDest {
    const elem: Shape
    var items: seq<Location>

    constructor (e: Shape, initial: seq<Location>)
      ensures elem == e && items == initial
    {
      elem := e;
      items := initial;
    }
  }
}
