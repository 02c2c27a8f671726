/**
 * Scan: the entry point. It checks that the target can be written through,
 * extracts every remaining row of the cursor, and then binds either all of
 * them to a slice destination or the first of them to any other destination.
 */
module DbScan {
  import opened Wrappers
  import opened GoTypes
  import opened Destinations
  import opened Convert
  import opened Rows
  import opened Binding

  /** The interface value handed to Scan as its target. */
  datatype Target =
    | NilTarget                  // an untyped nil
    | NilPointer                 // a typed nil pointer
    | NotPointer                 // a value of a nillable kind other than pointer (map, slice, channel, function)
    | NotNillable                // a value of a kind that has no nil (a struct, a number, a string, ...)
    | ToRecord(loc: Location)    // a pointer to a struct, or to a chain of pointers ending in one
    | ToSlice(dest: SliceDest)   // a pointer to a slice

  /** The storage Scan may write through the target. */
  function Storage(target: Target): set<object> {
    match target
    case ToRecord(loc) => {loc}
    case ToSlice(dest) => {dest}
    case _ => {}
  }

  /** A non-nil pointer: the only targets Scan accepts. */
  predicate Settable(target: Target) {
    target.ToRecord? || target.ToSlice?
  }

  /** What the guard at the head of Scan does with a target. */
  datatype GuardOutcome = Accept | Refuse | Panic

  /**
   * The guard as written: nil, then reflect.Value.IsNil, then the kind.
   * IsNil panics on a value of a kind that has no nil, so such a target
   * never reaches the kind test.
   */
  function GuardAsWritten(target: Target): (g: GuardOutcome)
    ensures g == Accept <==> Settable(target)
    ensures g == Panic <==> target.NotNillable?
  {
    match target
    case NilTarget => Refuse
    case NotNillable => Panic
    case NilPointer => Refuse
    case NotPointer => Refuse
    case _ => Accept
  }

  /** The guard as intended: every target that is not a non-nil pointer is refused with ErrTargetNotSettable. */
  function Guard(target: Target): (g: GuardOutcome)
    ensures g != Panic
    ensures g == Accept <==> Settable(target)
    ensures GuardAsWritten(target) != Panic ==> g == GuardAsWritten(target)
  {
    if target.ToRecord? || target.ToSlice? then Accept else Refuse
  }

  /** A struct value passed as the target makes the guard as written panic; the intended guard refuses it. */
  lemma StructValueTarget()
    ensures GuardAsWritten(NotNillable) == Panic
    ensures Guard(NotNillable) == Refuse
  {
  }

  /**
   * Scan. An unusable target is refused before the cursor is touched. A
   * Columns or row-scan error is returned with the destination untouched.
   * With no rows, a slice is left as it is without an error, and any other
   * destination gets ErrEmptyResult. Otherwise a slice destination gets one
   * element per row, all or nothing, and any other destination is bound from
   * the first row alone.
   */
  method Scan(cursor: Cursor, target: Target, parseFloat: FloatParser) returns (err: Option<Error>)
    requires cursor.Valid()
    requires target.ToRecord? ==> target.loc.Valid()
    modifies cursor, Storage(target)
    ensures cursor.Valid()
    ensures !Settable(target) ==> err == Some(TargetNotSettable) && cursor.pos == old(cursor.pos)
    ensures var ex := old(cursor.Remaining());
      Settable(target) ==>
        && (ex.Failure? ==> err == Some(ex.error))
        && (ex.Success? ==> cursor.pos == |cursor.rows|)
    ensures var ex := old(cursor.Remaining());
      target.ToRecord? ==>
        && target.loc.Valid()
        && (ex.Failure? ==> target.loc.View() == old(target.loc.View()))
        && (ex == Success([]) ==> err == Some(EmptyResult) && target.loc.View() == old(target.loc.View()))
        && (ex.Success? && ex.value != [] ==>
              fresh(target.loc.Repr - old(target.loc.Repr))
              && BindResult(err, target.loc.View()) == Bind(ex.value[0], target.loc.shape, old(target.loc.View()), parseFloat))
    ensures var ex := old(cursor.Remaining());
      target.ToSlice? ==>
        && (ex.Failure? ==> target.dest.items == old(target.dest.items))
        && (ex == Success([]) ==> err == None && target.dest.items == old(target.dest.items))
        && (ex.Success? && ex.value != [] ==>
              var r := BindAll(ex.value, target.dest.elem, parseFloat);
              && (r.Failure? ==> err == Some(r.error) && target.dest.items == old(target.dest.items))
              && (r.Success? ==> err == None && |target.dest.items| == |ex.value|))
    ensures var ex := old(cursor.Remaining());
      target.ToSlice? && ex.Success? && err == None && ex.value != [] ==>
        forall i :: 0 <= i < |target.dest.items| ==>
          var item := target.dest.items[i];
          && fresh(item.Repr) && item.Valid() && item.shape == target.dest.elem
          && item.View() == BindAll(ex.value, target.dest.elem, parseFloat).value[i]
  {
    if Guard(target) != Accept {
      return Some(TargetNotSettable);
    }
    var datas := ExtraDatasFromRows(cursor);
    if datas.Failure? {
      return Some(datas.error);
    }
    if target.ToSlice? {
      if datas.value == [] {
        return None;
      }
      err := MultiResults(datas.value, target.dest, parseFloat);
    } else {
      if datas.value == [] {
        return Some(EmptyResult);
      }
      err := SingleResult(datas.value[0], target.loc, parseFloat);
    }
  }
}
