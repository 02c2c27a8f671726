/**
 * Binding extracted rows to destinations: singleResult walks a struct's
 * fields in order and converts the column each tagged, exported field names;
 * at a pointer level it binds a freshly allocated pointee and stores it only
 * on success. multiResults binds one fresh element per row and assigns the
 * destination slice only when every row binds.
 */
module Binding {
  import opened Wrappers
  import opened GoTypes
  import opened Destinations
  import opened Convert
  import opened Rows

  /** The struct tag key naming a field's column. */
  const TagName: string := "pg"

  /** reflect.StructTag.Lookup on the parsed tag: the value of the first pair with the key. */
  function Lookup(tags: seq<(string, string)>, key: string): (r: Option<string>)
    ensures r.None? <==> forall j :: 0 <= j < |tags| ==> tags[j].0 != key
    ensures r.Some? ==> (key, r.value) in tags
  {
    if tags == [] then None
    else if tags[0].0 == key then Some(tags[0].1)
    else Lookup(tags[1..], key)
  }

  /** The first pair with the key is the one Lookup finds, whatever follows it. */
  lemma {:induction false} LookupFirst(tags: seq<(string, string)>, key: string, j: nat)
    requires j < |tags| && tags[j].0 == key
    requires forall k :: 0 <= k < j ==> tags[k].0 != key
    ensures Lookup(tags, key) == Some(tags[j].1)
  {
    if j > 0 {
      LookupFirst(tags[1..], key, j - 1);
    }
  }

  /** The column a field is bound from: exported, with a non-empty pg tag; None means the field is skipped. */
  function ColumnOf(d: FieldDecl): (c: Option<string>)
    ensures c.Some? <==> d.exported && Lookup(d.tags, TagName).Some? && Lookup(d.tags, TagName).value != ""
    ensures c.Some? ==> c.value != "" && c == Lookup(d.tags, TagName)
  {
    if !d.exported then None
    else
      match Lookup(d.tags, TagName)
      case None => None
      case Some(name) => if name == "" then None else Some(name)
  }

  /** The field takes part in binding this row: it names a column that the row has. */
  predicate Participates(row: Row, d: FieldDecl) {
    ColumnOf(d).Some? && ColumnOf(d).value in row
  }

  /** What binding does to one field: nothing when it does not take part, else the conversion of its column's value. */
  function FieldStep(row: Row, d: FieldDecl, parseFloat: FloatParser): (o: Outcome)
    requires RowOk(row)
    ensures o.Write? ==> HasType(o.v, d.ty)
    ensures !Participates(row, d) ==> o == Keep
    ensures Participates(row, d) ==> o == ConvertRule(row[ColumnOf(d).value], d.ty, parseFloat)
  {
    match ColumnOf(d)
    case None => Keep
    case Some(c) => if c in row then ConvertRule(row[c], d.ty, parseFloat) else Keep
  }

  /** The outcomes applied to the fields from field i on, in order, stopping at the first failure. */
  function Run(steps: seq<Outcome>, vals: seq<GoValue>, i: nat): (r: (Option<Error>, seq<GoValue>))
    requires |vals| == |steps| && i <= |steps|
    ensures |r.1| == |vals|
    ensures r.0.Some? ==> exists f :: i <= f < |steps| && steps[f] == Fail(r.0.value)
    decreases |steps| - i
  {
    if i == |steps| then (None, vals)
    else if steps[i].Fail? then (Some(steps[i].e), vals)
    else Run(steps, Apply(vals, i, steps[i]), i + 1)
  }

  /** One step of the field loop: a failing outcome stops it, any other is applied before moving on. */
  lemma RunStep(steps: seq<Outcome>, vals: seq<GoValue>, i: nat)
    requires |vals| == |steps| && i < |steps|
    ensures steps[i].Fail? ==> Run(steps, vals, i) == (Some(steps[i].e), vals)
    ensures !steps[i].Fail? ==> Run(steps, vals, i) == Run(steps, Apply(vals, i, steps[i]), i + 1)
  {
  }

  lemma {:induction false} RunConforms(steps: seq<Outcome>, vals: seq<GoValue>, decls: seq<FieldDecl>, i: nat)
    requires |vals| == |steps| && i <= |steps| && FieldsConform(vals, decls)
    requires forall j :: 0 <= j < |steps| && steps[j].Write? ==> HasType(steps[j].v, decls[j].ty)
    ensures FieldsConform(Run(steps, vals, i).1, decls)
    decreases |steps| - i
  {
    if i < |steps| && !steps[i].Fail? {
      RunConforms(steps, Apply(vals, i, steps[i]), decls, i + 1);
    }
  }

  lemma {:induction false} RunAll(steps: seq<Outcome>, vals: seq<GoValue>, i: nat)
    requires |vals| == |steps| && i <= |steps|
    requires forall j :: i <= j < |steps| ==> !steps[j].Fail?
    ensures var r := Run(steps, vals, i);
      && r.0 == None
      && (forall j :: 0 <= j < i ==> r.1[j] == vals[j])
      && (forall j :: i <= j < |steps| ==> r.1[j] == Applied(steps[j], vals[j]))
    decreases |steps| - i
  {
    if i < |steps| {
      RunAll(steps, Apply(vals, i, steps[i]), i + 1);
    }
  }

  lemma {:induction false} RunFailure(steps: seq<Outcome>, vals: seq<GoValue>, i: nat, f: nat)
    requires |vals| == |steps| && i <= f < |steps| && steps[f].Fail?
    requires forall j :: i <= j < f ==> !steps[j].Fail?
    ensures var r := Run(steps, vals, i);
      && r.0 == Some(steps[f].e)
      && (forall j :: 0 <= j < i ==> r.1[j] == vals[j])
      && (forall j :: i <= j < f ==> r.1[j] == Applied(steps[j], vals[j]))
      && (forall j :: f <= j < |steps| ==> r.1[j] == vals[j])
    decreases f - i
  {
    if i < f {
      RunFailure(steps, Apply(vals, i, steps[i]), i + 1, f);
    }
  }

  lemma {:induction false} RunNoFailure(steps: seq<Outcome>, vals: seq<GoValue>, i: nat)
    requires |vals| == |steps| && i <= |steps| && Run(steps, vals, i).0 == None
    ensures forall j :: i <= j < |steps| ==> !steps[j].Fail?
    decreases |steps| - i
  {
    if i < |steps| {
      RunNoFailure(steps, Apply(vals, i, steps[i]), i + 1);
    }
  }

  lemma {:induction false} RunKeeps(steps: seq<Outcome>, vals: seq<GoValue>, i: nat, j: nat)
    requires |vals| == |steps| && i <= |steps| && j < |steps| && steps[j].Keep?
    ensures Run(steps, vals, i).1[j] == vals[j]
    decreases |steps| - i
  {
    if i < |steps| && !steps[i].Fail? {
      RunKeeps(steps, Apply(vals, i, steps[i]), i + 1, j);
    }
  }

  /** Each field's step for this row. */
  function Steps(row: Row, decls: seq<FieldDecl>, parseFloat: FloatParser): (steps: seq<Outcome>)
    requires RowOk(row)
    ensures |steps| == |decls|
    ensures forall j :: 0 <= j < |decls| ==> steps[j] == FieldStep(row, decls[j], parseFloat)
  {
    seq(|decls|, j requires 0 <= j < |decls| => FieldStep(row, decls[j], parseFloat))
  }

  /** Binding a row to a struct's fields: the error, if any, and the fields afterwards. */
  function BindFields(row: Row, decls: seq<FieldDecl>, vals: seq<GoValue>, parseFloat: FloatParser)
    : (r: (Option<Error>, seq<GoValue>))
    requires RowOk(row) && FieldsConform(vals, decls)
    ensures FieldsConform(r.1, decls)
  {
    var steps := Steps(row, decls, parseFloat);
    RunConforms(steps, vals, decls, 0);
    Run(steps, vals, 0)
  }

  /** Binding succeeds exactly when no field's conversion fails, and then every field has had its step. */
  lemma BindFieldsSucceeds(row: Row, decls: seq<FieldDecl>, vals: seq<GoValue>, parseFloat: FloatParser)
    requires RowOk(row) && FieldsConform(vals, decls)
    ensures var r := BindFields(row, decls, vals, parseFloat);
      && (r.0 == None <==> forall j :: 0 <= j < |decls| ==> !FieldStep(row, decls[j], parseFloat).Fail?)
      && (r.0 == None ==> forall j :: 0 <= j < |decls| ==> r.1[j] == Applied(FieldStep(row, decls[j], parseFloat), vals[j]))
  {
    var steps := Steps(row, decls, parseFloat);
    if Run(steps, vals, 0).0 == None {
      RunNoFailure(steps, vals, 0);
    }
    if forall j :: 0 <= j < |decls| ==> !FieldStep(row, decls[j], parseFloat).Fail? {
      RunAll(steps, vals, 0);
    }
  }

  /** When every field is written, binding leaves exactly the written values. */
  lemma BindFieldsWrites(row: Row, decls: seq<FieldDecl>, vals: seq<GoValue>, parseFloat: FloatParser, out: seq<GoValue>)
    requires RowOk(row) && FieldsConform(vals, decls) && |out| == |decls|
    requires forall j :: 0 <= j < |decls| ==> FieldStep(row, decls[j], parseFloat) == Write(out[j])
    ensures BindFields(row, decls, vals, parseFloat) == (None, out)
  {
    assert forall j :: 0 <= j < |decls| ==> !FieldStep(row, decls[j], parseFloat).Fail?;
    BindFieldsSucceeds(row, decls, vals, parseFloat);
    var r := BindFields(row, decls, vals, parseFloat);
    assert r.0 == None;
    assert forall j :: 0 <= j < |decls| ==> r.1[j] == Applied(Write(out[j]), vals[j]);
    assert r.1 == out;
  }

  /**
   * The first failing field decides the error; the fields before it have
   * been converted and kept, the fields from it on are untouched.
   */
  lemma BindFieldsFirstFailure(row: Row, decls: seq<FieldDecl>, vals: seq<GoValue>, parseFloat: FloatParser, f: nat)
    requires RowOk(row) && FieldsConform(vals, decls) && f < |decls|
    requires FieldStep(row, decls[f], parseFloat).Fail?
    requires forall j :: 0 <= j < f ==> !FieldStep(row, decls[j], parseFloat).Fail?
    ensures var r := BindFields(row, decls, vals, parseFloat);
      && r.0 == Some(FieldStep(row, decls[f], parseFloat).e)
      && (forall j :: 0 <= j < f ==> r.1[j] == Applied(FieldStep(row, decls[j], parseFloat), vals[j]))
      && (forall j :: f <= j < |decls| ==> r.1[j] == vals[j])
  {
    RunFailure(Steps(row, decls, parseFloat), vals, 0, f);
  }

  /** Unexported, untagged and empty-tagged fields, and fields whose column is absent, are never written. */
  lemma SkippedFieldsUnchanged(row: Row, decls: seq<FieldDecl>, vals: seq<GoValue>, parseFloat: FloatParser, j: nat)
    requires RowOk(row) && FieldsConform(vals, decls)
    requires j < |decls| && !Participates(row, decls[j])
    ensures BindFields(row, decls, vals, parseFloat).1[j] == vals[j]
  {
    RunKeeps(Steps(row, decls, parseFloat), vals, 0, j);
  }

  /** The error singleResult returns and the destination's value afterwards. */
  datatype BindResult = BindResult(err: Option<Error>, value: PlaceVal)

  /**
   * singleResult on a location of shape s holding cur: a struct is bound
   * field by field; a pointer level binds a fresh zero value of the inner
   * shape and points at it only if that succeeds.
   */
  function Bind(row: Row, s: Shape, cur: PlaceVal, parseFloat: FloatParser): (r: BindResult)
    requires RowOk(row) && Conforms(cur, s)
    ensures Conforms(r.value, s)
    decreases s
  {
    match s
    case Struct(decls) =>
      var (e, vals) := BindFields(row, decls, cur.fields, parseFloat);
      BindResult(e, StructV(vals))
    case PtrTo(inner) =>
      var b := Bind(row, inner, ZeroPlace(inner), parseFloat);
      if b.err.None? then BindResult(None, PtrV(Some(b.value))) else BindResult(b.err, cur)
  }

  /** The struct at the bottom of a chain of pointer levels. */
  function Base(s: Shape): seq<FieldDecl>
    decreases s
  {
    match s
    case Struct(decls) => decls
    case PtrTo(inner) => Base(inner)
  }

  /** The struct fields reached by following every pointer of v, if none is nil. */
  function Deref(v: PlaceVal, s: Shape): Option<seq<GoValue>>
    decreases s
  {
    match s
    case Struct(_) => if v.StructV? then Some(v.fields) else None
    case PtrTo(inner) => if v.PtrV? && v.target.Some? then Deref(v.target.value, inner) else None
  }

  /**
   * Through any number of pointer levels, the destination's old contents
   * play no part: the innermost struct is bound from zero values, the error
   * is that of binding it, on success the value through every level is the
   * bound struct, and on failure the destination's value is left as it was.
   * (That the new storage is fresh is the contract of SingleResult.)
   */
  lemma {:induction false} BindThroughPointers(row: Row, s: Shape, cur: PlaceVal, parseFloat: FloatParser)
    requires RowOk(row) && Conforms(cur, s) && s.PtrTo?
    ensures var r := Bind(row, s, cur, parseFloat);
      var zb := BindFields(row, Base(s), Zeros(Base(s)), parseFloat);
      && r.err == zb.0
      && (r.err.None? ==> Deref(r.value, s) == Some(zb.1))
      && (r.err.Some? ==> r.value == cur)
    decreases s
  {
    var inner := s.elem;
    if inner.PtrTo? {
      BindThroughPointers(row, inner, ZeroPlace(inner), parseFloat);
    }
  }

  /** Per-row binding results gathered in order, stopping at the first error. */
  function Collect(results: seq<BindResult>): (r: Result<seq<PlaceVal>, Error>)
    ensures r.Success? ==> |r.value| == |results|
    decreases |results|
  {
    if results == [] then Success([])
    else
      var n := |results| - 1;
      match Collect(results[..n])
      case Failure(e) => Failure(e)
      case Success(vs) =>
        if results[n].err.Some? then Failure(results[n].err.value) else Success(vs + [results[n].value])
  }

  lemma {:induction false} CollectSucceeds(results: seq<BindResult>)
    ensures var r := Collect(results);
      && (r.Success? <==> forall i :: 0 <= i < |results| ==> results[i].err.None?)
      && (r.Success? ==> forall i :: 0 <= i < |results| ==> r.value[i] == results[i].value)
    decreases |results|
  {
    if results != [] {
      var n := |results| - 1;
      CollectSucceeds(results[..n]);
      assert forall i :: 0 <= i < n ==> results[..n][i] == results[i];
    }
  }

  lemma {:induction false} CollectFirstFailure(results: seq<BindResult>, f: nat)
    requires f < |results| && results[f].err.Some?
    requires forall i :: 0 <= i < f ==> results[i].err.None?
    ensures Collect(results) == Failure(results[f].err.value)
    decreases |results|
  {
    var n := |results| - 1;
    if f < n {
      CollectFirstFailure(results[..n], f);
    } else {
      CollectSucceeds(results[..n]);
    }
  }

  lemma {:induction false} CollectPrefixFailure(results: seq<BindResult>, k: nat)
    requires k <= |results| && Collect(results[..k]).Failure?
    ensures Collect(results) == Collect(results[..k])
    decreases |results| - k
  {
    if k < |results| {
      assert results[..k + 1][..k] == results[..k];
      CollectPrefixFailure(results, k + 1);
    } else {
      assert results[..k] == results;
    }
  }

  /** Collecting one more result: it is appended, or its error ends the collection. */
  lemma CollectStep(results: seq<BindResult>, k: nat)
    requires k < |results| && Collect(results[..k]).Success?
    ensures results[k].err.Some? ==> Collect(results[..k + 1]) == Failure(results[k].err.value)
    ensures results[k].err.None? ==>
      Collect(results[..k + 1]) == Success(Collect(results[..k]).value + [results[k].value])
  {
    assert results[..k + 1][..k] == results[..k];
  }

  /** Each row bound to a freshly allocated zero value of the element shape. */
  function FreshBinds(rows: seq<Row>, elem: Shape, parseFloat: FloatParser): (rs: seq<BindResult>)
    requires forall i :: 0 <= i < |rows| ==> RowOk(rows[i])
    ensures |rs| == |rows|
    ensures forall i :: 0 <= i < |rows| ==> rs[i] == Bind(rows[i], elem, ZeroPlace(elem), parseFloat)
  {
    seq(|rows|, i requires 0 <= i < |rows| => Bind(rows[i], elem, ZeroPlace(elem), parseFloat))
  }

  /**
   * multiResults' loop as a function of the rows: one fresh element per row
   * in order, or the error of the first row that fails to bind.
   */
  function BindAll(rows: seq<Row>, elem: Shape, parseFloat: FloatParser): (r: Result<seq<PlaceVal>, Error>)
    requires forall i :: 0 <= i < |rows| ==> RowOk(rows[i])
    ensures r.Success? ==> |r.value| == |rows|
  {
    Collect(FreshBinds(rows, elem, parseFloat))
  }

  /** Binding every row succeeds exactly when each does on its own, element i being row i's fresh binding. */
  lemma BindAllSucceeds(rows: seq<Row>, elem: Shape, parseFloat: FloatParser)
    requires forall i :: 0 <= i < |rows| ==> RowOk(rows[i])
    ensures var r := BindAll(rows, elem, parseFloat);
      && (r.Success? <==> forall i :: 0 <= i < |rows| ==> Bind(rows[i], elem, ZeroPlace(elem), parseFloat).err.None?)
      && (r.Success? ==> forall i :: 0 <= i < |rows| ==> r.value[i] == Bind(rows[i], elem, ZeroPlace(elem), parseFloat).value)
  {
    CollectSucceeds(FreshBinds(rows, elem, parseFloat));
  }

  /** When every row binds, the slice holds exactly the bound values. */
  lemma BindAllWrites(rows: seq<Row>, elem: Shape, parseFloat: FloatParser, vs: seq<PlaceVal>)
    requires forall i :: 0 <= i < |rows| ==> RowOk(rows[i])
    requires |vs| == |rows|
    requires forall i :: 0 <= i < |rows| ==> Bind(rows[i], elem, ZeroPlace(elem), parseFloat) == BindResult(None, vs[i])
    ensures BindAll(rows, elem, parseFloat) == Success(vs)
  {
    BindAllSucceeds(rows, elem, parseFloat);
    var r := BindAll(rows, elem, parseFloat);
    assert r.Success?;
    assert r.value == vs;
  }

  /** The error is that of the first row that fails to bind; later rows are not looked at. */
  lemma BindAllFirstFailure(rows: seq<Row>, elem: Shape, parseFloat: FloatParser, f: nat)
    requires forall i :: 0 <= i < |rows| ==> RowOk(rows[i])
    requires f < |rows| && Bind(rows[f], elem, ZeroPlace(elem), parseFloat).err.Some?
    requires forall i :: 0 <= i < f ==> Bind(rows[i], elem, ZeroPlace(elem), parseFloat).err.None?
    ensures BindAll(rows, elem, parseFloat) == Failure(Bind(rows[f], elem, ZeroPlace(elem), parseFloat).err.value)
  {
    CollectFirstFailure(FreshBinds(rows, elem, parseFloat), f);
  }

  /**
   * The body of singleResult's field loop for field i: skip the field unless
   * it is exported, carries a non-empty pg tag and its column is in the row;
   * otherwise convert the column's value into it.
   */
  method BindField(row: Row, loc: Location, i: nat, parseFloat: FloatParser) returns (err: Option<Error>)
    requires loc.Valid() && loc.shape.Struct? && i < |loc.shape.decls| && RowOk(row)
    modifies loc
    ensures loc.Valid() && loc.Repr == old(loc.Repr)
    ensures var o := FieldStep(row, loc.shape.decls[i], parseFloat);
      loc.fields == Apply(old(loc.fields), i, o) && err == ErrorOf(o)
  {
    var field := loc.shape.decls[i];
    if !field.exported {
      return None;
    }
    var tagName := Lookup(field.tags, TagName);
    if tagName.None? || tagName.value == "" {
      return None;
    }
    if tagName.value !in row {
      return None;
    }
    var mapValue := row[tagName.value];
    err := ValueConvert(mapValue, loc, i, parseFloat);
  }

  /** singleResult on a struct location: the fields in order, stopping at the first error with no rollback. */
  method BindStruct(row: Row, loc: Location, parseFloat: FloatParser) returns (err: Option<Error>)
    requires loc.Valid() && loc.shape.Struct? && RowOk(row)
    modifies loc
    ensures loc.Valid() && loc.Repr == old(loc.Repr)
    ensures (err, loc.fields) == BindFields(row, loc.shape.decls, old(loc.fields), parseFloat)
  {
    var decls := loc.shape.decls;
    ghost var steps := Steps(row, decls, parseFloat);
    var i := 0;
    while i < |decls|
      invariant 0 <= i <= |decls|
      invariant loc.Valid() && loc.Repr == old(loc.Repr)
      invariant Run(steps, loc.fields, i) == Run(steps, old(loc.fields), 0)
    {
      ghost var before := loc.fields;
      var e := BindField(row, loc, i, parseFloat);
      assert steps[i] == FieldStep(row, decls[i], parseFloat);
      RunStep(steps, before, i);
      if e.Some? {
        assert loc.fields == before;
        return e;
      }
      i := i + 1;
    }
    return None;
  }

  /**
   * singleResult: binds the row to loc as Bind prescribes, writing struct
   * fields in place and allocating fresh storage at each pointer level.
   */
  method SingleResult(row: Row, loc: Location, parseFloat: FloatParser) returns (err: Option<Error>)
    requires loc.Valid() && RowOk(row)
    modifies loc
    ensures loc.Valid() && fresh(loc.Repr - old(loc.Repr))
    ensures BindResult(err, loc.View()) == Bind(row, loc.shape, old(loc.View()), parseFloat)
    decreases loc.shape
  {
    if loc.shape.PtrTo? {
      var target := new Location(loc.shape.elem);
      err := SingleResult(row, target, parseFloat);
      if err.None? {
        loc.SetPointee(target);
      }
      return;
    }
    err := BindStruct(row, loc, parseFloat);
  }

  /** One element of multiResults: reflect.New of the element type, then singleResult into it. */
  method NewElement(row: Row, elem: Shape, parseFloat: FloatParser) returns (item: Location, err: Option<Error>)
    requires RowOk(row)
    ensures fresh(item.Repr) && item.Valid() && item.shape == elem
    ensures BindResult(err, item.View()) == Bind(row, elem, ZeroPlace(elem), parseFloat)
  {
    item := new Location(elem);
    err := SingleResult(row, item, parseFloat);
  }

  /** Each location is valid, has the element shape and holds the value at its position. */
  ghost predicate Holds(items: seq<Location>, elem: Shape, views: seq<PlaceVal>)
    reads (set j | 0 <= j < |items| :: items[j]) + (set j, o | 0 <= j < |items| && o in items[j].Repr :: o)
  {
    |views| == |items| &&
    forall j :: 0 <= j < |items| ==> items[j].Valid() && items[j].shape == elem && items[j].View() == views[j]
  }

  /** One more valid element of the element shape extends the list by its value. */
  lemma HoldsSnoc(items: seq<Location>, elem: Shape, views: seq<PlaceVal>, item: Location)
    requires Holds(items, elem, views) && item.Valid() && item.shape == elem
    ensures Holds(items + [item], elem, views + [item.View()])
  {
    var items', views' := items + [item], views + [item.View()];
    forall j | 0 <= j < |items'|
      ensures items'[j].Valid() && items'[j].shape == elem && items'[j].View() == views'[j]
    {
      if j < |items| {
        assert items'[j] == items[j] && views'[j] == views[j];
      }
    }
  }

  /**
   * multiResults: on success the destination holds one fresh element per
   * row, element i bound from row i; on failure it is never assigned.
   */
  method MultiResults(rows: seq<Row>, dest: SliceDest, parseFloat: FloatParser) returns (err: Option<Error>)
    requires forall i :: 0 <= i < |rows| ==> RowOk(rows[i])
    modifies dest
    ensures var r := BindAll(rows, dest.elem, parseFloat);
      && (r.Failure? ==> err == Some(r.error) && dest.items == old(dest.items))
      && (r.Success? ==> err == None && |dest.items| == |rows|)
    ensures err == None ==> forall i :: 0 <= i < |dest.items| ==>
      && fresh(dest.items[i].Repr) && dest.items[i].Valid() && dest.items[i].shape == dest.elem
      && dest.items[i].View() == BindAll(rows, dest.elem, parseFloat).value[i]
  {
    ghost var results := FreshBinds(rows, dest.elem, parseFloat);
    var built: seq<Location> := [];
    ghost var views: seq<PlaceVal> := [];
    var i := 0;
    while i < |rows|
      invariant 0 <= i <= |rows| && |built| == i
      invariant Collect(results[..i]) == Success(views)
      invariant Holds(built, dest.elem, views)
      invariant forall j :: 0 <= j < i ==> fresh(built[j].Repr)
      invariant dest.items == old(dest.items)
    {
      var item, e := NewElement(rows[i], dest.elem, parseFloat);
      assert BindResult(e, item.View()) == results[i];
      CollectStep(results, i);
      if e.Some? {
        CollectPrefixFailure(results, i + 1);
        return e;
      }
      HoldsSnoc(built, dest.elem, views, item);
      built := built + [item];
      views := views + [item.View()];
      i := i + 1;
    }
    assert results[..i] == results;
    dest.items := built;
    return None;
  }
}
