// The `types` table and the mapping that renders a native as a binding
// lambda: `map_ret`, `map_type` and `wrap`.
module TypeTable {
  import opened Wrappers
  import opened Text

  /** A table row: the C++ storage of the handle and the type it derives from, if any. */
  datatype TypeInfo = TypeInfo(storage: string, parent: Option<string>)

  /** A row of the table: a type name and what it maps to. */
  datatype Row = Row(name: string, info: TypeInfo)

  /** A parameter as `(type, name)`. */
  datatype Param = Param(ty: string, name: string)

  /** `types`, in insertion order. */
  const Types: seq<Row> := [
    Row("Void", TypeInfo("DWORD", None)),
    Row("Any", TypeInfo("DWORD", None)),
    Row("uint", TypeInfo("DWORD", None)),
    Row("Hash", TypeInfo("DWORD", None)),
    Row("Entity", TypeInfo("int", Some("Any"))),
    Row("Player", TypeInfo("int", Some("Any"))),
    Row("Ped", TypeInfo("int", Some("Entity"))),
    Row("Vehicle", TypeInfo("int", Some("Entity"))),
    Row("Cam", TypeInfo("int", Some("Any"))),
    Row("Object", TypeInfo("int", Some("Entity"))),
    Row("Pickup", TypeInfo("int", Some("Object"))),
    Row("Blip", TypeInfo("int", Some("Any"))),
    Row("ScrHandle", TypeInfo("int", None))
  ]

  /** `tp in types` */
  predicate Known(tp: string)
  {
    exists i :: 0 <= i < |Types| && Types[i].name == tp
  }

  /** `Hash` is a table type. */
  lemma HashKnown()
    ensures Known("Hash")
  {
    assert Types[3].name == "Hash";
  }

  /** `accepted_types` */
  const AcceptedTypes: set<string> := {"char*", "BOOL", "int", "float"}

  /** `accepted_ret_typed` */
  const AcceptedRetTypes: set<string> := {"void", "Vector3"} + AcceptedTypes

  /** Some row before row `n` is named `x`. */
  predicate NamedBefore(t: seq<Row>, n: nat, x: string)
  {
    exists j :: 0 <= j < n && j < |t| && t[j].name == x
  }

  /** The parent row `i` names, if any, is the key of an earlier row. */
  predicate ParentEarlier(t: seq<Row>, i: nat)
    requires i < |t|
  {
    t[i].info.parent.Some? ==> NamedBefore(t, i, t[i].info.parent.value)
  }

  /** Every parent a row names is the key of an earlier row. */
  predicate ParentsEarlier(t: seq<Row>)
  {
    forall i :: 0 <= i < |t| ==> ParentEarlier(t, i)
  }

  /** No key appears twice. */
  predicate DistinctNames(t: seq<Row>)
  {
    forall i, j :: 0 <= i < j < |t| ==> t[i].name != t[j].name
  }

  /** The table as written satisfies both invariants. */
  lemma TableWellFormed()
    ensures ParentsEarlier(Types)
    ensures DistinctNames(Types)
  {
    TableParentsEarlier();
    TableDistinctNames();
  }

  /** No type name in the table is repeated: each differs from every other
      in its first letter, its length or its second letter. */
  lemma TableDistinctNames()
    ensures DistinctNames(Types)
  {
    forall i, j | 0 <= i < j < |Types|
      ensures Types[i].name != Types[j].name
    {
      var a, b := Types[i].name, Types[j].name;
      assert a[0] != b[0] || |a| != |b| || a[1] != b[1];
    }
  }

  /** Each parent the table names is defined on an earlier row. */
  lemma TableParentsEarlier()
    ensures ParentsEarlier(Types)
  {
    var parentRow := [0, 0, 0, 0, 1, 1, 4, 4, 1, 4, 9, 1, 0];
    forall i | 0 <= i < |Types|
      ensures ParentEarlier(Types, i)
    {
      if Types[i].info.parent.Some? {
        assert Types[parentRow[i]].name == Types[i].info.parent.value;
      }
    }
  }

  /** The first row of `t` named `x`. */
  function FirstRow(t: seq<Row>, x: string): (k: nat)
    requires exists i :: 0 <= i < |t| && t[i].name == x
    ensures k < |t| && t[k].name == x
    ensures forall m :: 0 <= m < k ==> t[m].name != x
  {
    if t[0].name == x then 0
    else
      assert exists i :: 0 <= i < |t[1..]| && t[1..][i].name == x by {
        var i :| 0 <= i < |t| && t[i].name == x;
        assert t[1..][i - 1].name == x;
      }
      1 + FirstRow(t[1..], x)
  }

  /** Index of the row a type derives from: always an earlier one. */
  function ParentIndex(t: seq<Row>, i: nat): (j: nat)
    requires ParentsEarlier(t) && i < |t| && t[i].info.parent.Some?
    ensures j < i && t[j].name == t[i].info.parent.value
  {
    assert ParentEarlier(t, i);
    FirstRow(t, t[i].info.parent.value)
  }

  /** Some root row before row `n` is named `x`. */
  predicate RootBefore(t: seq<Row>, n: nat, x: string)
  {
    exists j :: 0 <= j < n && j < |t| && t[j].name == x && t[j].info.parent.None?
  }

  /** A type followed by its parent, its parent's parent and so on: in a
      table whose parents come earlier the chain is finite, ends at a root
      and names only table types. */
  function Lineage(t: seq<Row>, i: nat): (r: seq<string>)
    requires ParentsEarlier(t) && i < |t|
    ensures |r| >= 1 && r[0] == t[i].name
    decreases i
  {
    if t[i].info.parent.None? then [t[i].name]
    else [t[i].name] + Lineage(t, ParentIndex(t, i))
  }

  /** Every name on a lineage is a row at or before the start, and the last
      one is a root row. */
  lemma {:induction false} LineageNamed(t: seq<Row>, i: nat)
    requires ParentsEarlier(t) && i < |t|
    ensures forall k :: 0 <= k < |Lineage(t, i)| ==> NamedBefore(t, i + 1, Lineage(t, i)[k])
    ensures RootBefore(t, i + 1, Lineage(t, i)[|Lineage(t, i)| - 1])
    decreases i
  {
    var r := Lineage(t, i);
    if t[i].info.parent.None? {
      assert t[i].name == r[0];
    } else {
      var p := ParentIndex(t, i);
      var rest := Lineage(t, p);
      LineageNamed(t, p);
      assert r == [t[i].name] + rest;
      forall k | 0 <= k < |r| ensures NamedBefore(t, i + 1, r[k]) {
        if k == 0 {
          assert t[i].name == r[k];
        } else {
          assert r[k] == rest[k - 1];
          var j :| 0 <= j < p + 1 && j < |t| && t[j].name == rest[k - 1];
        }
      }
      assert r[|r| - 1] == rest[|rest| - 1];
      var j :| 0 <= j < p + 1 && j < |t| && t[j].name == rest[|rest| - 1] && t[j].info.parent.None?;
    }
  }

  /** Every table type has a finite lineage ending at a root row. */
  lemma TableLineage(i: nat)
    requires i < |Types|
    ensures ParentsEarlier(Types)
    ensures Lineage(Types, i)[0] == Types[i].name
    ensures forall k :: 0 <= k < |Lineage(Types, i)| ==> Known(Lineage(Types, i)[k])
    ensures RootBefore(Types, i + 1, Lineage(Types, i)[|Lineage(Types, i)| - 1])
  {
    TableWellFormed();
    LineageNamed(Types, i);
  }

  /** `map_ret(tp)`; `Err` carries the unknown type. */
  function MapRet(tp: string): (r: Result<string, string>)
    ensures r.Ok? ==> r.value == tp || (Known(tp) && r.value == "Py_" + tp)
    ensures r.Err? <==> !Known(tp) && tp !in AcceptedRetTypes
    ensures r.Err? ==> r.error == tp
  {
    if Known(tp) then Ok("Py_" + tp)
    else if tp in AcceptedRetTypes then Ok(tp)
    else Err(tp)
  }

  /** `map_type(tp, vn)`: the declaration and the call expression. */
  function MapType(tp: string, vn: string): (r: Result<(string, string), string>)
    ensures r.Err? <==> !Known(tp) && tp !in AcceptedTypes
    ensures r.Err? ==> r.error == tp
    ensures r.Ok? ==> r.value.1 == vn || r.value.1 == vn + ".id"
  {
    if Known(tp) then Ok(("Py_" + tp + " " + vn, vn + ".id"))
    else if tp in AcceptedTypes then Ok((tp + " " + vn, vn))
    else Err(tp)
  }

  /** No primitive name is also a table type, so primitives always pass through. */
  lemma PrimitivesAreNotTableTypes(tp: string, vn: string)
    requires tp in AcceptedRetTypes
    ensures !Known(tp)
    ensures MapRet(tp) == Ok(tp)
    ensures tp in AcceptedTypes ==> MapType(tp, vn) == Ok((tp + " " + vn, vn))
  {
  }

  /** A table type becomes its `Py_` wrapper; as an argument it is passed as `vn.id`. */
  lemma TableTypeMapping(tp: string, vn: string)
    requires Known(tp)
    ensures MapRet(tp) == Ok("Py_" + tp)
    ensures MapType(tp, vn) == Ok(("Py_" + tp + " " + vn, vn + ".id"))
  {
  }

  /** `void` and `Vector3` may be returned but never passed. */
  lemma ReturnOnlyTypes(tp: string, vn: string)
    requires tp == "void" || tp == "Vector3"
    ensures MapRet(tp) == Ok(tp)
    ensures MapType(tp, vn).Err?
  {
    PrimitivesAreNotTableTypes(tp, vn);
  }

  /** Whatever can be passed can be returned, under the same C++ type. */
  lemma ArgumentTypesAreReturnTypes(tp: string, vn: string)
    requires MapType(tp, vn).Ok?
    ensures MapRet(tp).Ok?
    ensures MapType(tp, vn).value.0 == MapRet(tp).value + " " + vn
  {
  }

  /** `wrap`'s `force_type` step. */
  function Substitute(params: seq<Param>, forceType: Option<string>): (r: seq<Param>)
    ensures |r| == |params|
    ensures forall i :: 1 <= i < |params| ==> r[i] == params[i]
    ensures |params| > 0 ==> r[0].name == params[0].name
    ensures r != params ==> forceType.Some? && |params| > 0 && '*' !in params[0].ty
    ensures forceType.Some? && |params| > 0 && '*' !in params[0].ty ==> r[0].ty == forceType.value
  {
    if forceType.Some? && |params| > 0 && '*' !in params[0].ty then
      [Param(forceType.value, params[0].name)] + params[1..]
    else params
  }

  /** `zip(*[map_type(*p) for p in params])`: the declarations and the call
      expressions, or the type of the first parameter that cannot be mapped. */
  function MapParams(ps: seq<Param>): (r: Result<(seq<string>, seq<string>), string>)
    ensures r.Ok? ==> |r.value.0| == |ps| && |r.value.1| == |ps|
    ensures r.Ok? ==> forall i :: 0 <= i < |ps| ==>
                        MapType(ps[i].ty, ps[i].name) == Ok((r.value.0[i], r.value.1[i]))
    ensures r.Err? ==> exists i :: 0 <= i < |ps| && MapType(ps[i].ty, ps[i].name).Err?
                                   && r.error == ps[i].ty
                                   && forall j :: 0 <= j < i ==> MapType(ps[j].ty, ps[j].name).Ok?
  {
    if ps == [] then Ok(([], []))
    else
      match MapType(ps[0].ty, ps[0].name)
      case Err(t) => Err(t)
      case Ok(dc) =>
        assert forall j :: 0 <= j < |ps| - 1 ==> ps[1..][j] == ps[j + 1];
        match MapParams(ps[1..])
        case Err(t) =>
          assert exists i :: 0 < i < |ps| && MapType(ps[i].ty, ps[i].name).Err? && t == ps[i].ty
                             && forall j :: 0 <= j < i ==> MapType(ps[j].ty, ps[j].name).Ok? by {
            var i :| 0 <= i < |ps| - 1 && MapType(ps[1..][i].ty, ps[1..][i].name).Err? && t == ps[1..][i].ty
                     && forall j :: 0 <= j < i ==> MapType(ps[1..][j].ty, ps[1..][j].name).Ok?;
            assert forall j :: 0 <= j < i + 1 ==> MapType(ps[j].ty, ps[j].name).Ok? by {
              forall j | 0 <= j < i + 1 ensures MapType(ps[j].ty, ps[j].name).Ok? {
                if j > 0 {
                  assert ps[1..][j - 1] == ps[j];
                }
              }
            }
          }
          Err(t)
        case Ok(rest) => Ok(([dc.0] + rest.0, [dc.1] + rest.1))
  }

  /** The lambda text `wrap` renders. */
  function Lambda(fn: string, ret: string, decls: seq<string>, calls: seq<string>): string
  {
    "[](" + Join(decls, ",") + ") -> " + ret + " { return " + fn + "(" + Join(calls, ",") + "); }"
  }

  /** `wrap(fn, rt, params, force_type)`: the parameters are mapped first, the
      return type after them; the first type that cannot be mapped is the error. */
  function Wrap(fn: string, rt: string, params: seq<Param>, forceType: Option<string>): Result<string, string>
  {
    var ps := Substitute(params, forceType);
    match MapParams(ps)
    case Err(t) => Err(t)
    case Ok(dc) =>
      match MapRet(rt)
      case Err(t) => Err(t)
      case Ok(ret) => Ok(Lambda(fn, ret, dc.0, dc.1))
  }

  /** `wrap` fails exactly when a parameter type, after the substitution, or
      the return type cannot be mapped; a bad parameter is reported first. */
  lemma WrapFails(fn: string, rt: string, params: seq<Param>, forceType: Option<string>)
    ensures var ps := Substitute(params, forceType);
            Wrap(fn, rt, params, forceType).Err?
            <==> (exists i :: 0 <= i < |ps| && MapType(ps[i].ty, ps[i].name).Err?) || MapRet(rt).Err?
    ensures var ps := Substitute(params, forceType);
            var r := Wrap(fn, rt, params, forceType);
            && (r.Err? && MapParams(ps).Ok? ==> r.error == rt)
            && (MapParams(ps).Err? ==> r.Err? && r.error == MapParams(ps).error)
  {
  }

  /** What a mapped type is prefixed with: `Py_` for a table type, nothing
      for a primitive. */
  function PyPrefix(tp: string): string
  {
    if Known(tp) then "Py_" else ""
  }

  /** A parameter that maps is declared with its type's prefix and passed by
      handle exactly when its type is a table type. */
  lemma ParamMapping(tp: string, vn: string)
    requires MapType(tp, vn).Ok?
    ensures Known(tp) || tp in AcceptedTypes
    ensures MapType(tp, vn) == Ok((PyPrefix(tp) + tp + " " + vn, vn + (if Known(tp) then ".id" else "")))
  {
    if Known(tp) {
      TableTypeMapping(tp, vn);
    } else {
      PrimitivesAreNotTableTypes(tp, vn);
      assert PyPrefix(tp) + tp == tp;
      assert vn + "" == vn;
    }
  }

  /** A return type that maps gets its type's prefix. */
  lemma ReturnMapping(rt: string)
    requires MapRet(rt).Ok?
    ensures Known(rt) || rt in AcceptedRetTypes
    ensures MapRet(rt) == Ok(PyPrefix(rt) + rt)
  {
    if Known(rt) {
      TableTypeMapping(rt, "");
    } else {
      PrimitivesAreNotTableTypes(rt, "");
      assert PyPrefix(rt) + rt == rt;
    }
  }

  /** A successful `wrap` only met passable parameter types and a returnable
      return type. It declares each parameter as `Py_T name` for a table type
      and `T name` for a primitive, and passes it on as `name.id` and `name`
      respectively; the lambda returns `Py_R` or `R` likewise. */
  lemma WrapText(fn: string, rt: string, params: seq<Param>, forceType: Option<string>)
    requires Wrap(fn, rt, params, forceType).Ok?
    ensures var ps := Substitute(params, forceType);
            && (Known(rt) || rt in AcceptedRetTypes)
            && (forall k :: 0 <= k < |ps| ==> Known(ps[k].ty) || ps[k].ty in AcceptedTypes)
            && MapParams(ps).Ok?
    ensures var ps := Substitute(params, forceType);
            var dc := MapParams(ps).value;
            && |dc.0| == |ps| && |dc.1| == |ps|
            && (forall k :: 0 <= k < |ps| ==> dc.0[k] == PyPrefix(ps[k].ty) + ps[k].ty + " " + ps[k].name)
            && (forall k :: 0 <= k < |ps| ==> dc.1[k] == ps[k].name + (if Known(ps[k].ty) then ".id" else ""))
            && Wrap(fn, rt, params, forceType) == Ok(Lambda(fn, PyPrefix(rt) + rt, dc.0, dc.1))
  {
    var ps := Substitute(params, forceType);
    var dc := MapParams(ps).value;
    forall k | 0 <= k < |ps|
      ensures Known(ps[k].ty) || ps[k].ty in AcceptedTypes
      ensures dc.0[k] == PyPrefix(ps[k].ty) + ps[k].ty + " " + ps[k].name
      ensures dc.1[k] == ps[k].name + (if Known(ps[k].ty) then ".id" else "")
    {
      ParamMapping(ps[k].ty, ps[k].name);
    }
    ReturnMapping(rt);
  }

  /** A forced first parameter of a table type is passed by its handle id. */
  lemma ForcedHandle(fn: string, rt: string, params: seq<Param>, t: string)
    requires Known(t) && |params| > 0 && '*' !in params[0].ty
    requires MapParams(Substitute(params, Some(t))).Ok?
    ensures MapParams(Substitute(params, Some(t))).value.1[0] == params[0].name + ".id"
  {
  }
}
