// The namespace loop of the natives generator as a whole: each namespace of
// the stripped header is classified and emitted, its code is appended to
// `type_def` under its type name, its failed wraps to `failed_natives`;
// afterwards `empty_types` lists the `type_def` keys the type table lacks.
module Natives {
  import opened Wrappers
  import opened TypeTable
  import opened Classifier
  import opened Emitter
  import opened EmitFacts

  /** One piece of the header after `namespace`, as `ns_r` sees it: no match,
      or the namespace's name and the declarations `fn_r` finds in its body. */
  datatype Chunk = Unmatched | Namespace(name: Ident, decls: seq<RawDecl>)

  /** `type_def`, an insertion-ordered dictionary: its entries and the order
      its keys were first inserted in. */
  datatype TypeDefs = TypeDefs(code: map<string, string>, order: seq<string>)

  /** The keys are exactly those of `order`, each listed once. */
  ghost predicate OrderedDict(t: TypeDefs)
  {
    && (forall x :: x in t.code <==> x in t.order)
    && (forall i, j :: 0 <= i < j < |t.order| ==> t.order[i] != t.order[j])
  }

  const HashInit: string := ".def(py::init<DWORD>())"

  /** `type_def` before the loop: `Hash` gets its constructor. */
  function InitialTypeDefs(): (t: TypeDefs)
    ensures OrderedDict(t) && t.order == ["Hash"] && t.code["Hash"] == HashInit
  {
    TypeDefs(map["Hash" := HashInit], ["Hash"])
  }

  /** `type_def[tn] += code` when `tn` is already a key, `type_def[tn] = code`
      otherwise: a new key goes last, an old one keeps its place. */
  function AddCode(t: TypeDefs, tn: string, code: string): (r: TypeDefs)
    requires OrderedDict(t)
    ensures OrderedDict(r)
    ensures tn in r.code && r.code[tn] == (if tn in t.code then t.code[tn] else "") + code
    ensures forall x :: x != tn ==> (x in r.code <==> x in t.code)
    ensures forall x :: x != tn && x in t.code ==> r.code[x] == t.code[x]
    ensures r.order == if tn in t.code then t.order else t.order + [tn]
  {
    if tn in t.code then TypeDefs(t.code[tn := t.code[tn] + code], t.order)
    else TypeDefs(t.code[tn := code], t.order + [tn])
  }

  /** What the loop has built: `type_def` and `failed_natives`. */
  datatype Outcome = Outcome(typeDef: TypeDefs, failed: seq<string>)

  /** One namespace's code and failures, or the exception it raises. */
  ghost function NamespaceSpec(custom: set<string>, name: Ident, decls: seq<RawDecl>): Result<Emission, Abort>
  {
    match ClassifyAll(name, custom, decls)
    case Err(a) => Err(a)
    case Ok(b) => EmitSpec(WrapEntry, TypeName(name), b)
  }

  /** `wrap` fails only on a type it cannot pass: neither a table type nor
      a primitive argument type. */
  lemma WrapEntryError(e: Entry, force: Option<string>)
    requires WrapEntry(e, force).Err?
    ensures !Known(WrapEntry(e, force).error) && WrapEntry(e, force).error !in AcceptedTypes
  {
    WrapFails(e.nsFn, e.rt, e.params, force);
  }

  /** A namespace raises either on a parameter `pr_r` cannot split, while
      classifying, or on a getter whose wrap meets a type it cannot pass. */
  lemma NamespaceAbortCause(custom: set<string>, name: Ident, decls: seq<RawDecl>)
    requires NamespaceSpec(custom, name, decls).Err?
    ensures var a := NamespaceSpec(custom, name, decls).error;
            || (a.UnparsedParam? && ClassifyAll(name, custom, decls).Err?)
            || (a.UnmappableType? && !Known(a.ty) && a.ty !in AcceptedTypes)
  {
    if ClassifyAll(name, custom, decls).Err? {
      CollectOk(Verdicts(name, custom, decls));
    } else {
      var b := ClassifyAll(name, custom, decls).value;
      var tn := TypeName(name);
      EmitAbortFirst(WrapEntry, tn, b);
      var g :| g in b.getters && !GetterWraps(WrapEntry, tn, b, g)
               && EmitSpec(WrapEntry, tn, b).error == GetterAbort(WrapEntry, tn, b, g);
      if WrapEntry(b.getters[g], Some(tn)).Err? {
        WrapEntryError(b.getters[g], Some(tn));
      } else {
        WrapEntryError(b.setters[g], Some(tn));
      }
    }
  }

  /** What the loop makes of one namespace; the run is stated for any such
      function and instantiated with `Namespaces(custom)`. */
  type NamespaceFn = (Ident, seq<RawDecl>) -> Result<Emission, Abort>

  ghost function Namespaces(custom: set<string>): NamespaceFn
  {
    (name: Ident, decls: seq<RawDecl>) => NamespaceSpec(custom, name, decls)
  }

  /** The loop over the first `|chunks|` pieces. */
  ghost function RunSpec(ns: NamespaceFn, chunks: seq<Chunk>): (r: Result<Outcome, Abort>)
    ensures r.Ok? ==> OrderedDict(r.value.typeDef)
  {
    if chunks == [] then Ok(Outcome(InitialTypeDefs(), []))
    else
      match RunSpec(ns, chunks[..|chunks| - 1])
      case Err(a) => Err(a)
      case Ok(o) =>
        match chunks[|chunks| - 1]
        case Unmatched => Ok(o)
        case Namespace(name, decls) =>
          match ns(name, decls)
          case Err(a) => Err(a)
          case Ok(e) =>
            Ok(Outcome(AddCode(o.typeDef, TypeName(name), RenderAll(e.defs)), o.failed + e.failed))
  }

  /** `empty_types`: the `type_def` keys, in order, that are not table types. */
  function EmptyTypes(order: seq<string>): (r: seq<string>)
    ensures forall x :: x in r <==> x in order && !Known(x)
    ensures |r| <= |order|
  {
    if order == [] then []
    else
      var rest := EmptyTypes(order[..|order| - 1]);
      var t := order[|order| - 1];
      assert forall x :: x in order <==> x in order[..|order| - 1] || x == t;
      if Known(t) then rest else rest + [t]
  }

  /** Piece `c` stops the run: its namespace raises while being classified
      or emitted. */
  predicate Aborts(ns: NamespaceFn, c: Chunk)
  {
    c.Namespace? && ns(c.name, c.decls).Err?
  }

  /** The type name piece `c` contributes code under, if it is a namespace. */
  predicate NamesType(c: Chunk, tn: string)
  {
    c.Namespace? && TypeName(c.name) == tn
  }

  lemma {:induction false} RunErrSticky(ns: NamespaceFn, chunks: seq<Chunk>, n: nat)
    requires n <= |chunks| && RunSpec(ns, chunks[..n]).Err?
    ensures RunSpec(ns, chunks) == RunSpec(ns, chunks[..n])
    decreases |chunks| - n
  {
    if n < |chunks| {
      var m := |chunks| - 1;
      assert chunks[..m][..n] == chunks[..n];
      RunErrSticky(ns, chunks[..m], n);
    } else {
      assert chunks[..n] == chunks;
    }
  }

  /** The run raises exactly when some namespace raises: whether a namespace
      raises depends on nothing the earlier ones leave behind. */
  lemma {:induction false} RunAborts(ns: NamespaceFn, chunks: seq<Chunk>)
    ensures RunSpec(ns, chunks).Err? <==> exists i :: 0 <= i < |chunks| && Aborts(ns, chunks[i])
    decreases |chunks|
  {
    if chunks != [] {
      var n := |chunks| - 1;
      var init := chunks[..n];
      RunAborts(ns, init);
      assert forall i :: 0 <= i < n ==> init[i] == chunks[i];
      if RunSpec(ns, init).Err? {
        var i :| 0 <= i < n && Aborts(ns, init[i]);
        assert Aborts(ns, chunks[i]);
      } else if Aborts(ns, chunks[n]) {
        assert RunSpec(ns, chunks).Err?;
      } else {
        assert RunSpec(ns, chunks).Ok?;
        forall i | 0 <= i < |chunks| ensures !Aborts(ns, chunks[i]) {
          if i < n {
            assert !Aborts(ns, init[i]);
          }
        }
      }
    }
  }

  /** `type_def` starts with `Hash` and gains one key per new type name, in
      the order the namespaces come. */
  lemma {:induction false} RunKeys(ns: NamespaceFn, chunks: seq<Chunk>)
    requires RunSpec(ns, chunks).Ok?
    ensures var t := RunSpec(ns, chunks).value.typeDef;
            && |t.order| > 0 && t.order[0] == "Hash"
            && forall x :: x in t.code <==> x == "Hash" || exists i :: 0 <= i < |chunks| && NamesType(chunks[i], x)
    decreases |chunks|
  {
    if chunks != [] {
      var init := chunks[..|chunks| - 1];
      RunKeys(ns, init);
      assert forall i :: 0 <= i < |init| ==> init[i] == chunks[i];
      assert RunSpec(ns, init).Ok?;
    }
  }

  /** `Hash` keeps its constructor at the head of its code. */
  lemma {:induction false} RunHashFirst(ns: NamespaceFn, chunks: seq<Chunk>)
    requires RunSpec(ns, chunks).Ok?
    ensures "Hash" in RunSpec(ns, chunks).value.typeDef.code
    ensures HashInit <= RunSpec(ns, chunks).value.typeDef.code["Hash"]
    decreases |chunks|
  {
    if chunks != [] {
      RunHashFirst(ns, chunks[..|chunks| - 1]);
    }
  }

  /** A name ends up in `failed_natives` exactly when some namespace logged it. */
  lemma {:induction false} RunFailed(ns: NamespaceFn, chunks: seq<Chunk>)
    requires RunSpec(ns, chunks).Ok?
    ensures forall x :: x in RunSpec(ns, chunks).value.failed <==>
              exists i :: 0 <= i < |chunks| && chunks[i].Namespace?
                          && ns(chunks[i].name, chunks[i].decls).Ok?
                          && x in ns(chunks[i].name, chunks[i].decls).value.failed
    decreases |chunks|
  {
    if chunks != [] {
      var init := chunks[..|chunks| - 1];
      RunFailed(ns, init);
      assert forall i :: 0 <= i < |init| ==> init[i] == chunks[i];
    }
  }

  /** `empty_types` lists exactly the type names of namespaces that are not
      in the type table, once each, and never `Hash`. */
  lemma EmptyTypesOfRun(ns: NamespaceFn, chunks: seq<Chunk>)
    requires RunSpec(ns, chunks).Ok?
    ensures var e := EmptyTypes(RunSpec(ns, chunks).value.typeDef.order);
            && (forall x :: x in e <==> !Known(x) && exists i :: 0 <= i < |chunks| && NamesType(chunks[i], x))
            && "Hash" !in e
  {
    var t := RunSpec(ns, chunks).value.typeDef;
    RunKeys(ns, chunks);
    HashKnown();
    forall x ensures x in t.order <==> x == "Hash" || exists i :: 0 <= i < |chunks| && NamesType(chunks[i], x) {
      assert x in t.order <==> x in t.code;
    }
  }

  /** The failure lists of the namespaces among `chunks`, joined in order. */
  ghost function FailedOfChunks(ns: NamespaceFn, chunks: seq<Chunk>): seq<string>
  {
    if chunks == [] then []
    else
      var c := chunks[|chunks| - 1];
      FailedOfChunks(ns, chunks[..|chunks| - 1])
        + (if c.Namespace? && ns(c.name, c.decls).Ok? then ns(c.name, c.decls).value.failed else [])
  }

  /** `failed_natives` is the namespaces' failure lists joined in the order
      the namespaces come. */
  lemma {:induction false} RunFailedOrder(ns: NamespaceFn, chunks: seq<Chunk>)
    requires RunSpec(ns, chunks).Ok?
    ensures RunSpec(ns, chunks).value.failed == FailedOfChunks(ns, chunks)
    decreases |chunks|
  {
    if chunks != [] {
      RunFailedOrder(ns, chunks[..|chunks| - 1]);
    }
  }

  /** The code the namespaces among `chunks` with type name `tn` contribute,
      joined in order, after the constructor `Hash` starts with. */
  ghost function CodeFor(ns: NamespaceFn, chunks: seq<Chunk>, tn: string): string
  {
    if chunks == [] then (if tn == "Hash" then HashInit else "")
    else
      var c := chunks[|chunks| - 1];
      CodeFor(ns, chunks[..|chunks| - 1], tn)
        + (if NamesType(c, tn) && ns(c.name, c.decls).Ok? then RenderAll(ns(c.name, c.decls).value.defs) else "")
  }

  /** `type_def[tn]` holds the code of every namespace with type name `tn`,
      in the order the namespaces come; a name without an entry has no code. */
  lemma {:induction false} RunCode(ns: NamespaceFn, chunks: seq<Chunk>, tn: string)
    requires RunSpec(ns, chunks).Ok?
    ensures var t := RunSpec(ns, chunks).value.typeDef;
            && (tn in t.code ==> t.code[tn] == CodeFor(ns, chunks, tn))
            && (tn !in t.code ==> CodeFor(ns, chunks, tn) == "")
    decreases |chunks|
  {
    if chunks != [] {
      RunCode(ns, chunks[..|chunks| - 1], tn);
    }
  }

  /** The positions of `order` that hold no table type, ascending. */
  function UnknownPositions(order: seq<string>): (ps: seq<nat>)
    ensures forall j :: 0 <= j < |ps| ==> ps[j] < |order|
    ensures forall j, k :: 0 <= j < k < |ps| ==> ps[j] < ps[k]
  {
    if order == [] then []
    else UnknownPositions(order[..|order| - 1]) + (if Known(order[|order| - 1]) then [] else [|order| - 1])
  }

  /** A position is listed exactly when its key is not a table type. */
  lemma {:induction false} UnknownPositionsMembers(order: seq<string>)
    ensures forall i :: 0 <= i < |order| ==> (i in UnknownPositions(order) <==> !Known(order[i]))
    decreases |order|
  {
    if order != [] {
      var n := |order| - 1;
      UnknownPositionsMembers(order[..n]);
      assert forall i :: 0 <= i < n ==> order[..n][i] == order[i];
    }
  }

  /** Extending a listing of positions of `order`'s prefix, and of the keys at
      them, by the last position or by nothing keeps the two in step. */
  lemma PositionsSnoc(order: seq<string>, r: seq<string>, ps: seq<nat>, add: bool)
    requires order != [] && |r| == |ps|
    requires forall j :: 0 <= j < |ps| ==> ps[j] < |order| - 1 && r[j] == order[..|order| - 1][ps[j]]
    ensures var r2 := r + (if add then [order[|order| - 1]] else []);
            var ps2 := ps + (if add then [|order| - 1] else []);
            && |r2| == |ps2|
            && forall j :: 0 <= j < |ps2| ==> ps2[j] < |order| && r2[j] == order[ps2[j]]
  {
  }

  /** The `j`-th empty type is the key at the `j`-th listed position. */
  lemma {:induction false} EmptyTypesAt(order: seq<string>)
    ensures |EmptyTypes(order)| == |UnknownPositions(order)|
    ensures forall j :: 0 <= j < |EmptyTypes(order)| ==> EmptyTypes(order)[j] == order[UnknownPositions(order)[j]]
    decreases |order|
  {
    if order != [] {
      var n := |order| - 1;
      var init := order[..n];
      EmptyTypesAt(init);
      var add := !Known(order[n]);
      PositionsSnoc(order, EmptyTypes(init), UnknownPositions(init), add);
      assert EmptyTypes(order) == EmptyTypes(init) + (if add then [order[n]] else []);
      assert UnknownPositions(order) == UnknownPositions(init) + (if add then [n] else []);
    }
  }

  /** `empty_types` is the key order with the table types taken out: its
      entries are the keys at exactly the positions holding no table type,
      in ascending position. */
  lemma EmptyTypesInOrder(order: seq<string>)
    ensures var e := EmptyTypes(order);
            var ps := UnknownPositions(order);
            && |e| == |ps|
            && (forall j :: 0 <= j < |ps| ==> ps[j] < |order| && e[j] == order[ps[j]])
            && (forall j, k :: 0 <= j < k < |ps| ==> ps[j] < ps[k])
            && (forall i :: 0 <= i < |order| ==> (i in ps <==> !Known(order[i])))
  {
    UnknownPositionsMembers(order);
    EmptyTypesAt(order);
  }

  /** Keys listed once give empty types listed once. */
  lemma EmptyTypesDistinct(order: seq<string>)
    requires forall i, j :: 0 <= i < j < |order| ==> order[i] != order[j]
    ensures var e := EmptyTypes(order);
            forall i, j :: 0 <= i < j < |e| ==> e[i] != e[j]
  {
    EmptyTypesInOrder(order);
  }

  /** After the run, `empty_types` names each missing type once, in the order
      its namespace first appeared. */
  lemma EmptyTypesOfRunDistinct(ns: NamespaceFn, chunks: seq<Chunk>)
    requires RunSpec(ns, chunks).Ok?
    ensures var e := EmptyTypes(RunSpec(ns, chunks).value.typeDef.order);
            forall i, j :: 0 <= i < j < |e| ==> e[i] != e[j]
  {
    EmptyTypesDistinct(RunSpec(ns, chunks).value.typeDef.order);
  }

  /** The generated results: `type_def` with its order, `failed_natives`
      and `empty_types`. */
  datatype Generated = Generated(code: map<string, string>, order: seq<string>,
                                 failed: seq<string>, emptyTypes: seq<string>)

  /** The loop `for ns in src.split('namespace')[1:]` and `empty_types`. */
  method GenNatives(custom: set<string>, chunks: seq<Chunk>) returns (r: Result<Generated, Abort>)
    ensures RunSpec(Namespaces(custom), chunks).Err? ==> r == Err(RunSpec(Namespaces(custom), chunks).error)
    ensures RunSpec(Namespaces(custom), chunks).Ok? ==>
              var o := RunSpec(Namespaces(custom), chunks).value;
              r == Ok(Generated(o.typeDef.code, o.typeDef.order, o.failed, EmptyTypes(o.typeDef.order)))
  {
    ghost var ns := Namespaces(custom);
    var typeDef := map["Hash" := HashInit];
    var order := ["Hash"];
    var failed: seq<string> := [];
    var i := 0;
    assert chunks[..0] == [];
    while i < |chunks|
      invariant 0 <= i <= |chunks|
      invariant RunSpec(ns, chunks[..i]) == Ok(Outcome(TypeDefs(typeDef, order), failed))
    {
      assert chunks[..i + 1][..i] == chunks[..i];
      match chunks[i] {
        case Unmatched =>
        case Namespace(name, decls) =>
          var cb := ClassifyNamespace(name, custom, decls);
          if cb.Err? {
            RunErrSticky(ns, chunks, i + 1);
            return Err(cb.error);
          }
          var tn := TypeName(name);
          var er := EmitNamespace(WrapEntry, tn, cb.value);
          if er.Err? {
            RunErrSticky(ns, chunks, i + 1);
            return Err(er.error);
          }
          var code := er.value.0;
          if tn in typeDef {
            typeDef := typeDef[tn := typeDef[tn] + code];
          } else {
            typeDef := typeDef[tn := code];
            order := order + [tn];
          }
          failed := failed + er.value.1;
      }
      i := i + 1;
    }
    assert chunks[..|chunks|] == chunks;
    r := Ok(Generated(typeDef, order, failed, EmptyTypes(order)));
  }
}
