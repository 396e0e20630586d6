// The second half of the namespace loop: the `.def_*` lines of one
// namespace, group by group (getters, setters, members, statics), each
// group in sorted key order, with failed wraps logged in `failed_natives`.
module Emitter {
  import opened Wrappers
  import opened Text
  import opened Sorting
  import opened TypeTable
  import opened Classifier

  /** One line of a namespace's binding code. */
  datatype Def =
    | Property(key: string, getter: string, setter: string)
    | ReadOnly(key: string, getter: string)
    | SetterDef(key: string, lambda: string)
    | MemberDef(key: string, lambda: string)
    | StaticDef(key: string, lambda: string)

  /** The text each kind of line is formatted with. */
  function Render(d: Def): string
  {
    match d
    case Property(k, g, s) => "\t\t.def_property(\"" + k + "\", " + g + ", " + s + ")\n"
    case ReadOnly(k, g) => "\t\t.def_property_readonly(\"" + k + "\", " + g + ")\n"
    case SetterDef(k, l) => "\t\t.def(\"set_" + k + "\", " + l + ")\n"
    case MemberDef(k, l) => "\t\t.def(\"" + k + "\", " + l + ")\n"
    case StaticDef(k, l) => "\t\t.def_static(\"" + k + "\", " + l + ")\n"
  }

  function RenderAll(ds: seq<Def>): string
  {
    if ds == [] then [] else RenderAll(ds[..|ds| - 1]) + Render(ds[|ds| - 1])
  }

  /** Position of a line's group in the output. */
  function Rank(d: Def): nat
  {
    match d
    case Property(_, _, _) => 0
    case ReadOnly(_, _) => 0
    case SetterDef(_, _) => 1
    case MemberDef(_, _) => 2
    case StaticDef(_, _) => 3
  }

  function KindRank(k: Kind): nat
  {
    match k
    case Getter => 0
    case Setter => 1
    case Member => 2
    case Static => 3
  }

  /** `force_type`: the namespace's type for member functions, none for statics. */
  function Force(k: Kind, tn: string): Option<string>
  {
    if k == Static then None else Some(tn)
  }

  /** `wrap(*entry, force_type=...)` as the namespace loop calls it. */
  function WrapEntry(e: Entry, force: Option<string>): Result<string, string>
  {
    Wrap(e.nsFn, e.rt, e.params, force)
  }

  /** The emission loops see `wrap` only through its outcome: they are stated
      for any such function and run with `WrapEntry`. */
  type WrapFn = (Entry, Option<string>) -> Result<string, string>

  /** A key of a group, the native behind it and the outcome of wrapping it. */
  datatype Wrapped = Wrapped(key: string, nsFn: string, lambda: Result<string, string>)

  /** A getter key with its wrap and, when a setter has the same key, the
      setter's wrap. */
  datatype GetterWrap = GetterWrap(getter: Wrapped, setter: Option<Wrapped>)

  /** The entries of `keys`, wrapped with the force type of their group. */
  function WrapGroup(wrap: WrapFn, force: Option<string>, m: map<string, Entry>, keys: seq<string>): (ws: seq<Wrapped>)
    requires forall x :: x in keys ==> x in m
    ensures |ws| == |keys|
    ensures forall j :: 0 <= j < |keys| ==> ws[j] == Wrapped(keys[j], m[keys[j]].nsFn, wrap(m[keys[j]], force))
  {
    if keys == [] then []
    else
      var key := keys[|keys| - 1];
      WrapGroup(wrap, force, m, keys[..|keys| - 1]) + [Wrapped(key, m[key].nsFn, wrap(m[key], force))]
  }

  /** The getters of `keys` wrapped, each paired with its setter from `b`. */
  function WrapGetters(wrap: WrapFn, tn: string, b: Buckets, keys: seq<string>): (ws: seq<GetterWrap>)
    requires forall x :: x in keys ==> x in b.getters
    ensures |ws| == |keys|
  {
    if keys == [] then []
    else
      var g := keys[|keys| - 1];
      var gw := Wrapped(g, b.getters[g].nsFn, wrap(b.getters[g], Some(tn)));
      var sw := if g in b.setters
                then Some(Wrapped(g, b.setters[g].nsFn, wrap(b.setters[g], Some(tn))))
                else None;
      WrapGetters(wrap, tn, b, keys[..|keys| - 1]) + [GetterWrap(gw, sw)]
  }

  /** The `j`-th getter wrapped, with its setter when one shares its key. */
  lemma {:induction false} WrapGettersAt(wrap: WrapFn, tn: string, b: Buckets, keys: seq<string>, j: nat)
    requires forall x :: x in keys ==> x in b.getters
    requires j < |keys|
    ensures WrapGetters(wrap, tn, b, keys)[j].getter
            == Wrapped(keys[j], b.getters[keys[j]].nsFn, wrap(b.getters[keys[j]], Some(tn)))
    ensures WrapGetters(wrap, tn, b, keys)[j].setter
            == (if keys[j] in b.setters
                then Some(Wrapped(keys[j], b.setters[keys[j]].nsFn, wrap(b.setters[keys[j]], Some(tn))))
                else None)
    decreases |keys|
  {
    var n := |keys| - 1;
    if j < n {
      assert keys[..n][j] == keys[j];
      WrapGettersAt(wrap, tn, b, keys[..n], j);
    }
  }

  /** The line one getter yields: a property when a setter shares its key, a
      read-only property otherwise. Neither wrap is inside `try`, and the
      getter's is evaluated first. */
  function GetterLine(w: GetterWrap): Result<Def, Abort>
  {
    match w.getter.lambda
    case Err(t) => Err(UnmappableType(w.getter.nsFn, t))
    case Ok(gl) =>
      match w.setter
      case None => Ok(ReadOnly(w.getter.key, gl))
      case Some(sw) =>
        match sw.lambda
        case Err(t) => Err(UnmappableType(sw.nsFn, t))
        case Ok(sl) => Ok(Property(w.getter.key, gl, sl))
  }

  /** The getter loop: the first getter line that fails stops the run. */
  function GetterDefs(ws: seq<GetterWrap>): Result<seq<Def>, Abort>
  {
    if ws == [] then Ok([])
    else
      match GetterDefs(ws[..|ws| - 1])
      case Err(a) => Err(a)
      case Ok(ds) =>
        match GetterLine(ws[|ws| - 1])
        case Err(a) => Err(a)
        case Ok(d) => Ok(ds + [d])
  }

  /** The code of a run of lines, or the exception that stopped it. */
  function RenderDefs(r: Result<seq<Def>, Abort>): Result<string, Abort>
  {
    match r
    case Err(a) => Err(a)
    case Ok(ds) => Ok(RenderAll(ds))
  }

  /** The lines and the failures of one of the caught groups. */
  datatype Group = Group(defs: seq<Def>, failed: seq<string>)

  function MakeDef(k: Kind, key: string, lambda: string): (d: Def)
    requires k != Getter
    ensures Rank(d) == KindRank(k) && d.key == key
  {
    match k
    case Setter => SetterDef(key, lambda)
    case Member => MemberDef(key, lambda)
    case Static => StaticDef(key, lambda)
  }

  /** A `try` loop: a wrap that fails appends the native's `NS::fn` to the
      failures and emits nothing. */
  function GroupDefs(k: Kind, ws: seq<Wrapped>): Group
    requires k != Getter
  {
    if ws == [] then Group([], [])
    else
      var w := ws[|ws| - 1];
      var prev := GroupDefs(k, ws[..|ws| - 1]);
      match w.lambda
      case Err(_) => Group(prev.defs, prev.failed + [w.nsFn])
      case Ok(l) => Group(prev.defs + [MakeDef(k, w.key, l)], prev.failed)
  }

  /** What a namespace contributes: its code lines and its failures. */
  datatype Emission = Emission(defs: seq<Def>, failed: seq<string>)

  /** A caught group over the sorted keys of `m`. */
  ghost function SortedGroup(wrap: WrapFn, k: Kind, tn: string, m: map<string, Entry>): Group
    requires k != Getter
  {
    GroupDefs(k, WrapGroup(wrap, Force(k, tn), m, SortedList(m.Keys)))
  }

  /** The four groups in order; the setters that merged into a property are
      gone before the setter group runs. */
  ghost function EmitSpec(wrap: WrapFn, tn: string, b: Buckets): Result<Emission, Abort>
  {
    match GetterDefs(WrapGetters(wrap, tn, b, SortedList(b.getters.Keys)))
    case Err(a) => Err(a)
    case Ok(gs) =>
      var c := CaughtSpec(wrap, tn, b.setters - b.getters.Keys, b);
      Ok(Emission(gs + c.defs, c.failed))
  }

  /** The three guarded groups: the setters left over from the getters,
      then the members, then the statics. */
  ghost function CaughtSpec(wrap: WrapFn, tn: string, setters: map<string, Entry>, b: Buckets): Emission
  {
    var s := SortedGroup(wrap, Setter, tn, setters);
    var m := SortedGroup(wrap, Member, tn, b.members);
    var st := SortedGroup(wrap, Static, tn, b.statics);
    Emission(s.defs + m.defs + st.defs, s.failed + m.failed + st.failed)
  }

  /** Lines come group by group, and by ascending key within a group. */
  predicate Ordered(ds: seq<Def>)
  {
    forall i, j :: 0 <= i < j < |ds| ==>
      Rank(ds[i]) < Rank(ds[j]) || (Rank(ds[i]) == Rank(ds[j]) && LexLess(ds[i].key, ds[j].key))
  }

  lemma RenderAllSnoc(ds: seq<Def>, d: Def)
    ensures RenderAll(ds + [d]) == RenderAll(ds) + Render(d)
  {
    assert (ds + [d])[..|ds|] == ds;
  }

  lemma {:induction false} RenderAllConcat(a: seq<Def>, b: seq<Def>)
    ensures RenderAll(a + b) == RenderAll(a) + RenderAll(b)
    decreases |b|
  {
    if b != [] {
      var init, last := b[..|b| - 1], b[|b| - 1];
      assert b == init + [last];
      assert a + b == (a + init) + [last];
      RenderAllSnoc(a + init, last);
      RenderAllSnoc(init, last);
      RenderAllConcat(a, init);
    } else {
      assert a + b == a;
    }
  }

  /** The getter group: one line per getter, in order; a property exactly
      when the getter has a setter. */
  lemma {:induction false} GetterDefsShape(ws: seq<GetterWrap>)
    requires GetterDefs(ws).Ok?
    ensures var ds := GetterDefs(ws).value;
            && |ds| == |ws|
            && (forall i :: 0 <= i < |ds| ==> ds[i].key == ws[i].getter.key && Rank(ds[i]) == 0)
            && (forall i :: 0 <= i < |ds| ==> (ds[i].Property? <==> ws[i].setter.Some?))
    decreases |ws|
  {
    if ws != [] {
      GetterDefsShape(ws[..|ws| - 1]);
    }
  }

  /** The getter loop stops exactly when a getter, or the setter merged with
      it, cannot be wrapped. */
  lemma {:induction false} GetterDefsErr(ws: seq<GetterWrap>)
    ensures GetterDefs(ws).Err? <==>
              exists i :: 0 <= i < |ws| &&
                (ws[i].getter.lambda.Err? || (ws[i].setter.Some? && ws[i].setter.value.lambda.Err?))
    decreases |ws|
  {
    if ws != [] {
      var init := ws[..|ws| - 1];
      GetterDefsErr(init);
      assert forall i :: 0 <= i < |init| ==> init[i] == ws[i];
    }
  }

  lemma GetterDefsSnoc(ws: seq<GetterWrap>, i: nat, defs: seq<Def>, d: Def)
    requires i < |ws| && GetterDefs(ws[..i]) == Ok(defs) && GetterLine(ws[i]) == Ok(d)
    ensures GetterDefs(ws[..i + 1]) == Ok(defs + [d])
  {
    assert ws[..i + 1][..i] == ws[..i];
  }

  lemma GetterDefsStop(ws: seq<GetterWrap>, i: nat, defs: seq<Def>)
    requires i < |ws| && GetterDefs(ws[..i]) == Ok(defs) && GetterLine(ws[i]).Err?
    ensures GetterDefs(ws) == Err(GetterLine(ws[i]).error)
  {
    assert ws[..i + 1][..i] == ws[..i];
    assert ws[..i + 1][i] == ws[i];
    GetterDefsErrSticky(ws, i + 1);
  }

  /** Once the getter loop has stopped, later getters change nothing. */
  lemma {:induction false} GetterDefsErrSticky(ws: seq<GetterWrap>, n: nat)
    requires n <= |ws| && GetterDefs(ws[..n]).Err?
    ensures GetterDefs(ws) == GetterDefs(ws[..n])
    decreases |ws| - n
  {
    if n < |ws| {
      var m := |ws| - 1;
      assert ws[..m][..n] == ws[..n];
      GetterDefsErrSticky(ws[..m], n);
    } else {
      assert ws[..n] == ws;
    }
  }

  /** A caught group: each key yields one line or one failure, and every
      line has the group's rank. */
  lemma {:induction false} GroupDefsCount(k: Kind, ws: seq<Wrapped>)
    requires k != Getter
    ensures |GroupDefs(k, ws).defs| + |GroupDefs(k, ws).failed| == |ws|
    ensures forall i :: 0 <= i < |GroupDefs(k, ws).defs| ==> Rank(GroupDefs(k, ws).defs[i]) == KindRank(k)
    decreases |ws|
  {
    if ws != [] {
      GroupDefsCount(k, ws[..|ws| - 1]);
    }
  }

  /** A wrap that succeeds emits its line; one that fails logs its native. */
  lemma {:induction false} GroupDefsItem(k: Kind, ws: seq<Wrapped>, j: nat)
    requires k != Getter && j < |ws|
    ensures ws[j].lambda.Ok? ==> MakeDef(k, ws[j].key, ws[j].lambda.value) in GroupDefs(k, ws).defs
    ensures ws[j].lambda.Err? ==> ws[j].nsFn in GroupDefs(k, ws).failed
    decreases |ws|
  {
    var n := |ws| - 1;
    if j < n {
      assert ws[..n][j] == ws[j];
      GroupDefsItem(k, ws[..n], j);
    }
  }

  /** Nothing else: each line comes from a successful wrap, each failure
      from a failed one. */
  lemma {:induction false} GroupDefsOnly(k: Kind, ws: seq<Wrapped>)
    requires k != Getter
    ensures forall d :: d in GroupDefs(k, ws).defs ==>
              exists w :: w in ws && w.lambda.Ok? && d == MakeDef(k, w.key, w.lambda.value)
    ensures forall x :: x in GroupDefs(k, ws).failed ==>
              exists w :: w in ws && w.lambda.Err? && w.nsFn == x
    decreases |ws|
  {
    if ws != [] {
      var init := ws[..|ws| - 1];
      GroupDefsOnly(k, init);
      assert forall w :: w in init ==> w in ws;
    }
  }

  /** Lines only carry keys below any bound that all wrapped keys are below. */
  lemma {:induction false} GroupDefsBelow(k: Kind, ws: seq<Wrapped>, x: string)
    requires k != Getter
    requires forall j :: 0 <= j < |ws| ==> LexLess(ws[j].key, x)
    ensures forall i :: 0 <= i < |GroupDefs(k, ws).defs| ==> LexLess(GroupDefs(k, ws).defs[i].key, x)
    decreases |ws|
  {
    if ws != [] {
      var init := ws[..|ws| - 1];
      assert forall j :: 0 <= j < |init| ==> init[j] == ws[j];
      GroupDefsBelow(k, init, x);
    }
  }

  /** Within a caught group the keys ascend when the wrapped keys do. */
  lemma {:induction false} GroupDefsSorted(k: Kind, ws: seq<Wrapped>)
    requires k != Getter
    requires forall i, j :: 0 <= i < j < |ws| ==> LexLess(ws[i].key, ws[j].key)
    ensures forall i, j :: 0 <= i < j < |GroupDefs(k, ws).defs| ==>
              LexLess(GroupDefs(k, ws).defs[i].key, GroupDefs(k, ws).defs[j].key)
    decreases |ws|
  {
    if ws != [] {
      var n := |ws| - 1;
      var init := ws[..n];
      assert forall j :: 0 <= j < n ==> init[j] == ws[j];
      GroupDefsSorted(k, init);
      GroupDefsBelow(k, init, ws[n].key);
    }
  }

  /** With distinct keys, a key whose wrap fails emits no line. */
  lemma GroupDefsFailedSilent(k: Kind, ws: seq<Wrapped>, j: nat)
    requires k != Getter && j < |ws| && ws[j].lambda.Err?
    requires forall a, b :: 0 <= a < b < |ws| ==> ws[a].key != ws[b].key
    ensures forall d :: d in GroupDefs(k, ws).defs ==> d.key != ws[j].key
  {
    GroupDefsOnly(k, ws);
  }

  /** One turn of a caught loop. */
  lemma GroupDefsStep(k: Kind, ws: seq<Wrapped>, i: nat)
    requires k != Getter && i < |ws|
    ensures ws[i].lambda.Err? ==>
              GroupDefs(k, ws[..i + 1]) == Group(GroupDefs(k, ws[..i]).defs, GroupDefs(k, ws[..i]).failed + [ws[i].nsFn])
    ensures ws[i].lambda.Ok? ==>
              GroupDefs(k, ws[..i + 1])
              == Group(GroupDefs(k, ws[..i]).defs + [MakeDef(k, ws[i].key, ws[i].lambda.value)], GroupDefs(k, ws[..i]).failed)
  {
    assert ws[..i + 1][..i] == ws[..i];
  }

  /** One caught group, `for g in sorted(m)`: each key's wrap is tried; a
      success appends its line to the code, a failure the native's name. */
  method EmitGroup(wrap: WrapFn, k: Kind, force: Option<string>, m: map<string, Entry>, keys: seq<string>)
    returns (code: string, failed: seq<string>)
    requires k != Getter
    requires forall x :: x in keys ==> x in m
    ensures code == RenderAll(GroupDefs(k, WrapGroup(wrap, force, m, keys)).defs)
    ensures failed == GroupDefs(k, WrapGroup(wrap, force, m, keys)).failed
  {
    ghost var ws := WrapGroup(wrap, force, m, keys);
    ghost var defs: seq<Def> := [];
    code := [];
    failed := [];
    var i := 0;
    assert ws[..0] == [];
    while i < |keys|
      invariant 0 <= i <= |keys|
      invariant GroupDefs(k, ws[..i]) == Group(defs, failed)
      invariant code == RenderAll(defs)
    {
      var key := keys[i];
      var e := m[key];
      var l := wrap(e, force);
      assert ws[i] == Wrapped(key, e.nsFn, l);
      GroupDefsStep(k, ws, i);
      if l.Err? {
        failed := failed + [e.nsFn];
      } else {
        var d := MakeDef(k, key, l.value);
        RenderAllSnoc(defs, d);
        defs := defs + [d];
        code := code + Render(d);
      }
      i := i + 1;
    }
    assert ws[..|keys|] == ws;
  }

  /** `setters` after `del setters[g]` for each key `g` of `ks` still in it. */
  function Deleted(m: map<string, Entry>, ks: seq<string>): map<string, Entry>
  {
    if ks == [] then m
    else
      var r := Deleted(m, ks[..|ks| - 1]);
      var g := ks[|ks| - 1];
      if g in r then r - {g} else r
  }

  lemma DeletedSnoc(m: map<string, Entry>, ks: seq<string>, i: nat)
    requires i < |ks|
    ensures Deleted(m, ks[..i + 1])
            == if ks[i] in Deleted(m, ks[..i]) then Deleted(m, ks[..i]) - {ks[i]} else Deleted(m, ks[..i])
  {
    assert ks[..i + 1][..i] == ks[..i];
  }

  /** A key never deleted keeps its entry. */
  lemma {:induction false} DeletedKeeps(m: map<string, Entry>, ks: seq<string>, g: string)
    requires g !in ks
    ensures g in Deleted(m, ks) <==> g in m
    ensures g in m ==> Deleted(m, ks)[g] == m[g]
    decreases |ks|
  {
    if ks != [] {
      var init := ks[..|ks| - 1];
      assert ks == init + [ks[|ks| - 1]];
      DeletedKeeps(m, init, g);
    }
  }

  /** In a sequence without repeats, no element occurs before its own index. */
  lemma NotEarlier(ks: seq<string>, i: nat)
    requires i < |ks|
    requires forall p, q :: 0 <= p < q < |ks| ==> ks[p] != ks[q]
    ensures ks[i] !in ks[..i]
  {
    forall j | 0 <= j < i
      ensures ks[..i][j] != ks[i]
    {
      assert ks[..i][j] == ks[j];
    }
  }

  /** Deleting the keys of `ks` one by one removes exactly those keys. */
  lemma {:induction false} DeletedAll(m: map<string, Entry>, ks: seq<string>)
    ensures Deleted(m, ks) == m - (set k | k in ks)
    decreases |ks|
  {
    if ks != [] {
      var init := ks[..|ks| - 1];
      DeletedAll(m, init);
      assert (set k | k in ks) == (set k | k in init) + {ks[|ks| - 1]};
    }
  }

  /** The body of the getter loop for key `g`: the getter is wrapped first,
      then the setter with the same key, if any. */
  method EmitGetter(wrap: WrapFn, tn: string, g: string, ge: Entry, setters: map<string, Entry>)
    returns (line: Result<Def, Abort>)
    ensures line == GetterLine(GetterWrap(Wrapped(g, ge.nsFn, wrap(ge, Some(tn))),
                                          if g in setters
                                          then Some(Wrapped(g, setters[g].nsFn, wrap(setters[g], Some(tn))))
                                          else None))
  {
    var gl := wrap(ge, Some(tn));
    if gl.Err? {
      return Err(UnmappableType(ge.nsFn, gl.error));
    }
    if g in setters {
      var se := setters[g];
      var sl := wrap(se, Some(tn));
      if sl.Err? {
        return Err(UnmappableType(se.nsFn, sl.error));
      }
      line := Ok(Property(g, gl.value, sl.value));
    } else {
      line := Ok(ReadOnly(g, gl.value));
    }
  }

  lemma KeySet(keys: seq<string>, m: map<string, Entry>)
    requires forall x :: x in keys <==> x in m
    ensures (set k | k in keys) == m.Keys
  {
  }

  /** One turn of the getter loop: the line for `keys[i]` and the setters
      with that key deleted. */
  method GetterStep(wrap: WrapFn, tn: string, b: Buckets, keys: seq<string>, i: nat, left: map<string, Entry>)
    returns (line: Result<Def, Abort>, next: map<string, Entry>)
    requires i < |keys| && forall x :: x in keys ==> x in b.getters
    requires forall p, q :: 0 <= p < q < |keys| ==> keys[p] != keys[q]
    requires left == Deleted(b.setters, keys[..i])
    ensures line == GetterLine(WrapGetters(wrap, tn, b, keys)[i])
    ensures next == Deleted(b.setters, keys[..i + 1])
  {
    var g := keys[i];
    line := EmitGetter(wrap, tn, g, b.getters[g], left);
    WrapGettersAt(wrap, tn, b, keys, i);
    NotEarlier(keys, i);
    DeletedKeeps(b.setters, keys[..i], g);
    DeletedSnoc(b.setters, keys, i);
    next := if g in left then left - {g} else left;
  }

  /** The getter loop, `for g in sorted(getters)`: a property when a setter
      shares the key, which is then deleted from the setters; a read-only
      property otherwise. The first wrap that fails stops the run. */
  method EmitGetters(wrap: WrapFn, tn: string, b: Buckets, keys: seq<string>)
    returns (r: Result<string, Abort>, setters: map<string, Entry>)
    requires forall i, j :: 0 <= i < j < |keys| ==> keys[i] != keys[j]
    requires forall x :: x in keys <==> x in b.getters
    ensures r == RenderDefs(GetterDefs(WrapGetters(wrap, tn, b, keys)))
    ensures r.Ok? ==> setters == b.setters - b.getters.Keys
  {
    var left := b.setters;
    ghost var ws := WrapGetters(wrap, tn, b, keys);
    ghost var defs: seq<Def> := [];
    var code: string := [];
    var i := 0;
    assert ws[..0] == [] && keys[..0] == [];
    while i < |keys|
      invariant 0 <= i <= |keys|
      invariant GetterDefs(ws[..i]) == Ok(defs)
      invariant code == RenderAll(defs)
      invariant left == Deleted(b.setters, keys[..i])
    {
      var line, next := GetterStep(wrap, tn, b, keys, i, left);
      if line.Err? {
        GetterDefsStop(ws, i, defs);
        assert GetterDefs(ws) == Err(line.error);
        return Err(line.error), left;
      }
      left := next;
      var d := line.value;
      GetterDefsSnoc(ws, i, defs, d);
      RenderAllSnoc(defs, d);
      defs := defs + [d];
      code := code + Render(d);
      i := i + 1;
    }
    assert ws[..|keys|] == ws && keys[..|keys|] == keys;
    assert GetterDefs(ws) == Ok(defs);
    DeletedAll(b.setters, keys);
    KeySet(keys, b.getters);
    r, setters := Ok(code), left;
  }

  /** The three guarded loops: setters left over from the getters, members
      and statics, each by ascending key, a failure in one skipping only that
      native. */
  method EmitCaught(wrap: WrapFn, tn: string, setters: map<string, Entry>, b: Buckets)
    returns (code: string, failed: seq<string>)
    ensures code == RenderAll(CaughtSpec(wrap, tn, setters, b).defs)
    ensures failed == CaughtSpec(wrap, tn, setters, b).failed
  {
    var sk := SortKeys(setters);
    var sc, sf := EmitGroup(wrap, Setter, Some(tn), setters, sk);
    var mk := SortKeys(b.members);
    var mc, mf := EmitGroup(wrap, Member, Some(tn), b.members, mk);
    var tk := SortKeys(b.statics);
    var tc, tf := EmitGroup(wrap, Static, None, b.statics, tk);
    ghost var s := SortedGroup(wrap, Setter, tn, setters);
    ghost var m := SortedGroup(wrap, Member, tn, b.members);
    ghost var t := SortedGroup(wrap, Static, tn, b.statics);
    RenderAllConcat(s.defs, m.defs);
    RenderAllConcat(s.defs + m.defs, t.defs);
    code, failed := sc + mc + tc, sf + mf + tf;
  }

  /** One namespace's code: its getters, which abort the namespace on the
      first failure, then the guarded groups. */
  method EmitNamespace(wrap: WrapFn, tn: string, b: Buckets) returns (r: Result<(string, seq<string>), Abort>)
    ensures EmitSpec(wrap, tn, b).Err? ==> r == Err(EmitSpec(wrap, tn, b).error)
    ensures EmitSpec(wrap, tn, b).Ok? ==>
              r == Ok((RenderAll(EmitSpec(wrap, tn, b).value.defs), EmitSpec(wrap, tn, b).value.failed))
  {
    var gk := SortKeys(b.getters);
    forall i, j | 0 <= i < j < |gk| ensures gk[i] != gk[j] {
      LexLessIrreflexive(gk[i]);
    }
    var gr, setters := EmitGetters(wrap, tn, b, gk);
    if gr.Err? {
      return Err(gr.error);
    }
    ghost var gs := GetterDefs(WrapGetters(wrap, tn, b, gk)).value;
    var code, failed := EmitCaught(wrap, tn, setters, b);
    RenderAllConcat(gs, CaughtSpec(wrap, tn, setters, b).defs);
    r := Ok((gr.value + code, failed));
  }
}
