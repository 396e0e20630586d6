// What one namespace contributes, stated against its four dictionaries and
// any `wrap` function: when the run stops, which lines are emitted, which
// natives are logged as failed, and in what order the lines come.
module EmitFacts {
  import opened Wrappers
  import opened Sorting
  import opened Classifier
  import opened Emitter

  /** Getter `g` and the setter with the same key, if any, can both be wrapped. */
  predicate GetterWraps(wrap: WrapFn, tn: string, b: Buckets, g: string)
    requires g in b.getters
  {
    wrap(b.getters[g], Some(tn)).Ok? && (g in b.setters ==> wrap(b.setters[g], Some(tn)).Ok?)
  }

  /** The exception getter `g` raises: the getter's own wrap is tried first. */
  function GetterAbort(wrap: WrapFn, tn: string, b: Buckets, g: string): (a: Abort)
    requires g in b.getters && !GetterWraps(wrap, tn, b, g)
    ensures a.UnmappableType?
  {
    var gl := wrap(b.getters[g], Some(tn));
    if gl.Err? then UnmappableType(b.getters[g].nsFn, gl.error)
    else UnmappableType(b.setters[g].nsFn, wrap(b.setters[g], Some(tn)).error)
  }

  /** The getter loop's result lists one line per getter, the one its line gives. */
  lemma {:induction false} GetterDefsAt(ws: seq<GetterWrap>, i: nat)
    requires GetterDefs(ws).Ok? && i < |ws|
    ensures |GetterDefs(ws).value| == |ws|
    ensures GetterLine(ws[i]) == Ok(GetterDefs(ws).value[i])
    decreases |ws|
  {
    GetterDefsShape(ws);
    var n := |ws| - 1;
    var init := ws[..n];
    GetterDefsShape(init);
    if i < n {
      assert init[i] == ws[i];
      GetterDefsAt(init, i);
    }
  }

  /** A failed getter loop reports the first getter line that failed. */
  lemma {:induction false} GetterDefsFirstErr(ws: seq<GetterWrap>)
    requires GetterDefs(ws).Err?
    ensures exists i :: 0 <= i < |ws| && GetterLine(ws[i]).Err?
                        && GetterDefs(ws).error == GetterLine(ws[i]).error
                        && forall j :: 0 <= j < i ==> GetterLine(ws[j]).Ok?
    decreases |ws|
  {
    var n := |ws| - 1;
    var init := ws[..n];
    assert forall j :: 0 <= j < n ==> init[j] == ws[j];
    if GetterDefs(init).Err? {
      GetterDefsFirstErr(init);
    } else {
      forall j | 0 <= j < n ensures GetterLine(ws[j]).Ok? {
        GetterDefsAt(init, j);
      }
    }
  }

  /** The line of the `i`-th getter in ascending key order. */
  lemma GetterLineAt(wrap: WrapFn, tn: string, b: Buckets, i: nat)
    requires GetterDefs(WrapGetters(wrap, tn, b, SortedList(b.getters.Keys))).Ok?
    requires i < |SortedList(b.getters.Keys)|
    ensures var gk := SortedList(b.getters.Keys);
            var ds := GetterDefs(WrapGetters(wrap, tn, b, gk)).value;
            var gl := wrap(b.getters[gk[i]], Some(tn));
            && |ds| == |gk|
            && gl.Ok?
            && (gk[i] in b.setters ==>
                  && wrap(b.setters[gk[i]], Some(tn)).Ok?
                  && ds[i] == Property(gk[i], gl.value, wrap(b.setters[gk[i]], Some(tn)).value))
            && (gk[i] !in b.setters ==> ds[i] == ReadOnly(gk[i], gl.value))
  {
    var gk := SortedList(b.getters.Keys);
    var ws := WrapGetters(wrap, tn, b, gk);
    WrapGettersAt(wrap, tn, b, gk, i);
    GetterDefsAt(ws, i);
  }

  /** The getter lines, one per getter in ascending key order: a property
      when a setter shares the key, read-only otherwise. */
  lemma GetterLines(wrap: WrapFn, tn: string, b: Buckets)
    requires GetterDefs(WrapGetters(wrap, tn, b, SortedList(b.getters.Keys))).Ok?
    ensures var gk := SortedList(b.getters.Keys);
            var ds := GetterDefs(WrapGetters(wrap, tn, b, gk)).value;
            && |ds| == |gk|
            && forall i :: 0 <= i < |gk| ==>
                 var gl := wrap(b.getters[gk[i]], Some(tn));
                 && gl.Ok?
                 && (gk[i] in b.setters ==>
                       && wrap(b.setters[gk[i]], Some(tn)).Ok?
                       && ds[i] == Property(gk[i], gl.value, wrap(b.setters[gk[i]], Some(tn)).value))
                 && (gk[i] !in b.setters ==> ds[i] == ReadOnly(gk[i], gl.value))
  {
    var gk := SortedList(b.getters.Keys);
    forall i | 0 <= i < |gk|
      ensures var ds := GetterDefs(WrapGetters(wrap, tn, b, gk)).value;
              var gl := wrap(b.getters[gk[i]], Some(tn));
              && |ds| == |gk|
              && gl.Ok?
              && (gk[i] in b.setters ==>
                    && wrap(b.setters[gk[i]], Some(tn)).Ok?
                    && ds[i] == Property(gk[i], gl.value, wrap(b.setters[gk[i]], Some(tn)).value))
              && (gk[i] !in b.setters ==> ds[i] == ReadOnly(gk[i], gl.value))
    {
      GetterLineAt(wrap, tn, b, i);
    }
    GetterDefsShape(WrapGetters(wrap, tn, b, gk));
  }

  /** The namespace raises exactly when some getter, or the setter merged
      into its property, cannot be wrapped. */
  lemma EmitAborts(wrap: WrapFn, tn: string, b: Buckets)
    ensures EmitSpec(wrap, tn, b).Err? <==> exists g :: g in b.getters && !GetterWraps(wrap, tn, b, g)
  {
    var gk := SortedList(b.getters.Keys);
    var ws := WrapGetters(wrap, tn, b, gk);
    GetterDefsErr(ws);
    if EmitSpec(wrap, tn, b).Err? {
      var i :| 0 <= i < |ws| &&
               (ws[i].getter.lambda.Err? || (ws[i].setter.Some? && ws[i].setter.value.lambda.Err?));
      WrapGettersAt(wrap, tn, b, gk, i);
      assert !GetterWraps(wrap, tn, b, gk[i]);
    }
    if g :| g in b.getters && !GetterWraps(wrap, tn, b, g) {
      assert g in gk;
      var i :| 0 <= i < |gk| && gk[i] == g;
      WrapGettersAt(wrap, tn, b, gk, i);
      assert ws[i].getter.lambda.Err? || (ws[i].setter.Some? && ws[i].setter.value.lambda.Err?);
    }
  }

  /** The exception is the one of the first getter, in key order, that
      cannot be wrapped. */
  lemma EmitAbortFirst(wrap: WrapFn, tn: string, b: Buckets)
    requires EmitSpec(wrap, tn, b).Err?
    ensures exists g :: g in b.getters && !GetterWraps(wrap, tn, b, g)
                        && EmitSpec(wrap, tn, b).error == GetterAbort(wrap, tn, b, g)
                        && forall h :: h in b.getters && LexLess(h, g) ==> GetterWraps(wrap, tn, b, h)
  {
    var gk := SortedList(b.getters.Keys);
    var ws := WrapGetters(wrap, tn, b, gk);
    GetterDefsFirstErr(ws);
    var i :| 0 <= i < |ws| && GetterLine(ws[i]).Err?
             && GetterDefs(ws).error == GetterLine(ws[i]).error
             && forall j :: 0 <= j < i ==> GetterLine(ws[j]).Ok?;
    var g := gk[i];
    WrapGettersAt(wrap, tn, b, gk, i);
    assert !GetterWraps(wrap, tn, b, g);
    forall h | h in b.getters && LexLess(h, g) ensures GetterWraps(wrap, tn, b, h) {
      assert h in gk;
      var j :| 0 <= j < |gk| && gk[j] == h;
      if j >= i {
        if j == i {
          LexLessIrreflexive(h);
        } else {
          LexLessAsymmetric(h, g);
        }
      }
      WrapGettersAt(wrap, tn, b, gk, j);
    }
  }

  /** Some native of `m` is named `x` and cannot be wrapped. */
  predicate FailsIn(wrap: WrapFn, m: map<string, Entry>, force: Option<string>, x: string)
  {
    exists key :: key in m && m[key].nsFn == x && wrap(m[key], force).Err?
  }

  /** A caught group over the sorted keys of `m` has a line for a key
      exactly when that key's wrap succeeds, carrying its lambda. */
  lemma SortedGroupDefs(wrap: WrapFn, k: Kind, tn: string, m: map<string, Entry>)
    requires k != Getter
    ensures var g := SortedGroup(wrap, k, tn, m);
            forall key, l :: MakeDef(k, key, l) in g.defs <==> key in m && wrap(m[key], Force(k, tn)) == Ok(l)
  {
    var keys := SortedList(m.Keys);
    var force := Force(k, tn);
    var ws := WrapGroup(wrap, force, m, keys);
    var g := GroupDefs(k, ws);
    GroupDefsOnly(k, ws);
    forall key, l
      ensures MakeDef(k, key, l) in g.defs <==> key in m && wrap(m[key], force) == Ok(l)
    {
      if MakeDef(k, key, l) in g.defs {
        var w :| w in ws && w.lambda.Ok? && MakeDef(k, key, l) == MakeDef(k, w.key, w.lambda.value);
        var j :| 0 <= j < |ws| && ws[j] == w;
      }
      if key in m && wrap(m[key], force) == Ok(l) {
        assert key in keys;
        var j :| 0 <= j < |keys| && keys[j] == key;
        GroupDefsItem(k, ws, j);
      }
    }
  }

  /** A caught group's failures are the natives of exactly the keys whose
      wrap fails. */
  lemma SortedGroupFailed(wrap: WrapFn, k: Kind, tn: string, m: map<string, Entry>)
    requires k != Getter
    ensures var g := SortedGroup(wrap, k, tn, m);
            forall x :: x in g.failed <==> FailsIn(wrap, m, Force(k, tn), x)
  {
    var keys := SortedList(m.Keys);
    var force := Force(k, tn);
    var ws := WrapGroup(wrap, force, m, keys);
    var g := GroupDefs(k, ws);
    GroupDefsOnly(k, ws);
    forall x
      ensures x in g.failed <==> FailsIn(wrap, m, force, x)
    {
      if x in g.failed {
        var w :| w in ws && w.lambda.Err? && w.nsFn == x;
        var j :| 0 <= j < |ws| && ws[j] == w;
        assert keys[j] in m;
      }
      if key :| key in m && m[key].nsFn == x && wrap(m[key], force).Err? {
        assert key in keys;
        var j :| 0 <= j < |keys| && keys[j] == key;
        GroupDefsItem(k, ws, j);
      }
    }
  }

  /** A caught group's lines all carry the group's rank and ascend by key. */
  lemma SortedGroupOrdered(wrap: WrapFn, k: Kind, tn: string, m: map<string, Entry>)
    requires k != Getter
    ensures RankIs(SortedGroup(wrap, k, tn, m).defs, KindRank(k))
    ensures Ordered(SortedGroup(wrap, k, tn, m).defs)
  {
    var ws := WrapGroup(wrap, Force(k, tn), m, SortedList(m.Keys));
    GroupDefsCount(k, ws);
    GroupDefsSorted(k, ws);
  }

  /** A caught group has one line or one failure per key of `m`. */
  lemma SortedGroupSize(wrap: WrapFn, k: Kind, tn: string, m: map<string, Entry>)
    requires k != Getter
    ensures |SortedGroup(wrap, k, tn, m).defs| + |SortedGroup(wrap, k, tn, m).failed| == |m|
  {
    GroupDefsCount(k, WrapGroup(wrap, Force(k, tn), m, SortedList(m.Keys)));
    SortedListSize(m.Keys);
  }

  /** A namespace that does not raise emits its getter lines, then the
      caught groups. */
  lemma EmitSpecOk(wrap: WrapFn, tn: string, b: Buckets)
    requires EmitSpec(wrap, tn, b).Ok?
    ensures GetterDefs(WrapGetters(wrap, tn, b, SortedList(b.getters.Keys))).Ok?
    ensures var gs := GetterDefs(WrapGetters(wrap, tn, b, SortedList(b.getters.Keys))).value;
            var c := CaughtSpec(wrap, tn, b.setters - b.getters.Keys, b);
            EmitSpec(wrap, tn, b).value == Emission(gs + c.defs, c.failed)
  {
  }

  /** Every line of `ds` belongs to group `r`. */
  predicate RankIs(ds: seq<Def>, r: nat)
  {
    forall i :: 0 <= i < |ds| ==> Rank(ds[i]) == r
  }

  /** Every line of `ds` belongs to a group before `r`. */
  predicate RankBelow(ds: seq<Def>, r: nat)
  {
    forall i :: 0 <= i < |ds| ==> Rank(ds[i]) < r
  }

  /** The getter lines all rank first and ascend by key. */
  lemma GetterLinesOrdered(wrap: WrapFn, tn: string, b: Buckets)
    requires GetterDefs(WrapGetters(wrap, tn, b, SortedList(b.getters.Keys))).Ok?
    ensures var ds := GetterDefs(WrapGetters(wrap, tn, b, SortedList(b.getters.Keys))).value;
            RankIs(ds, 0) && Ordered(ds)
  {
    var gk := SortedList(b.getters.Keys);
    var ws := WrapGetters(wrap, tn, b, gk);
    GetterDefsShape(ws);
    forall i | 0 <= i < |gk| ensures ws[i].getter.key == gk[i] {
      WrapGettersAt(wrap, tn, b, gk, i);
    }
  }

  /** Appending lines of rank `r` after lines of lower rank keeps the order. */
  lemma OrderedAppend(a: seq<Def>, b: seq<Def>, r: nat)
    requires Ordered(a) && Ordered(b) && RankBelow(a, r) && RankIs(b, r)
    ensures Ordered(a + b) && RankBelow(a + b, r + 1)
  {
  }

  /** Four runs of lines of ranks 0 to 3, each ascending, make an ordered output. */
  lemma OrderedGroups(gs: seq<Def>, s: seq<Def>, m: seq<Def>, t: seq<Def>)
    requires Ordered(gs) && Ordered(s) && Ordered(m) && Ordered(t)
    requires RankIs(gs, 0) && RankIs(s, 1) && RankIs(m, 2) && RankIs(t, 3)
    ensures Ordered(gs + (s + m + t))
  {
    assert gs + (s + m + t) == gs + s + m + t;
    assert RankBelow(gs, 1);
    OrderedAppend(gs, s, 1);
    OrderedAppend(gs + s, m, 2);
    OrderedAppend(gs + s + m, t, 3);
  }

  /** A namespace's lines come getters first, then setters, members and
      statics, each group by ascending key. */
  lemma EmitOrdered(wrap: WrapFn, tn: string, b: Buckets)
    requires EmitSpec(wrap, tn, b).Ok?
    ensures Ordered(EmitSpec(wrap, tn, b).value.defs)
  {
    EmitSpecOk(wrap, tn, b);
    var gs := GetterDefs(WrapGetters(wrap, tn, b, SortedList(b.getters.Keys))).value;
    var s := SortedGroup(wrap, Setter, tn, b.setters - b.getters.Keys).defs;
    var m := SortedGroup(wrap, Member, tn, b.members).defs;
    var t := SortedGroup(wrap, Static, tn, b.statics).defs;
    assert CaughtSpec(wrap, tn, b.setters - b.getters.Keys, b).defs == s + m + t;
    GetterLinesOrdered(wrap, tn, b);
    SortedGroupOrdered(wrap, Setter, tn, b.setters - b.getters.Keys);
    SortedGroupOrdered(wrap, Member, tn, b.members);
    SortedGroupOrdered(wrap, Static, tn, b.statics);
    OrderedGroups(gs, s, m, t);
  }

  /** Which of the four runs a line can be in is fixed by its rank. */
  lemma LineOfRank(d: Def, gs: seq<Def>, s: seq<Def>, m: seq<Def>, t: seq<Def>)
    requires RankIs(gs, 0) && RankIs(s, 1) && RankIs(m, 2) && RankIs(t, 3)
    ensures d in gs + (s + m + t) <==>
              || (Rank(d) == 0 && d in gs)
              || (Rank(d) == 1 && d in s)
              || (Rank(d) == 2 && d in m)
              || (Rank(d) == 3 && d in t)
  {
    if d in gs { var i :| 0 <= i < |gs| && gs[i] == d; }
    if d in s { var i :| 0 <= i < |s| && s[i] == d; }
    if d in m { var i :| 0 <= i < |m| && m[i] == d; }
    if d in t { var i :| 0 <= i < |t| && t[i] == d; }
  }

  /** The getter loop's properties, by membership: one per getter with a
      setter of the same key. */
  lemma GetterPropertyMembers(wrap: WrapFn, tn: string, b: Buckets)
    requires GetterDefs(WrapGetters(wrap, tn, b, SortedList(b.getters.Keys))).Ok?
    ensures var gs := GetterDefs(WrapGetters(wrap, tn, b, SortedList(b.getters.Keys))).value;
            forall key, gl, sl :: Property(key, gl, sl) in gs <==>
              && key in b.getters && key in b.setters
              && wrap(b.getters[key], Some(tn)) == Ok(gl) && wrap(b.setters[key], Some(tn)) == Ok(sl)
  {
    var gk := SortedList(b.getters.Keys);
    var gs := GetterDefs(WrapGetters(wrap, tn, b, gk)).value;
    forall key, gl, sl
      ensures Property(key, gl, sl) in gs <==>
                && key in b.getters && key in b.setters
                && wrap(b.getters[key], Some(tn)) == Ok(gl) && wrap(b.setters[key], Some(tn)) == Ok(sl)
    {
      if Property(key, gl, sl) in gs {
        var i :| 0 <= i < |gs| && gs[i] == Property(key, gl, sl);
        GetterDefsShape(WrapGetters(wrap, tn, b, gk));
        GetterLineAt(wrap, tn, b, i);
      }
      if key in b.getters {
        assert key in gk;
        var i :| 0 <= i < |gk| && gk[i] == key;
        GetterLineAt(wrap, tn, b, i);
      }
    }
  }

  /** The getter loop's read-only properties, by membership: one per getter
      without a setter of the same key. */
  lemma GetterReadOnlyMembers(wrap: WrapFn, tn: string, b: Buckets)
    requires GetterDefs(WrapGetters(wrap, tn, b, SortedList(b.getters.Keys))).Ok?
    ensures var gs := GetterDefs(WrapGetters(wrap, tn, b, SortedList(b.getters.Keys))).value;
            forall key, gl :: ReadOnly(key, gl) in gs <==>
              key in b.getters && key !in b.setters && wrap(b.getters[key], Some(tn)) == Ok(gl)
  {
    var gk := SortedList(b.getters.Keys);
    var gs := GetterDefs(WrapGetters(wrap, tn, b, gk)).value;
    forall key, gl
      ensures ReadOnly(key, gl) in gs <==>
                key in b.getters && key !in b.setters && wrap(b.getters[key], Some(tn)) == Ok(gl)
    {
      if ReadOnly(key, gl) in gs {
        var i :| 0 <= i < |gs| && gs[i] == ReadOnly(key, gl);
        GetterDefsShape(WrapGetters(wrap, tn, b, gk));
        GetterLineAt(wrap, tn, b, i);
      }
      if key in b.getters {
        assert key in gk;
        var i :| 0 <= i < |gk| && gk[i] == key;
        GetterLineAt(wrap, tn, b, i);
      }
    }
  }

  /** The four runs of a namespace that does not raise, with their ranks. */
  lemma EmitRuns(wrap: WrapFn, tn: string, b: Buckets)
    requires EmitSpec(wrap, tn, b).Ok?
    ensures var gs := GetterDefs(WrapGetters(wrap, tn, b, SortedList(b.getters.Keys))).value;
            var s := SortedGroup(wrap, Setter, tn, b.setters - b.getters.Keys).defs;
            var m := SortedGroup(wrap, Member, tn, b.members).defs;
            var t := SortedGroup(wrap, Static, tn, b.statics).defs;
            && EmitSpec(wrap, tn, b).value.defs == gs + (s + m + t)
            && RankIs(gs, 0) && RankIs(s, 1) && RankIs(m, 2) && RankIs(t, 3)
  {
    EmitSpecOk(wrap, tn, b);
    GetterLinesOrdered(wrap, tn, b);
    SortedGroupOrdered(wrap, Setter, tn, b.setters - b.getters.Keys);
    SortedGroupOrdered(wrap, Member, tn, b.members);
    SortedGroupOrdered(wrap, Static, tn, b.statics);
  }

  /** Each getter yields one property, with both lambdas, when a setter
      shares its key, and one read-only property otherwise. */
  lemma EmitGetterLines(wrap: WrapFn, tn: string, b: Buckets)
    requires EmitSpec(wrap, tn, b).Ok?
    ensures var ds := EmitSpec(wrap, tn, b).value.defs;
            forall key, gl, sl :: Property(key, gl, sl) in ds <==>
              && key in b.getters && key in b.setters
              && wrap(b.getters[key], Some(tn)) == Ok(gl) && wrap(b.setters[key], Some(tn)) == Ok(sl)
    ensures var ds := EmitSpec(wrap, tn, b).value.defs;
            forall key, gl :: ReadOnly(key, gl) in ds <==>
              key in b.getters && key !in b.setters && wrap(b.getters[key], Some(tn)) == Ok(gl)
  {
    EmitRuns(wrap, tn, b);
    EmitSpecOk(wrap, tn, b);
    GetterPropertyMembers(wrap, tn, b);
    GetterReadOnlyMembers(wrap, tn, b);
    var gs := GetterDefs(WrapGetters(wrap, tn, b, SortedList(b.getters.Keys))).value;
    var s := SortedGroup(wrap, Setter, tn, b.setters - b.getters.Keys).defs;
    var m := SortedGroup(wrap, Member, tn, b.members).defs;
    var t := SortedGroup(wrap, Static, tn, b.statics).defs;
    forall key, gl, sl ensures Property(key, gl, sl) in gs + (s + m + t) <==> Property(key, gl, sl) in gs {
      LineOfRank(Property(key, gl, sl), gs, s, m, t);
    }
    forall key, gl ensures ReadOnly(key, gl) in gs + (s + m + t) <==> ReadOnly(key, gl) in gs {
      LineOfRank(ReadOnly(key, gl), gs, s, m, t);
    }
  }

  /** Each setter whose key no getter has yields one `set_` line when its
      wrap succeeds, and nothing else does. */
  lemma EmitSetterLines(wrap: WrapFn, tn: string, b: Buckets)
    requires EmitSpec(wrap, tn, b).Ok?
    ensures var ds := EmitSpec(wrap, tn, b).value.defs;
            forall key, l :: SetterDef(key, l) in ds <==>
              key in b.setters && key !in b.getters && wrap(b.setters[key], Some(tn)) == Ok(l)
  {
    EmitRuns(wrap, tn, b);
    var gs := GetterDefs(WrapGetters(wrap, tn, b, SortedList(b.getters.Keys))).value;
    var s := SortedGroup(wrap, Setter, tn, b.setters - b.getters.Keys).defs;
    var m := SortedGroup(wrap, Member, tn, b.members).defs;
    var t := SortedGroup(wrap, Static, tn, b.statics).defs;
    SortedGroupDefs(wrap, Setter, tn, b.setters - b.getters.Keys);
    forall key, l ensures SetterDef(key, l) in gs + (s + m + t) <==> MakeDef(Setter, key, l) in s {
      LineOfRank(SetterDef(key, l), gs, s, m, t);
    }
  }

  /** Each member whose wrap succeeds yields one method definition, and
      nothing else does. */
  lemma EmitMemberLines(wrap: WrapFn, tn: string, b: Buckets)
    requires EmitSpec(wrap, tn, b).Ok?
    ensures var ds := EmitSpec(wrap, tn, b).value.defs;
            forall key, l :: MemberDef(key, l) in ds <==>
              key in b.members && wrap(b.members[key], Some(tn)) == Ok(l)
  {
    EmitRuns(wrap, tn, b);
    var gs := GetterDefs(WrapGetters(wrap, tn, b, SortedList(b.getters.Keys))).value;
    var s := SortedGroup(wrap, Setter, tn, b.setters - b.getters.Keys).defs;
    var m := SortedGroup(wrap, Member, tn, b.members).defs;
    var t := SortedGroup(wrap, Static, tn, b.statics).defs;
    SortedGroupDefs(wrap, Member, tn, b.members);
    forall key, l ensures MemberDef(key, l) in gs + (s + m + t) <==> MakeDef(Member, key, l) in m {
      LineOfRank(MemberDef(key, l), gs, s, m, t);
    }
  }

  /** Each static whose wrap, without a receiver type, succeeds yields one
      static definition, and nothing else does. */
  lemma EmitStaticLines(wrap: WrapFn, tn: string, b: Buckets)
    requires EmitSpec(wrap, tn, b).Ok?
    ensures var ds := EmitSpec(wrap, tn, b).value.defs;
            forall key, l :: StaticDef(key, l) in ds <==>
              key in b.statics && wrap(b.statics[key], None) == Ok(l)
  {
    EmitRuns(wrap, tn, b);
    var gs := GetterDefs(WrapGetters(wrap, tn, b, SortedList(b.getters.Keys))).value;
    var s := SortedGroup(wrap, Setter, tn, b.setters - b.getters.Keys).defs;
    var m := SortedGroup(wrap, Member, tn, b.members).defs;
    var t := SortedGroup(wrap, Static, tn, b.statics).defs;
    SortedGroupDefs(wrap, Static, tn, b.statics);
    forall key, l ensures StaticDef(key, l) in gs + (s + m + t) <==> MakeDef(Static, key, l) in t {
      LineOfRank(StaticDef(key, l), gs, s, m, t);
    }
  }

  /** The failures a namespace logs are the natives of exactly the setters
      left over from the getters, members and statics whose wrap fails. */
  lemma EmitFailed(wrap: WrapFn, tn: string, b: Buckets)
    requires EmitSpec(wrap, tn, b).Ok?
    ensures forall x :: x in EmitSpec(wrap, tn, b).value.failed <==>
              || FailsIn(wrap, b.setters - b.getters.Keys, Some(tn), x)
              || FailsIn(wrap, b.members, Some(tn), x)
              || FailsIn(wrap, b.statics, None, x)
  {
    EmitSpecOk(wrap, tn, b);
    SortedGroupFailed(wrap, Setter, tn, b.setters - b.getters.Keys);
    SortedGroupFailed(wrap, Member, tn, b.members);
    SortedGroupFailed(wrap, Static, tn, b.statics);
  }

  /** The natives of those keys of `keys` whose wrap fails, in the order of
      `keys`. */
  function FailedAmong(wrap: WrapFn, m: map<string, Entry>, force: Option<string>, keys: seq<string>): seq<string>
    requires forall x :: x in keys ==> x in m
  {
    if keys == [] then []
    else
      var key := keys[|keys| - 1];
      FailedAmong(wrap, m, force, keys[..|keys| - 1])
        + (if wrap(m[key], force).Err? then [m[key].nsFn] else [])
  }

  lemma {:induction false} GroupFailedPrefix(wrap: WrapFn, k: Kind, force: Option<string>,
                                             m: map<string, Entry>, keys: seq<string>, i: nat)
    requires k != Getter && forall x :: x in keys ==> x in m
    requires i <= |keys|
    ensures GroupDefs(k, WrapGroup(wrap, force, m, keys)[..i]).failed == FailedAmong(wrap, m, force, keys[..i])
    decreases i
  {
    var ws := WrapGroup(wrap, force, m, keys);
    if i == 0 {
      assert ws[..0] == [] && keys[..0] == [];
    } else {
      GroupFailedPrefix(wrap, k, force, m, keys, i - 1);
      GroupDefsStep(k, ws, i - 1);
      assert keys[..i][..i - 1] == keys[..i - 1];
      assert keys[..i][i - 1] == keys[i - 1];
    }
  }

  /** A caught loop over `keys` logs exactly the natives of its failing keys,
      in the order the keys come. */
  lemma GroupFailedAmong(wrap: WrapFn, k: Kind, force: Option<string>,
                         m: map<string, Entry>, keys: seq<string>)
    requires k != Getter && forall x :: x in keys ==> x in m
    ensures GroupDefs(k, WrapGroup(wrap, force, m, keys)).failed == FailedAmong(wrap, m, force, keys)
  {
    GroupFailedPrefix(wrap, k, force, m, keys, |keys|);
    assert WrapGroup(wrap, force, m, keys)[..|keys|] == WrapGroup(wrap, force, m, keys);
    assert keys[..|keys|] == keys;
  }

  /** The natives of the keys of `m` whose wrap fails, in ascending key order. */
  ghost function FailedNames(wrap: WrapFn, m: map<string, Entry>, force: Option<string>): seq<string>
  {
    FailedAmong(wrap, m, force, SortedList(m.Keys))
  }

  /** A namespace logs its failures in emission order: the failing setters
      left over from the getters, then the failing members, then the failing
      statics, each by ascending key. */
  lemma EmitFailedOrder(wrap: WrapFn, tn: string, b: Buckets)
    requires EmitSpec(wrap, tn, b).Ok?
    ensures EmitSpec(wrap, tn, b).value.failed
            == FailedNames(wrap, b.setters - b.getters.Keys, Some(tn))
               + FailedNames(wrap, b.members, Some(tn))
               + FailedNames(wrap, b.statics, None)
  {
    var left := b.setters - b.getters.Keys;
    var c := CaughtSpec(wrap, tn, left, b);
    assert EmitSpec(wrap, tn, b).value.failed == c.failed;
    assert c.failed == SortedGroup(wrap, Setter, tn, left).failed + SortedGroup(wrap, Member, tn, b.members).failed
                       + SortedGroup(wrap, Static, tn, b.statics).failed;
    GroupFailedAmong(wrap, Setter, Some(tn), left, SortedList(left.Keys));
    GroupFailedAmong(wrap, Member, Some(tn), b.members, SortedList(b.members.Keys));
    GroupFailedAmong(wrap, Static, None, b.statics, SortedList(b.statics.Keys));
  }

  /** Every native of the namespace is accounted for once: each getter (with
      the setter merged into it) and each other native yields one line or
      one failure. */
  lemma EmitSize(wrap: WrapFn, tn: string, b: Buckets)
    requires EmitSpec(wrap, tn, b).Ok?
    ensures |EmitSpec(wrap, tn, b).value.defs| + |EmitSpec(wrap, tn, b).value.failed|
            == |b.getters| + |b.setters - b.getters.Keys| + |b.members| + |b.statics|
  {
    EmitSpecOk(wrap, tn, b);
    var gk := SortedList(b.getters.Keys);
    GetterDefsShape(WrapGetters(wrap, tn, b, gk));
    SortedListSize(b.getters.Keys);
    assert |b.getters.Keys| == |b.getters|;
    SortedGroupSize(wrap, Setter, tn, b.setters - b.getters.Keys);
    SortedGroupSize(wrap, Member, tn, b.members);
    SortedGroupSize(wrap, Static, tn, b.statics);
  }
}
