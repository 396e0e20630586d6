// The body of the namespace loop up to the four dictionaries: the skip
// rules, the parameter split with `pr_r`, `is_member`, the exposed name
// `s_fn`, and the `getters` / `setters` / `members` / `statics` buckets.
module Classifier {
  import opened Wrappers
  import opened Text
  import opened TypeTable

  /** A `\w+` match: namespace and function names are never empty. */
  type Ident = s: string | |s| > 0 witness "_"

  /** One `(rt, fn, args)` triple found by `fn_r`. */
  datatype RawDecl = RawDecl(rt: string, fn: Ident, args: string)

  /** A bucket value `(ns_fn, rt, params)`. */
  datatype Entry = Entry(nsFn: string, rt: string, params: seq<Param>)

  datatype Kind = Getter | Setter | Member | Static

  /** What the loop body does with one declaration. */
  datatype Verdict =
    | Dropped                                 // one of the `continue` branches
    | Unparsed(param: string)                 // `pr_r.match` found nothing
    | Kept(kind: Kind, key: string, entry: Entry)

  /** Why the whole run stops with an exception. */
  datatype Abort =
    | UnparsedParam(nsFn: string, param: string)   // `None.groups()`
    | UnmappableType(nsFn: string, ty: string)     // an assertion outside `try`

  /** End of the whitespace run starting at `i`. */
  function SpaceEnd(s: string, i: nat): (e: nat)
    requires i <= |s|
    ensures i <= e <= |s|
    ensures forall j :: i <= j < e ==> IsSpace(s[j])
    ensures e < |s| ==> !IsSpace(s[e])
    decreases |s| - i
  {
    if i < |s| && IsSpace(s[i]) then SpaceEnd(s, i + 1) else i
  }

  /** End of the word-character run starting at `i`. */
  function WordEnd(s: string, i: nat): (e: nat)
    requires i <= |s|
    ensures i <= e <= |s|
    ensures forall j :: i <= j < e ==> IsWord(s[j])
    ensures e < |s| ==> !IsWord(s[e])
    decreases |s| - i
  {
    if i < |s| && IsWord(s[i]) then WordEnd(s, i + 1) else i
  }

  /** `(.*)\s+(\w+)` matched at the start of `p` can give group 1 the prefix
      `p[..l]`: `.` does not cross a newline, `\s+` needs whitespace at `l`,
      and `\w+` a word character right after that whitespace run. */
  predicate SplitsAt(p: string, l: nat)
  {
    && l < |p|
    && IsSpace(p[l])
    && (forall j :: 0 <= j < l ==> p[j] != '\n')
    && SpaceEnd(p, l) < |p|
    && IsWord(p[SpaceEnd(p, l)])
  }

  /** The largest split point below `n`: the greedy `.*` gives back one
      character at a time, starting from the longest prefix. */
  function LastSplit(p: string, n: nat): (r: Option<nat>)
    requires n <= |p|
    ensures r.Some? ==> r.value < n && SplitsAt(p, r.value)
                        && forall l :: r.value < l < n ==> !SplitsAt(p, l)
    ensures r.None? ==> forall l :: 0 <= l < n ==> !SplitsAt(p, l)
  {
    if n == 0 then None
    else if SplitsAt(p, n - 1) then Some(n - 1)
    else LastSplit(p, n - 1)
  }

  /** `tuple(i.strip() for i in pr_r.match(p).groups())`, or `None` when the
      pattern does not match. */
  function ParseParam(p: string): (r: Option<Param>)
    ensures r.Some? <==> exists l :: SplitsAt(p, l)
    ensures r.Some? ==> r.value.name != []
                        && forall j :: 0 <= j < |r.value.name| ==> IsWord(r.value.name[j])
  {
    match LastSplit(p, |p|)
    case None => None
    case Some(l) =>
      var w := SpaceEnd(p, l);
      var word := p[w..WordEnd(p, w)];
      StripUnspaced(word);
      Some(Param(Strip(p[..l]), Strip(word)))
  }

  /** A declared parameter `type name`: the type may hold spaces and `*`,
      the name is one word; `pr_r` splits at the space before the name. */
  lemma TypeSpaceName(ty: string, nm: string)
    requires '\n' !in ty && Strip(ty) == ty
    requires nm != [] && forall j :: 0 <= j < |nm| ==> IsWord(nm[j])
    ensures ParseParam(ty + " " + nm) == Some(Param(ty, nm))
  {
    var p := ty + " " + nm;
    var l0 := |ty|;
    assert p[..l0] == ty;
    assert forall j :: l0 < j < |p| ==> p[j] == nm[j - l0 - 1];
    assert SpaceEnd(p, l0 + 1) == l0 + 1;
    assert SpaceEnd(p, l0) == l0 + 1;
    assert SplitsAt(p, l0);
    forall l | l0 < l < |p| ensures !SplitsAt(p, l) {
      assert IsWord(p[l]);
    }
    var r := LastSplit(p, |p|);
    assert r == Some(l0);
    assert WordEnd(p, l0 + 1) == |p|;
    assert p[l0 + 1..|p|] == nm;
    StripUnspaced(nm);
  }

  /** The list comprehension over `args.split(',')`: blank pieces are skipped,
      the others stripped and split; the first one `pr_r` cannot split is the
      error. */
  function ParseParams(pieces: seq<string>): (r: Result<seq<Param>, string>)
    ensures r.Ok? ==> |r.value| == CountNonBlank(pieces)
    ensures r.Ok? ==> forall k :: 0 <= k < |r.value| ==> r.value[k].name != []
    decreases |pieces|
  {
    if pieces == [] then Ok([])
    else
      var p := Strip(pieces[0]);
      var rest := ParseParams(pieces[1..]);
      if p == [] then rest
      else
        match ParseParam(p)
        case None => Err(p)
        case Some(x) =>
          match rest
          case Err(e) => Err(e)
          case Ok(ps) => Ok([x] + ps)
  }

  /** A piece `pr_r` can split, or a blank one. */
  predicate PieceParses(piece: string)
  {
    Strip(piece) != [] ==> ParseParam(Strip(piece)).Some?
  }

  /** The parameter list is parsed exactly when every non-blank piece is
      split by `pr_r`. */
  lemma {:induction false} ParseParamsOk(pieces: seq<string>)
    ensures ParseParams(pieces).Ok? <==>
              forall i {:trigger PieceParses(pieces[i])} :: 0 <= i < |pieces| ==> PieceParses(pieces[i])
    decreases |pieces|
  {
    if pieces != [] {
      var rest := pieces[1..];
      ParseParamsOk(rest);
      if ParseParams(pieces).Ok? {
        forall i | 0 <= i < |pieces|
          ensures PieceParses(pieces[i])
        {
          if i > 0 {
            assert pieces[i] == rest[i - 1];
          }
        }
      } else if !PieceParses(pieces[0]) {
      } else {
        var i :| 0 <= i < |rest| && !PieceParses(rest[i]);
        assert pieces[i + 1] == rest[i];
      }
    }
  }

  /** When the list is not parsed, the error is the first non-blank piece
      `pr_r` cannot split. */
  lemma {:induction false} ParseParamsErr(pieces: seq<string>)
    requires ParseParams(pieces).Err?
    ensures exists i :: 0 <= i < |pieces| && ParseParams(pieces).error == Strip(pieces[i])
                        && Strip(pieces[i]) != [] && ParseParam(Strip(pieces[i])).None?
    decreases |pieces|
  {
    var p := Strip(pieces[0]);
    var rest := pieces[1..];
    if p != [] && ParseParam(p).None? {
      assert ParseParams(pieces).error == Strip(pieces[0]);
    } else {
      assert ParseParams(pieces) == ParseParams(rest);
      ParseParamsErr(rest);
      var i :| 0 <= i < |rest| && ParseParams(rest).error == Strip(rest[i])
               && Strip(rest[i]) != [] && ParseParam(Strip(rest[i])).None?;
      assert pieces[i + 1] == rest[i];
    }
  }

  /** `type_name = name[0] + name[1:].lower()` */
  function TypeName(name: Ident): (tn: Ident)
    ensures |tn| == |name| && tn[0] == name[0]
    ensures NoUpper(tn[1..])
  {
    [name[0]] + Lower(name[1..])
  }

  /** `is_member`: the first parameter has the namespace's type or is named
      after it, and that type is in the table. */
  predicate IsMember(params: seq<Param>, tn: string)
  {
    |params| > 0 && (params[0].ty == tn || params[0].name == Lower(tn)) && Known(tn)
  }

  /** `s_fn` before the getter and setter rewrites: `fn` lowercased, one
      leading `_` dropped, then every `type_name.lower() + '_'` removed. */
  function ShortName(fn: Ident, tn: string): (s: string)
    ensures NoUpper(s) && |s| <= |fn|
  {
    var l := Lower(fn);
    var t := if l[0] == '_' then l[1..] else l;
    assert NoUpper(t);
    RemoveAllNoUpper(t, Lower(tn) + "_");
    RemoveAll(t, Lower(tn) + "_")
  }

  predicate AccessorPrefix(s: string)
  {
    "get_" <= s || "is_" <= s || "are_" <= s || "can_" <= s
  }

  /** The loop body for one declaration of namespace `name`. */
  function Classify(name: Ident, custom: set<string>, d: RawDecl): Verdict
  {
    if !Contains(Lower(d.fn), "set_control") && ("_0x" <= d.fn || name + "::" + d.fn in custom) then
      Dropped
    else
      match ParseParams(Split(d.args, ','))
      case Err(p) => Unparsed(p)
      case Ok(params) =>
        var tn := TypeName(name);
        var member := IsMember(params, tn);
        var s := ShortName(d.fn, tn);
        var e := Entry(name + "::" + d.fn, d.rt, params);
        if |params| == 1 && member && AccessorPrefix(s) then
          Kept(Getter, RemoveAll(Lower(s), "get_"), e)
        else if |params| == 2 && "set_" <= s && member then
          Kept(Setter, RemoveAll(Lower(s), "set_"), e)
        else if member then
          Kept(Member, s, e)
        else
          Kept(Static, s, e)
  }

  /** The skip rules: a name containing `set_control` (in any case) is never
      dropped; otherwise a hex name or a custom-bound `NS::fn` is. */
  lemma DropRule(name: Ident, custom: set<string>, d: RawDecl)
    ensures Classify(name, custom, d).Dropped?
            <==> !Contains(Lower(d.fn), "set_control")
                 && ("_0x" <= d.fn || name + "::" + d.fn in custom)
  {
  }

  /** The shape of each bucket: getters take one parameter and setters two,
      the first three buckets hold exactly the member functions, and member
      functions exist only for table types. */
  lemma KeptShape(name: Ident, custom: set<string>, d: RawDecl)
    requires Classify(name, custom, d).Kept?
    ensures var v := Classify(name, custom, d);
            && v.entry == Entry(name + "::" + d.fn, d.rt, v.entry.params)
            && ParseParams(Split(d.args, ',')) == Ok(v.entry.params)
            && (v.kind == Getter ==> |v.entry.params| == 1)
            && (v.kind == Setter ==> |v.entry.params| == 2)
            && (v.kind != Static <==> IsMember(v.entry.params, TypeName(name)))
            && (v.kind != Static ==> Known(TypeName(name)))
  {
  }

  /** Every key is lower case. */
  lemma KeptKeyLower(name: Ident, custom: set<string>, d: RawDecl)
    requires Classify(name, custom, d).Kept?
    ensures NoUpper(Classify(name, custom, d).key)
  {
    var s := ShortName(d.fn, TypeName(name));
    LowerOfNoUpper(s);
    RemoveAllNoUpper(s, "get_");
    RemoveAllNoUpper(s, "set_");
  }

  /** Getter keys lose every `get_`, setter keys every `set_`; members and
      statics keep the short name. */
  lemma AccessorKeys(name: Ident, custom: set<string>, d: RawDecl)
    requires Classify(name, custom, d).Kept?
    ensures var v := Classify(name, custom, d);
            var s := ShortName(d.fn, TypeName(name));
            && (v.kind == Getter ==> v.key == RemoveAll(s, "get_") && AccessorPrefix(s))
            && (v.kind == Setter ==> v.key == RemoveAll(s, "set_") && "set_" <= s)
            && (v.kind == Member || v.kind == Static ==> v.key == s)
  {
    LowerOfNoUpper(ShortName(d.fn, TypeName(name)));
  }

  /** Removing `get_` keeps a leading `is_`, `are_` or `can_`. */
  lemma GetRemovalKeepsPrefixes(s: string)
    ensures "is_" <= s ==> "is_" <= RemoveAll(s, "get_")
    ensures "are_" <= s ==> "are_" <= RemoveAll(s, "get_")
    ensures "can_" <= s ==> "can_" <= RemoveAll(s, "get_")
  {
    if "is_" <= s {
      RemoveAllKeepsPrefix(s, "get_", "is_");
    }
    if "are_" <= s {
      RemoveAllKeepsPrefix(s, "get_", "are_");
    }
    if "can_" <= s {
      RemoveAllKeepsPrefix(s, "get_", "can_");
    }
  }

  /** A getter key keeps a leading `is_`, `are_` or `can_`. */
  lemma GetterKeyPrefixes(name: Ident, custom: set<string>, d: RawDecl)
    requires Classify(name, custom, d).Kept? && Classify(name, custom, d).kind == Getter
    ensures var k := Classify(name, custom, d).key;
            var s := ShortName(d.fn, TypeName(name));
            && ("is_" <= s ==> "is_" <= k)
            && ("are_" <= s ==> "are_" <= k)
            && ("can_" <= s ==> "can_" <= k)
  {
    AccessorKeys(name, custom, d);
    GetRemovalKeepsPrefixes(ShortName(d.fn, TypeName(name)));
  }

  /** The four dictionaries of one namespace. */
  datatype Buckets = Buckets(getters: map<string, Entry>, setters: map<string, Entry>,
                             members: map<string, Entry>, statics: map<string, Entry>)

  function Bucket(b: Buckets, k: Kind): map<string, Entry>
  {
    match k
    case Getter => b.getters
    case Setter => b.setters
    case Member => b.members
    case Static => b.statics
  }

  /** `bucket[key] = entry` */
  function Put(b: Buckets, k: Kind, key: string, e: Entry): (r: Buckets)
    ensures Bucket(r, k) == Bucket(b, k)[key := e]
    ensures forall k' :: k' != k ==> Bucket(r, k') == Bucket(b, k')
  {
    match k
    case Getter => b.(getters := b.getters[key := e])
    case Setter => b.(setters := b.setters[key := e])
    case Member => b.(members := b.members[key := e])
    case Static => b.(statics := b.statics[key := e])
  }

  /** A declaration's `NS::fn` with what the loop body made of it. */
  datatype Tagged = Tagged(nsFn: string, verdict: Verdict)

  predicate KeptAs(v: Verdict, k: Kind, key: string)
  {
    v.Kept? && v.kind == k && v.key == key
  }

  /** The dictionaries after a run of verdicts, or the exception that stopped
      the loop (defined on the last verdict, as the loop reaches it). */
  function Collect(ts: seq<Tagged>): Result<Buckets, Abort>
  {
    if ts == [] then Ok(Buckets(map[], map[], map[], map[]))
    else
      var t := ts[|ts| - 1];
      match Collect(ts[..|ts| - 1])
      case Err(a) => Err(a)
      case Ok(b) =>
        match t.verdict
        case Dropped => Ok(b)
        case Unparsed(p) => Err(UnparsedParam(t.nsFn, p))
        case Kept(k, key, e) => Ok(Put(b, k, key, e))
  }

  /** Once the loop has stopped, later declarations change nothing. */
  lemma {:induction false} CollectErrSticky(ts: seq<Tagged>, n: nat)
    requires n <= |ts| && Collect(ts[..n]).Err?
    ensures Collect(ts) == Collect(ts[..n])
    decreases |ts| - n
  {
    if n < |ts| {
      var m := |ts| - 1;
      assert ts[..m][..n] == ts[..n];
      CollectErrSticky(ts[..m], n);
    } else {
      assert ts[..n] == ts;
    }
  }

  /** The loop stops exactly when some verdict is `Unparsed`, and then with
      the first one. */
  lemma {:induction false} CollectOk(ts: seq<Tagged>)
    ensures Collect(ts).Ok? <==> forall i :: 0 <= i < |ts| ==> !ts[i].verdict.Unparsed?
    ensures Collect(ts).Err? ==>
              exists i :: 0 <= i < |ts| && ts[i].verdict.Unparsed?
                          && Collect(ts).error == UnparsedParam(ts[i].nsFn, ts[i].verdict.param)
                          && forall j :: 0 <= j < i ==> !ts[j].verdict.Unparsed?
    decreases |ts|
  {
    if ts != [] {
      var init := ts[..|ts| - 1];
      CollectOk(init);
      assert forall i :: 0 <= i < |init| ==> init[i] == ts[i];
    }
  }

  /** One step of the loop, on a run that did not stop, seen from one key of
      one bucket. */
  lemma CollectAt(ts: seq<Tagged>, k: Kind, key: string)
    requires ts != [] && Collect(ts).Ok?
    ensures Collect(ts[..|ts| - 1]).Ok?
    ensures var v := ts[|ts| - 1].verdict;
            var m := Bucket(Collect(ts).value, k);
            KeptAs(v, k, key) ==> key in m && m[key] == v.entry
    ensures var v := ts[|ts| - 1].verdict;
            var m := Bucket(Collect(ts).value, k);
            var m0 := Bucket(Collect(ts[..|ts| - 1]).value, k);
            !KeptAs(v, k, key) ==> (key in m <==> key in m0) && (key in m0 ==> m[key] == m0[key])
  {
  }

  /** `ts[i]` is the last verdict that puts `key` into bucket `k`. */
  predicate LastPut(ts: seq<Tagged>, i: nat, k: Kind, key: string)
  {
    i < |ts| && KeptAs(ts[i].verdict, k, key)
    && forall j :: i < j < |ts| ==> !KeptAs(ts[j].verdict, k, key)
  }

  lemma LastPutExtend(ts: seq<Tagged>, i: nat, k: Kind, key: string)
    requires ts != [] && LastPut(ts[..|ts| - 1], i, k, key) && !KeptAs(ts[|ts| - 1].verdict, k, key)
    ensures LastPut(ts, i, k, key) && ts[i] == ts[..|ts| - 1][i]
  {
    var init := ts[..|ts| - 1];
    forall j | i < j < |ts|
      ensures !KeptAs(ts[j].verdict, k, key)
    {
      if j < |init| {
        assert ts[j] == init[j];
      }
    }
  }

  /** Dictionary assignment: a key is in a bucket exactly when some verdict put
      it there. */
  lemma {:induction false} CollectContents(ts: seq<Tagged>, k: Kind, key: string)
    requires Collect(ts).Ok?
    ensures key in Bucket(Collect(ts).value, k) <==>
              exists i :: 0 <= i < |ts| && KeptAs(ts[i].verdict, k, key)
    decreases |ts|
  {
    if ts != [] {
      var n := |ts| - 1;
      var init := ts[..n];
      CollectAt(ts, k, key);
      CollectContents(init, k, key);
      if !KeptAs(ts[n].verdict, k, key) {
        if key in Bucket(Collect(init).value, k) {
          var i :| 0 <= i < n && KeptAs(init[i].verdict, k, key);
          assert init[i] == ts[i];
        }
        if exists i :: 0 <= i < |ts| && KeptAs(ts[i].verdict, k, key) {
          var i :| 0 <= i < |ts| && KeptAs(ts[i].verdict, k, key);
          assert init[i] == ts[i];
        }
      }
    }
  }

  /** The value a key holds comes from the last verdict that put it there. */
  lemma {:induction false} CollectLast(ts: seq<Tagged>, k: Kind, key: string)
    requires Collect(ts).Ok? && key in Bucket(Collect(ts).value, k)
    ensures exists i: nat :: LastPut(ts, i, k, key) && ts[i].verdict.entry == Bucket(Collect(ts).value, k)[key]
    decreases |ts|
  {
    var n := |ts| - 1;
    CollectAt(ts, k, key);
    if KeptAs(ts[n].verdict, k, key) {
      assert LastPut(ts, n, k, key);
    } else {
      var init := ts[..n];
      CollectLast(init, k, key);
      var i: nat :| LastPut(init, i, k, key) && init[i].verdict.entry == Bucket(Collect(init).value, k)[key];
      LastPutExtend(ts, i, k, key);
    }
  }

  /** Every declaration of a namespace, tagged with its verdict, in order. */
  function Verdicts(name: Ident, custom: set<string>, decls: seq<RawDecl>): (ts: seq<Tagged>)
    ensures |ts| == |decls|
    ensures forall i :: 0 <= i < |decls| ==>
              ts[i] == Tagged(name + "::" + decls[i].fn, Classify(name, custom, decls[i]))
  {
    if decls == [] then []
    else
      var d := decls[|decls| - 1];
      Verdicts(name, custom, decls[..|decls| - 1]) + [Tagged(name + "::" + d.fn, Classify(name, custom, d))]
  }

  /** The namespace's dictionaries, or the exception raised while filling them. */
  function ClassifyAll(name: Ident, custom: set<string>, decls: seq<RawDecl>): Result<Buckets, Abort>
  {
    Collect(Verdicts(name, custom, decls))
  }

  /** A key is in a bucket exactly when some declaration was classified into it. */
  lemma BucketContents(name: Ident, custom: set<string>, decls: seq<RawDecl>, k: Kind, key: string)
    requires ClassifyAll(name, custom, decls).Ok?
    ensures key in Bucket(ClassifyAll(name, custom, decls).value, k) <==>
              exists i :: 0 <= i < |decls| && KeptAs(Classify(name, custom, decls[i]), k, key)
  {
    var ts := Verdicts(name, custom, decls);
    CollectContents(ts, k, key);
    if exists i :: 0 <= i < |decls| && KeptAs(Classify(name, custom, decls[i]), k, key) {
      var i :| 0 <= i < |decls| && KeptAs(Classify(name, custom, decls[i]), k, key);
      assert KeptAs(ts[i].verdict, k, key);
    }
  }

  /** A key in a bucket holds the entry of the last declaration classified
      into it. */
  lemma BucketLast(name: Ident, custom: set<string>, decls: seq<RawDecl>, k: Kind, key: string)
    requires ClassifyAll(name, custom, decls).Ok?
    requires key in Bucket(ClassifyAll(name, custom, decls).value, k)
    ensures exists i :: 0 <= i < |decls| && KeptAs(Classify(name, custom, decls[i]), k, key)
                        && Classify(name, custom, decls[i]).entry == Bucket(ClassifyAll(name, custom, decls).value, k)[key]
                        && forall j :: i < j < |decls| ==> !KeptAs(Classify(name, custom, decls[j]), k, key)
  {
    var ts := Verdicts(name, custom, decls);
    CollectLast(ts, k, key);
    var i: nat :| LastPut(ts, i, k, key) && ts[i].verdict.entry == Bucket(Collect(ts).value, k)[key];
    forall j | i < j < |decls|
      ensures !KeptAs(Classify(name, custom, decls[j]), k, key)
    {
      assert ts[j].verdict == Classify(name, custom, decls[j]);
    }
    assert ts[i].verdict == Classify(name, custom, decls[i]);
  }

  /** The namespace is processed to the end exactly when every declaration
      that is not dropped has parameters `pr_r` can split. */
  lemma ClassifyAllOk(name: Ident, custom: set<string>, decls: seq<RawDecl>)
    ensures ClassifyAll(name, custom, decls).Ok?
            <==> forall i :: 0 <= i < |decls| ==> !Classify(name, custom, decls[i]).Unparsed?
  {
    CollectOk(Verdicts(name, custom, decls));
  }

  /** Python evaluates `type_name.lower()`: the same as lowering the namespace name. */
  lemma LowerTypeName(name: Ident)
    ensures Lower(TypeName(name)) == Lower(name)
  {
    var rest := Lower(name[1..]);
    LowerOfNoUpper(rest);
    LowerConcat([name[0]], rest);
    LowerConcat([name[0]], name[1..]);
    assert name == [name[0]] + name[1..];
  }

  /** The namespace loop's inner loop: fills the four dictionaries. */
  method ClassifyNamespace(name: Ident, custom: set<string>, decls: seq<RawDecl>) returns (r: Result<Buckets, Abort>)
    ensures r == ClassifyAll(name, custom, decls)
  {
    var getters: map<string, Entry> := map[];
    var setters: map<string, Entry> := map[];
    var members: map<string, Entry> := map[];
    var statics: map<string, Entry> := map[];
    ghost var ts := Verdicts(name, custom, decls);
    var i := 0;
    assert ts[..0] == [];
    while i < |decls|
      invariant 0 <= i <= |decls|
      invariant Collect(ts[..i]) == Ok(Buckets(getters, setters, members, statics))
      decreases |decls| - i
    {
      assert ts[..i + 1][..i] == ts[..i];
      var d := decls[i];
      var v := Classify(name, custom, d);
      assert ts[i] == Tagged(name + "::" + d.fn, v);
      match v {
        case Dropped =>
        case Unparsed(p) =>
          CollectErrSticky(ts, i + 1);
          return Err(UnparsedParam(name + "::" + d.fn, p));
        case Kept(k, key, e) =>
          match k {
            case Getter => getters := getters[key := e];
            case Setter => setters := setters[key := e];
            case Member => members := members[key := e];
            case Static => statics := statics[key := e];
          }
      }
      i := i + 1;
    }
    assert ts[..|decls|] == ts;
    r := Ok(Buckets(getters, setters, members, statics));
  }
}
