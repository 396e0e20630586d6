// `gen_enums`: one pybind11 `py::enum_` registration per enum block, one
// `.value(...)` per enumerator, bound by symbolic name.
module Enums {
  import opened Text
  import opened CamelCase

  /** A `(name, body)` pair as found by `REGEX_ENUM`: the enum's name and the
      text between its braces. */
  datatype EnumBlock = EnumBlock(name: string, body: string)

  const AutogenHeader: string :=
    "// This file is auto-generated, do NOT edit!\n#include \"pybind11/pybind11.h\"\n#include \"scripthook/enums.h\"\n\nnamespace py = pybind11;\n"

  const EnumsPrologue: string := "void defEnums(py::module m) {"

  /** The enumerators of a body: every comma-separated piece, stripped, the
      empty ones skipped (defined on the last piece, as the loop reads them). */
  function Entries(pieces: seq<string>): seq<string>
  {
    if pieces == [] then []
    else
      var e := Strip(pieces[|pieces| - 1]);
      Entries(pieces[..|pieces| - 1]) + (if e == [] then [] else [e])
  }

  /** The identifier of an enumerator: the text before its first `=`, stripped. */
  function Ident(entry: string): (id: string)
    ensures '=' !in id
    ensures '=' !in entry ==> id == entry
    ensures '=' in entry ==> exists k :: 0 <= k < |entry| && entry[k] == '='
                               && (forall j :: 0 <= j < k ==> entry[j] != '=')
                               && id == Strip(entry[..k])
  {
    if '=' in entry then
      var k := IndexOf(entry, '=');
      var id := Strip(entry[..k]);
      StripIsSlice(entry[..k]);
      id
    else entry
  }

  /** The name the binding exposes: every occurrence of the enum's name
      removed from the identifier, then camel case turned into snake case. */
  function ExposedName(name: string, id: string): (r: string)
    ensures NoUpper(r)
  {
    ConvertCamelToUnderscore(RemoveAll(id, name))
  }

  function ClassLine(name: string): string
  {
    "\tpy::enum_<" + name + ">(m, \"" + name + "\")"
  }

  /** `\t\t.value("exposed",Name::ident)`: the enumerator is referenced by its
      qualified symbol, never by a value. */
  function ValueLine(name: string, id: string): string
  {
    "\t\t.value(\"" + ExposedName(name, id) + "\"," + name + "::" + id + ")"
  }

  /** The exposed name holds no `=` when the identifier holds none: removal,
      underscore insertion and lower-casing bring no `=` in. */
  lemma ExposedNameChars(name: string, id: string)
    requires '=' !in id
    ensures '=' !in ExposedName(name, id)
  {
    var x := RemoveAll(id, name);
    assert '=' !in x;
    assert '=' !in Lower(x) by {
      forall i | 0 <= i < |x| ensures Lower(x)[i] != '=' {
        assert x[i] != '=';
      }
    }
    ConvertInsertsUnderscores(x);
    InsertedChars(Lower(x), ExposedName(name, id));
  }

  /** A `.value` line names its enumerator as `Name::ident` at its end. With
      an enum name free of `=` (a `\w+` match), the line holds no `=`: the
      enumerator's value expression never reaches the binding. */
  lemma ValueLineSymbolic(name: string, entry: string)
    requires '=' !in name
    ensures var l := ValueLine(name, Ident(entry));
            var tail := name + "::" + Ident(entry) + ")";
            |tail| < |l| && l[|l| - |tail|..] == tail
    ensures '=' !in ValueLine(name, Ident(entry))
  {
    var id := Ident(entry);
    ExposedNameChars(name, id);
    var head := "\t\t.value(\"" + ExposedName(name, id) + "\",";
    var tail := name + "::" + id + ")";
    assert ValueLine(name, id) == head + tail;
  }

  /** The `.value` lines for a list of enumerators, in order. */
  function ValueLines(name: string, entries: seq<string>): (ls: seq<string>)
    ensures |ls| == |entries|
    ensures forall i :: 0 <= i < |entries| ==> ls[i] == ValueLine(name, Ident(entries[i]))
  {
    seq(|entries|, i requires 0 <= i < |entries| => ValueLine(name, Ident(entries[i])))
  }

  lemma EntriesSnoc(pieces: seq<string>, k: nat)
    requires k < |pieces|
    ensures Entries(pieces[..k + 1])
         == Entries(pieces[..k]) + (if Strip(pieces[k]) == [] then [] else [Strip(pieces[k])])
  {
    assert pieces[..k + 1][..k] == pieces[..k];
  }

  lemma ValueLinesSnoc(name: string, entries: seq<string>, e: string)
    ensures ValueLines(name, entries + [e]) == ValueLines(name, entries) + [ValueLine(name, Ident(e))]
  {
    var xs := entries + [e];
    forall i | 0 <= i < |xs|
      ensures ValueLines(name, xs)[i] == (ValueLines(name, entries) + [ValueLine(name, Ident(e))])[i]
    {
      if i < |entries| {
        assert xs[i] == entries[i];
      }
    }
  }

  /** The lines one enum block contributes. */
  function BlockLines(e: EnumBlock): seq<string>
  {
    [ClassLine(e.name)] + ValueLines(e.name, Entries(Split(e.body, ','))) + [";"]
  }

  function AllBlockLines(enums: seq<EnumBlock>): seq<string>
  {
    if enums == [] then []
    else AllBlockLines(enums[..|enums| - 1]) + BlockLines(enums[|enums| - 1])
  }

  lemma AllBlockLinesSnoc(enums: seq<EnumBlock>, n: nat, block: seq<string>)
    requires n < |enums| && block == BlockLines(enums[n])
    ensures AllBlockLines(enums[..n + 1]) == AllBlockLines(enums[..n]) + block
  {
    assert enums[..n + 1][..n] == enums[..n];
  }

  /** The list `source_code` that `gen_enums` joins with newlines. */
  function EnumSource(enums: seq<EnumBlock>): seq<string>
  {
    [AutogenHeader, EnumsPrologue] + AllBlockLines(enums) + ["}"]
  }

  /** The inner loop of `gen_enums`: the `.value` lines of one enum body. */
  method EnumValues(name: string, body: string) returns (lines: seq<string>)
    ensures lines == ValueLines(name, Entries(Split(body, ',')))
  {
    var pieces := Split(body, ',');
    lines := [];
    var k := 0;
    assert pieces[..k] == [];
    assert Entries(pieces[..k]) == [];
    assert lines == ValueLines(name, Entries(pieces[..k]));
    while k < |pieces|
      invariant 0 <= k <= |pieces|
      invariant lines == ValueLines(name, Entries(pieces[..k]))
    {
      var entry := Strip(pieces[k]);
      EntriesSnoc(pieces, k);
      ghost var prev := Entries(pieces[..k]);
      if entry != [] {
        ghost var stripped := entry;
        if '=' in entry {
          entry := Strip(entry[..IndexOf(entry, '=')]);
        }
        assert entry == Ident(stripped);
        ValueLinesSnoc(name, prev, stripped);
        lines := lines + [ValueLine(name, entry)];
        assert Entries(pieces[..k + 1]) == prev + [stripped];
        assert lines == ValueLines(name, Entries(pieces[..k + 1]));
      } else {
        assert Entries(pieces[..k + 1]) == prev;
      }
      assert lines == ValueLines(name, Entries(pieces[..k + 1]));
      k := k + 1;
      assert lines == ValueLines(name, Entries(pieces[..k]));
    }
    assert pieces[..|pieces|] == pieces;
  }

  /** `gen_enums` without the file read and write: appends each block's lines,
      then frames them and joins the list with newlines. */
  method GenEnums(enums: seq<EnumBlock>) returns (text: string)
    ensures text == Join(EnumSource(enums), "\n")
  {
    var blocks: seq<string> := [];
    var n := 0;
    assert AllBlockLines(enums[..n]) == [] by { assert enums[..n] == []; }
    while n < |enums|
      invariant 0 <= n <= |enums|
      invariant blocks == AllBlockLines(enums[..n])
    {
      var values := EnumValues(enums[n].name, enums[n].body);
      var block := [ClassLine(enums[n].name)] + values + [";"];
      AllBlockLinesSnoc(enums, n, block);
      blocks := blocks + block;
      n := n + 1;
    }
    assert enums[..|enums|] == enums;
    var source := [AutogenHeader, EnumsPrologue] + blocks + ["}"];
    text := Join(source, "\n");
  }

  /** One `.value` per non-blank comma-separated entry. */
  lemma {:induction false} OneValuePerEntry(pieces: seq<string>)
    ensures |Entries(pieces)| == CountNonBlank(pieces)
    decreases |pieces|
  {
    if pieces != [] {
      var init := pieces[..|pieces| - 1];
      var last := pieces[|pieces| - 1];
      assert init + [last] == pieces;
      OneValuePerEntry(init);
      CountNonBlankSnoc(init, last);
    }
  }

  /** Every enumerator of a body is a stripped, non-blank piece holding no comma. */
  lemma {:induction false} EntriesAreTrimmedPieces(pieces: seq<string>)
    requires forall i :: 0 <= i < |pieces| ==> ',' !in pieces[i]
    ensures forall e :: e in Entries(pieces) ==>
              e != [] && ',' !in e && !IsSpace(e[0]) && !IsSpace(e[|e| - 1])
    decreases |pieces|
  {
    if pieces != [] {
      EntriesAreTrimmedPieces(pieces[..|pieces| - 1]);
      var p := pieces[|pieces| - 1];
      StripIsSlice(p);
    }
  }
}
