# gen.py binding generator — a Dafny model

`gen.py` reads two ScriptHookV headers and writes pybind11 binding source.

For the enum header, it writes one `py::enum_` registration per enum and one `.value("exposed",Name::ident)` per enumerator.

For the natives header, it takes each `namespace` block and sorts every native into one of four dictionaries: getters, setters, members and statics. It renders each native as a C++ lambda through the `types` table (`map_ret`, `map_type`, `wrap`). It then emits the `.def_property` / `.def_property_readonly` / `.def` / `.def_static` lines group by group, each group in sorted key order. The code is collected per type name in `type_def`. Natives whose types cannot be mapped are logged in `failed_natives`. Finally it lists the `empty_types`: the `type_def` keys that the table lacks.

This project models that core as Dafny, one module per stage:

| module | file | models |
|---|---|---|
| `Wrappers` | `wrappers.dfy` | `Option` / `Result` |
| `Text` | `text.dfy` | the Python `str` operations used: `lower`, `in`, `replace(p, '')`, `strip`, `split`, `find`, `join` (ASCII) |
| `Sorting` | `sorting.dfy` | `sorted(d)` on string keys: code-point order, and a sorting method proved against it |
| `Comments` | `comments.dfy` | `strip_comments` |
| `CamelCase` | `camelcase.dfy` | `convert_camel_to_underscore` |
| `Enums` | `enums.dfy` | the loops of `gen_enums` |
| `TypeTable` | `types.dfy` | `types`, `accepted_types`, `map_ret`, `map_type`, `wrap` |
| `Classifier` | `classify.dfy` | the namespace loop up to the four dictionaries |
| `Emitter` | `emit.dfy` | the four emission loops of one namespace, as methods proved against functions |
| `EmitFacts` | `emitfacts.dfy` | what one namespace emits, stated against its dictionaries |
| `Natives` | `natives.dfy` | the loop over namespaces, `type_def` and `empty_types` |

The pure parts are functions:
- `strip_comments`;
- the camel-case conversion;
- `map_ret`, `map_type` and `wrap`;
- the classification of one declaration.

The step-by-step parts are methods with loops, each proved equal to a specification function whose properties are proved as lemmas. They cover:
- the `source_code.append` loops;
- the dictionary filling;
- `for g in sorted(...)` with `code +=`, `del setters[g]` and `failed_natives.append`;
- the `type_def` update.

The source keeps its state in module-level variables and dictionaries, not in objects. So the methods carry that state in local `map` and `seq` variables.

Failure is modelled as a `Result`:
- `map_ret` / `map_type` failing their `assert` gives `Err(type)`.
- An assertion that escapes every `try` gives `UnmappableType` and stops the run. This happens for the getter loop at `gen.py:180-185`.
- A parameter that `pr_r` cannot split makes `pr_r.match(...)` return `None`, and `.groups()` on it raises. This gives `UnparsedParam` and also stops the run.

The emission loops see `wrap` only through its outcome. So they are stated for any function of type `WrapFn`, and the run uses `WrapEntry`, the modelled `wrap`. In the same way, the namespace loop is stated for any `NamespaceFn` and run with `Namespaces(custom)`.

Four consequences of the code that are easy to misread:
- **Enum-name removal.** `enum.replace(name, '')` removes every occurrence of the enum's name, case-sensitively. It does not remove only a leading occurrence, and it does not ignore case.
  - So in `enum VehicleClass { VEHICLE_CLASS_COMPACT }` nothing is removed, and the exposed name is `vehicle_class_compact`.
- **Two-parameter `Is…` natives.** `IsPedArmed(Ped ped, int flags)` takes two parameters, so it is not a getter. Its name `ispedarmed` holds no `ped_` to remove. It is kept as the member `ispedarmed`.
- **Getter failures.** A wrap failure in the getter loop, or in the setter merged into a getter's property, is not caught. It stops the whole run rather than skipping one native.
- **Unsplittable parameters.** A parameter `pr_r` cannot split stops the run too.

## Model

| member | source | states |
|---|---|---|
| Text.Lower | gen.py:37 | `lower()` keeps the length, maps each character through its lower-case form and leaves no upper-case letter |
| Text.RemoveAll | gen.py:166 | `replace(p, '')` never lengthens the text, only keeps characters of the input, and is the identity exactly when `p` does not occur |
| Text.RemoveAllIdentity | gen.py:58 | for a non-empty pattern, `replace(p, '')` changes the text if and only if `p` occurs in it |
| Text.RemoveAllKeepsPrefix | gen.py:168 | a prefix holding no copy of the pattern's first character survives `replace(p, '')` |
| Text.Strip | gen.py:50 | `strip()` never lengthens the text and leaves no whitespace at either end |
| Text.StripIsSlice | gen.py:50 | `strip()` returns a slice of its input whose cut-off ends are all whitespace |
| Text.IndexOf | gen.py:54 | `find(c)` returns the first index holding `c` |
| Text.Split | gen.py:50 | `split(c)` gives at least one piece and no piece holds `c` |
| Text.JoinSplit | gen.py:50 | joining the pieces of `split(c)` with `c` gives the text back |
| Sorting.LexLessTransitive | gen.py:180 | Python's string `<` is transitive |
| Sorting.LexLessTotal | gen.py:180 | Python's string `<` orders any two distinct strings |
| Sorting.HasLeast | gen.py:180 | every non-empty set of keys has a least one, so `sorted` is defined |
| Sorting.SortedList | gen.py:180 | `sorted(d)` lists exactly the keys of `d`, strictly ascending |
| Sorting.SortedListSize | gen.py:180 | `sorted(d)` has one element per key |
| Sorting.SortedListUnique | gen.py:180 | two strictly ascending listings of the same keys are equal, so `sorted(d)` is determined by the key set |
| Sorting.Insert | gen.py:180 | inserting a new key into a strictly ascending list keeps it strictly ascending, with exactly the old keys and the new one |
| Sorting.SortKeys | gen.py:180 | the sorting method returns exactly `sorted(d)` |
| Comments.LineEnd | gen.py:8 | a line comment runs to the first newline, which it does not consume, or to the end of the text |
| Comments.BlockEnd | gen.py:8 | a block comment ends at the first `*/` after its opening, if there is one |
| Comments.StripComments | gen.py:31-32 | `strip_comments` never lengthens the text, returns empty exactly for empty input, and starts with a space or with the input's first character |
| Comments.StripWithoutSlash | gen.py:31-32 | text without `/` holds no comment and comes back unchanged |
| Comments.NoDoubleSlashLeft | gen.py:31-32 | no `//` is left in the output |
| CamelCase.LowerRun | gen.py:9 | the greedy `[a-z]+` run is maximal |
| CamelCase.ConvertCamelToUnderscore | gen.py:35-38 | the converted name has no upper-case letter |
| CamelCase.CamelPass1 | gen.py:36 | defines the first substitution; stated by `Pass1Inserts` and `Pass1NoUpper` |
| CamelCase.CamelPass2 | gen.py:37 | defines the second substitution; stated by `Pass2Inserts` and `Pass2NoUpper` |
| CamelCase.InsertedChars | gen.py:35-38 | inserting underscores brings in no character other than `_` |
| CamelCase.Pass1Inserts | gen.py:36 | the first substitution only inserts `_` characters |
| CamelCase.Pass2Inserts | gen.py:37 | the second substitution only inserts `_` characters |
| CamelCase.InsertedLower | gen.py:37 | lowering both sides keeps "only `_` inserted" |
| CamelCase.ConvertInsertsUnderscores | gen.py:35-38 | the result is the lower-cased input with only `_` characters inserted |
| CamelCase.Pass1NoUpper | gen.py:36 | the first substitution changes nothing in text without upper case |
| CamelCase.Pass2NoUpper | gen.py:37 | the second substitution changes nothing in text without upper case |
| CamelCase.ConvertIdempotent | gen.py:35-38 | converting twice gives the same result as converting once |
| Enums.Ident | gen.py:53-54 | the identifier has no `=`: it is the whole entry when there is no `=`, otherwise the stripped text before the first `=` |
| Enums.ExposedName | gen.py:58 | the exposed name has no upper-case letter |
| Enums.ExposedNameChars | gen.py:58 | the exposed name holds no `=` when the identifier holds none |
| Enums.ValueLineSymbolic | gen.py:56-58 | each `.value` line ends with `Name::ident)`, and for an enum name without `=` holds no `=`: the enumerator is bound by its symbol, never by its value expression |
| Enums.Entries | gen.py:50-52 | defines the enumerators of a body; stated by `EntriesSnoc`, `OneValuePerEntry` and `EntriesAreTrimmedPieces` |
| Enums.ClassLine | gen.py:48 | defines the `py::enum_<Name>(m, "Name")` line; its place in the output is stated by `GenEnums` |
| Enums.ValueLine | gen.py:56-58 | defines the `.value` line; stated by `ValueLineSymbolic` and `EnumValues` |
| Enums.EntriesSnoc | gen.py:50-52 | each comma-separated piece adds its stripped text, or nothing when it is blank |
| Enums.EnumValues | gen.py:50-58 | the inner loop appends exactly the `.value` lines of the body's non-blank stripped entries, in order |
| Enums.GenEnums | gen.py:44-62 | the generated text is the header, the prologue, each block's class line, value lines and `;`, and the closing `}`, joined with newlines |
| Enums.OneValuePerEntry | gen.py:50-52 | there is exactly one enumerator per non-blank piece of the body |
| Enums.EntriesAreTrimmedPieces | gen.py:50-52 | every enumerator is non-empty, holds no comma and has no whitespace at either end |
| TypeTable.HashKnown | gen.py:75 | `Hash` is a table type |
| TypeTable.TableDistinctNames | gen.py:71-96 | no type name appears twice in the table |
| TypeTable.TableParentsEarlier | gen.py:71-96 | every parent the table names is the key of an earlier row |
| TypeTable.TableWellFormed | gen.py:71-96 | the table has distinct names and every parent comes earlier |
| TypeTable.FirstRow | gen.py:71-96 | the lookup finds the first row with the name |
| TypeTable.ParentIndex | gen.py:76-95 | a row's parent is found at a strictly earlier index |
| TypeTable.LineageNamed | gen.py:71-96 | in a table whose parents come earlier, each parent chain names only rows at or before its start and ends at a root |
| TypeTable.TableLineage | gen.py:71-96 | every table type has a finite parent chain of table types ending at a root |
| TypeTable.MapRet | gen.py:104-109 | a table type becomes `Py_` + type; any other type passes unchanged if it is an accepted return type and fails with that type otherwise |
| TypeTable.MapType | gen.py:111-116 | an argument type fails exactly when it is neither a table type nor an accepted type; the call expression is `vn` or `vn.id` |
| TypeTable.PrimitivesAreNotTableTypes | gen.py:101-116 | an accepted type is not a table type and maps to itself, as return and as argument |
| TypeTable.TableTypeMapping | gen.py:104-116 | a table type `T` becomes `Py_T`; as an argument its call expression is `vn.id` |
| TypeTable.ReturnOnlyTypes | gen.py:101-116 | `void` and `Vector3` may be returned but not passed |
| TypeTable.ArgumentTypesAreReturnTypes | gen.py:101-116 | whatever can be passed can be returned, under the same C++ type |
| TypeTable.Substitute | gen.py:119 | only the first parameter's type changes, and only when `force_type` is given, there is a parameter and its type holds no `*`; then it becomes `force_type` |
| TypeTable.MapParams | gen.py:121-122 | every parameter is mapped in order; the error is the type of the first one that cannot be mapped |
| TypeTable.WrapFails | gen.py:118-123 | `wrap` fails exactly when a substituted parameter type or the return type cannot be mapped; a bad parameter is reported before the return type |
| TypeTable.ParamMapping | gen.py:111-116 | a parameter that maps has a table type or an accepted type; it is declared `Py_T name` or `T name`, and passed as `name.id` exactly for a table type |
| TypeTable.ReturnMapping | gen.py:104-109 | a return type that maps is a table type or an accepted return type, and becomes `Py_R` or `R` accordingly |
| TypeTable.WrapText | gen.py:118-123 | a successful `wrap` met only passable parameter types and a returnable return type; the lambda declares the k-th (substituted) parameter `Py_T name` for a table type and `T name` otherwise, passes it as `name.id` or `name`, and returns `Py_R` or `R` |
| TypeTable.Wrap | gen.py:118-123 | defines `wrap`: substitute, map the parameters, then the return type, then render; its behaviour is stated by `WrapFails` and `WrapText` |
| TypeTable.Lambda | gen.py:123 | defines the lambda text; what goes into it is stated by `WrapText` |
| TypeTable.ForcedHandle | gen.py:119-122 | a forced table-type receiver is passed by its handle, `name.id` |
| Classifier.SpaceEnd | gen.py:136 | the `\s+` run is maximal |
| Classifier.WordEnd | gen.py:136 | the `\w+` run is maximal |
| Classifier.LastSplit | gen.py:136 | the greedy `(.*)` takes the largest split point that lets the rest of the pattern match |
| Classifier.ParseParam | gen.py:159 | `pr_r.match` succeeds exactly when some split point exists; the name is a non-empty word |
| Classifier.TypeSpaceName | gen.py:159 | a declared parameter `type name` splits back into its type and its name |
| Classifier.ParseParams | gen.py:159 | a parsed list has one parameter per non-blank piece, each with a non-empty name |
| Classifier.ParseParamsOk | gen.py:159 | the list parses exactly when every non-blank piece is split by `pr_r` |
| Classifier.ParseParamsErr | gen.py:159 | a failed list reports a non-blank piece that `pr_r` cannot split |
| Classifier.TypeName | gen.py:145 | `type_name` keeps the length and the first character and lower-cases the rest |
| Classifier.LowerTypeName | gen.py:145 | `type_name.lower()` equals the lower-cased namespace name |
| Classifier.ShortName | gen.py:161-166 | `s_fn` has no upper case and is no longer than `fn` |
| Classifier.IsMember | gen.py:160 | defines `is_member`; its role is stated by `KeptShape` |
| Classifier.Classify | gen.py:153-176 | defines what the loop body does with one declaration; stated by `DropRule`, `KeptShape`, `KeptKeyLower`, `AccessorKeys` and `GetterKeyPrefixes` |
| Classifier.DropRule | gen.py:153-158 | a declaration is dropped exactly when its lower-cased name lacks `set_control` and it starts with `_0x` or is custom-bound |
| Classifier.KeptShape | gen.py:159-176 | a kept declaration carries `NS::fn`, its return type and its parsed parameters; getters take 1 parameter and setters 2; the first three buckets hold exactly the member functions, which need the type name in the table |
| Classifier.KeptKeyLower | gen.py:161-176 | every dictionary key is lower case |
| Classifier.AccessorKeys | gen.py:166-176 | getter keys lose every `get_`, setter keys every `set_`; member and static keys are `s_fn` |
| Classifier.GetRemovalKeepsPrefixes | gen.py:168 | removing `get_` keeps a leading `is_`, `are_` or `can_` |
| Classifier.GetterKeyPrefixes | gen.py:167-169 | a getter key keeps a leading `is_`, `are_` or `can_` |
| Classifier.Put | gen.py:169-176 | a dictionary assignment changes one bucket at one key and nothing else |
| Classifier.Collect | gen.py:152-176 | defines the dictionary-filling loop over verdicts; stated by `CollectOk`, `CollectContents` and `CollectLast` |
| Classifier.ClassifyAll | gen.py:147-176 | defines one namespace's dictionaries; stated by `BucketContents`, `BucketLast` and `ClassifyAllOk` |
| Classifier.CollectErrSticky | gen.py:152-159 | once the loop has raised, later declarations change nothing |
| Classifier.CollectOk | gen.py:152-159 | the loop raises exactly when some declaration's parameters cannot be split, and then with the first one |
| Classifier.CollectAt | gen.py:169-176 | one step changes a key of a bucket only if it assigns that key |
| Classifier.CollectContents | gen.py:169-176 | a key is in a bucket exactly when some step assigned it |
| Classifier.CollectLast | gen.py:169-176 | a key holds the entry of the last step that assigned it |
| Classifier.Verdicts | gen.py:152-176 | each declaration is classified on its own, in order |
| Classifier.BucketContents | gen.py:152-176 | a key is in a bucket exactly when some declaration of the namespace was classified into it |
| Classifier.BucketLast | gen.py:152-176 | a key holds the entry of the last declaration classified into it; no later one has that key |
| Classifier.ClassifyAllOk | gen.py:152-176 | the namespace is processed to the end exactly when no kept declaration has unsplittable parameters |
| Classifier.ClassifyNamespace | gen.py:147-176 | the dictionary-filling loop returns exactly the specified dictionaries or the exception |
| Emitter.Render | gen.py:181-198 | defines the text of each kind of line, from the format strings of the four loops |
| Emitter.GetterLine | gen.py:181-185 | defines one getter's line; stated by `EmitGetter`, `GetterLineAt` and `EmitAbortFirst` |
| Emitter.GetterDefs | gen.py:180-185 | defines the getter loop; stated by `GetterDefsShape`, `GetterDefsErr` and `GetterLines` |
| Emitter.GroupDefs | gen.py:186-200 | defines a caught loop; stated by `GroupDefsCount`, `GroupDefsItem`, `GroupDefsOnly`, `GroupDefsSorted` and `GroupDefsStep` |
| Emitter.WrapGroup | gen.py:186-200 | each key of a group is wrapped, in order, with the group's force type |
| Emitter.WrapGettersAt | gen.py:180-185 | each getter is wrapped with the namespace's type and paired with the same-key setter, if any |
| Emitter.RenderAllConcat | gen.py:179-200 | the code of two runs of lines is the concatenation of their code |
| Emitter.GetterDefsShape | gen.py:180-185 | the getter loop yields one line per getter, in order; a property exactly when a setter shares the key |
| Emitter.GetterDefsErr | gen.py:180-185 | the getter loop raises exactly when a getter, or the setter merged into it, cannot be wrapped |
| Emitter.GetterDefsErrSticky | gen.py:180-185 | once the getter loop has raised, later getters change nothing |
| Emitter.GroupDefsCount | gen.py:186-200 | a caught loop yields one line or one failure per key, every line in the group's rank |
| Emitter.GroupDefsItem | gen.py:186-200 | a successful wrap emits its line; a failed one logs its native |
| Emitter.GroupDefsOnly | gen.py:186-200 | every line comes from a successful wrap and every failure from a failed one |
| Emitter.GroupDefsSorted | gen.py:186-200 | the lines of a caught loop ascend by key when the keys do |
| Emitter.GroupDefsFailedSilent | gen.py:186-200 | with distinct keys, a key whose wrap fails emits no line |
| Emitter.GroupDefsStep | gen.py:187-190 | one turn of a caught loop appends either one line or one failure, in emission order |
| Emitter.EmitGroup | gen.py:186-200 | the caught loop's code and failures are exactly those of the specified group |
| Emitter.DeletedKeeps | gen.py:183 | a key never deleted keeps its setter |
| Emitter.DeletedAll | gen.py:183 | deleting the getter keys one by one removes exactly those keys from `setters` |
| Emitter.EmitGetter | gen.py:181-185 | one getter's line wraps the getter first, then its same-key setter, if any |
| Emitter.GetterStep | gen.py:180-185 | one turn of the getter loop yields the specified line and deletes exactly that key from `setters` |
| Emitter.EmitGetters | gen.py:179-185 | the getter loop's code is that of the specified lines or the exception; afterwards `setters` no longer holds any getter key |
| Emitter.EmitCaught | gen.py:186-200 | the three caught loops give exactly the specified code and failures |
| Emitter.EmitNamespace | gen.py:179-200 | one namespace's code and failures are those of the specification, or its exception |
| EmitFacts.GetterAbort | gen.py:180-185 | a getter that cannot be wrapped raises an unmappable-type error |
| EmitFacts.GetterDefsAt | gen.py:180-185 | the `i`-th getter line is the one the `i`-th getter yields |
| EmitFacts.GetterDefsFirstErr | gen.py:180-185 | a failed getter loop reports the first getter line that failed |
| EmitFacts.GetterLineAt | gen.py:180-185 | the `i`-th sorted getter yields a property with both lambdas if a setter shares its key, and a read-only property otherwise |
| EmitFacts.GetterLines | gen.py:180-185 | every sorted getter yields its property or read-only line, in order |
| EmitFacts.EmitAborts | gen.py:180-185 | a namespace raises exactly when some getter, or the setter merged into it, cannot be wrapped |
| EmitFacts.EmitAbortFirst | gen.py:180-185 | the exception is the one of the least getter key that cannot be wrapped; the getter's wrap is tried before its setter's |
| EmitFacts.SortedGroupDefs | gen.py:186-200 | a caught group has a line for a key exactly when that key's wrap succeeds, carrying its lambda |
| EmitFacts.SortedGroupFailed | gen.py:186-200 | a caught group logs the natives of exactly the keys whose wrap fails |
| EmitFacts.SortedGroupOrdered | gen.py:186-200 | a caught group's lines carry its rank and ascend by key |
| EmitFacts.SortedGroupSize | gen.py:186-200 | a caught group yields one line or one failure per key |
| EmitFacts.GetterLinesOrdered | gen.py:180 | the getter lines rank first and ascend by key |
| EmitFacts.OrderedAppend | gen.py:179-200 | appending higher-ranked ordered lines keeps the output ordered |
| EmitFacts.OrderedGroups | gen.py:179-200 | four ordered runs of ranks 0 to 3 make an ordered output |
| EmitFacts.EmitOrdered | gen.py:179-200 | a namespace's lines come getters, setters, members, statics, each by ascending key |
| EmitFacts.LineOfRank | gen.py:179-200 | a line's rank fixes which group it can come from |
| EmitFacts.EmitRuns | gen.py:179-200 | the lines are the four groups in order, each with its rank |
| EmitFacts.GetterPropertyMembers | gen.py:181-183 | the getter loop yields `def_property` for exactly the keys that are both getter and setter, with both lambdas |
| EmitFacts.GetterReadOnlyMembers | gen.py:184-185 | the getter loop yields `def_property_readonly` for exactly the getter keys without a setter |
| EmitFacts.EmitGetterLines | gen.py:180-185 | a namespace emits a property for exactly each getter with a same-key setter, and a read-only property for each other getter |
| EmitFacts.EmitSetterLines | gen.py:186-190 | a `set_` line comes exactly from a setter whose key no getter has and whose wrap succeeds; a merged setter is never emitted on its own |
| EmitFacts.EmitMemberLines | gen.py:191-195 | a member line comes exactly from a member whose wrap succeeds |
| EmitFacts.EmitStaticLines | gen.py:196-200 | a static line comes exactly from a static whose wrap, without a force type, succeeds |
| EmitFacts.EmitFailed | gen.py:186-200 | the logged failures are exactly the natives of leftover setters, members and statics whose wrap fails (their order is stated by `EmitFailedOrder`) |
| EmitFacts.GroupFailedPrefix | gen.py:186-200 | after the first `i` keys, a caught loop has logged the natives of the failing ones among them, in key order |
| EmitFacts.GroupFailedAmong | gen.py:186-200 | a caught loop logs exactly the natives of its failing keys, in the order the keys come |
| EmitFacts.EmitFailedOrder | gen.py:186-200 | a namespace's failures come in emission order: the failing leftover setters, then the failing members, then the failing statics, each by ascending key |
| EmitFacts.EmitSize | gen.py:179-200 | each getter with its merged setter, and each other native, yields exactly one line or one failure |
| Natives.InitialTypeDefs | gen.py:98-99 | `type_def` starts with the single key `Hash` holding its constructor |
| Natives.AddCode | gen.py:202-205 | `type_def[tn]` gains the code after its old code; a new key goes last, old keys keep their place and code |
| Natives.WrapEntryError | gen.py:118-123 | a failed wrap names a type that is neither a table type nor an accepted type |
| Natives.NamespaceAbortCause | gen.py:152-185 | a namespace raises only on an unsplittable parameter or on a getter type that cannot be passed |
| Natives.RunSpec | gen.py:139-205 | the loop keeps `type_def` an insertion-ordered dictionary |
| Natives.RunErrSticky | gen.py:139-205 | once a namespace has raised, later ones change nothing |
| Natives.RunAborts | gen.py:139-205 | the run raises exactly when some namespace raises |
| Natives.RunKeys | gen.py:139-205 | `type_def`'s keys are `Hash`, first, and the type name of each namespace that matched |
| Natives.RunHashFirst | gen.py:99 | `Hash` keeps its constructor at the head of its code |
| Natives.RunFailed | gen.py:139-205 | a name is in `failed_natives` exactly when some namespace logged it (the order is stated by `RunFailedOrder`) |
| Natives.RunFailedOrder | gen.py:139-205 | `failed_natives` is the namespaces' failure lists joined in the order the namespaces come |
| Natives.RunCode | gen.py:202-205 | `type_def[tn]` is `Hash`'s constructor for `Hash`, followed by the code of every namespace with type name `tn`, in the order they come; a name without an entry has no code |
| Natives.EmptyTypes | gen.py:208 | `empty_types` holds exactly the keys that are not table types, no more of them than there are keys (order: `EmptyTypesInOrder`) |
| Natives.UnknownPositions | gen.py:208 | the positions it lists are within the key order and strictly ascending |
| Natives.UnknownPositionsMembers | gen.py:208 | a position is listed exactly when its key is not a table type |
| Natives.EmptyTypesAt | gen.py:208 | the `j`-th empty type is the key at the `j`-th listed position |
| Natives.EmptyTypesInOrder | gen.py:208 | `empty_types` is the key order with the table types taken out, in the keys' insertion order |
| Natives.EmptyTypesDistinct | gen.py:208 | keys listed once give empty types listed once |
| Natives.EmptyTypesOfRun | gen.py:208 | `empty_types` names exactly the type names of namespaces missing from the table, and never `Hash` |
| Natives.EmptyTypesOfRunDistinct | gen.py:208 | after the run, `empty_types` lists each name once |
| Natives.GenNatives | gen.py:139-208 | the namespace loop returns exactly the specified `type_def`, its key order, `failed_natives` and `empty_types`, or the exception |

## Left out

- File input and output are parameters or results instead. This covers `read_and_strip_comments`, `write_to_path`, the `open(...)` blocks (`gen.py:26-28`, `127-132`), the write of `failed_natives.txt` (`gen.py:210-211`) and the header files written at `gen.py:213-279`.
- The fixed C++ template text at `gen.py:213-279`, including the hard-coded `Vector3` binding, is not modelled. It is boilerplate.
- All `print` logging is left out, including the per-namespace counts at `gen.py:206` and the "Failed to parse NS" message.
- The `GEN_ENUMS` / `GEN_NATIVES` switches (`gen.py:5-6`) are configuration only.
- The regular expressions that find blocks are not modelled. Their matches are inputs:
  - `REGEX_ENUM` gives `EnumBlock`;
  - `ns_r` gives a `Chunk`, `Unmatched` when it does not match;
  - `fn_r` gives `RawDecl`.

  `src.split('namespace')` is likewise taken as given by the sequence of chunks.
- `custom_r` scraping of `src/custom.cpp` (`gen.py:126-129`) is not modelled. The custom set is an input.
- The regexes the code does transform text with are modelled exactly, but over ASCII only: `REGEX_STRIP_COMMENTS`, the two camel-case patterns and `pr_r`. Python's Unicode `\w`, `\s` and `lower()` for non-ASCII characters are not modelled.
- `TypeTable.Wrap` does not model that `wrap` overwrites `params[0]` in the caller's list. The tuple list is rebuilt per declaration, and each entry is wrapped once per emission. So the mutation is never observed, and the model substitutes into a copy.
- `TypeTable.MapRet` / `TypeTable.MapType` model the failing `assert` as an `Err` carrying the type. The assertion message text is not modelled.
- `Natives.GenNatives` ends the run with an `Err` where Python raises. By then `gen_enums` has already written `src/enums.cpp` (`gen.py:62`, called at `gen.py:68`). The model's `Err` says nothing about that file, or about anything else written before the exception.
- The emission lemmas are stated for any `WrapFn`, and the run instantiates them with `WrapEntry`. Properties that depend on what `wrap` renders are stated in `TypeTable` separately.
- `Sorting.SortKeys`: `sorted` is modelled by insertion into a sequence. Python's sort algorithm is not modelled, only its result.
