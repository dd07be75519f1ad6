# Canonical records of the OGP toolbox data

The toolbox's harvesters store each actor, project and tool as a YAML record with one entry
per data source (`civic-graph`, `participatedb`, `wikidata`, `debian`, ...). This project
models, in Dafny, how those records are turned into one `canonical` view and then exported:

- **generate_canonical.py** reads every record of one entity type. For each field it walks a
  fixed table of dotted candidate paths and resolves each path with `get_path`. It then
  merges what it finds into a `canonical` mapping. Each field has a policy:
  - scalar fields take the first non-blank string;
  - descriptions take one scalar per language, or, for tools, the first item seen per language;
  - tags become per-language sorted value sets with the sorted sources of each value;
  - tool and programming-language lists become one sorted value set.
- **generate_canonical.js** is the JavaScript port. It drives the same merge from a tree of
  priority lists, with a default tree and an optional per-file override. It resets
  `canonical` before the merge and orders the dumped keys with `sortKeys`.
- **canonical_yaml_to_csv.py** reads the `canonical` mapping of each project and tool and
  writes one CSV row per named entry. Rows are sorted by name, and the tag and tool lists
  are padded to a common width.
- **yaml_to_csv.py** flattens arbitrary records into path → text dictionaries. The sorted
  union of their paths gives the CSV columns, labelled `a.b[0].c`.

Modules:

| module | file | contents |
|---|---|---|
| `Wrappers` | wrappers.dfy | `Option`, `Result` |
| `Text` | text.dfy | whitespace stripping, digits, decimal text, dotted split and join |
| `Order` | order.dfy | code-point order on strings, increasing sequences |
| `Tree` | tree.dfy | the YAML node, keyed lookup and update, iteration, path walks |
| `Resolve` | resolve.dfy | both `get_path` functions and `get_path_source` |
| `Extract` | extract.dfy | the `extract_from_*` generators |
| `Provenance` | provenance.dfy | sourced value sets, per-language tag groups, first-per-language |
| `Canonical` | canonical.dfy | the per-field loops, the policies, the merge and the attach |
| `Tables` | tables.dfy | the actors', projects' and tools' field tables |
| `Sheets` | sheets.dfy | canonical_yaml_to_csv.py |
| `Flatten` | flatten.dfy | yaml_to_csv.py |
| `Priorities` | priorities.dfy | generate_canonical.js |

Errors the programs raise are values in the model:

- `Canonical.Failure` models the Python `assert`, `.strip()` on a non-string, and a
  generator that cannot read its node.
- `Sheets.Failure` covers `KeyError`, `TypeError` and an unorderable sort.
- `Priorities.JsError` covers the JavaScript errors.
- `Flatten.Raise` models Python 3's `TypeError` on comparing `str` with `int`.

In the Python scripts an error stops the run, and the model returns the error instead of a
result. generate_canonical.js is different: its driver catches the error of each file, logs
it and goes on with the other files (generate_canonical.js:179-185), so a `JsError` stops
only the update of the one file (`Priorities.UpdateFile`).

## Model

| member | source | states |
|---|---|---|
| Text.Strip | generate_canonical.py:204 | `value.strip()`: the result is empty exactly when the text is all whitespace; otherwise it neither starts nor ends with whitespace, and it is the text with only whitespace removed at both ends |
| Text.StripIdempotent | generate_canonical.py:246 | stripping an already stripped item changes nothing |
| Text.Decimal | yaml_to_csv.py:137 | the decimal text of an index is all digits, denotes that index, has no leading zero, and holds no `.`, `[` or `]` |
| Text.SplitJoin | generate_canonical.js:22 | splitting at every dot the join of non-empty dot-free segments gives the segments back |
| Text.JoinSplit | generate_canonical.js:22 | joining the pieces of `split('.')` with dots gives the original string back |
| Text.SplitAll | generate_canonical.js:22 | `split('.')` always gives at least one piece, and the first is the text before the first dot |
| Text.Join | generate_canonical.js:81 | no contract of its own: Text.SplitJoin and Text.JoinSplit state that it inverts `split('.')` |
| Order.LessTotal | generate_canonical.py:256 | Python's string order compares any two different strings |
| Order.LessTransitive | generate_canonical.py:256 | Python's string order is transitive |
| Order.Insert | generate_canonical.py:253 | adding a source to a sorted source list keeps it strictly increasing and adds exactly that source |
| Order.IncreasingUnique | generate_canonical.py:253 | `sorted(sources)` is determined by the set of sources alone |
| Tree.Find | generate_canonical.py:135 | `item.get(key)` is absent exactly when no entry has the key, and is otherwise the value of an entry with that key |
| Tree.Put | generate_canonical.py:274 | after `entry[key] = v` the key reads back `v`, every other key reads as before, and at most one entry is added |
| Tree.PutPut | generate_canonical.js:92 | a second assignment to the same key overrides the first |
| Tree.PutFound | generate_canonical.py:274 | assigning a key the value it already holds leaves the mapping unchanged |
| Tree.Iterate | generate_canonical.py:76 | `for item in value` yields a list's items, a mapping's keys or a string's characters, and raises on anything else |
| Tree.WalkAppend | generate_canonical.py:138 | following a path in two parts is following the first part and then the second |
| Resolve.GetPath | generate_canonical.py:120-138 | `None` resolves to `None`, the empty path to the item itself, and a single piece to the child it names |
| Resolve.GetPathIsWalk | generate_canonical.py:120-138 | a dotted path without a trailing dot resolves as the walk of its pieces: digit pieces index lists, other pieces look up mapping keys, and a wrong kind or a missing child gives `None` |
| Resolve.PathSource | generate_canonical.py:141-142 | the source tag is the prefix of the path up to its first dot, and contains no dot |
| Resolve.GetPathOrIsDefaulted | canonical_yaml_to_csv.py:74-92 | the default-taking resolver answers `default` exactly where the plain resolver answers `None`, and agrees with it elsewhere |
| Resolve.GetPathOr | canonical_yaml_to_csv.py:74-92 | no contract of its own: Resolve.GetPathOrIsDefaulted relates it to Resolve.GetPath |
| Extract.ValueByLanguage | generate_canonical.py:109-111 | `None` yields nothing; a mapping yields one `(language, item)` pair per entry, in order; anything else raises |
| Extract.NameId | generate_canonical.py:80-86 | `None` yields nothing; a non-mapping or one without `name` raises; a string name yields the single pair `('en', name)`; any other name is expanded by language |
| Extract.WikidataItems | generate_canonical.py:114-117 | the pairs are `(xml:lang, value)` of the leading readable items; the generator raises exactly when some item is not a mapping holding `value` and a string or absent `xml:lang` |
| Extract.Extract | generate_canonical.py:74-117 | no strategy yields anything for `None`, and a fixed-language strategy tags every pair with its language |
| Extract.ExtractSpec | generate_canonical.py:74-117 | on any node but `None`: the value strategy yields the one pair `(language, value)`; the list strategies raise on a node that cannot be iterated; the list strategy yields one pair per iterated item, in order, tagged with its language; the singleton-or-list strategy does that on a list and yields the node itself otherwise; the name/id, name/id-list, by-language and Wikidata strategies yield what their readers yield |
| Extract.SingletonOrListAgrees | generate_canonical.py:95-101 | the singleton-or-list strategy acts as the list strategy on a list and as the value strategy otherwise |
| Extract.NameIdItemsRaises | generate_canonical.py:89-92 | a list of name/id objects raises exactly when one of its objects does |
| Extract.ExtractRaises | generate_canonical.py:74-117 | a strategy raises on a node exactly when the node has a shape it cannot read: never for the value strategies; a non-iterable node for the list strategies; a non-mapping, a missing `name` or a name that is neither string, `None` nor mapping for name/id (in any item, for the list form); a non-mapping for by-language; an item without `value` or with a non-string language for Wikidata |
| Provenance.AddEntry | generate_canonical.py:365 | `setdefault(item, set()).add(source)` on the sorted form: it stays sorted and duplicate-free, gains the value, and only that value gains the source |
| Provenance.SummarizesAdd | generate_canonical.py:365 | adding each contribution in turn keeps the entries equal to the value set and per-value source sets of the contributions so far |
| Provenance.SourcedSet | generate_canonical.py:354-373 | the stored list holds exactly the contributed values, each with the sorted set of the sources that contributed it, sorted by value |
| Provenance.CanonicalUnique | generate_canonical.py:367-373 | two sorted summaries of the same values and sources are equal |
| Provenance.SourcedSetOrderFree | generate_canonical.py:354-373 | the stored list depends only on which contributions were made, not on their order or repetition |
| Provenance.AddToGroups | generate_canonical.py:248 | adding one tag keeps one group per language in first-seen order, each summarizing that language's tags |
| Provenance.TagGroups | generate_canonical.py:236-257 | the tag groups are the languages of the contributions, in first-seen order, each holding the sorted value set of that language |
| Provenance.TagGroupsExtend | generate_canonical.py:250 | later contributions only append new languages; the order of earlier languages is final |
| Provenance.FirstPerLanguage | generate_canonical.py:467-491 | each language that contributed gets exactly one slot, holding the first description contributed in that language |
| Provenance.FirstPerLanguageExtend | generate_canonical.py:487 | later contributions never change an existing slot, they only add slots |
| Provenance.FirstOfFound | generate_canonical.py:487 | a language has a first description exactly when some contribution is in that language |
| Canonical.FirstMatch | generate_canonical.py:199-210 | a found scalar is non-blank and tagged with a dot-free source; a failure names one of the candidate paths |
| Canonical.FirstMatchSpec | generate_canonical.py:199-210 | the scalar is absent exactly when every path gives `None` or blank text; otherwise the first other path decides, with its stripped string or the failure of `.strip()` |
| Canonical.FirstMatchDecided | generate_canonical.py:210 | `break`: once a prefix of the paths has decided the field, later paths cannot change it |
| Canonical.FirstMatchUndecided | generate_canonical.py:199-210 | when a prefix decides nothing, the remaining paths decide alone |
| Canonical.LanguageTable | generate_canonical.py:215-233 | there is at most one slot per language of the table, and every slot holds non-empty text |
| Canonical.LanguageTableOk | generate_canonical.py:215-233 | the description table succeeds exactly when every language's search does |
| Canonical.LanguageTableSlots | generate_canonical.py:215-233 | a language has a slot exactly when its search found a string, and the slot holds what was found |
| Canonical.LanguageTableFailure | generate_canonical.py:215-233 | a failing table fails with the failure of one language's search |
| Canonical.Accept | generate_canonical.py:243-247 | accepting fails only on a non-string item; accepted items are non-empty, of a kept language and tagged with the candidate's source |
| Canonical.AcceptOk | generate_canonical.py:244 | `assert isinstance(item, str)` fails exactly when some yielded item is not a string, whatever its language |
| Canonical.AcceptSpec | generate_canonical.py:245-248 | the accepted contributions are exactly the stripped string items of a kept language that are not blank |
| Canonical.Contribute | generate_canonical.py:241-248 | one candidate fails only with its own path, and contributes non-empty items of kept languages under its source tag |
| Canonical.Collect | generate_canonical.py:237-248 | every collected contribution has a kept language and non-empty text |
| Canonical.CollectOk | generate_canonical.py:237-248 | collecting succeeds exactly when every candidate does |
| Canonical.CollectMembers | generate_canonical.py:237-248 | the collection holds exactly the contributions of the candidates |
| Canonical.CollectFirstFailure | generate_canonical.py:237-248 | a failed collection carries the failure of the first failing candidate |
| Canonical.CollectAppend | generate_canonical.py:237-248 | reading more candidates only appends contributions; earlier ones are final |
| Canonical.Read | generate_canonical.py:199-257 | a field's loop gathers a reading of the shape its policy expects |
| Canonical.Build | generate_canonical.py:249-257 | a field is absent exactly when nothing was gathered; otherwise it holds the first scalar, the language slots, the first-per-language slots, the tag groups, or the sourced set |
| Canonical.Merge | generate_canonical.py:194-274 | a merge never holds more fields than the table has |
| Canonical.MergeOk | generate_canonical.py:194-274 | the merge succeeds exactly when every field's loop does |
| Canonical.MergeMembers | generate_canonical.py:194-274 | a successful merge holds exactly the present fields |
| Canonical.MergeFirstFailure | generate_canonical.py:194-274 | a failed merge carries the failure of the first failing field |
| Canonical.CanonicalNode | generate_canonical.py:206-274 | the `canonical` mapping assigned to `entry['canonical']` has one entry per field, in the order the fields were set, named after the field |
| Canonical.MergeEntry | generate_canonical.py:273-274 | a failure propagates; an empty merge leaves the record as it is; otherwise a mapping record gets `canonical` set to the fields and every other key kept, and any other record fails |
| Canonical.FieldReads | generate_canonical.py:202 | a field depends on the record only through the nodes its paths resolve to |
| Canonical.MergeReads | generate_canonical.py:191-274 | two records that agree on every path of the table merge alike |
| Canonical.GetPathBesidesKey | generate_canonical.py:120-138 | replacing one key of a mapping changes nothing a path starting at another key resolves to |
| Canonical.MergeBesidesCanonical | generate_canonical.py:273-274 | whatever a record holds under `canonical`, a table that never reads it merges the same fields |
| Canonical.MergeEntryIdempotent | generate_canonical.py:273-274 | running the merge on its own output gives the same record |
| Canonical.EmptyMergeKeepsStale | generate_canonical.py:273 | a record whose fields all come out empty keeps the `canonical` entry it already had |
| Canonical.MergeNull | generate_canonical.py:121-122 | in an empty record every field is absent |
| Canonical.NonMappingUntouched | generate_canonical.py:273-276 | a record that is not a mapping is written back unchanged, provided no path starts with an index |
| Tables.NameIsPiece | generate_canonical.py:443-462 | every source name is a single key: no dot, not `canonical`, not all digits |
| Tables.LoweredAvoids | generate_canonical.py:408-606 | no path of any table is empty, starts at `canonical`, or starts with an index |
| Tables.Canonicalize | generate_canonical.py:191-276 | an empty document is written back as `None`, and any other non-mapping record unchanged |
| Tables.CanonicalizeIdempotent | generate_canonical.py:273-274 | for each entity type's table, running the program on its own output leaves every record as it is |
| Flatten.LeafText | yaml_to_csv.py:81-88 | a leaf has text exactly when it is a string or another non-`None` scalar |
| Flatten.Flat | yaml_to_csv.py:84 | the flat dict has a key for exactly the paths at which a leaf was stored, and each value is a stored leaf text |
| Flatten.LeavesAreTreeLeaves | yaml_to_csv.py:74-88 | `flatten` records `(path, text)` exactly when walking the record along the path reaches a scalar with that text |
| Flatten.Leaves | yaml_to_csv.py:74-88 | no contract of its own: Flatten.LeavesAreTreeLeaves and Flatten.FlatIsTree state what it collects |
| Flatten.FlatIsTree | yaml_to_csv.py:74-88 | a path is in the flat dict exactly when the record holds a scalar there, and the dict gives that scalar's text |
| Flatten.RecordPaths | yaml_to_csv.py:82-87 | the paths added to the column set are exactly the non-empty paths of stored leaves |
| Flatten.AllPaths | yaml_to_csv.py:119-124 | the column set is the union, over all records, of their non-empty leaf paths |
| Flatten.LabelOf | yaml_to_csv.py:129-138 | the label loop computes the recursive label: keys joined by `.`, indices as `[i]` |
| Flatten.Label | yaml_to_csv.py:129-138 | no contract of its own: Flatten.LabelOf, Flatten.LabelRoundTrip and Flatten.LabelInjective state it |
| Flatten.LabelRoundTrip | yaml_to_csv.py:129-138 | when no key contains `.` or `[` and none is empty, parsing a label gives back its path |
| Flatten.LabelInjective | yaml_to_csv.py:129-138 | when no key contains `.` or `[` and none is empty, different paths get different labels |
| Flatten.DottedKeyCollides | yaml_to_csv.py:131-134 | the key `a.b` and the path `a`, `b` get the same label |
| Flatten.PathLessAgrees | yaml_to_csv.py:127 | where Python 3's tuple comparison does not raise, it agrees with the int-before-str order, and it raises in one direction exactly when it does in the other |
| Flatten.PyLess | yaml_to_csv.py:127 | no contract of its own: Python 3's tuple comparison; Flatten.PathLessAgrees and Flatten.MixedColumnsRaise state when it raises and what it answers |
| Flatten.PathLessTotal | yaml_to_csv.py:127 | the int-before-str path order is total and asymmetric |
| Flatten.PathLessTransitive | yaml_to_csv.py:127 | the int-before-str path order is transitive |
| Flatten.PathInsert | yaml_to_csv.py:127 | inserting a path keeps the columns strictly increasing and adds exactly that path |
| Flatten.SortPaths | yaml_to_csv.py:127 | `sorted(paths)`: strictly increasing and holding exactly the given paths |
| Flatten.MixedColumnsRaise | yaml_to_csv.py:127 | as written, a record with a list under `a` and another with a mapping under `a` make `sorted(paths)` raise |
| Flatten.ColumnsAsWrittenAgree | yaml_to_csv.py:127 | when `sorted(paths)` does not raise, its result is the corrected column order, increasing under Python 3's comparison |
| Flatten.ColumnsAreLeaves | yaml_to_csv.py:119-127 | the columns are increasing and are exactly the non-empty paths at which some record holds a scalar |
| Flatten.Columns | yaml_to_csv.py:127 | no contract of its own: Flatten.ColumnsAreLeaves states it |
| Flatten.ColumnsAsWritten | yaml_to_csv.py:127 | no contract of its own: Flatten.MixedColumnsRaise and Flatten.ColumnsAsWrittenAgree state it |
| Flatten.CsvCells | yaml_to_csv.py:140-147 | every row is as wide as the header; the header is the columns' labels; a cell is the record's scalar text at the column's path, or `''` |
| Flatten.ToCsv | yaml_to_csv.py:140-147 | no contract of its own: Flatten.CsvCells and Flatten.HeaderDistinct state it |
| Flatten.HeaderDistinct | yaml_to_csv.py:126-142 | when no key contains `.` or `[` and none is empty, no two columns share a header |
| Sheets.CanonicalOf | canonical_yaml_to_csv.py:133 | `project['canonical']` succeeds exactly when the record is a mapping holding the key |
| Sheets.Values | canonical_yaml_to_csv.py:134-137 | the values list fails only with the list's path, and otherwise has one value per item |
| Sheets.ValuesSpec | canonical_yaml_to_csv.py:134-137 | `[tag['value'] for tag in ...]` fails exactly when some item is not a mapping holding `value`, and otherwise takes each item's value |
| Sheets.ListAt | canonical_yaml_to_csv.py:136 | a list read fails only because its node cannot be iterated or an item has no `value` |
| Sheets.ListAtAbsent | canonical_yaml_to_csv.py:136 | an absent list reads as no items |
| Sheets.ListsAt | canonical_yaml_to_csv.py:134-141 | one list per path, and a failure comes from one of the paths |
| Sheets.ReadEntry | canonical_yaml_to_csv.py:132-148 | an entry has one scalar per column and one list per list column; any failure other than a missing `canonical` comes from the lists |
| Sheets.ReadEntrySpec | canonical_yaml_to_csv.py:132-148 | a record without `canonical` stops the script; otherwise only a bad list does, and the entry's name and scalars are the resolved paths |
| Sheets.ReadAll | canonical_yaml_to_csv.py:132-148 | a successful read gives one well-shaped entry per record |
| Sheets.ReadAllEntries | canonical_yaml_to_csv.py:132-148 | the `k`-th entry is the `k`-th record's |
| Sheets.ReadAllFailure | canonical_yaml_to_csv.py:132-148 | a failed read carries the failure of one of the records |
| Sheets.Width | canonical_yaml_to_csv.py:149-152 | `tagsCount` is the length of the longest list, or 0 |
| Sheets.Widths | canonical_yaml_to_csv.py:149-152 | one width per list column |
| Sheets.SortEntries | canonical_yaml_to_csv.py:161 | the sort raises exactly when there are at least two entries and some name is neither a string nor falsy |
| Sheets.SortEntriesSpec | canonical_yaml_to_csv.py:161 | the sorted entries are a permutation of the read ones, ordered by `name or ''`, with equal names in reading order |
| Sheets.SortKey | canonical_yaml_to_csv.py:161 | no contract of its own: the key `entry['name'] or ''`; Sheets.SortEntriesSpec and Sheets.SortEntries state the sort by it |
| Sheets.SortedNamesOrdered | canonical_yaml_to_csv.py:161 | the sorted names never decrease |
| Sheets.SortedSameEntries | canonical_yaml_to_csv.py:161 | sorting keeps exactly the entries it was given |
| Sheets.Named | canonical_yaml_to_csv.py:162-165 | the kept entries are exactly those whose name is not `None`, and there are no more of them than entries; Sheets.NamedPicks fixes their order and multiplicity |
| Sheets.NamedOrdered | canonical_yaml_to_csv.py:162-165 | skipping unnamed entries keeps the names ordered |
| Sheets.NamedPositions | canonical_yaml_to_csv.py:162-165 | the positions of the entries whose name is not `None`, each once, in increasing order |
| Sheets.NamedPicks | canonical_yaml_to_csv.py:162-165 | row `a` is the entry at the `a`-th named position: every named entry gets a row, once, in order, repeats included |
| Sheets.Or | canonical_yaml_to_csv.py:169-171 | `x or ''` is `x` when truthy and `''` otherwise |
| Sheets.RowAligned | canonical_yaml_to_csv.py:156-172 | a row is as long as the header, and every list item sits under its list's header, followed by empty cells up to the widest list |
| Sheets.Row | canonical_yaml_to_csv.py:166-172 | no contract of its own: Sheets.RowAligned and Sheets.SheetLayout state its layout |
| Sheets.ToSheetFails | canonical_yaml_to_csv.py:132-173 | a run fails exactly when reading some record fails or the names cannot be ordered |
| Sheets.ToSheetRows | canonical_yaml_to_csv.py:154-173 | the rows are exactly the named entries, in non-decreasing name order, each as wide as the header |
| Sheets.ToSheet | canonical_yaml_to_csv.py:154-173 | no contract of its own: Sheets.ToSheetRows, Sheets.ToSheetFails and Sheets.SheetLayout state it |
| Sheets.SheetLayout | canonical_yaml_to_csv.py:154-173 | the header comes from the widths over all entries, including unnamed ones, and row `k` is that of the `k`-th named entry |
| Priorities.Member | generate_canonical.js:23 | `o[key]` on an object is its own property of that name |
| Priorities.GetStops | generate_canonical.js:21-25 | once `get` meets `undefined` or `null`, it returns that value |
| Priorities.GetAppend | generate_canonical.js:21-25 | resolving a key path in two parts is resolving the first part and then the second |
| Priorities.GetSkipsEmpty | generate_canonical.js:23 | an empty key segment is skipped by `get` |
| Priorities.Get | generate_canonical.js:21-25 | `get` from `undefined` or `null` answers that value whatever the path; a dot-free path is one member access, or none when it is empty |
| Priorities.Assign | generate_canonical.js:30 | `o[key] = value` reads back the value; on an object it always succeeds, keeps the other keys, and keeps the kind |
| Priorities.SetKeys | generate_canonical.js:27-40 | a successful `set` on an object changes only the first key of the path, and keeps the kind of the root |
| Priorities.SetThenGet | generate_canonical.js:27-40 | when no segment is empty, `get` reads back what `set` wrote |
| Priorities.Set | generate_canonical.js:27-40 | a successful `set` keeps the root an object or an array; a dot-free key on an object always succeeds; when no segment is empty, `get` of the same path reads back the value written |
| Priorities.Descend | generate_canonical.js:34-38 | `set` goes on into the member when it is neither `undefined` nor `null`, and into a fresh `{}` otherwise |
| Priorities.AssignFrame | generate_canonical.js:30 | `o[key] = value` on an object or an array changes no member but `key`; on arrays this uses that two index spellings with the same value are one string |
| Priorities.IndexSpellingUnique | generate_canonical.js:23 | an array index has one spelling: digit strings without a leading zero that denote the same number are equal |
| Priorities.SetKeysTopFrame | generate_canonical.js:27-40 | a successful `set` on an object or an array changes no member but the first key of its path |
| Priorities.SetKeysDescends | generate_canonical.js:27-40 | `set` with more than one key writes under the first key the result of `set` one level down, and a missing or `null` member becomes an object |
| Priorities.SetKeysFrame | generate_canonical.js:27-40 | a path that leaves the written path after some shared segments reads after `set` what it read before, unless the shared part was missing or `null`, in which case `set` created `{}` there and the path reads `undefined` |
| Priorities.EmptySegmentNotReadBack | generate_canonical.js:23 | `set` writes under an empty segment that `get` then skips, so `a.` does not read back |
| Priorities.KeyPriorities | generate_canonical.js:47-51 | the priority node comes from the custom tree or from the default tree |
| Priorities.FalsyStaysFalsy | generate_canonical.js:48-50 | a falsy tree yields falsy lookups down any path |
| Priorities.CustomOverrides | generate_canonical.js:47-51 | a truthy custom entry overrides the default, but never at the root path `''` |
| Priorities.ObjectKeys | generate_canonical.js:78 | `Object.keys` raises exactly on `undefined` and `null` |
| Priorities.KeysAreMembers | generate_canonical.js:78 | every key `Object.keys` lists reads back as a member |
| Priorities.WriteKey | generate_canonical.js:68 | an accumulating property is written under its name without the trailing `[]` |
| Priorities.ReadKey | generate_canonical.js:62 | the `replace` on the property name removes exactly one character when the key holds a `[` or ends with `]`, and leaves it unchanged otherwise |
| Priorities.ReadKeyMisses | generate_canonical.js:62 | as written, the list for `w[]` is read back from `w]`, not from `w`, where it is written |
| Priorities.Added | generate_canonical.js:63-67 | an array value adds one `{value, source}` per element, and any other value adds one |
| Priorities.AccumulateDropsEarlier | generate_canonical.js:61-69 | as written, each step starts a fresh list, dropping what earlier candidates stored |
| Priorities.AccumulateFixedAppends | generate_canonical.js:61-69 | corrected, each step appends to the list already stored |
| Priorities.Concat | generate_canonical.js:63-67 | the `concat` onto the current value, or onto `[]` when it is falsy, succeeds exactly when the current value is falsy or an array; the result is the current array's items (none when falsy) followed by the added pairs; a truthy string answers `Unmodelled`, any other truthy non-array `TypeError` |
| Priorities.Accumulate | generate_canonical.js:61-69 | no contract of its own: Priorities.AccumulateDropsEarlier states the step as written, and Priorities.AsWrittenKeepsLast its effect on two candidates |
| Priorities.AccumulateFixed | generate_canonical.js:61-69 | no contract of its own: Priorities.AccumulateFixedAppends states the corrected step, and Priorities.FixedKeepsBoth its effect on two candidates |
| Priorities.SetCanonical | generate_canonical.js:68-71 | no contract of its own: `set(destData, ...)` through the record; Priorities.SetCanonicalKeepsOutside and Priorities.FoundIsReadBack state it |
| Priorities.GetCanonical | generate_canonical.js:62 | no contract of its own: `get(destData, ...)` through the record; Priorities.FoundIsReadBack states that it reads back what Priorities.SetCanonical wrote |
| Priorities.AsWrittenKeepsLast | generate_canonical.js:56-74 | as written, two found candidates of `t[]` leave only the second one's value |
| Priorities.FixedKeepsBoth | generate_canonical.js:56-74 | corrected, two found candidates of `t[]` leave both values, in candidate order |
| Priorities.FirstFoundWins | generate_canonical.js:56-74 | for a plain property, the first defined candidate is written with its first segment as source, and the loop breaks |
| Priorities.NoneFound | generate_canonical.js:56-74 | when no candidate is defined, nothing is written |
| Priorities.FoundIsReadBack | generate_canonical.js:71 | the written `{value, source}` reads back under `canonical` at the property path |
| Priorities.CandidatesStep | generate_canonical.js:58-69 | for an accumulating property, a found candidate updates the record and the loop goes on (`continue`) with the next candidate from the updated record |
| Priorities.SetCanonicalKeepsOutside | generate_canonical.js:102-103 | a write under `canonical` changes no other key of the record |
| Priorities.AccumulateKeepsOutside | generate_canonical.js:61-69 | an accumulation step, in either variant, changes no key but `canonical` |
| Priorities.CandidatesKeepOutside | generate_canonical.js:56-74 | the candidate loop changes no key but `canonical` |
| Priorities.Candidates | generate_canonical.js:56-74 | no contract of its own: Priorities.FirstFoundWins, Priorities.NoneFound, Priorities.FoundIsReadBack and Priorities.CandidatesKeepOutside state what the loop does |
| Priorities.UpdateKeyKeepsOutside | generate_canonical.js:46-85 | in the model, which stores copies of the values it finds, `updateKey` changes no key but `canonical`; JavaScript stores references, and a later write through one can change the record elsewhere (see "## Left out") |
| Priorities.UpdateKey | generate_canonical.js:46-85 | no contract of its own: Priorities.KeyPriorities and Priorities.CustomOverrides state which priority node it takes; Priorities.ObjectKeys and Priorities.KeysAreMembers state which sub-keys it visits; Priorities.FirstFoundWins, Priorities.NoneFound, Priorities.CandidatesStep and Priorities.FoundIsReadBack state the candidate loop; Priorities.UpdateKeyKeepsOutside states its frame in the copying model |
| Priorities.UpdateSubKeysKeepOutside | generate_canonical.js:78-83 | in the copying model, the recursion over sub-properties changes no key but `canonical` |
| Priorities.UpdateFileKeepsOutside | generate_canonical.js:90-103 | in the copying model, `updateFile` leaves every key of the record but `canonical` as it was |
| Priorities.UpdateFile | generate_canonical.js:90-103 | no contract of its own: Priorities.ResetForgetsCanonical states that the old `canonical` has no influence, and Priorities.UpdateFileKeepsOutside states its frame in the copying model |
| Priorities.ResetForgetsCanonical | generate_canonical.js:92 | `data.canonical = {}`: the previous `canonical` has no influence on the result |
| Priorities.SortKeysOrder | generate_canonical.js:107-133 | on two different keys the comparator is antisymmetric, answers ±1, and puts `_source`, `name` and `canonical` first, in that order, then the rest by code point |
| Priorities.KeyBeforeOrder | generate_canonical.js:107-133 | that key order is irreflexive, total and transitive, so the dumped key order is well defined |
| Priorities.SortKeys | generate_canonical.js:107-133 | no contract of its own: Priorities.SortKeysOrder states its order |

## Left out

- File I/O is left out. The programs' directory walks, YAML loading and dumping, CSV quoting, logging and command-line arguments are not modelled. A record is a `Node` value, and a CSV file is a list of rows.
- The `co`/generator plumbing of the JavaScript driver and the per-file priority lookup are left out. The two priority trees are parameters.
- Text.Strip and Text.IsDigit cover six whitespace characters (`' '`, `\t`, `\n`, `\v`, `\f`, `\r`) and the digits `0`-`9` only. Python's `str.strip` also removes `\x1c`-`\x1f`, `\x85` and the Unicode spaces, and `str.isdigit` accepts other Unicode digits.
- String order is by code point (`Order.Less`). JavaScript's `<` in `sortKeys` compares UTF-16 code units, which differs only for characters outside the Basic Multilingual Plane.
- Priorities.UpdateKey takes a `fuel` bound and answers `RangeError` when it runs out. This models the stack overflow of the unbounded JavaScript recursion on a cyclic or too deep priority tree. It does not say how deep the real stack goes.
- Priorities.Member: JavaScript prototype properties (`toString`, `constructor`, ...) and the properties of numbers and booleans are not modelled. Only own keys, array and string indices, and `length` are. A string's indices and its `length` are counted in code points, where JavaScript counts UTF-16 code units. So `name.length` and `name.1` differ from JavaScript on strings with characters outside the Basic Multilingual Plane.
- Priorities.ObjectKeys lists an object's keys in insertion order. JavaScript lists integer-like keys first, in numeric order. The keys of a string are one per code point, where JavaScript gives one per UTF-16 code unit. So the sub-keys visited below a string leaf differ on characters outside the Basic Multilingual Plane.
- Priorities.Assign: writes into an array at anything but an existing index, and `concat` onto a string, return `Unmodelled` instead of their JavaScript effect.
- Priorities.UpdateFile copies every value it stores, where JavaScript shares references. `{value, source}` (generate_canonical.js:65-66, 71) holds the record's own object, and a later `set` (generate_canonical.js:34-38) walks into whatever object it finds. Two results of the program are therefore not modelled. First, a candidate path `canonical` stores `canonical` inside itself, a cycle; the model stores a finite snapshot. Second, a later `set` through a stored object changes the record outside `canonical`. Example: the record `{a: {k: 1}, c: 'z'}` with the priorities `{'x[]': [a], x: {'0': {value: {b: [c]}}}}` gets `a.b` in JavaScript.
- Priorities.UpdateKey: the same reference sharing is not modelled, so its result differs from JavaScript when a write goes through a stored reference.
- Priorities.UpdateKeyKeepsOutside holds of the copying model only. Under reference sharing a write through a stored object can change keys outside `canonical`, as in the example above.
- Priorities.UpdateSubKeysKeepOutside holds of the copying model only, for the same reason.
- Priorities.UpdateFileKeepsOutside holds of the copying model only, for the same reason. In the example above JavaScript changes the record's key `a`.
- In `updateFile`, `destData` is an alias of `data.canonical`. The model writes through the record, so `Priorities.SetCanonical` prefixes every path with `canonical`.
- A JavaScript `NaN` is a `Scalar` whose truth value is false. No finer distinction between number values is modelled.
- A missing custom priority file (`false` in the source) is modelled as the falsy value `undefined`. The two behave the same in `get` and `&&`.
- YAML mapping keys are strings. Non-string keys (numbers, booleans) in a record are not modelled in either CSV script or in the merge.
- Canonical.CanonicalNode keeps the fields in insertion order. `yaml.dump` writes every mapping through `dict_representer` (generate_canonical.py:51-52, 61-62), which sorts the keys, so the written file lists them in key order; the written order is not modelled.
- Canonical.MergeEntry keeps a stale `canonical` entry when no field is found, because generate_canonical.py:273-274 assigns `canonical` only `if canonical:`. The JavaScript port instead resets `canonical` to `{}` first (generate_canonical.js:92). `Canonical.EmptyMergeKeepsStale` states the Python behaviour.
- Sheets.SortEntries models only whether Python's sort raises on a non-string name (a number, a list, a mapping), not the exact comparisons Python makes. With two or more entries and such a name, the model always raises. Python raises only when such a key meets a key of another type, so two numeric names compare without error there. With one entry, neither raises.
- Priorities.SortKeysOrder states nothing about a key compared with itself. There the comparator answers -1 for `_source`, `name` and `canonical` and 0 for any other key, and a mapping never compares a key with itself.
- Extract.WikidataItems reads `item.get('xml:lang')` as a string or `None`. A non-string language value is treated as unreadable, where Python would yield it as a language.

## Findings

| source | as written | input that shows it | evidently intended | confidence | as-written member | corrected member |
|---|---|---|---|---|---|---|
| yaml_to_csv.py:127 | `sorted(paths)` compares path tuples that mix `str` keys and `int` indices, and Python 3 raises `TypeError` when two paths differ first at a key in one and an index in the other | one record `{a: [x]}` and another `{a: {b: y}}`: the paths `('a', 0)` and `('a', 'b')` are compared | a total order on paths (Python 2's order, every `int` before every `str`), so that any set of records gets columns | not executed | Flatten.MixedColumnsRaise | Flatten.ColumnsAreLeaves |
| generate_canonical.js:62 | an accumulating property `t[]` is read back with `replace(/\[|]$/, '')`, which removes only the first `[` and gives `t]`, while line 68 writes under `t`; every candidate therefore starts a new list, and only the last candidate survives | record `{canonical: {}, a: 'x', b: 'y'}` with the priority `t[]: [a, b]`: `canonical.t` ends as `[{value: 'y', source: 'b'}]` | the list is read back from `t`, where it is written, so that every found candidate is appended: `[{value: 'x', source: 'a'}, {value: 'y', source: 'b'}]` | not executed | Priorities.AsWrittenKeepsLast | Priorities.FixedKeepsBoth |
