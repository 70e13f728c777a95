# factorio-draftsman data updater, modelled in Dafny

This project models the mod-loading core of draftsman's `update_module.py`. That tool
rebuilds draftsman's data from Factorio and its mods:

- It reads `mod-settings.dat`, a property tree.
- It parses each mod's dependency declarations and checks them against the enabled mods,
  attaching dependency edges.
- It computes each mod's depth and sorts the mods into a load order.
- It drives the Lua data lifecycle: `core`'s setup, then the three stages with the mods in
  load order.
- It answers `python_require` from inside zipped mods.
- It sorts prototypes by their item group, subgroup and order (`get_order`).

Beside it, two entity classes with stateful setters are modelled: `HeatInterface`
(temperature and mode) and `RailSignal` (its `control_behavior` dictionary).

Modules, one per file:

| file | module | what it holds |
|---|---|---|
| `wrappers.dfy` | `Wrappers` | `Option` |
| `bytes.dfy` | `Bytes` | bytes, little-endian unsigned integers |
| `property_tree.dfy` | `PropertyTree` | the property-tree decoder as functions of the unread bytes, a reference encoder and the round trips |
| `settings_reader.dfy` | `SettingsReader` | `get_string`/`get_data` as methods over a byte-stream object, proved equal to the decoder |
| `versions.dfy` | `Versions` | Python tuple comparison of versions and the five operators |
| `dependency_string.dfy` | `DependencyString` | whitespace removal and a hand-written matcher for the dependency pattern |
| `resolver.dfy` | `Resolver` | the rule per declaration, the per-mod check, `Mod.add_dependency`, the validation loop |
| `load_order.dfy` | `LoadOrder` | `get_depth` and the `(depth, name)` sort |
| `pipeline.dfy` | `Pipeline` | the Lua engine as a trace of calls, `load_stage`, the stage loop |
| `module_search.dfy` | `ModuleSearch` | `python_require`, `str.split`/`join`/`replace` |
| `item_order.dfy` | `ItemOrder` | `get_order`: the rail-planner overlay, the in-place rewrite, the sort keys, the sort |
| `entity.dfy` | `Entity` | Python values seen by setters, entity errors and warnings, the unused-argument warning loop |
| `heat_interface.dfy` | `HeatInterfaces` | the `HeatInterface` class |
| `rail_signal.dfy` | `RailSignals` | the `RailSignal` class |

External functions are parameters of the model:

- `decode_version`, `version_string_2_tuple` and `__factorio_version_info__`;
- `signatures.BOOLEAN.validate`;
- `files.read`, as a map from path to contents;
- Lua's `package.path` after `core`'s setup.

Where the code and the written description of the system disagree, the model follows the
code:

- A String body shorter than its length is read without error (`PropertyTree.CutStringBodyAccepted`).
  Only the fixed-size reads fail.
- An unknown type tag gives `None` after the two header bytes; it is not an error
  (`PropertyTree.NodeLayout`).
- Versions compare as Python tuples with no zero padding: `(1, 0) < (1, 0, 0)` (`Versions.PrefixIsBelow`).
- "Present" means enabled and registered. A `!` dependency on a mod that is installed but
  disabled is skipped.
- `core` is not in the registry, so a required dependency on `core` fails with `MissingModError`.
- `get_depth` is 1 plus the sum of the dependency depths, not 1 plus their maximum
  (`LoadOrder.DepthIsOnePlusSum`).
- `core` is loaded on its own before the stage loop; it is not sorted with the others.

## Model

| member | source | states |
|---|---|---|
| Bytes.LittleEndian | update_module.py:137 | a k-byte unsigned little-endian field holds a value below 256^k |
| Bytes.LittleEndianRoundTrip | update_module.py:181 | reading back the k little-endian bytes of a value gives that value |
| Bytes.LittleEndianInjective | update_module.py:137 | every k-byte field is the encoding of the value read from it, so distinct fields read as distinct values |
| PropertyTree.ReadCount | update_module.py:139 | `read(n)` returns n bytes, or all that is left when fewer remain |
| PropertyTree.DecodeString | update_module.py:123-139 | a string read consumes at least the absent byte; its only error is truncation; a present string also consumes its length byte and body |
| PropertyTree.StringBody | update_module.py:139 | the body read never fails; it splits the rest into the body and what follows |
| PropertyTree.StringRoundTrip | update_module.py:123-139 | a present string is a zero absent byte, a one-byte length or 255 and a 4-byte little-endian length, then the body; decoding its encoding gives it back and leaves what follows |
| PropertyTree.KeyRoundTrip | update_module.py:123-139 | an absent key (None) and a present key both decode back from their encodings |
| PropertyTree.DecodeNode | update_module.py:141-144 | every node read consumes at least the tag byte |
| PropertyTree.NodeLayout | update_module.py:141-175 | after the tag and the ignored flag byte, None reads nothing, Bool one byte (non-zero is true), Number eight bytes, an unknown tag nothing and gives None; a short Bool or Number payload is a truncation error |
| PropertyTree.DecodePayload | update_module.py:145-175 | a payload never consumes more than it is given |
| PropertyTree.DecodeList | update_module.py:159-165 | a List payload, with the count read as intended, consumes its 4-byte count and yields a list |
| PropertyTree.DecodeItems | update_module.py:163-164 | the List loop appends exactly the counted number of nodes |
| PropertyTree.DecodeDict | update_module.py:166-175 | a Dictionary payload consumes its 4-byte count and yields a dictionary |
| PropertyTree.DecodeEntries | update_module.py:170-174 | the Dictionary loop reads exactly the counted number of (key, value) pairs |
| PropertyTree.DecodeEntry | update_module.py:171-172 | a pair is a string key then a node, and consumes at least one byte |
| PropertyTree.InsertNew | update_module.py:174 | storing a new key appends it at the end, as a Python dict does |
| PropertyTree.InsertLookup | update_module.py:174 | after `out[name] = value` the key maps to the value and the other keys are unchanged |
| PropertyTree.InsertKeepsOrder | update_module.py:174 | overwriting a key keeps the dictionary's size and key order |
| PropertyTree.LookupAbsent | update_module.py:174 | a key is missing exactly when no entry holds it |
| PropertyTree.InsertKeepsDistinct | update_module.py:174 | storing keeps the keys distinct |
| PropertyTree.CollectKeysDistinct | update_module.py:169-174 | the decoded dictionary has distinct keys |
| PropertyTree.CollectLookup | update_module.py:169-174 | each key of the decoded dictionary holds the last value read for it: a later duplicate overwrites an earlier one |
| PropertyTree.CollectDistinct | update_module.py:169-174 | pairs with distinct keys are stored as they were read, in order |
| PropertyTree.RoundTrip | update_module.py:141-175 | decoding the encoding of any well-formed value, nested Lists and Dictionaries included, gives it back and leaves the following bytes unread |
| PropertyTree.ScalarRoundTrip | update_module.py:145-158 | the same for None, Bool, Number and String nodes |
| PropertyTree.ListRoundTrip | update_module.py:159-165 | the same for List nodes, with the corrected count |
| PropertyTree.DictRoundTrip | update_module.py:166-175 | the same for Dictionary nodes with distinct keys |
| PropertyTree.ListPayload | update_module.py:159-165 | a 4-byte count followed by that many encoded nodes decodes to the list |
| PropertyTree.DictPayload | update_module.py:166-175 | a 4-byte count followed by that many encoded pairs decodes to the dictionary |
| PropertyTree.ItemsRoundTrip | update_module.py:163-164 | the List loop reads back the nodes in order |
| PropertyTree.EntriesRoundTrip | update_module.py:170-174 | the Dictionary loop reads back the pairs in order |
| PropertyTree.EntryRoundTrip | update_module.py:171-172 | a (key, value) pair reads back |
| PropertyTree.Insert | update_module.py:174 | `out[name] = value` adds at most one entry to the dictionary |
| PropertyTree.Collect | update_module.py:169-174 | the dictionary holds no more entries than pairs were read, and at least one once a pair was read |
| PropertyTree.DecodeSettings | update_module.py:181-190 | the file decodes only if it has the 9-byte header, the flag byte is zero and the reversed version equals the expected one |
| PropertyTree.SettingsRoundTrip | update_module.py:181-190 | an 8-byte version, a zero flag and an encoded node decode to that node when the version matches |
| PropertyTree.HeaderFlagRejects | update_module.py:186-189 | a non-zero header flag fails the header assertion |
| PropertyTree.CutFixedFieldFails | update_module.py:148-156 | a Bool or Number node cut by one byte is a truncation error |
| PropertyTree.CutStringBodyAccepted | update_module.py:139 | a String node cut by one byte decodes without error to the shortened string |
| PropertyTree.ListAsWritten | update_module.py:159-163 | the List branch as written never succeeds |
| PropertyTree.ListAsWrittenRejectsEveryList | update_module.py:159-165 | as written, every encoded list, the empty one included, is rejected, while the corrected decoder reads each back |
| SettingsReader.ByteStream.constructor | update_module.py:178 | a stream opens at the start of the file's bytes |
| SettingsReader.ByteStream.Read | update_module.py:139 | `read(n)` returns the next n bytes or what is left, and advances past them |
| SettingsReader.GetString | update_module.py:123-139 | `get_string` on the stream returns what `DecodeString` gives for the unread bytes, and leaves unread exactly its remainder |
| SettingsReader.GetData | update_module.py:141-175 | `get_data` on the stream agrees with `DecodeNode` on the unread bytes, value and position both |
| SettingsReader.GetList | update_module.py:159-165 | the List branch's loop agrees with `DecodeList` |
| SettingsReader.GetDict | update_module.py:166-175 | the Dictionary branch agrees with `DecodeDict` |
| SettingsReader.GetEntries | update_module.py:169-175 | the dictionary loop, storing each pair into `out` as it goes, agrees with `DecodeEntries`, and `out` is the last-write-wins dictionary of the pairs |
| SettingsReader.ReadAndStore | update_module.py:171-174 | one pass of the dictionary loop reads a pair and stores it into `out`, keeping the loop's agreement with `DecodeEntries` and with the last-write-wins dictionary; a failing read ends the loop with that error |
| SettingsReader.EntriesStep | update_module.py:169-174 | after one more pair the loop still agrees with `DecodeEntries`, and storing it gives the dictionary of the pairs read so far |
| SettingsReader.GetEntry | update_module.py:171-172 | one key read and one node read agree with `DecodeEntry` |
| SettingsReader.CollectAppend | update_module.py:174 | storing one more pair into `out` is the dictionary of the pairs read so far plus that one |
| SettingsReader.GetModSettings | update_module.py:177-190 | reading `mod-settings.dat` from its start gives exactly `DecodeSettings` of its bytes |
| Versions.TupleLessMeaning | update_module.py:1120-1124 | `a < b` on version tuples holds exactly when a is a proper prefix of b, or the first differing component of a is smaller |
| Versions.TupleLessIrreflexive | update_module.py:1120-1124 | no version is below itself |
| Versions.TupleLessTransitive | update_module.py:1120-1124 | the order is transitive |
| Versions.TupleLessTrichotomy | update_module.py:1120-1124 | any two versions are below, equal or above one another, and never both below and above |
| Versions.PrefixIsBelow | update_module.py:1120-1124 | a version extended by more components is above it, so `==` and `<=` against the shorter one fail |
| Versions.OperatorsAgree | update_module.py:1119-1124 | `<=` is not `>`, `>=` is not `<`, and `==` is both `<=` and `>=` |
| Versions.TupleLess | update_module.py:1120-1124 | no tuple is below the empty tuple, and a proper prefix is below every extension of it |
| Versions.Satisfies | update_module.py:1119-1124 | for equal versions exactly `==`, `<=` and `>=` hold, and `<` and `>` fail |
| DependencyString.Strip | update_module.py:1090 | joining the split pieces leaves no whitespace and no longer text |
| DependencyString.StripKeepsText | update_module.py:1090 | a declaration without whitespace is left as it is |
| DependencyString.StripIdempotent | update_module.py:1090 | removing whitespace twice is removing it once |
| DependencyString.StripAppend | update_module.py:1090 | removing whitespace works piece by piece |
| DependencyString.RunEnd | update_module.py:61 | a greedy character-class run stops at the end or at the first character outside the class |
| DependencyString.RunEndIsLongest | update_module.py:61 | no run of the class from the same start is longer |
| DependencyString.LastDash | update_module.py:61 | the last '-' of a range, or none in it |
| DependencyString.OpEnd | update_module.py:61 | the operator group is at most two characters |
| DependencyString.Groups | update_module.py:61 | the name group is never empty and the flag is the one given |
| DependencyString.AfterFlag | update_module.py:61 | a match that takes the flag reports that flag |
| DependencyString.GroupsShaped | update_module.py:61 | the groups cut out at a name start hold only characters of their classes: `[\w-]` in the name, one of `><=` then an optional `=` in the operator, `[\d.]` in the version |
| DependencyString.Parse | update_module.py:61 | a match has a non-empty name of `[\w-]` characters, an operator and a version shaped as above, and a flag that is `?`, `!`, `~` or absent |
| DependencyString.FlagTaken | update_module.py:61 | the flag group is greedy: a flag right after the leading text, when a name can follow it, is the flag the match reports |
| DependencyString.NameAfterFlag | update_module.py:61 | a flag followed by a gap and a character that can start a name always gets a name matched after it |
| DependencyString.ParseFindsAMatch | update_module.py:61 | every parse is a match of the pattern: leading text, an optional flag, a gap, then maximal name, operator and version groups |
| DependencyString.ParseMissesNoMatch | update_module.py:61 | whenever the pattern can match, the parser finds a match |
| DependencyString.ParseTakesLatestStart | update_module.py:61 | of all the ways the pattern can match, the one found starts the name as late as possible, as Python's backtracking engine does: "-foo" gives the name "foo" |
| DependencyString.LatestWhenWord | update_module.py:61 | when a word character ends the leading text, no match starts the name after it |
| DependencyString.LatestWhenFlag | update_module.py:61 | when a flag ends the leading text, every match starts the name within or at the end of the gap after it, at a '-' if inside the gap, and at a word character if at its end |
| DependencyString.LatestWhenDash | update_module.py:61 | when neither a word nor a usable flag ends the leading text, every match starts the name at a '-' inside that text |
| DependencyString.RenderRoundTrip | update_module.py:61 | a declaration written the usual way (optional flag, name, then operator and version or neither) parses back to its four groups |
| DependencyString.RenderHasNoSpace | update_module.py:1090 | such a declaration has no whitespace to remove |
| Resolver.IncompatibleRule | update_module.py:1097-1103 | a `!` dependency fails with the declaring mod's name when its target is registered, and is skipped otherwise |
| Resolver.OptionalRule | update_module.py:1104-1106 | a `?` dependency on an absent target is skipped |
| Resolver.MissingRule | update_module.py:1108-1110 | a required or `~` dependency on an absent target fails with the target's name |
| Resolver.LoadOrderOnlyRule | update_module.py:1112-1115 | a `~` dependency on a present target adds no edge and checks no version |
| Resolver.EdgeRule | update_module.py:1088-1127 | a declaration adds an edge to t exactly when it parses, names t, t is registered, the flag is neither `!` nor `~`, and either there is no version or the operator is valid and the comparison holds |
| Resolver.VersionRule | update_module.py:1118-1125 | with a version given, an operator outside the five fails the assertion, and a failing comparison raises the version error |
| Resolver.Rules | update_module.py:1088-1127 | one rule per declaration, in order |
| Resolver.Check | update_module.py:1088-1127 | an edge points to a registered mod; a no-match error carries the declaration, an incompatibility the declaring mod, a missing-mod error a name that is not registered; one declaration never raises the KeyError |
| Resolver.CombineMeaning | update_module.py:1088-1127 | the declarations pass exactly when none fails, and every edge kept comes from a declaration |
| Resolver.CombineStep | update_module.py:1088-1127 | one more declaration: a failure stops the check, a skip adds nothing, an edge is appended |
| Resolver.CheckAll | update_module.py:1088-1127 | every edge a mod gains points to a registered mod |
| Resolver.CheckAllMeaning | update_module.py:1088-1127 | a mod passes exactly when none of its declarations fails, and every edge comes from one of its declarations |
| Resolver.CheckDeclared | update_module.py:1088 | a mod whose info has no "dependencies" key raises `KeyError("dependencies")`; otherwise its declarations are checked, and every edge it gains points to a registered mod |
| Resolver.Mod.constructor | update_module.py:65-74 | a new mod has no dependencies yet |
| Resolver.Mod.AddDependency | update_module.py:76-77 | `add_dependency` appends one dependency |
| Resolver.CheckMod | update_module.py:1088-1127 | a mod whose info has no "dependencies" key raises KeyError before anything is appended; otherwise its loop fails with the first failing declaration, or appends exactly the edges of its declarations, in order |
| Resolver.BuildGraph | update_module.py:1079-1127 | the validation loop reports the first failure in registry order, a missing "dependencies" key included, skipping `base` and `core`; without one, every mod gains exactly its edges |
| Resolver.VisitEntry | update_module.py:1079-1081 | one mod of the loop: exempt mods pass, the others are checked and gain their edges |
| LoadOrder.GetDepth | update_module.py:79-83 | `get_depth`'s loop computes the recursive depth, or reports the recursion error |
| LoadOrder.Depth | update_module.py:79-83 | a depth is at least 1, and exactly 1 for a mod without dependencies |
| LoadOrder.DepthFrom | update_module.py:80-82 | the loop never lowers its running value, and raises it whenever a dependency is left |
| LoadOrder.DepthFromIsSum | update_module.py:80-82 | the loop's running value is its start plus the sum of the dependency depths |
| LoadOrder.DepthIsOnePlusSum | update_module.py:79-83 | a mod's depth is 1 plus the sum of its dependencies' depths |
| LoadOrder.DepthFuelMonotone | update_module.py:79-83 | a depth found under a recursion budget stays the same under a larger one |
| LoadOrder.SumFuelMonotone | update_module.py:80-82 | the same for the sum over the dependencies |
| LoadOrder.SumCoversEach | update_module.py:80-82 | each dependency's depth is at most the sum |
| LoadOrder.DependencyShallower | update_module.py:79-83 | a dependency is strictly shallower than its dependent |
| LoadOrder.PathShallower | update_module.py:79-83 | along a dependency path of k steps the depth drops by at least k |
| LoadOrder.CycleRaises | update_module.py:79-83 | a mod on a dependency cycle has no depth: the recursion never returns |
| LoadOrder.Codes | update_module.py:1133 | a string's code points, by which Python orders names |
| LoadOrder.CodesInjective | update_module.py:1133 | distinct names have distinct code points |
| LoadOrder.KeyLeTotal | update_module.py:1133 | any two `(depth, name)` keys are comparable |
| LoadOrder.KeyLeTransitive | update_module.py:1133 | the key order is transitive |
| LoadOrder.Depths | update_module.py:1130-1135 | the depths are all known exactly when no mod's recursion fails, and then each is the mod's depth |
| LoadOrder.InsertName | update_module.py:1130-1135 | inserting keeps the names sorted and adds exactly one name |
| LoadOrder.SortNames | update_module.py:1130-1135 | the sort gives a sorted permutation of the names |
| LoadOrder.Order | update_module.py:1130-1135 | the load order, when it exists, is a permutation of the registry's names |
| LoadOrder.OrderMeaning | update_module.py:1130-1135 | the load order exists exactly when every depth does; it holds the registry's names, sorted by `(depth, name)` |
| LoadOrder.DependenciesFirst | update_module.py:1130-1135 | every dependency comes before its dependents in the load order |
| LoadOrder.OrderDepth | update_module.py:1130-1135 | every mod in the load order has a depth |
| LoadOrder.OrderedPair | update_module.py:1130-1135 | depths never decrease along the load order |
| Pipeline.Engine.constructor | update_module.py:1142 | a fresh Lua runtime has seen no calls |
| Pipeline.Engine.Call | update_module.py:1167-1171 | each call is recorded after the earlier ones |
| Pipeline.LoadStage | update_module.py:228-246 | `load_stage` sets the mod's globals, adds its directory to the path, then executes its script |
| Pipeline.VisitMod | update_module.py:1191-1215 | one mod in one stage: `SET_PATH(base_path)`, then, if the mod has the stage, `load_stage`, `UNLOAD_ENTIRE_CACHE` and `RESET_MOD_STATE` |
| Pipeline.RunStage | update_module.py:1191-1215 | one stage visits the mods in load order |
| Pipeline.RunLifecycle | update_module.py:1173-1215 | the engine sees `core`'s setup, then the three stages in order, each over the load order |
| Pipeline.ScriptsAppend | update_module.py:1186-1215 | the executed scripts and the path resets of two traces in sequence are those of each, in order |
| Pipeline.LoadStageScripts | update_module.py:228-246 | `load_stage` executes the stage's script once and sets no path |
| Pipeline.CoreSetupScripts | update_module.py:1173-1180 | `core`'s setup (`CoreSetup`) executes core's `data.lua` and then `required_in_session = {}`, and sets no path |
| Pipeline.StageScripts | update_module.py:1191-1203 | a stage (`StageTrace`) executes the scripts of the mods that have it, in load order, and resets the path once per mod |
| Pipeline.VisitScripts | update_module.py:1196-1203 | one visit (`Visit`) executes the mod's script only when it has the stage, and resets the path once |
| Pipeline.ScriptsInOrder | update_module.py:1186-1203 | the stage loop (`StagesTrace`) executes the scripts stage by stage, mods in load order within each stage |
| Pipeline.PathResetPerVisit | update_module.py:1186-1196 | the path is reset once per mod per stage, always to `base_path` |
| Pipeline.FramedAppend | update_module.py:1186-1215 | two traces in which every script is framed give a framed trace |
| Pipeline.StageFramed | update_module.py:1191-1215 | in a stage, each script follows the path reset, the globals and the path entry, and is followed at once by `UNLOAD_ENTIRE_CACHE` and then `RESET_MOD_STATE` |
| Pipeline.LoopFramed | update_module.py:1186-1215 | the same over the whole stage loop |
| ModuleSearch.Split | update_module.py:212 | `split(';')` gives at least one piece, and no piece holds the separator |
| ModuleSearch.SplitJoin | update_module.py:212 | joining the pieces gives the path back |
| ModuleSearch.JoinSplit | update_module.py:212 | separator-free pieces split back apart from their join |
| ModuleSearch.Replace | update_module.py:216-218 | replacing a pattern by itself changes nothing, and a replacement no longer than the pattern never lengthens the path |
| ModuleSearch.ReplaceOneChar | update_module.py:216 | replacing the one-character pattern "?" replaces each "?" in turn |
| ModuleSearch.ReplaceAbsent | update_module.py:218 | a path without the pattern is left unchanged |
| ModuleSearch.PlaceholderFilled | update_module.py:216 | no "?" is left after the replacement, unless the module name brings one |
| ModuleSearch.PythonRequire | update_module.py:199-225 | a mod that is not an archive answers nothing; otherwise the answer is the file of the first readable candidate, or the error tuple when no candidate is readable |
| ItemOrder.AddRailPlanners | update_module.py:293-298 | the loop over rail planners gives the overlaid item table |
| ItemOrder.LastPlacing | update_module.py:294-298 | the last planner that places a rail, or none does |
| ItemOrder.OverlayMeaning | update_module.py:289-298 | a name is an item after the loop exactly when it was one or some planner places it; the last planner placing it wins, and otherwise the item is kept |
| ItemOrder.Overlay | update_module.py:289-298 | every item stays an item, and every rail a planner places becomes one |
| ItemOrder.Rewrite | update_module.py:304-310 | a KeyError arises only for an object that is an item, and names "order" or "subgroup"; a rewritten item takes the item's order and subgroup, both present |
| ItemOrder.Obj.constructor | update_module.py:301 | an object holds its name, order and subgroup |
| ItemOrder.RewriteIdempotent | update_module.py:304-310 | copying the item's order and subgroup twice is copying them once |
| ItemOrder.EntryOf | update_module.py:320-343 | a sort entry has the seven key fields and ends with the object's own name |
| ItemOrder.Outcome | update_module.py:304-343 | an entry is built only when the rewrite succeeded, and it carries the object's name |
| ItemOrder.SortKeyFields | update_module.py:304-343 | an object that is an item sorts by the item's order and name and by its subgroup; any other object sorts by its own order and name |
| ItemOrder.Prepare | update_module.py:304-343 | one object: its entry or the KeyError, and its order and subgroup rewritten in place when it is an item |
| ItemOrder.EntriesFound | update_module.py:300-343 | the entries are built exactly when every object's entry is |
| ItemOrder.EntriesNames | update_module.py:300-343 | the entries are in the objects' order and carry their names |
| ItemOrder.EntriesLast | update_module.py:300-343 | the entries of all objects are those of all but the last, plus the last one's |
| ItemOrder.EntriesStep | update_module.py:300-343 | one more object: an error stays the error, else its entry is appended or its error returned |
| ItemOrder.EntriesErrorSticks | update_module.py:300-343 | the first KeyError is the one raised |
| ItemOrder.NamesOf | update_module.py:346 | the result lists the entries' original names, in order |
| ItemOrder.StrTrichotomy | update_module.py:345 | Python string order is total and antisymmetric |
| ItemOrder.KeysLe | update_module.py:345 | equal keys are ordered, and the empty key is below every key |
| ItemOrder.KeysLeTotal | update_module.py:345 | any two sort keys are comparable |
| ItemOrder.KeysLeTransitive | update_module.py:345 | the key order is transitive |
| ItemOrder.InsertEntry | update_module.py:345 | inserting adds exactly the entry |
| ItemOrder.InsertNames | update_module.py:345-346 | inserting adds exactly the entry's name to the names |
| ItemOrder.InsertSorted | update_module.py:345 | inserting keeps the entries sorted |
| ItemOrder.SortEntries | update_module.py:345 | the sort is a permutation of the entries |
| ItemOrder.SortNames | update_module.py:345-346 | the sorted names are a permutation of the names |
| ItemOrder.SortSorted | update_module.py:345 | the sort's result is sorted by `(group, subgroup, obj)` |
| ItemOrder.OrderMeaning | update_module.py:274-346 | `get_order` succeeds exactly when every object's entry is built; its result is a permutation of the objects' names, and it is the names of a sorted permutation of the entries |
| ItemOrder.GetOrder | update_module.py:274-346 | the whole function, objects rewritten in place, returns the order above; on success each object holds its rewritten order and subgroup |
| ItemOrder.Step | update_module.py:301-343 | one pass of the object loop builds that object's entry and keeps the earlier rewrites |
| ItemOrder.PrepareAgain | update_module.py:304-343 | an object listed twice is rewritten once; its entry is the same |
| Entity.Remove | draftsman/prototypes/heat_interface.py:23 | popping an argument removes exactly it from the unused arguments; removing a name that is not among them leaves them unchanged |
| Entity.RemoveAppend | draftsman/prototypes/heat_interface.py:23 | popping keeps the order of the remaining arguments: removing from a concatenation removes from each part |
| Entity.WarnUnused | draftsman/prototypes/rail_signal.py:25-30 | one DraftsmanWarning per unused argument, in order |
| HeatInterfaces.TemperatureCheck | draftsman/prototypes/heat_interface.py:50-65 | the temperature setter accepts exactly None and ints, bools included, and otherwise raises TypeError |
| HeatInterfaces.RangeWarnings | draftsman/prototypes/heat_interface.py:55-62 | an int outside [0, 1000] draws exactly one TemperatureRangeWarning with its value, and any other value none |
| HeatInterfaces.ModeCheck | draftsman/prototypes/heat_interface.py:82-88 | the mode setter accepts exactly None and the five modes; an unhashable value raises TypeError, any other InvalidModeError |
| HeatInterfaces.ExportConditions | draftsman/prototypes/heat_interface.py:25-31 | the defaults are not exported; an accepted temperature is exported exactly when it is neither None nor 0 (False counting as 0) |
| HeatInterfaces.InitSucceeds | draftsman/prototypes/heat_interface.py:21-30 | `__init__` succeeds exactly when each given setting is accepted and still among the unused arguments |
| HeatInterfaces.InitError | draftsman/prototypes/heat_interface.py:17-30 | an error needs a given temperature or mode; a KeyError names a given setting that is no longer among the unused arguments; an InvalidModeError carries the given mode |
| HeatInterfaces.HeatInterface.FromBase | draftsman/prototypes/heat_interface.py:19 | the object as the base class leaves it, with its unused arguments |
| HeatInterfaces.HeatInterface.SetTemperature | draftsman/prototypes/heat_interface.py:50-65 | an accepted temperature is stored, with its range warning; a rejected one raises TypeError and nothing changes |
| HeatInterfaces.HeatInterface.SetMode | draftsman/prototypes/heat_interface.py:82-88 | an accepted mode is stored; a rejected one raises and leaves the mode unchanged |
| HeatInterfaces.HeatInterface.PopArg | draftsman/prototypes/heat_interface.py:24 | `unused_args.pop(key)` removes the key, or raises KeyError when it is absent |
| HeatInterfaces.HeatInterface.InitTemperature | draftsman/prototypes/heat_interface.py:21-24 | the temperature becomes 0 or the given value, which is consumed from the unused arguments |
| HeatInterfaces.HeatInterface.InitMode | draftsman/prototypes/heat_interface.py:27-30 | the mode becomes "at-least" or the given value, which is consumed from the unused arguments |
| HeatInterfaces.HeatInterface.WarnLeftovers | draftsman/prototypes/heat_interface.py:33-38 | each argument still unused draws one DraftsmanWarning, after the earlier warnings |
| HeatInterfaces.HeatInterface.Create | draftsman/prototypes/heat_interface.py:17-38 | `__init__` raises what `InitError` names; on success it holds the given or default settings, has consumed them, and warns for the range and then once per leftover argument |
| RailSignals.OtherKeysKept | draftsman/prototypes/rail_signal.py:32-51 | neither setter touches any other key |
| RailSignals.SetSignal | draftsman/prototypes/rail_signal.py:36-51 | a setter raises exactly when a value other than None fails validation, and raises SchemaError of it; otherwise the key is present exactly for a value other than None, holds the validated bool, and no other key changes |
| RailSignals.KeyAfterSet | draftsman/prototypes/rail_signal.py:36-40 | None removes the key, tolerating its absence; any other value is stored as the validated bool, or rejected |
| RailSignals.SetSignalIdempotent | draftsman/prototypes/rail_signal.py:36-40 | setting twice is setting once, and clearing after setting a key that was absent restores the dictionary |
| RailSignals.RailSignal.constructor | draftsman/prototypes/rail_signal.py:21-30 | each unused argument draws one DraftsmanWarning |
| RailSignals.RailSignal.SetReadSignal | draftsman/prototypes/rail_signal.py:32-40 | `set_read_signal` updates "circuit_read_signal" as `SetSignal` says, and a rejected value changes nothing |
| RailSignals.RailSignal.SetEnableDisable | draftsman/prototypes/rail_signal.py:42-51 | `set_enable_disable` updates "circuit_close_signal" as `SetSignal` says, and a rejected value changes nothing |
| RailSignals.EnableDisableKeyUntouched | draftsman/prototypes/rail_signal.py:47-51 | `set_enable_disable` never changes "circuit_enable_disable", even given None |

## Left out

- The `extract_*` functions and `convert_table_to_dict`: they walk Lua tables through `lupa` and write files.
- The Lua runtime: `lua.execute`, `ADD_PATH`, `SET_PATH`, `UNLOAD_*` and `RESET_MOD_STATE` are recorded as calls in a trace; what they do inside Lua is not modelled.
- Filesystem, zip and JSON access, mod discovery and `mod-list.json`: the registry, each mod's declarations (or their absence from its `info`) and stage scripts, and `files.read` are given as maps.
- The Lua prelude before `core`'s setup (update_module.py:1142-1165): executing `util.lua`, `dataloader.lua` and `compatability.lua`, and setting the `settings`, `python_mods` and `python_require` globals, is not part of the recorded trace.
- The Number payload is 8 opaque bytes; no floating point is modelled.
- String bodies stay bytes; UTF-8 decoding is not modelled.
- The pattern's `\w` and `\d` are taken as their ASCII members.
- `decode_version`, `version_string_2_tuple`, `__factorio_version_info__` and `signatures.BOOLEAN.validate` are parameters, not definitions.
- Lua's `package.path` after `core`'s setup (`base_path`) is a parameter of the stage loop.
- Verbose printing and `warnings.warn`'s emission: warnings are a list of values on the object.
- The `Entity` base class and the rail signal's mixins: only the state they leave (unused arguments, `control_behavior`) is modelled.
- A mod's `dependencies` hold the names of the mods they point to; the registry maps a name to its unique `Mod` object.
- LoadOrder.Depth: takes a recursion budget (fuel) that stands for Python's recursion limit; running out is the `RecursionError` a cycle raises.
- Resolver.CheckMod: on a failure, which edges were already appended before it is not stated.
- Resolver.BuildGraph: on a failure, which mods already gained their edges is not stated.
- ItemOrder.GetOrder: on a KeyError, which objects were already rewritten in place is not stated.
- HeatInterfaces.HeatInterface.Create: on an exception, the state of the half-built object is not stated; Python discards it.
- In `get_order`, a rail planner's `straight_rail` and `curved_rail` and a subgroup's `group` are required fields, so their own KeyErrors are not modelled.
- The order of the keys of `control_behavior` is not modelled: it is a map.

## Findings

| source | as written | input that shows it | evidently intended | confidence | as-written member | corrected member |
|---|---|---|---|---|---|---|
| update_module.py:161 | the List count is `struct.unpack("<I", ...)` without `[0]`, a 1-tuple, so `range(length)` raises TypeError | any List node, e.g. the empty list: bytes 04 00 00 00 00 00 | read the count as an integer and decode that many nodes, as the Dictionary branch does | not executed | PropertyTree.ListAsWritten / PropertyTree.ListAsWrittenRejectsEveryList | PropertyTree.DecodeList / PropertyTree.ListPayload |
