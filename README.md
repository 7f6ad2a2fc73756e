# BalatroEditor core, modelled in Dafny

BalatroEditor is a browser editor for the save files of the game Balatro.
A save file (`meta.jkr`, `profile.jkr`) is raw-DEFLATE-compressed text of
the form `return {…}`. The body is a Lua table constructor that uses only
`[key]=value,` fields (section 2.5.7 of the Lua 5.1 Reference Manual).
This project models the editor's logic between the bytes and the page.

**The JKR value codec** (`public/js/jkr-converter.js`) has four parts.
- `encodeObj` and `decodeObj` put the tag `"\t\f"` in front of
  integer-like keys and take it off again (module `KeyTags`).
- `convertObjToLua` writes an object tree as table text (module `LuaText`).
- `parseObjFromLua` reads table text back. It is modelled as a
  recursive-descent reader for the grammar the writer emits plus bare
  integer keys (module `LuaText`).
- The read and write pipelines around them sit in module `Jkr`. The
  compressor and decompressor are function parameters there.

**The meta unlock editor** (`public/js/meta.js`, module `Meta`) is a class
`MetaData` with the three maps `unlocked`, `discovered` and `alerted`. It
covers:
- the item state and the locked → discovered → unlocked cycle;
- bulk unlock and lock;
- the sorted, duplicate-free listing of one category;
- the counts shown above a category, and the display name of an id.

**The profile page** (`public/js/profile.js`) covers:
- the check that a decoded file is a profile;
- the writer that stores an edited value along a dotted path;
- the display form of ids (module `Profile`);
- the order of the usage tables (module `Usage`).

Values are the datatype `JsValue.JVal`: null, booleans, integers,
strings, arrays and objects. An object is a sequence of `Field(key,
value)` in insertion order. `JsValue.Put` is JavaScript property
assignment. It replaces a value in place, or appends a new property last.

## Model

| member | source | states |
|---|---|---|
| LuaText.ConvertObjToLua | public/js/jkr-converter.js:8-34 | the loop's text is `{`, then one `[key]=value,` fragment per property in order, then `}`; every key is quoted, strings are quoted without escaping, booleans are `true`/`false`, null is `nil`, integers are decimal and objects recurse |
| LuaText.ParseObjFromLua | public/js/jkr-converter.js:36-61 | every failure is one error whose message starts with `Lua parsing failed: `, with no partial result |
| LuaText.ZeroKeyBeforeNumber | public/js/jkr-converter.js:47-54 | a bare key with a leading zero before a number is read as the string of its digits (`[007]=5` gives the key `"007"`) |
| LuaText.ZeroKeyBeforeTrue | public/js/jkr-converter.js:43-59 | the same key before `true` is left computed by the `=true` pass and reading fails |
| LuaText.SingleZeroKeyBeforeTrue | public/js/jkr-converter.js:43-54 | a lone `0` key before `true` is read as the key `"0"` |
| LuaText.ParseTableText | public/js/jkr-converter.js:8-61 | reading the text written for printable properties gives back the same properties in the same order, in both key styles |
| LuaText.ParseConvertRoundTrip | public/js/jkr-converter.js:36-61 | with the text read by the grammar reader, `parseObjFromLua("return " + convertObjToLua(o))` is `o` for printable `o` (strings, booleans, null, integers, nested objects; no `"`, `\` or line break in keys and strings); the source's regex passes differ inside strings (see "Left out" and finding 1) |
| LuaText.StripReturnPrefix | public/js/jkr-converter.js:37-39 | text with the `return ` prefix reads like the same text without it |
| KeyTags.EncodeObj | public/js/jkr-converter.js:63-82 | the `for…in` loop builds the object with every key renamed and nested non-array objects encoded, the input unchanged |
| KeyTags.DecodeObj | public/js/jkr-converter.js:84-103 | the loop builds the object with tagged keys replaced by the text of the integer after the tag, nested objects decoded |
| KeyTags.EncodeFieldsPointwise | public/js/jkr-converter.js:63-82 | when renamed keys do not collide, encoding renames each property in place and keeps the order |
| KeyTags.DecodeFieldsPointwise | public/js/jkr-converter.js:84-103 | the same for decoding |
| KeyTags.DecodeEncodeKey | public/js/jkr-converter.js:63-103 | untagging a tagged key that is the text of an integer of magnitude at most 2^53, or leaving an identifier key, gives the key back |
| KeyTags.EncodeDecodeKey | public/js/jkr-converter.js:63-103 | re-tagging the untagged form of a tag carrying the text of an integer of magnitude at most 2^53, or leaving an untagged identifier (first character a letter or `_`), gives the key back |
| KeyTags.IdentifierUntagged | public/js/jkr-converter.js:70 | `Number` never reads a name starting with a letter or `_` as an integer, so `encodeObj` keeps it as it is |
| KeyTags.DecodeEncode | public/js/jkr-converter.js:63-103 | `decodeObj(encodeObj(o)) == o` when every key is the text of an integer of magnitude at most 2^53 or starts with a letter or `_` |
| KeyTags.EncodeDecode | public/js/jkr-converter.js:63-103 | `encodeObj(decodeObj(o)) == o` when each tag carries the text of an integer of magnitude at most 2^53 and every untagged key is an identifier (first character a letter or `_`) |
| KeyTags.TaggedDecimalForms | public/js/jkr-converter.js:70-71 | the empty name and `2.000` are tagged, as `Number` reads them as integers, and come back from `decodeObj` as `NaN` and `2` |
| KeyTags.OverflowKeyUntagged | public/js/jkr-converter.js:70 | a digit name whose value `Number` rounds to `Infinity` is left untagged |
| Jkr.DecompressRaw | public/js/jkr-converter.js:105-119 | a decompressor failure becomes an error prefixed `Failed to decompress JKR file: `; success passes the text on |
| Jkr.ReadJkrText | public/js/jkr-converter.js:141-145 | the text fails to read exactly when `parseObjFromLua` fails, with a message starting `Lua parsing failed: ` |
| Jkr.DecompressFromJkr | public/js/jkr-converter.js:139-150 | reading is decompress, then parse, then tag keys; each failure is passed on unchanged |
| Jkr.JkrRoundTrip | public/js/jkr-converter.js:139-163 | for a decompressor that inverts the compressor, and with the text read by the grammar reader, reading what was written gives back storable tagged properties (each tag carries the text of an integer, negative or not, of magnitude at most 2^53, and every untagged key is an identifier) |
| Jkr.RewriteInsideString | public/js/jkr-converter.js:43-46 | the `=true` rewrite turns the string value `x=true` of a written table into `x:true` |
| Jkr.GrammarKeepsStringText | public/js/jkr-converter.js:36-61 | the grammar reader keeps `x=true` as written |
| Jkr.IntegerKeyReadAsString | public/js/jkr-converter.js:47-49 | the Lua integer key `[1]` is read as the string key `"1"` and then tagged |
| Jkr.IntegerKeyComesBackQuoted | public/js/jkr-converter.js:25-28 | that tagged key is written back as the string key `["1"]` |
| Jkr.FixedReadOfFixedText | public/js/jkr-converter.js:139-163 | with integer keys written bare, reading the written text gives back the storable properties |
| Jkr.FixedJkrRoundTrip | public/js/jkr-converter.js:139-163 | the corrected pipeline's round trip through an inverting compressor |
| Jkr.IntegerKeyKeepsItsForm | public/js/jkr-converter.js:47-49 | with the fix, `[1]` is tagged on reading and written back as `[1]` |
| Meta.State | public/js/meta.js:710-721 | `unlocked` iff `unlocked[id] === true`; `discovered` iff `discovered[id] === true` and not unlocked; otherwise `locked` |
| Meta.MetaData.GetItemState | public/js/meta.js:710-721 | `id` is unlocked iff `unlocked[id]` is true, discovered iff `discovered[id]` is true and it is not unlocked, and locked otherwise |
| Meta.Toggled | public/js/meta.js:741-753 | the new state is the next in the cycle; the maps differ from the old ones at most at `id`, and from locked `alerted` is untouched |
| Meta.MetaData.ToggleItem | public/js/meta.js:738-753 | the three maps become exactly the toggled flags |
| Meta.ToggleCycle | public/js/meta.js:741-753 | three toggles bring the item back to its state |
| Meta.ToggleOthers | public/js/meta.js:742-753 | toggling one id leaves every other id's state alone |
| Meta.MetaData.UnlockAll | public/js/meta.js:779-786 | every key of `unlocked` gets all three flags `true`; nothing else changes |
| Meta.MetaData.LockAll | public/js/meta.js:788-795 | every key of `unlocked` gets all three flags `false`; nothing else changes |
| Meta.MetaData.SetEvery | public/js/meta.js:779-795 | the shared loop over the keys of `unlocked`, whatever order it takes them in |
| Meta.AllSetEffect | public/js/meta.js:779-795 | afterwards every key of `unlocked` is unlocked (resp. locked), the key set of `unlocked` is the same, entries of the other maps outside it are kept |
| Meta.AllSetIdempotent | public/js/meta.js:779-795 | unlocking or locking twice equals doing it once |
| Meta.MetaData.GetItemsForCategory | public/js/meta.js:503-556 | the listing is strictly ascending and holds exactly the ids of the category |
| Meta.MetaData.CollectMultiple | public/js/meta.js:506-517 | a multi category: the keys of `unlocked` a subcategory matches, sorted without duplicates |
| Meta.MetaData.CollectSingle | public/js/meta.js:519-555 | a single category: the keys of any map that pass the filter, seal and prefix tests in the source's order |
| Meta.MultipleFromUnlocked | public/js/meta.js:506-517 | a multi category lists only keys of `unlocked` |
| Meta.PrefixCategoryItems | public/js/meta.js:538-553 | a category without a filter lists only ids with its prefix that do not start with `p_` |
| Meta.FilterCategoryItems | public/js/meta.js:528-533 | a filter category lists only ids that, with the first occurrence of the prefix removed, are in the filter |
| Meta.Insert | public/js/meta.js:516 | adding an id to a sorted duplicate-free listing keeps it sorted and adds exactly that id |
| Meta.SortedUnique | public/js/meta.js:516 | two strictly ascending listings with the same ids are equal, so the visiting order does not matter |
| Meta.StatsOf | public/js/meta.js:364-368 | the total is the number of items, and the unlocked plus discovered-only counts never exceed it |
| Meta.CountStatesTotal | public/js/meta.js:366-368 | unlocked, discovered-only and locked counts add up to the total |
| Meta.MetaData.UpdateStats | public/js/meta.js:364-368 | the counts are taken over the category's listing |
| Meta.StripPrefix | public/js/meta.js:357 | the first listed prefix the id starts with is removed, and nothing else |
| Meta.FormatNameShape | public/js/meta.js:355-362 | `_` becomes a space, a character at the start or after a space is upper-cased, nothing else changes; no `_` is left |
| Profile.ValidateProfileData | public/js/profile.js:12-49 | a truthy `unlocked`, `discovered` or `alerted` gives the meta-file error; otherwise valid iff no error was collected, else one message with the errors line by line |
| Profile.MissingKeyCheck | public/js/profile.js:22-26 | one `Missing required key: k` per required key that is not an own property, in list order |
| Profile.ValidExactly | public/js/profile.js:22-48 | no errors iff every required key is present, truthy `career_stats`/`high_scores` are objects, and a truthy `progress` has truthy `challenges` and `deck_stakes` |
| Profile.MissingKeyReportedOnce | public/js/profile.js:22-26 | each absent required key is reported exactly once, a present one never; presence is own-property, not truthiness |
| Profile.MissingKeyErrorsInOrder | public/js/profile.js:22-26 | the errors for missing keys come first, in the order of the required list |
| Profile.SetNestedValue | public/js/profile.js:534-544 | the write succeeds iff the dot-split path is open (every truthy intermediate value is an object or an array, and every container takes its key), and then following the path reads the value |
| Profile.SetPathOpen | public/js/profile.js:538-543 | the write succeeds exactly when every container met takes its key (an object any key, an array an index up to its length) and every truthy intermediate is an object or an array |
| Profile.SetPathFollow | public/js/profile.js:534-544 | after the write the path reads the written value |
| Profile.SetPathReplacesFalsy | public/js/profile.js:539 | an absent or falsy intermediate is replaced by new objects down to the value |
| Profile.SetPathOffPath | public/js/profile.js:534-544 | every path that leaves the written one reads as before |
| Profile.SetPathKeys | public/js/profile.js:534-544 | the top-level keys keep their order; an absent first key is added last |
| Profile.SetPathOtherKey | public/js/profile.js:534-544 | every other property or element of the container written into is unchanged |
| Profile.SetPathArrayElement | public/js/profile.js:538-541 | through an array on the path, an index below its length replaces that element and the index equal to its length appends one |
| Profile.WriteRead | public/js/profile.js:539-543 | after `c[k] = x` on an object or array, `c[k]` reads `x` and every other key reads as before |
| Profile.SetPathFresh | public/js/profile.js:538-543 | writing into an empty object builds exactly the chain of nested objects down to the value |
| Profile.StripNumericSuffix | public/js/profile.js:58 | a trailing `_` followed by one or more digits is removed, and nothing else |
| Profile.FormatProfileNameShape | public/js/profile.js:55-61 | `_` becomes a space, a word character that starts a word is upper-cased, every other character is kept; no `_` is left |
| Profile.FormatProfileNameIdempotent | public/js/profile.js:55-61 | formatting a formatted name changes nothing |
| Profile.FiveCardName | public/js/profile.js:486 | `c_five_card_1` is shown as `Five Card` |
| Usage.SortPermutes | public/js/profile.js:398-399 | the sort is a permutation of the entries |
| Usage.SortedByCount | public/js/profile.js:437-439 | the sorted entries, which the hand usage cards show in full and the tables cut to ten, have non-increasing `count` |
| Usage.SortStable | public/js/profile.js:398-399 | entries with equal `count` keep the order `Object.entries` gives them |
| Usage.TopIsBest | public/js/profile.js:398-400 | the first `n` sorted entries: `min(n, |entries|)` of them, ordered by count and drawn from the input |
| Usage.TopKeepsLargest | public/js/profile.js:398-400 | no entry left out of the first `n` has a larger count than one kept |
| Usage.TopTenBound | public/js/profile.js:455-457 | the joker and consumable tables hold at most ten rows, and exactly ten when there are enough entries |

## Left out

- Compression: raw DEFLATE (RFC 1951) and UTF-8 text coding are parameters of `Jkr`, and the round trips assume the decompressor inverts the compressor. A missing compression library is not modelled.
- Floating-point numbers: non-integer values in the save files, win rates and progress percentages are not modelled. Numbers are exact integers (see the `LuaText.ConvertObjToLua` and `KeyTags.DecodeObj` lines).
- LuaText.ConvertObjToLua: a number is printed with every digit. JavaScript's `${value}` prints a double's shortest digits, which differ from the exact digits past 2^53, and it switches to exponent form (`1e+21`) from 10^21. Values are exact integers in the model.
- KeyTags.DecodeObj, KeyTags.DecodeKey: `parseInt` and the property name made from its result are exact in the model. JavaScript rounds digit runs past 2^53, so `"\t\f9007199254740993"` becomes `"9007199254740992"`. The round trips (KeyTags.DecodeEncode, KeyTags.EncodeDecode, Jkr.JkrRoundTrip) are stated only for integer keys of magnitude at most 2^53, where the two agree. `Decimal.ParseInt` also skips no leading white space and reads no `0x` prefix, which `parseInt` does; such tails arise only from keys outside the round-trip domains.
- String escapes: the writer never escapes, so keys and strings holding `"`, `\` or a line break are outside the round trip. The reader rejects them.
- The literal mechanism of `parseObjFromLua` (regex rewriting plus `Function` evaluation) is replaced by a grammar reader. The grammar accepts the writer's output for printable values (it rejects the text written for arrays and for strings holding `"`), bare integer keys and an optional trailing comma. A bare key with a leading zero before `true`, `false` or `nil` is rejected, as the source's strict-mode evaluation of the computed key it leaves rejects it. It does not accept the rest of JavaScript object-literal syntax (white space, other number forms). The regex rewrites are modelled only for the `=true`/`=false`/`=nil` passes (finding 1).
- KeyTags.EncodeKey: `Number()` is modelled on decimal text only. That covers a sign, digits, a `.` followed by zeros, the empty text, and the overflow to `Infinity`. White space, hex, binary, octal and exponent text are not modelled. Neither are fractional digits that `Number` rounds away (`1.0000000000000000001`). The round trips restrict keys to integer text and identifiers.
- Property enumeration order: JavaScript lists integer-like keys first. The model keeps insertion order for every key.
- LuaText.ParseObjFromLua: the key pass of the source (`[digits]=` and `["…"]=` rewritten to `"…":`) is not modelled inside string values. A string value holding `[1]=`, such as `a[1]=b`, reads back unchanged in the model, while the source turns the text into invalid JavaScript and fails with `Lua parsing failed: `. The `=true`/`=false`/`=nil` passes inside strings are finding 1.
- LuaText.ParseObjFromLua: a bare digit key before `true`, `false` or `nil` is a computed key in the source, so its digits become a JavaScript number and then a property name: past 2^53 they are rounded (`[9007199254740993]=true` gives `"9007199254740992"`), and from 10^21 on they take exponent form. The reader keeps the digits as written. Before any other value the key pass quotes them, and the two agree.
- Arrays are written as `Array.prototype.toString` would print them. They are excluded from the round trips.
- The DOM, rendering, notifications, file pickers, `fetch`-based conversion and image lookup in `meta.js` and `profile.js`.
- `api.php` is not part of this model. It is HTTP routing, temporary files and an external process.
- Profile.SetNestedValue: modelled on values; the new object is returned rather than written through the `current` reference. What aliasing would share between objects is not captured.
- Profile.SetNestedValue: the model returns `None` for the writes it cannot hold. When a truthy intermediate is a string, number or `true`, JavaScript drops the write or throws one step later. When an array is written at an index past its length (which leaves holes) or under a name that is not an array index, JavaScript sets an element or property that `JArr` cannot hold. Writes through objects and through array elements up to the length are modelled.
- Profile.Read: only own properties and array elements are read. Inherited properties such as `constructor` or an array's `length` read as absent, so a path through them is not modelled as JavaScript would follow it.
- Usage.SortByCount: a `count` that is not a number makes the comparator return `NaN`; entries carry integer counts.
- Meta.StrictlySorted: `sort()` compares UTF-16 code units. The model compares characters, which agrees for text inside the Basic Multilingual Plane.
- Meta.FormatName: `toUpperCase` is modelled for ASCII letters only.
- Profile.CapitalizeWordStarts: the same; `\w` is ASCII anyway.
- `getItemsForCategory`'s `isSeal` test on single categories never fires, since no single category is a seal. The model keeps it as written.
- Meta.StatsOf: the counts are modelled on the listing only; the DOM update they feed is left out.

## Findings

| source | as written | input that shows it | evidently intended | confidence | as-written member | corrected member |
|---|---|---|---|---|---|---|
| public/js/jkr-converter.js:43-46 | the `=true`/`=false`/`=nil` rewrites run over the whole text, string values included | the written table `{["a"]="x=true",}` becomes `{["a"]="x:true",}` before evaluation | only the `]=` of a field is rewritten, and string contents are kept | not executed | Jkr.RewriteInsideString | Jkr.GrammarKeepsStringText |
| public/js/jkr-converter.js:25-28, 47-49 | integer keys are read as string keys and written back quoted | `return {[1]=true,}` is read and written back as `return {["1"]=true,}` | an integer key keeps its Lua form through a load and save, as the `"\t\f"` tag is there to record | not executed | Jkr.IntegerKeyComesBackQuoted | Jkr.FixedJkrRoundTrip |
