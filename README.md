# JFormDB storage core in Dafny

This project models the form database of JContainers (`tes_form_db`,
exposed to scripts as `JFormDB`). The database keeps per-form data under
named storages in the root map of a context. Each storage is a *form map*
from form keys to *entries*. An entry is usually a plain map from string
keys to values. Scripts address a value with a string such as
`.storage.key`. `subpath_extractor` splits that string into the storage
name and the remainder.

The model has three modules.

- `Subpath` (`subpath.dfy`) models `subpath_extractor`.
  - The pure function `Extract` states the parse on C strings: the
    characters before the first NUL, as `strlen` sees them. It uses the
    two half-splits, the key and path modes for the remainder, and the
    truncation of the name to 254 characters. Its properties are stated
    by the lemmas `ExtractSucceedsIff`, `ExtractAddress`,
    `MalformedAddressFails`, `ExtractedShape` and
    `PathRestIsDelimiterThenKeyRest`.
  - The class `SubpathExtractor` is the object itself. Its fixed
    255-character buffer is an `array<char>`. The constructor fills the
    buffer with a copy loop and terminates it with NUL. The remainder is an
    offset into the caller's string.
- `FormDb` (`form_db.dfy`) models the directory operations on a class
  `Context<V>`. The context holds the root map, the form maps and the plain
  maps, each keyed by an allocated id, plus the next free id. In
  `Context<V>`, `V` is the type of values kept in plain maps. The
  operations are:
  - `makeFormStorage`, `setEntry`, `makeMapEntry`, which change state;
  - `findEntry`, `findMapEntry`, which look things up;
  - the one-hop `getItem`/`setItem`.

  The invariant `Valid` says that every handle the directory holds is
  allocated, that form maps hold no null form key, and that ids of form
  maps and plain maps never clash. Each update is proved to keep it.
- The file's own tests are stated as lemmas and methods. The
  `subpath_extractor` test is stated in `Subpath` (`ExtractDotExample`,
  `ExtractBracketExample`, `ExtractNestedExample`,
  `ExtractFailureExamples`). The `storage_and_entry` and `get_set` tests
  are stated in `FormDbScenarios` (`scenarios.dfy`) on a fresh context,
  together with a few further scenarios.

Two details of the parse:

- In key mode the code starts the remainder one character *after* the
  delimiter that ends the storage name, whether that delimiter is `.`
  or `[`. So `.strg[0]` gives `0]`, as the test at
  `JContainers/src/api_3/tes_form_db.h:224` expects.
- The name buffer holds `bytesCount = 0xff` characters including the
  terminator. The code copies at most `bytesCount - 1 = 254` characters,
  not 255. A longer name is truncated before the directory sees it, so two
  long names that agree on their first 254 characters address the same
  storage.

## Model

| member | source | states |
|---|---|---|
| Subpath.CLength | JContainers/src/api_3/tes_form_db.h:38 | `strlen`: the result is the index of the first NUL, or the whole length when there is none; no earlier character is NUL |
| Subpath.CLengthOfPlain | JContainers/src/api_3/tes_form_db.h:38 | a string with no NUL is its own C string |
| Subpath.HalfSplit | JContainers/src/api_3/tes_form_db.h:40-46 | a half split cuts the range at its first delimiter: first part + delimiter + second part equals the input and the first part has no delimiter; there is no split exactly when no delimiter occurs |
| Subpath.FindFirst | JContainers/src/api_3/tes_form_db.h:40-46 | the index found holds a delimiter and no earlier index does; "not found" means no index holds one |
| Subpath.ExtractSucceedsIff | JContainers/src/api_3/tes_form_db.h:28-55 | the parse succeeds exactly when the path is non-null and its C string is an address: a leading `.`, a non-empty name free of `.` and `[`, then a delimiter followed by at least one character (both directions) |
| Subpath.Extract | JContainers/src/api_3/tes_form_db.h:28-55 | the whole constructor as a value: null for a null path, otherwise the parse of the path's C string; its contract is stated by `ExtractSucceedsIff`, `ExtractAddress`, `MalformedAddressFails`, `ExtractedShape` and `PathRestIsDelimiterThenKeyRest` |
| Subpath.ExtractFrom | JContainers/src/api_3/tes_form_db.h:40-54 | the two half splits on the character range; its contract is stated by `ExtractedIsAddress` (it succeeds only on an address) and `ExtractAddress` (what it yields on one) |
| Subpath.ExtractedIsAddress | JContainers/src/api_3/tes_form_db.h:40-54 | a successful parse is only ever of an address |
| Subpath.ExtractAddress | JContainers/src/api_3/tes_form_db.h:40-54 | on an address whose name ends at delimiter `j`: the name is the characters between, truncated to 254, and the remainder starts at `j + 1` in key mode and at `j` in path mode |
| Subpath.MalformedAddressFails | JContainers/src/api_3/tes_form_db.h:32-48 | null, a path not starting with `.`, nothing after the dot, an empty name or nothing after the name's delimiter: both `storageName()` and `rest()` are null |
| Subpath.ExtractedShape | JContainers/src/api_3/tes_form_db.h:46-54 | after a successful parse the storage name is non-empty, shorter than 255 and free of delimiters; the remainder is a non-empty proper suffix of the path; in path mode it starts with the delimiter |
| Subpath.PathRestIsDelimiterThenKeyRest | JContainers/src/api_3/tes_form_db.h:53-54 | key and path mode succeed on the same inputs with the same name, and the path-mode remainder is the delimiter followed by the key-mode remainder |
| Subpath.ExtractPlainAddress | JContainers/src/api_3/tes_form_db.h:40-54 | for a NUL-free address the name and remainder are read from the string directly |
| Subpath.ExtractComposed | JContainers/src/api_3/tes_form_db.h:40-54 | for `.` + name + delimiter + tail with a short name, the storage name is that name and the remainder is the tail (key mode) or delimiter + tail (path mode) |
| Subpath.ExtractDotExample | JContainers/src/api_3/tes_form_db.h:223 | `.strg.key` gives `strg` with `key` (key mode) and `.key` (path mode) |
| Subpath.ExtractBracketExample | JContainers/src/api_3/tes_form_db.h:224 | `.strg[0]` gives `strg` with `0]` and `[0]` |
| Subpath.ExtractNestedExample | JContainers/src/api_3/tes_form_db.h:225 | `.strg[0].key.key2` gives `strg` with `0].key.key2` and `[0].key.key2` |
| Subpath.ExtractFailureExamples | JContainers/src/api_3/tes_form_db.h:227-231 | `strg[0]`, `[`, null, the empty string and `...` all fail in both modes |
| Subpath.CopyN | JContainers/src/api_3/tes_form_db.h:50 | `std::copy_n`: the first `n` cells of the buffer become the source's first `n` characters and the rest of the buffer is untouched |
| Subpath.StoreName | JContainers/src/api_3/tes_form_db.h:49-51 | the buffer's C string becomes the name truncated to `bytesCount - 1` characters |
| Subpath.SubpathExtractor.constructor | JContainers/src/api_3/tes_form_db.h:28-64 | after construction `rest()` and `storageName()` read back exactly what `Extract` computes (null on failure), the buffer has 255 cells, and the remainder is an offset into the caller's string |
| Subpath.SubpathExtractor.Rest | JContainers/src/api_3/tes_form_db.h:58-60 | `rest()` is non-null exactly when the parse succeeded, and is then a suffix of the caller's C string, read in place rather than copied |
| Subpath.SubpathExtractor.StorageName | JContainers/src/api_3/tes_form_db.h:62-64 | `storageName()` is non-null exactly when the parse succeeded, and is then the buffer's contents up to the terminator: at most 255 characters, none of them NUL |
| FormDb.IsForm | JContainers/src/api_3/tes_form_db.h:90 | `!formKey`: the only key that is not a form is the null key, form id 0 |
| FormDb.ValidateStorageName | JContainers/src/api_3/tes_form_db.h:85-87 | `name && *name`: non-null with a first character that is not NUL; its meaning, a non-null and non-empty C string, is stated by `ValidNameIsNonEmptyCString` |
| FormDb.ValidNameIsNonEmptyCString | JContainers/src/api_3/tes_form_db.h:85-87 | `validate_storage_name` accepts a name exactly when the pointer is non-null and the C string it denotes is non-empty |
| FormDb.ExtractedNameIsValid | JContainers/src/api_3/tes_form_db.h:46-51 | a storage name produced by a successful parse passes `validate_storage_name` |
| FormDb.FormMapLiveGrows | JContainers/src/api_3/tes_form_db.h:76-79 | a form map whose handles are live stays live as more objects are allocated |
| FormDb.AllocateFormMapKeepsValid | JContainers/src/api_3/tes_form_db.h:76-79 | registering a fresh empty form map under a name keeps the directory invariant |
| FormDb.AllocateMapKeepsValid | JContainers/src/api_3/tes_form_db.h:113 | allocating a fresh plain map keeps the directory invariant |
| FormDb.StoreEntryKeepsValid | JContainers/src/api_3/tes_form_db.h:95-96 | storing a live handle under a non-null form keeps the directory invariant |
| FormDb.RemoveEntryKeepsValid | JContainers/src/api_3/tes_form_db.h:98-100 | removing a form key keeps the directory invariant |
| FormDb.OtherEntryKept | JContainers/src/api_3/tes_form_db.h:112-115 | when only one form's entry of one form map has changed, every entry of another form map and every other form's entry keeps its value |
| FormDb.StoreChangesOnlyEntry | JContainers/src/api_3/tes_form_db.h:114 | `tes_form_map::setItem` under a form changes only that form's entry |
| FormDb.CreateFormMapChangesOnlyEntry | JContainers/src/api_3/tes_form_db.h:78-79 | creating a storage's empty form map under a fresh id changes no existing entry |
| FormDb.Context.constructor | JContainers/src/api_3/tes_form_db.h:236 | a fresh context has no storages and no objects, and is valid |
| FormDb.Context.FindStorage | JContainers/src/api_3/tes_form_db.h:74-75 | the root's value under the name, if and only if it is a form map; a value of any other kind reads as null |
| FormDb.Context.FindEntry | JContainers/src/api_3/tes_form_db.h:121-125 | `findEntry`: the storage's value for the form exactly when both exist, null otherwise; nothing is created |
| FormDb.Context.FindMapEntry | JContainers/src/api_3/tes_form_db.h:128-130 | `findMapEntry`: the entry exactly when it is a plain map, null for an entry of another kind |
| FormDb.Context.FindEntryIsLive | JContainers/src/api_3/tes_form_db.h:121-130 | in a valid directory a found entry is live and its form is non-null, and a found map exists |
| FormDb.Context.MakeFormStorage | JContainers/src/api_3/tes_form_db.h:69-83 | null and no change for an invalid name; the existing form map when there is one, with no change; otherwise a fresh empty form map under the name, replacing a value of another kind, with everything else unchanged |
| FormDb.Context.SetEntry | JContainers/src/api_3/tes_form_db.h:89-102 | no change for an invalid name or null form; a non-null entry is stored in the (possibly new) storage and found afterwards; a null entry removes the form from an existing storage and creates nothing |
| FormDb.Context.MakeMapEntry | JContainers/src/api_3/tes_form_db.h:105-118 | null and no change for a null form or invalid name; an existing map entry is returned with no change; otherwise a fresh empty map is stored for the form (after a fresh storage if needed), replacing an entry of another kind; other form maps, and the other forms' entries of this storage, are unchanged |
| FormDb.Context.AttachNewMap | JContainers/src/api_3/tes_form_db.h:112-115 | a fresh empty map gets the next id and is stored under the form; nothing else changes |
| FormDb.Context.GetItem | JContainers/src/api_3/tes_form_db.h:181-185 | key-mode parse, then the value under the remainder in the form's map entry; the default for a malformed path, a null form, or a missing storage, entry or key |
| FormDb.Context.SetItem | JContainers/src/api_3/tes_form_db.h:193-197 | no change for a malformed path or null form; otherwise the form's map entry exists and equals its old contents with the remainder key set to the item; an existing storage is reused and a new one is a form map that did not exist before; the root map holds the storage under the name and is otherwise unchanged; an existing map entry of the form is reused and a new one is a map that did not exist before, so another form's or object's map is never written; the id counter grows by at most two and not at all when the entry existed; other plain maps, other form maps and the other forms' entries in this storage are unchanged; `GetItem` then returns the item whatever the default |
| FormDb.Context.PutItem | JContainers/src/api_3/tes_form_db.h:195-196 | `tes_map::setItem` on the result of `makeMapEntry`: no change for an invalid name or null form; otherwise the entry is made and the key set to the item (a null key sets nothing); an existing storage is reused and a new one is a form map that did not exist before; the root map holds the storage under the name and is otherwise unchanged; an existing map entry of the form is reused and a new one is a map that did not exist before, so another form's or object's map is never written; the id counter grows by at most two and not at all when the entry existed; other plain maps, other form maps and the other forms' entries in this storage are unchanged |
| FormDb.Context.SetMapKey | JContainers/src/api_3/tes_form_db.h:196 | the map's key now holds the item; no other map changes |
| FormDbScenarios.ExtractFormsObject | JContainers/src/api_3/tes_form_db.h:258 | `.forms.object` names storage `forms` and, in key mode, key `object` |
| FormDbScenarios.StorageAndEntryScenario | JContainers/src/api_3/tes_form_db.h:234-249 | on a fresh context `makeFormStorage("forms")` is non-null and gives the same map twice, and so does `makeMapEntry` for form 0x14 |
| FormDbScenarios.DistinctFormsScenario | JContainers/src/api_3/tes_form_db.h:105-118 | two forms get two distinct map entries in the same storage |
| FormDbScenarios.RejectedScenario | JContainers/src/api_3/tes_form_db.h:105-107 | a null form or an empty name makes no map entry, and a null name makes no storage |
| FormDbScenarios.GetSetScenario | JContainers/src/api_3/tes_form_db.h:252-264 | a handle set under `.forms.object` for form 0x14 reads back through `getItem` |
| FormDbScenarios.SetItemFrameScenario | JContainers/src/api_3/tes_form_db.h:193-197 | after `setItem` for form 0x14 under `.forms.object`, form 7's entries in storage `forms` and in storage `other` are as they were |
| FormDbScenarios.SetItemNewStorageScenario | JContainers/src/api_3/tes_form_db.h:193-197 | when `setItem` under `.forms.object` creates storage `forms`, the entry of form 0x14 in storage `other` is kept and no storage appears under an unrelated name |
| FormDbScenarios.TwoFormsGetSetScenario | JContainers/src/api_3/tes_form_db.h:193-197 | on a fresh context, `setItem` of 1 for form 7 and then of 5 for form 0x14 under `.forms.object`: `getItem` reads back 1 for form 7 and 5 for form 0x14 |
| FormDbScenarios.SetEntryScenario | JContainers/src/api_3/tes_form_db.h:89-102 | a null entry with no storage creates nothing; a stored map entry is found; a later null entry removes it |

## Left out

- `solveGetter`, `solveSetter`, `hasPath`, `allKeys`, `allValues` (lines 134–179): they only forward the parsed name and remainder to the container engine's path resolver and key listing (`tes_object`, `tes_map`). Those are not part of this model. The parse they use is `Extract`, in path mode for `solve*`, so the solveGetter assertion of the `get_set` test is not modelled.
- The `REGISTERF` and `REGISTERF2` bindings, the meta information and the script-side names are registration for the script runtime, not behaviour.
- Reference counting, object lifetime, garbage collection and locking of the context are not modelled. Handles are ids that stay allocated for ever. The model is sequential.
- A form key is modelled as a number, with 0 as the null form. How forms are represented and resolved (`form_ref_lightweight`, `make_lightweight_form_ref`) is not modelled.
- GetItem: the value type is a type parameter with a caller-supplied default. The per-type defaults, the conversions `tes_map::getItem<T>` performs between stored kinds, and `Float32` are not modelled.
- Map keys are compared exactly. Any case-insensitive key comparison in the container engine is not modelled.
- `boost::half_split` and `half_split_if` come from `boost_extras.h`, which is not part of this model. They are modelled as splitting at the first delimiter, with no result when there is none. Of the two other conventions for the missing-delimiter case, one gives the model's parse and the test at line 227 rules out the other. If the split returns (whole range, empty range), the first split of a non-empty path has a non-empty first part and the second split has an empty second part, so the extractor fails, as in the model. If it returned (empty range, whole range), `strg[0]` would pass the first split with `strg[0]` as second part, and the second split would give storage `strg` with remainder `0]`. The test at line 227 expects `strg[0]` to fail, which rules that convention out.
- `tes_db::setObj` (line 80) is modelled as storing the form map under the storage name in the root map. Its own path handling is not part of this model.
- A Dafny `char` in the model stands for one C `char`, that is one byte of the C string. The 254-character cap on storage names (line 49) therefore counts bytes, and a name in a multi-byte encoding may be cut inside a character. Encodings are not modelled.
- The directory operations key storages by the whole character sequence of the name they are given, while the code's root map sees the name only up to its first NUL. For a name with a NUL after its first character the two keys differ. The parser never yields such a name.
