# Morphon serialization core, modelled in Dafny

Morphon is a serialization library for the Godot engine. This model covers two of its parts.

- **The auto-serializer (`MorphonAutoSerializer`).** It turns an object implementing
  `IMorphonSerializable` into an attribute dictionary and adds a `"Type"` tag holding the
  object's full type name. While it does so, every shared resource value is written as its
  resource path. Reading goes the other way: the input's shape and tag are checked, every
  `res://` string is swapped for the loaded asset in a fresh copy, a new instance of the
  registered type is created, and the copy is handed to it.
- **The config store (`MorphonConfigFile`).** It is a section → key → Variant document held in
  the field `m_Data`, with set/get/has/list/clear operations and whole-document load and save.

Both come in two versions, modelled side by side. The current version lives under `Morphon/`.
The earlier version lives under `projectexample/Morphon/`.

Files and modules:

- `values.dfy` (`Values`): the Variant model, resources, errors, `Result`/`Option`, the `res://`
  prefix test, `Trim`, and generic list helpers (`MapResult` for a loop whose first exception
  aborts, `Somes` for a loop that skips nulls).
- `registry.dfy` (`Registry`): type descriptors, objects, and the registration loop. Reflection
  becomes an explicit sequence of type descriptors. The legacy `RegisterTypes`
  (projectexample/Morphon/MorphonAutoSerializer.cs lines 16-24) is the same text as the current
  one, so it is modelled by the same member.
- `resources.dfy` (`Resources`): `GetResourcePath` and `SafeLoadResourceFromPath`. The legacy
  store's copies (projectexample/Morphon/MorphonConfigFile.cs lines 134-149) are the same text,
  so they are modelled by these members too.
- `auto_serializer.dfy` (`AutoSerializer`): the current serializer with its round-trip lemmas.
- `config_document.dfy` (`ConfigDocument`): the two-level document and the changes the stores
  make to it, as pure functions.
- `config_file.dfy` (`ConfigFile`): the current store, a class whose field `data` is `m_Data`.
- `legacy_auto_serializer.dfy`, `legacy_config_file.dfy`: the earlier versions.

Collaborators the library calls but does not define are parameters of the model:

- `Engine` / `LegacyEngine` carry the engine's textual view of non-string Variants and
  `GD.Load`. `LegacyEngine` also carries JSON parsing and rendering. For the current store,
  these are the `parse`/`stringify` parameters of `Load`/`Save`.
- They also carry the two interface methods of each domain type. `emit(o)` is the dictionary
  `o.Serialize(out data)` produces. `populate(t, d)` is the field state of a fresh instance of
  `t` after `Deserialize(d)`, or None when `Activator.CreateInstance` or the type's own
  `Deserialize` throws. That exception becomes the error `InstanceFailed(tag)`.
- `Load` receives the file content, or `None` when the file does not open.
- The current `Save` receives whether the file opened and what `StoreString` reports. The
  earlier `Save` receives only whether the file opened, because it ignores the result of
  `StoreString` (projectexample/Morphon/MorphonConfigFile.cs line 99).

Behaviour of the code worth knowing:

- `DeserializeList` in the current version stops at the first element that fails:
  `Deserialize` throws rather than returning null, so that element aborts the whole list, and
  the null check after it never fires.
- The earlier `DeserializeList` drops the elements `Deserialize` returns null for. An
  exception thrown while creating or populating an instance still escapes its loop.
- Registering two types with one full name is not an error: the later one replaces the
  earlier (`_typeMap[...] =`).
- `Serialize` adds the tag with `Add`, so an object whose own dictionary already has `"Type"`
  makes it throw.
- The resource branch of `GetValue` returns null, not the caller's default, for a stored path
  outside `res://`. The caller's default only covers a missing pair.
- The earlier store keeps objects and lists as JSON text, not as dictionaries, and its `Load`
  does not preserve the store on a parse failure (see Findings).
- `As<string>()` of a `Nil` Variant is null in Godot (`Values.AsString` gives None). Code that
  calls a method on that null throws. In the current `Deserialize`, a `Nil` attribute makes the
  `StartsWith` test of the copy loop throw. A `Nil` tag makes the registry lookup throw
  (`ContainsKey(null)`). In both `GetValue`s, a stored `Nil` read as a resource makes
  `SafeLoadResourceFromPath` throw. In the earlier `DeserializeList`, a null element makes
  `item.ToString()` throw.
- The earlier `IMorphonSerializable.cs` declares `Serialize()` as returning a dictionary, but
  the earlier serializer, store and example types all use it as returning JSON text. The model
  follows the callers.

Three engine behaviours are assumptions of the model, listed under "## Left out": how a
conversion of a Variant of the wrong shape behaves, what a null string becomes when it is
stored, and what parsing a null text gives.

## Model

| member | source | states |
|---|---|---|
| `Registry.RegistryOfExact` | Morphon/MorphonAutoSerializer.cs:16-24 | the registry holds exactly the non-abstract `IMorphonSerializable` types, each keyed by its full name; a name is bound to the last such type with that name |
| `Registry.RegistryOf` | Morphon/MorphonAutoSerializer.cs:16-24 | reference definition, no contract of its own: the registry after indexing each eligible type by its full name in turn; its properties are `RegistryOfExact` |
| `Registry.RegisterTypes` | Morphon/MorphonAutoSerializer.cs:16-24 | the registration loop builds exactly `RegistryOf(types)` |
| `Resources.GetResourcePath` | Morphon/MorphonAutoSerializer.cs:135-143 | a path exists exactly for a non-null resource that is not local to scene, and it is that resource's `ResourcePath` |
| `Resources.SafeLoadResourceFromPath` | Morphon/MorphonAutoSerializer.cs:144-150 | a path outside `res://` yields the default without loading; a `res://` path yields the loader's result |
| `Values.HasResPrefix` | Morphon/MorphonAutoSerializer.cs:146 | reference definition, no contract of its own: `StartsWith("res://")` as an ordinal prefix test |
| `Values.Trim` | Morphon/MorphonConfigFile.cs:103 | reference definition, no contract of its own: `Trim()` drops `char.IsWhiteSpace` characters from both ends; its property is `TrimEmptyIffBlank` |
| `Values.TrimEmptyIffBlank` | Morphon/MorphonConfigFile.cs:103 | `Trim()` yields the empty text exactly when every character is white space |
| `AutoSerializer.Resolve` | Morphon/MorphonAutoSerializer.cs:56-63 | reference definition, no contract of its own: one entry of the copy, None (the `StartsWith` test throws) for a `Nil` entry, the loaded asset for a `res://` string view and the value itself otherwise; its properties are `Resolved` |
| `AutoSerializer.Resolved` | Morphon/MorphonAutoSerializer.cs:54-64 | the copy throws a null reference exactly when some entry is `Nil`; otherwise the fresh dictionary has exactly the input's keys, an entry whose string view starts with `res://` holds the loader's result for it, and every other entry is copied unchanged |
| `AutoSerializer.Deserialized` | Morphon/MorphonAutoSerializer.cs:31-69 | fails with InvalidData for a non-dictionary, MissingTypeTag without `"Type"`, NullArgument for a `Nil` tag (a null registry key), UnregisteredType for an unknown tag, NullReference when some entry is `Nil`, InstanceFailed when creating or populating the instance throws, and succeeds exactly when none of these holds; the object is then of the type registered under the tag and was populated from the resolved copy, not the input |
| `AutoSerializer.Deserialize` | Morphon/MorphonAutoSerializer.cs:31-69 | the check-then-copy loop returns exactly `Deserialized`; the input is a value and is not changed |
| `AutoSerializer.WriteRef` | Morphon/MorphonAutoSerializer.cs:82-88 | reference definition, no contract of its own: Nil stays, a resource becomes its path (Nil when none), anything else stays; the same rule as Morphon/MorphonConfigFile.cs lines 17-27; its properties are stated by `Serialized` and `ConfigFile.MorphonConfigFile.SetValue` |
| `AutoSerializer.Serialized` | Morphon/MorphonAutoSerializer.cs:74-92 | fails exactly when the object's dictionary already has `"Type"`; otherwise the keys are the object's keys plus `"Type"`, `"Type"` holds the full type name, resource values become their path (Nil when none) and all other values are unchanged |
| `AutoSerializer.Serialize` | Morphon/MorphonAutoSerializer.cs:74-92 | the tag-then-rewrite loop over a key snapshot returns exactly `Serialized` |
| `AutoSerializer.RoundTripFeedsOwnAttributes` | Morphon/MorphonAutoSerializer.cs:54-89 | for a registered object without `Nil` or resource-like values, deserializing its serialization creates its own type and hands it its own attributes plus the tag (or fails with InstanceFailed when that instance throws) |
| `AutoSerializer.RoundTrip` | Morphon/MorphonAutoSerializer.cs:31-92 | if the type's `Deserialize` restores what its `Serialize` emitted, the round trip returns the same object |
| `AutoSerializer.ReferenceSymmetry` | Morphon/MorphonAutoSerializer.cs:54-89 | a shared `res://` resource is written as its path, and on reading that entry becomes the loader's result for the path |
| `AutoSerializer.SerializedList` | Morphon/MorphonAutoSerializer.cs:122-132 | reference definition, no contract of its own: `Serialized` applied to each object until the first failure; its properties are `SerializedListShape` |
| `AutoSerializer.SerializedListShape` | Morphon/MorphonAutoSerializer.cs:122-132 | the list serializes exactly when each object does, then yields one dictionary per object in input order; otherwise it fails with the first failing object's error |
| `AutoSerializer.SerializeList` | Morphon/MorphonAutoSerializer.cs:122-132 | the append loop returns exactly `SerializedList` |
| `AutoSerializer.AsDictArray` | Morphon/MorphonAutoSerializer.cs:102-106 | the list conversion succeeds exactly for an array all of whose elements are dictionaries, element for element |
| `AutoSerializer.DeserializedList` | Morphon/MorphonAutoSerializer.cs:99-115 | reference definition, no contract of its own: InvalidListData for a non-list, else `Deserialized` applied to each element until the first failure; its properties are `DeserializedListShape` |
| `AutoSerializer.DeserializedListShape` | Morphon/MorphonAutoSerializer.cs:99-115 | input that is not an array of dictionaries fails with InvalidListData; otherwise it succeeds exactly when every element does, with one object per element in order, and otherwise fails with the first failing element's error |
| `AutoSerializer.DeserializeList` | Morphon/MorphonAutoSerializer.cs:99-115 | the append loop returns exactly `DeserializedList`, stopping at the first element that throws |
| `ConfigDocument.WithKey` | Morphon/MorphonConfigFile.cs:131-137 | afterwards the pair exists; a new key holds Nil, an existing one keeps its value; nothing else changes |
| `ConfigDocument.Put` | Morphon/MorphonConfigFile.cs:13-28 | after a put the pair is present and holds the value; the other sections and the other keys of the section keep their values |
| `ConfigDocument.RemoveKey` | Morphon/MorphonConfigFile.cs:123-129 | the key is gone, its section stays even if empty, everything else is unchanged, and an absent pair leaves the document as it was |
| `ConfigDocument.RemoveSection` | Morphon/MorphonConfigFile.cs:116-122 | the section is gone, other sections are unchanged, and an absent section leaves the document as it was |
| `ConfigDocument.AsDoc` | Morphon/MorphonConfigFile.cs:105-107 | a parse result converts exactly when it is a dictionary of dictionaries, and then with the same sections and contents |
| `ConfigDocument.KeysToArray` | Morphon/MorphonConfigFile.cs:79-87 | every key appears exactly once |
| `ConfigFile.DictArray` | Morphon/MorphonConfigFile.cs:38-42 | a stored list of dictionaries converts back to the same list |
| `ConfigFile.DocVariant` | Morphon/MorphonConfigFile.cs:94 | the Variant handed to the encoder converts back to the same document |
| `ConfigFile.MorphonConfigFile.constructor` | Morphon/MorphonConfigFile.cs:8 | a new store is empty |
| `ConfigFile.MorphonConfigFile.HasSection` | Morphon/MorphonConfigFile.cs:69-72 | true exactly when the section exists |
| `ConfigFile.MorphonConfigFile.HasSectionKey` | Morphon/MorphonConfigFile.cs:73-77 | true exactly when the section exists and holds the key; false for an absent section |
| `ConfigFile.MorphonConfigFile.NewKey` | Morphon/MorphonConfigFile.cs:131-137 | the document becomes `WithKey` of the old one |
| `ConfigFile.MorphonConfigFile.SetValue` | Morphon/MorphonConfigFile.cs:13-28 | the pair then exists; a resource is stored as its path, any other value as it is; nothing else changes |
| `ConfigFile.MorphonConfigFile.SetSerializable` | Morphon/MorphonConfigFile.cs:33-37 | stores `Serialize(value)`; when that throws, the pair created first remains |
| `ConfigFile.MorphonConfigFile.SetSerializableList` | Morphon/MorphonConfigFile.cs:38-42 | stores `SerializeList(list)` as an array of dictionaries; when that throws, the pair created first remains |
| `ConfigFile.MorphonConfigFile.GetValue` | Morphon/MorphonConfigFile.cs:47-62 | the caller's default for an absent pair; otherwise the deserialized object (or its error), the resource loaded from a `res://` path (null for other paths, a null reference for a stored `Nil`), or the stored value |
| `ConfigFile.MorphonConfigFile.GetListValue` | Morphon/MorphonConfigFile.cs:63-67 | the caller's default for an absent pair; otherwise `DeserializeList` of the stored value |
| `ConfigFile.MorphonConfigFile.GetSections` | Morphon/MorphonConfigFile.cs:79-82 | every section name exactly once |
| `ConfigFile.MorphonConfigFile.GetSectionKeys` | Morphon/MorphonConfigFile.cs:83-87 | every key of the section exactly once; empty for an absent section |
| `ConfigFile.MorphonConfigFile.Save` | Morphon/MorphonConfigFile.cs:89-96 | true exactly when the file opens and the write succeeds; the whole document is encoded |
| `ConfigFile.MorphonConfigFile.Load` | Morphon/MorphonConfigFile.cs:97-110 | false with the document untouched when the file does not open, is blank, or does not parse to a two-level dictionary; otherwise the parsed document replaces the old one |
| `ConfigFile.MorphonConfigFile.Clear` | Morphon/MorphonConfigFile.cs:112-115 | the store becomes empty |
| `ConfigFile.MorphonConfigFile.ClearSection` | Morphon/MorphonConfigFile.cs:116-122 | the document becomes `RemoveSection` of the old one |
| `ConfigFile.MorphonConfigFile.ClearKey` | Morphon/MorphonConfigFile.cs:123-129 | the document becomes `RemoveKey` of the old one |
| `ConfigFile.SaveThenLoad` | Morphon/MorphonConfigFile.cs:89-110 | for an encoder and a parser that agree, loading the saved text into a new store reproduces the document |
| `ConfigFile.FailedLoadKeepsStore` | Morphon/MorphonConfigFile.cs:105-107 | after a load of text that is not a dictionary, an entry set before is still there |
| `LegacyAutoSerializer.Deserialize` | projectexample/Morphon/MorphonAutoSerializer.cs:26-47 | null when the text does not parse to a dictionary, has no `"Type"`, or has an unregistered tag; NullArgument for a `Nil` tag (a null registry key); InstanceFailed exactly when creating or populating the registered type throws; otherwise an instance of that type populated from the original text |
| `LegacyAutoSerializer.DeserializeItem` | projectexample/Morphon/MorphonAutoSerializer.cs:56 | reference definition: a null element throws a null reference at `item.ToString()`; any other element is handed to `Deserialize` |
| `LegacyAutoSerializer.Kept` | projectexample/Morphon/MorphonAutoSerializer.cs:52-58 | reference definition, no contract of its own: the loop's outcome, the first exception or the non-null objects in order; its properties are `KeptAppend`, `KeptContents` and `KeptSingle` |
| `LegacyAutoSerializer.KeptAppend` | projectexample/Morphon/MorphonAutoSerializer.cs:54-58 | a concatenated batch throws the first part's exception, else the second part's, else keeps what survives of each part, in the same order |
| `LegacyAutoSerializer.KeptContents` | projectexample/Morphon/MorphonAutoSerializer.cs:54-58 | the batch succeeds exactly when no element throws (a null element throws), and then keeps at most one object per element: all of them, in place, when every element yields one, and only objects some element yields; otherwise the first exception |
| `LegacyAutoSerializer.KeptSingle` | projectexample/Morphon/MorphonAutoSerializer.cs:56-57 | one element contributes its exception, nothing when it yields null, or its object |
| `LegacyAutoSerializer.BatchAbortsOnThrow` | projectexample/Morphon/MorphonAutoSerializer.cs:54-58 | a text whose instance throws aborts the batch with that exception, even after a text that deserializes |
| `LegacyAutoSerializer.BatchAbortsOnNull` | projectexample/Morphon/MorphonAutoSerializer.cs:54-58 | a null element aborts the batch with a null reference, after an element that deserializes without throwing |
| `LegacyAutoSerializer.BatchSkipsFailure` | projectexample/Morphon/MorphonAutoSerializer.cs:49-61 | a valid text, a failing one and another valid one give exactly the two valid objects, in order |
| `LegacyAutoSerializer.AsStringArray` | projectexample/Morphon/MorphonAutoSerializer.cs:51 | the conversion succeeds exactly for an array, with one string per element, null for a `Nil` element |
| `LegacyAutoSerializer.DeserializedList` | projectexample/Morphon/MorphonAutoSerializer.cs:49-61 | reference definition, no contract of its own: NullReference for a non-array, else `Kept` of its elements |
| `LegacyAutoSerializer.DeserializeList` | projectexample/Morphon/MorphonAutoSerializer.cs:49-61 | a non-array fails with a null reference; an exception from an element, or the null reference of a null element, escapes; otherwise the non-null results in input order, nulls dropped |
| `LegacyAutoSerializer.SerializeList` | projectexample/Morphon/MorphonAutoSerializer.cs:63-73 | the rendering of an array holding exactly one text per object, in input order |
| `LegacyConfigFile.LegacyStored` | projectexample/Morphon/MorphonConfigFile.cs:21-29 | a resource is stored as its path and any other value as it is, with no Nil pre-check |
| `LegacyConfigFile.MorphonConfigFile.constructor` | projectexample/Morphon/MorphonConfigFile.cs:8 | a new store is empty and not null |
| `LegacyConfigFile.MorphonConfigFile.HasSection` | projectexample/Morphon/MorphonConfigFile.cs:74-77 | whether the section exists; a null reference on a null store |
| `LegacyConfigFile.MorphonConfigFile.HasSectionKey` | projectexample/Morphon/MorphonConfigFile.cs:78-82 | whether the section exists and holds the key, false for a missing section; a null reference on a null store |
| `LegacyConfigFile.MorphonConfigFile.Store` | projectexample/Morphon/MorphonConfigFile.cs:16-19 | on a non-null store, creates the missing section and key and stores the value; nothing else changes |
| `LegacyConfigFile.MorphonConfigFile.SetValue` | projectexample/Morphon/MorphonConfigFile.cs:14-30 | the pair then exists and holds `LegacyStored(value)`; a null store throws and is unchanged |
| `LegacyConfigFile.MorphonConfigFile.SetSerializable` | projectexample/Morphon/MorphonConfigFile.cs:31-39 | stores the object's own serialized text under the pair |
| `LegacyConfigFile.MorphonConfigFile.SetSerializableList` | projectexample/Morphon/MorphonConfigFile.cs:40-48 | stores the text of `SerializeList(list)` under the pair |
| `LegacyConfigFile.MorphonConfigFile.GetValue` | projectexample/Morphon/MorphonConfigFile.cs:50-65 | the default for an absent pair; otherwise the object deserialized from the stored text (null for a `Nil` text or an untyped or unregistered text, the exception when the instance throws), the resource loaded from a `res://` path (null otherwise, a null reference for a stored `Nil`), or the stored value |
| `LegacyConfigFile.MorphonConfigFile.GetListValue` | projectexample/Morphon/MorphonConfigFile.cs:66-72 | the default for an absent pair; a null reference for a stored `Nil`; otherwise `DeserializeList` of the stored text |
| `LegacyConfigFile.MorphonConfigFile.GetSections` | projectexample/Morphon/MorphonConfigFile.cs:84-87 | every section name exactly once; a null reference on a null store |
| `LegacyConfigFile.MorphonConfigFile.GetSectionKeys` | projectexample/Morphon/MorphonConfigFile.cs:88-92 | every key of the section exactly once, empty for a missing section; a null reference on a null store |
| `LegacyConfigFile.MorphonConfigFile.Save` | projectexample/Morphon/MorphonConfigFile.cs:94-101 | true exactly when the file opens; the write's outcome is ignored |
| `LegacyConfigFile.MorphonConfigFile.Load` | projectexample/Morphon/MorphonConfigFile.cs:102-113 | false with the store untouched when the file does not open or is blank; otherwise the store becomes the converted parse result, null when that fails, and the result says which |
| `LegacyConfigFile.MorphonConfigFile.Clear` | projectexample/Morphon/MorphonConfigFile.cs:115-118 | the store becomes empty; a null store throws |
| `LegacyConfigFile.MorphonConfigFile.ClearSection` | projectexample/Morphon/MorphonConfigFile.cs:119-125 | the document becomes `RemoveSection` of the old one; a null store throws |
| `LegacyConfigFile.MorphonConfigFile.ClearKey` | projectexample/Morphon/MorphonConfigFile.cs:126-132 | the document becomes `RemoveKey` of the old one; a null store throws |
| `LegacyConfigFile.FailedLoadLosesStore` | projectexample/Morphon/MorphonConfigFile.cs:110-112 | after a load of text that is not a dictionary, querying an entry set before throws a null reference |
| `LegacyConfigFile.NullStoreSavesAndRecovers` | projectexample/Morphon/MorphonConfigFile.cs:94-113 | after a failed load, `Save` still reports success and writes the null document, and a later load of a two-level text succeeds and brings back a usable store |

## Left out

- JSON text. `Json.Stringify`, `Json.ParseString` and `Array<string>.ToString()` are engine code.
  They are parameters, and no encode/decode round trip is claimed.
- File access. `FileAccess.Open`, `GetAsText`, `StoreString` and the `using` disposal are I/O.
  The model receives their outcomes as parameters.
- Asset loading. `GD.Load` is the parameter `load`.
- Variant coercion. `As<string>()` of a `Nil` value is null, and of any other non-string value
  it is the engine's rendering, given as a parameter. Its exact text, floats and colours are
  not modelled. The final `As<T>()` of both `GetValue`s is not modelled either: the
  `VariantKind` branch returns the stored Variant unconverted, and the `ResourceKind` branch
  returns the loader's Variant unconverted.
- Reflection. `Assembly.GetTypes`, `IsAssignableFrom` and `IsAbstract` become the fields of
  `TypeInfo`. `Activator.CreateInstance` followed by `Deserialize` is the parameter `populate`.
  Which exception it throws is not modelled, only that it throws (`InstanceFailed`).
- `AutoSerializer.Serialized`: assumes the object's own `Serialize(out data)` (`emit`) does not
  throw. Only the exception from adding the tag is modelled.
- `LegacyAutoSerializer.SerializeList`: assumes each object's own `Serialize()`
  (`serializeText`) does not throw. `LegacyConfigFile.MorphonConfigFile.SetSerializable`
  rests on the same assumption: it calls `value.Serialize()`
  (projectexample/Morphon/MorphonConfigFile.cs line 38).
- Interface declarations. `IMorphonSerializable` has no behaviour of its own; its two methods
  are the parameters `emit`/`populate` (`serializeText`/`populateText` in the earlier version).
- Dictionary insertion order. Dictionaries are maps, so `GetSections` and `GetSectionKeys`
  promise each key once and no particular order.
- Aliasing. An object may hand out its own internal dictionary from `Serialize(out data)`, and
  `Serialize` then adds the tag and paths to it. `emit` returns a value, so that change to the
  object is not modelled.
- Null arguments. A null object, list or out-dictionary passed in makes the C# code throw. This
  is not modelled.
- Diagnostics. The `GD.PrintErr` calls of the earlier `Deserialize` are output only.
- Initialisation. Static-constructor ordering and thread safety are out of scope; the registry
  is a given value.
- Other files. `JsonAutoSerializer.cs` (a Newtonsoft wrapper over an interface not shown),
  `AutoSerializeAttribute.cs`, the example types `AnimalResource`/`Cat`/`Dog` and `Test.cs` are
  not part of this model.
- Dead check. `value.As<string> == null` in the current `GetValue` compares a method group, not
  a value, so it is not modelled.
- `ConfigFile.MorphonConfigFile.GetValue`: does not model the InvalidCastException of the
  `(T)` cast, because the model has no type hierarchy to decide assignability.
- `ConfigFile.MorphonConfigFile.GetListValue`: does not model the InvalidCastException of
  `.Cast<T>()`, for the same reason.
- `LegacyConfigFile.MorphonConfigFile.GetValue`: does not model the cast of the
  deserialized object to `T`, for the same reason.
- `LegacyConfigFile.MorphonConfigFile.GetListValue`: does not model the InvalidCastException
  that `.Cast<T>().ToList()` throws for a deserialized object that is not a `T`, for the same
  reason.
- Wrong-shape conversions (an assumption). `As<Dictionary<...>>()`, `As<Array<...>>()` and
  `As<Resource>()` of a Variant of another shape are modelled as null (None), which is what the
  code's `== null` checks expect. The engine may instead give an empty container. Members that
  rest on this assumption:
  - `Values.AsDict`, `Values.AsResource`, `AutoSerializer.AsDictArray`, `ConfigDocument.AsDoc`
    and `LegacyAutoSerializer.AsStringArray`;
  - both `Load`s and both `DeserializeList`s;
  - `ConfigFile.FailedLoadKeepsStore`. Under an empty-container engine, the current `Load("x")`
    would empty the store and return true;
  - the Finding, `LegacyConfigFile.FailedLoadLosesStore` and
    `LegacyConfigFile.NullStoreSavesAndRecovers`. Under an empty-container engine, the earlier
    `Load` would empty the store and return true, rather than null it.
- Null strings (an assumption). A null path string written into a Variant slot is modelled as
  `Nil` (`Values.PathToVariant`). The engine may store an empty string instead.
- Null texts (an assumption). `Json.ParseString` of a null text is modelled as a failed parse,
  that is, null. So `LegacyConfigFile.MorphonConfigFile.GetValue` gives null for a stored `Nil`
  read as an object. `LegacyConfigFile.MorphonConfigFile.GetListValue` gives a null reference
  for it, because `DeserializeList` then iterates a null array.
- `Values.HasResPrefix`: compares the characters ordinally. The culture-sensitive
  `StartsWith` of .NET ignores zero-weight characters such as a soft hyphen, so a text that
  starts with one before `res://` matches there but not in the model. Ignorable characters are
  not modelled.

## Findings

| source | as written | input that shows it | evidently intended | confidence | as-written member | corrected member |
|---|---|---|---|---|---|---|
| projectexample/Morphon/MorphonConfigFile.cs:110-112 | `Load` assigns the converted parse result to `m_Data` before testing it, so a failed parse loses the old document and leaves the store null (with wrong-shape conversions modelled as null); every later query, set or clear then throws, while `Save` still writes the null document and a later successful `Load` brings a store back | a store holding `("Animal","Name")`, then `Load` of a file whose content is `x` (not blank, not a dictionary) | return false and keep the previous document, as the later `Load` does | not executed; high that the store is lost, medium that this was unintended | `LegacyConfigFile.FailedLoadLosesStore` | `ConfigFile.MorphonConfigFile.Load` |
