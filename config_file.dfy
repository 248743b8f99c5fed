/** `MorphonConfigFile`: a section/key store of Variants held in the field
    `m_Data`, with typed reads through the auto-serializer and whole-document
    load and save. File access and JSON text are parameters: `Load` receives
    the file's content (None when the file cannot be opened) and the parser,
    `Save` whether the file opened, the encoder and the write's outcome. */
module ConfigFile {
  import opened Values
  import opened Registry
  import opened Resources
  import opened AutoSerializer
  import opened ConfigDocument

  /** An `Array<Dictionary<string, Variant>>` stored in a Variant slot. */
  function DictArray(ms: seq<Dict>): (v: Variant)
    ensures AsDictArray(v) == Some(ms)
  {
    var v := Arr(seq(|ms|, i requires 0 <= i < |ms| => Dict(ms[i])));
    assert AsDictArray(v).Some?;
    assert |AsDictArray(v).value| == |ms|;
    assert forall i :: 0 <= i < |ms| ==> AsDictArray(v).value[i] == ms[i];
    assert AsDictArray(v).value == ms;
    v
  }

  /** A whole document as the Variant the JSON encoder is given. */
  function DocVariant(d: Doc): (v: Variant)
    ensures AsDoc(v) == Some(d)
  {
    var v := Dict(map s | s in d :: Dict(d[s]));
    assert AsDoc(v).Some?;
    assert v.d.Keys == d.Keys;
    assert AsDoc(v).value.Keys == d.Keys;
    assert forall s :: s in d ==> AsDoc(v).value[s] == d[s];
    assert AsDoc(v).value == d;
    v
  }

  class MorphonConfigFile {
    var data: Doc

    constructor ()
      ensures data == map[]
    {
      data := map[];
    }

    function HasSection(section: string): (r: bool)
      reads this
      ensures r <==> section in data
    {
      section in data
    }

    function HasSectionKey(section: string, key: string): (r: bool)
      reads this
      ensures r <==> Has(data, section, key)
      ensures section !in data ==> !r
    {
      if HasSection(section) then key in data[section] else false
    }

    /** Creates the section and then the key (holding Nil) when missing. */
    method NewKey(section: string, key: string)
      modifies this
      ensures data == WithKey(old(data), section, key)
    {
      if !HasSection(section) {
        data := data[section := map[]];
      }
      if key !in data[section] {
        data := data[section := data[section][key := Nil]];
      }
    }

    /** `SetValue(section, key, Variant)`: a non-Nil resource is stored as
        its path (the same rule as the serializer's resource pass), any
        other value as it is. */
    method SetValue(section: string, key: string, value: Variant)
      modifies this
      ensures data == Put(old(data), section, key, WriteRef(value))
      ensures HasSectionKey(section, key)
      ensures value.Res? ==> data[section][key] == PathToVariant(GetResourcePath(Some(value.r)))
      ensures !value.Res? ==> data[section][key] == value
    {
      NewKey(section, key);
      if !value.Nil? {
        var rValue := AsResource(value);
        if rValue.Some? {
          data := data[section := data[section][key := PathToVariant(GetResourcePath(rValue))]];
          return;
        }
      }
      data := data[section := data[section][key := value]];
    }

    /** `SetValue(section, key, IMorphonSerializable)`: stores
        `Serialize(value)`. When `Serialize` throws, the pair `NewKey`
        created first is left behind. */
    method SetSerializable(e: Engine, section: string, key: string, value: Obj) returns (error: Option<Error>)
      modifies this
      ensures error.None? <==> Serialized(e, value).Ok?
      ensures error.None? ==> data == Put(old(data), section, key, Dict(Serialized(e, value).value))
      ensures error.Some? ==> error.value == Serialized(e, value).error &&
                              data == WithKey(old(data), section, key)
      ensures HasSectionKey(section, key)
    {
      NewKey(section, key);
      var serialized := Serialize(e, value);
      if serialized.Err? {
        return Some(serialized.error);
      }
      data := data[section := data[section][key := Dict(serialized.value)]];
      error := None;
    }

    /** `SetValue(section, key, IEnumerable<IMorphonSerializable>)`: stores
        `SerializeList(list)` as an array of dictionaries. */
    method SetSerializableList(e: Engine, section: string, key: string, list: seq<Obj>)
      returns (error: Option<Error>)
      modifies this
      ensures error.None? <==> SerializedList(e, list).Ok?
      ensures error.None? ==> data == Put(old(data), section, key, DictArray(SerializedList(e, list).value))
      ensures error.Some? ==> error.value == SerializedList(e, list).error &&
                              data == WithKey(old(data), section, key)
      ensures HasSectionKey(section, key)
    {
      NewKey(section, key);
      var serialized := SerializeList(e, list);
      if serialized.Err? {
        return Some(serialized.error);
      }
      data := data[section := data[section][key := DictArray(serialized.value)]];
      error := None;
    }

    /** `GetValue<T>`: the default for a missing pair; otherwise, by the
        kind requested, the deserialized object, the resource loaded from
        the stored path (null, not the caller's default, for a path outside
        `res://`; a null reference for a stored `Nil`, whose path is null), or
        the stored value. */
    function GetValue(reg: TypeMap, e: Engine, section: string, key: string, default: Got, kind: Requested)
      : (r: Result<Got>)
      reads this
      ensures !Has(data, section, key) ==> r == Ok(default)
      ensures Has(data, section, key) && kind == SerializableKind ==>
                (r.Ok? <==> Deserialized(reg, e, data[section][key]).Ok?) &&
                (r.Ok? ==> r.value == Instance(Deserialized(reg, e, data[section][key]).value)) &&
                (r.Err? ==> r.error == Deserialized(reg, e, data[section][key]).error)
      ensures Has(data, section, key) && kind == ResourceKind && data[section][key].Nil? ==>
                r == Err(NullReference)
      ensures Has(data, section, key) && kind == ResourceKind && !data[section][key].Nil? ==>
                var path := AsString(e.render, data[section][key]).value;
                r == Ok(Plain(if HasResPrefix(path) then e.load(path) else Nil))
      ensures Has(data, section, key) && kind == VariantKind ==> r == Ok(Plain(data[section][key]))
    {
      if !HasSectionKey(section, key) then Ok(default)
      else
        var value := data[section][key];
        match kind
        case SerializableKind =>
          (match Deserialized(reg, e, value)
           case Ok(o) => Ok(Instance(o))
           case Err(err) => Err(err))
        case ResourceKind =>
          // a `Nil` value has a null path, on which `StartsWith` throws
          (match AsString(e.render, value)
           case None => Err(NullReference)
           case Some(path) => Ok(Plain(SafeLoadResourceFromPath(e.load, path, Nil))))
        case VariantKind => Ok(Plain(value))
    }

    /** `GetListValue<T>`: the default for a missing pair, otherwise
        `DeserializeList` of the stored value. */
    function GetListValue(reg: TypeMap, e: Engine, section: string, key: string, default: Option<seq<Obj>>)
      : (r: Result<Option<seq<Obj>>>)
      reads this
      ensures !Has(data, section, key) ==> r == Ok(default)
      ensures Has(data, section, key) ==>
                (r.Ok? <==> DeserializedList(reg, e, data[section][key]).Ok?) &&
                (r.Ok? ==> r.value == Some(DeserializedList(reg, e, data[section][key]).value))
    {
      if !HasSectionKey(section, key) then Ok(default)
      else
        match DeserializedList(reg, e, data[section][key])
        case Ok(objs) => Ok(Some(objs))
        case Err(err) => Err(err)
    }

    /** `GetSections`: every section name once. */
    method GetSections() returns (r: seq<string>)
      ensures |r| == |data|
      ensures forall s :: s in r <==> s in data
      ensures forall i, j :: 0 <= i < j < |r| ==> r[i] != r[j]
    {
      r := KeysToArray(data.Keys);
    }

    /** `GetSectionKeys`: every key of the section once; empty for a missing
        section. */
    method GetSectionKeys(section: string) returns (r: seq<string>)
      ensures section !in data ==> r == []
      ensures section in data ==> |r| == |data[section]|
      ensures section in data ==> forall k :: k in r <==> k in data[section]
      ensures forall i, j :: 0 <= i < j < |r| ==> r[i] != r[j]
    {
      if !HasSection(section) {
        return [];
      }
      r := KeysToArray(data[section].Keys);
    }

    /** `Save`: false when the file does not open or the write reports
        failure; the document is encoded whole. */
    method Save(fileOpened: bool, stringify: Doc -> string, store: string -> bool)
      returns (ok: bool, written: Option<string>)
      ensures written == if fileOpened then Some(stringify(data)) else None
      ensures ok <==> fileOpened && store(stringify(data))
    {
      if !fileOpened {
        return false, None;
      }
      var text := stringify(data);
      written := Some(text);
      if !store(text) {
        return false, written;
      }
      ok := true;
    }

    /** `Load`: false, with the document untouched, when the file does not
        open, its content is blank, or it does not parse to a two-level
        dictionary; otherwise the parsed document replaces the old one. */
    method Load(content: Option<string>, parse: string -> Variant) returns (ok: bool)
      modifies this
      ensures ok <==> content.Some? && !IsBlank(content.value) && AsDoc(parse(content.value)).Some?
      ensures ok ==> data == AsDoc(parse(content.value)).value
      ensures !ok ==> data == old(data)
    {
      if content.None? {
        return false;
      }
      var text := content.value;
      TrimEmptyIffBlank(text);
      if Trim(text) == "" {
        return false;
      }
      var parsed := AsDoc(parse(text));
      if parsed.None? {
        return false;
      }
      data := parsed.value;
      ok := true;
    }

    method Clear()
      modifies this
      ensures data == map[]
    {
      data := map[];
    }

    method ClearSection(section: string)
      modifies this
      ensures data == RemoveSection(old(data), section)
    {
      if HasSection(section) {
        data := data - {section};
      }
    }

    method ClearKey(section: string, key: string)
      modifies this
      ensures data == RemoveKey(old(data), section, key)
    {
      if HasSectionKey(section, key) {
        data := data[section := data[section] - {key}];
      }
    }
  }

  /** Saving a store and loading the text into a new store reproduces the
      document, for an encoder and parser that agree on it. */
  method SaveThenLoad(source: MorphonConfigFile, stringify: Doc -> string, parse: string -> Variant)
    returns (copy: MorphonConfigFile, ok: bool)
    requires parse(stringify(source.data)) == DocVariant(source.data)
    requires !IsBlank(stringify(source.data))
    ensures ok && copy.data == source.data
  {
    var saved, written := source.Save(true, stringify, (text: string) => true);
    copy := new MorphonConfigFile();
    ok := copy.Load(written, parse);
  }

  /** A failed load keeps what the store held. */
  method FailedLoadKeepsStore(parse: string -> Variant) returns (ok: bool, kept: bool)
    requires !parse("x").Dict?
    ensures !ok && kept
  {
    var store := new MorphonConfigFile();
    store.SetValue("Animal", "Name", Str("Tom"));
    ok := store.Load(Some("x"), parse);
    kept := store.HasSectionKey("Animal", "Name");
  }
}
