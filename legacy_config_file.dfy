/** The earlier `MorphonConfigFile`. It differs from the current one in
    that `Load` assigns the conversion of the parsed text to `m_Data` before
    testing it, so a failed parse leaves `m_Data` null. From then on every
    query, set and clear throws a NullReferenceException, modelled as the
    `NullReference` error (or `ok == false` for members returning nothing);
    `Save` still writes the null document, and a later successful `Load`
    brings a store back.
    Objects are stored as the JSON text their own `Serialize()` returns. Its
    `GetResourcePath` and `SafeLoadResourceFromPath` are the same text as
    the serializer's and are modelled once, in `Resources`. */
module LegacyConfigFile {
  import opened Values
  import opened Registry
  import opened Resources
  import opened ConfigDocument
  import opened LegacyAutoSerializer

  /** What `SetValue(section, key, Variant)` stores: the path of a resource
      value (null when it has none), any other value as it is. Unlike the
      current version there is no Nil pre-check; Nil holds no resource, so
      it is stored as it is either way. */
  function LegacyStored(v: Variant): (r: Variant)
    ensures v.Res? ==> r == PathToVariant(GetResourcePath(Some(v.r)))
    ensures !v.Res? ==> r == v
  {
    match AsResource(v)
    case Some(res) => PathToVariant(GetResourcePath(Some(res)))
    case None => v
  }

  class MorphonConfigFile {
    /** `m_Data`; None once a failed `Load` has set it to null. */
    var data: Option<Doc>

    constructor ()
      ensures data == Some(map[])
    {
      data := Some(map[]);
    }

    function HasSection(section: string): (r: Result<bool>)
      reads this
      ensures data.None? ==> r == Err(NullReference)
      ensures data.Some? ==> r == Ok(section in data.value)
    {
      if data.None? then Err(NullReference) else Ok(section in data.value)
    }

    function HasSectionKey(section: string, key: string): (r: Result<bool>)
      reads this
      ensures data.None? ==> r == Err(NullReference)
      ensures data.Some? ==> r == Ok(Has(data.value, section, key))
      ensures data.Some? && section !in data.value ==> r == Ok(false)
    {
      match HasSection(section)
      case Err(err) => Err(err)
      case Ok(present) => if present then Ok(key in data.value[section]) else Ok(false)
    }

    /** The section and key creation each `SetValue` overload starts with,
        followed by storing `value`. */
    method Store(section: string, key: string, value: Variant) returns (ok: bool)
      modifies this
      ensures ok <==> old(data).Some?
      ensures ok ==> data == Some(Put(old(data).value, section, key, value))
      ensures !ok ==> data == old(data)
    {
      if data.None? {
        return false;
      }
      var d := data.value;
      if section !in d {
        d := d[section := map[]];
      }
      if key !in d[section] {
        d := d[section := d[section][key := Nil]];
      }
      d := d[section := d[section][key := value]];
      data := Some(d);
      ok := true;
    }

    /** `SetValue(section, key, Variant)`. */
    method SetValue(section: string, key: string, value: Variant) returns (ok: bool)
      modifies this
      ensures ok <==> old(data).Some?
      ensures ok ==> data == Some(Put(old(data).value, section, key, LegacyStored(value)))
      ensures ok ==> HasSectionKey(section, key) == Ok(true)
      ensures !ok ==> data == old(data)
    {
      var rValue := AsResource(value);
      if rValue.Some? {
        ok := Store(section, key, PathToVariant(GetResourcePath(rValue)));
        return;
      }
      ok := Store(section, key, value);
    }

    /** `SetValue(section, key, IMorphonSerializable)`: stores the text the
        object's own `Serialize()` returns. */
    method SetSerializable(le: LegacyEngine, section: string, key: string, value: Obj) returns (ok: bool)
      modifies this
      ensures ok <==> old(data).Some?
      ensures ok ==> data == Some(Put(old(data).value, section, key, Str(le.serializeText(value))))
      ensures !ok ==> data == old(data)
    {
      ok := Store(section, key, Str(le.serializeText(value)));
    }

    /** `SetValue(section, key, IEnumerable<IMorphonSerializable>)`: stores
        the text `SerializeList` returns. */
    method SetSerializableList(le: LegacyEngine, section: string, key: string, list: seq<Obj>)
      returns (ok: bool)
      modifies this
      ensures ok <==> old(data).Some?
      ensures ok ==> data == Some(Put(old(data).value, section, key,
                      Str(le.renderArray(seq(|list|, i requires 0 <= i < |list| => le.serializeText(list[i]))))))
      ensures !ok ==> data == old(data)
    {
      if data.None? {
        return false;
      }
      var json := SerializeList(le, list);
      ok := Store(section, key, Str(json));
    }

    /** `GetValue<T>`: the default for a missing pair; otherwise, by the
        kind requested, `Deserialize` of the stored text (null when the text
        is null, untyped or unregistered, its exception when the instance
        throws), the resource loaded from the stored path (null outside
        `res://`; a null reference for a stored `Nil`), or the stored value. */
    function GetValue(reg: TypeMap, le: LegacyEngine, section: string, key: string, default: Got, kind: Requested)
      : (r: Result<Got>)
      reads this
      ensures data.None? ==> r == Err(NullReference)
      ensures data.Some? && !Has(data.value, section, key) ==> r == Ok(default)
      ensures (data.Some? && Has(data.value, section, key) && kind == SerializableKind &&
               data.value[section][key].Nil?) ==> r == Ok(Null)
      ensures data.Some? && Has(data.value, section, key) && kind == SerializableKind &&
              !data.value[section][key].Nil? ==>
                var attempt := Deserialize(reg, le, AsString(le.render, data.value[section][key]).value);
                (attempt.Err? ==> r == Err(attempt.error)) &&
                (attempt.Ok? ==> r == Ok(if attempt.value.Some? then Instance(attempt.value.value) else Null))
      ensures (data.Some? && Has(data.value, section, key) && kind == ResourceKind &&
               data.value[section][key].Nil?) ==> r == Err(NullReference)
      ensures data.Some? && Has(data.value, section, key) && kind == ResourceKind &&
              !data.value[section][key].Nil? ==>
                var path := AsString(le.render, data.value[section][key]).value;
                r == Ok(Plain(if HasResPrefix(path) then le.load(path) else Nil))
      ensures data.Some? && Has(data.value, section, key) && kind == VariantKind ==>
                r == Ok(Plain(data.value[section][key]))
    {
      match HasSectionKey(section, key)
      case Err(err) => Err(err)
      case Ok(present) =>
        if !present then Ok(default)
        else
          var value := data.value[section][key];
          match kind
          case SerializableKind =>
            // a null text parses to null, so `Deserialize` returns null
            (match AsString(le.render, value)
             case None => Ok(Null)
             case Some(json) =>
               match Deserialize(reg, le, json)
               case Err(err) => Err(err)
               case Ok(Some(o)) => Ok(Instance(o))
               case Ok(None) => Ok(Null))
          case ResourceKind =>
            // a `Nil` value has a null path, on which `StartsWith` throws
            (match AsString(le.render, value)
             case None => Err(NullReference)
             case Some(path) => Ok(Plain(SafeLoadResourceFromPath(le.load, path, Nil))))
          case VariantKind => Ok(Plain(value))
    }

    /** `GetListValue<T>`: the default for a missing pair, otherwise
        `DeserializeList` of the stored text; a null text parses to null,
        which the loop then dereferences. */
    function GetListValue(reg: TypeMap, le: LegacyEngine, section: string, key: string, default: Option<seq<Obj>>)
      : (r: Result<Option<seq<Obj>>>)
      reads this
      ensures data.None? ==> r == Err(NullReference)
      ensures data.Some? && !Has(data.value, section, key) ==> r == Ok(default)
      ensures data.Some? && Has(data.value, section, key) && data.value[section][key].Nil? ==>
                r == Err(NullReference)
      ensures data.Some? && Has(data.value, section, key) && !data.value[section][key].Nil? ==>
                var listed := DeserializedList(reg, le, AsString(le.render, data.value[section][key]).value);
                (r.Ok? <==> listed.Ok?) && (r.Ok? ==> r.value == Some(listed.value))
    {
      match HasSectionKey(section, key)
      case Err(err) => Err(err)
      case Ok(present) =>
        if !present then Ok(default)
        else
          // a null text parses to null, and iterating that null throws
          match AsString(le.render, data.value[section][key])
          case None => Err(NullReference)
          case Some(jsonData) =>
            match DeserializedList(reg, le, jsonData)
            case Ok(objs) => Ok(Some(objs))
            case Err(err) => Err(err)
    }

    /** `GetSections`: every section name once. */
    method GetSections() returns (r: Result<seq<string>>)
      ensures data.None? <==> r.Err?
      ensures data.None? ==> r == Err(NullReference)
      ensures r.Ok? ==> |r.value| == |data.value|
      ensures r.Ok? ==> forall s :: s in r.value <==> s in data.value
      ensures r.Ok? ==> forall i, j :: 0 <= i < j < |r.value| ==> r.value[i] != r.value[j]
    {
      if data.None? {
        return Err(NullReference);
      }
      var keys := KeysToArray(data.value.Keys);
      r := Ok(keys);
    }

    /** `GetSectionKeys`: every key of the section once; empty for a missing
        section. */
    method GetSectionKeys(section: string) returns (r: Result<seq<string>>)
      ensures data.None? <==> r.Err?
      ensures data.None? ==> r == Err(NullReference)
      ensures data.Some? && section !in data.value ==> r == Ok([])
      ensures data.Some? && section in data.value ==>
                r.Ok? && |r.value| == |data.value[section]| &&
                forall k :: k in r.value <==> k in data.value[section]
      ensures r.Ok? ==> forall i, j :: 0 <= i < j < |r.value| ==> r.value[i] != r.value[j]
    {
      if data.None? {
        return Err(NullReference);
      }
      if section !in data.value {
        return Ok([]);
      }
      var keys := KeysToArray(data.value[section].Keys);
      r := Ok(keys);
    }

    /** `Save`: false only when the file does not open; the outcome of the
        write is not looked at. A null document is encoded too. */
    method Save(fileOpened: bool, stringify: Option<Doc> -> string) returns (ok: bool, written: Option<string>)
      ensures ok == fileOpened
      ensures written == if fileOpened then Some(stringify(data)) else None
    {
      if !fileOpened {
        return false, None;
      }
      written := Some(stringify(data));
      ok := true;
    }

    /** `Load`: false, with the store untouched, when the file does not open
        or its content is blank. Otherwise the conversion of the parsed text
        is assigned first and checked afterwards: a text that does not parse
        to a two-level dictionary leaves the store null. */
    method Load(content: Option<string>, parse: string -> Variant) returns (ok: bool)
      modifies this
      ensures content.None? ==> !ok && data == old(data)
      ensures content.Some? && IsBlank(content.value) ==> !ok && data == old(data)
      ensures content.Some? && !IsBlank(content.value) ==>
                data == AsDoc(parse(content.value)) && (ok <==> data.Some?)
    {
      if content.None? {
        return false;
      }
      var text := content.value;
      TrimEmptyIffBlank(text);
      if Trim(text) == "" {
        return false;
      }
      data := AsDoc(parse(text));
      ok := data.Some?;
    }

    method Clear() returns (ok: bool)
      modifies this
      ensures ok <==> old(data).Some?
      ensures ok ==> data == Some(map[])
      ensures !ok ==> data == old(data)
    {
      if data.None? {
        return false;
      }
      data := Some(map[]);
      ok := true;
    }

    method ClearSection(section: string) returns (ok: bool)
      modifies this
      ensures ok <==> old(data).Some?
      ensures ok ==> data == Some(RemoveSection(old(data).value, section))
      ensures !ok ==> data == old(data)
    {
      if data.None? {
        return false;
      }
      if section in data.value {
        data := Some(data.value - {section});
      }
      ok := true;
    }

    method ClearKey(section: string, key: string) returns (ok: bool)
      modifies this
      ensures ok <==> old(data).Some?
      ensures ok ==> data == Some(RemoveKey(old(data).value, section, key))
      ensures !ok ==> data == old(data)
    {
      if data.None? {
        return false;
      }
      if Has(data.value, section, key) {
        data := Some(data.value[section := data.value[section] - {key}]);
      }
      ok := true;
    }
  }

  /** A failed load loses what the store held: the entry set before the
      load can no longer be queried. */
  method FailedLoadLosesStore(parse: string -> Variant) returns (ok: bool, afterwards: Result<bool>)
    requires !parse("x").Dict?
    ensures !ok && afterwards == Err(NullReference)
  {
    var store := new MorphonConfigFile();
    var stored := store.SetValue("Animal", "Name", Str("Tom"));
    assert !IsBlank("x") by {
      assert !IsWhiteSpace("x"[0]);
    }
    ok := store.Load(Some("x"), parse);
    afterwards := store.HasSectionKey("Animal", "Name");
  }

  /** After a failed load the null document is still saved, and a later
      load of a two-level text brings a store back. */
  method NullStoreSavesAndRecovers(parse: string -> Variant, stringify: Option<Doc> -> string)
    returns (saved: bool, written: Option<string>, reloaded: bool, afterwards: Result<bool>)
    requires !parse("x").Dict? && parse("{}") == Dict(map[])
    ensures saved && written == Some(stringify(None))
    ensures reloaded && afterwards == Ok(false)
  {
    var store := new MorphonConfigFile();
    assert !IsBlank("x") by {
      assert !IsWhiteSpace("x"[0]);
    }
    assert !IsBlank("{}") by {
      assert !IsWhiteSpace("{}"[0]);
    }
    var failed := store.Load(Some("x"), parse);
    saved, written := store.Save(true, stringify);
    reloaded := store.Load(Some("{}"), parse);
    afterwards := store.HasSection("Animal");
  }
}
