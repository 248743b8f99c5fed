/** `MorphonAutoSerializer`: tags an object's attribute dictionary with its
    full type name and writes shared resources as paths; reads such a
    dictionary back by checking the tag, loading every `res://` string and
    handing the result to a fresh instance of the registered type. */
module AutoSerializer {
  import opened Values
  import opened Registry
  import opened Resources

  /** What the library calls but does not define: the engine's rendering of
      a non-string Variant as text, its asset loader, and the two methods
      every `IMorphonSerializable` implements. `emit(o)` is the dictionary
      `o.Serialize(out data)` hands out; `populate(t, d)` is the field
      state of `Activator.CreateInstance(t)` after `Deserialize(d)`, or
      None when creating the instance or its `Deserialize` throws (a type
      without a parameterless constructor, an attribute it expects but
      does not find). */
  datatype Engine = Engine(
    render: Variant -> string,
    load: string -> Variant,
    emit: Obj -> Dict,
    populate: (TypeInfo, Dict) -> Option<Dict>)

  // ---------------------------------------------------------------------
  // Read side

  /** One entry of the copy `Deserialize` makes: a value whose string view
      starts with `res://` is replaced by what loading that path gives. A
      `Nil` value has a null string view, on which `StartsWith` throws
      (None). */
  function Resolve(e: Engine, v: Variant): Option<Variant>
  {
    match AsString(e.render, v)
    case None => None
    case Some(s) => if HasResPrefix(s) then Some(SafeLoadResourceFromPath(e.load, s, Nil)) else Some(v)
  }

  /** The fresh dictionary: the copy throws a NullReferenceException when
      some entry is `Nil`; otherwise it has the same keys, `res://` entries
      loaded, all others copied unchanged. */
  function Resolved(e: Engine, d: Dict): (r: Result<Dict>)
    ensures r.Err? <==> exists k :: k in d && d[k].Nil?
    ensures r.Err? ==> r.error == NullReference
    ensures r.Ok? ==> r.value.Keys == d.Keys
    ensures r.Ok? ==> forall k :: k in d && HasResPrefix(AsString(e.render, d[k]).value) ==>
              r.value[k] == e.load(AsString(e.render, d[k]).value)
    ensures r.Ok? ==> forall k :: k in d && !HasResPrefix(AsString(e.render, d[k]).value) ==>
              r.value[k] == d[k]
  {
    if exists k :: k in d && d[k].Nil? then Err(NullReference)
    else Ok(map k | k in d :: Resolve(e, d[k]).value)
  }

  /** What `Deserialize(data)` returns or throws. */
  function Deserialized(reg: TypeMap, e: Engine, data: Variant): (r: Result<Obj>)
    ensures !data.Dict? ==> r == Err(InvalidData)
    ensures data.Dict? && TypeKey !in data.d ==> r == Err(MissingTypeTag)
    ensures data.Dict? && TypeKey in data.d && data.d[TypeKey].Nil? ==> r == Err(NullArgument)
    ensures data.Dict? && TypeKey in data.d && !data.d[TypeKey].Nil? ==>
              var tag := AsString(e.render, data.d[TypeKey]).value;
              (tag !in reg ==> r == Err(UnregisteredType(tag))) &&
              (tag in reg && Resolved(e, data.d).Err? ==> r == Err(NullReference)) &&
              ((tag in reg && Resolved(e, data.d).Ok? &&
                e.populate(reg[tag], Resolved(e, data.d).value).None?) ==> r == Err(InstanceFailed(tag)))
    ensures r.Ok? <==>
              data.Dict? && TypeKey in data.d && !data.d[TypeKey].Nil? &&
              AsString(e.render, data.d[TypeKey]).value in reg && Resolved(e, data.d).Ok? &&
              e.populate(reg[AsString(e.render, data.d[TypeKey]).value], Resolved(e, data.d).value).Some?
    ensures r.Ok? ==>
              var tag := AsString(e.render, data.d[TypeKey]).value;
              Some(r.value.fields) == e.populate(reg[tag], Resolved(e, data.d).value) &&
              (Consistent(reg) ==> r.value.typeName == tag)
  {
    if !data.Dict? then Err(InvalidData)
    else if TypeKey !in data.d then Err(MissingTypeTag)
    else
      match AsString(e.render, data.d[TypeKey])
      case None => Err(NullArgument)
      case Some(tag) =>
        if tag !in reg then Err(UnregisteredType(tag))
        else
          match Resolved(e, data.d)
          case Err(err) => Err(err)
          case Ok(newDict) =>
            match e.populate(reg[tag], newDict)
            case None => Err(InstanceFailed(tag))
            case Some(fields) => Ok(Obj(reg[tag].fullName, fields))
  }

  /** `Deserialize`: check shape, tag and registration, copy the entries into
      a new dictionary loading every `res://` path (the input is left as it
      is), then create and populate the instance. */
  method Deserialize(reg: TypeMap, e: Engine, data: Variant) returns (r: Result<Obj>)
    ensures r == Deserialized(reg, e, data)
  {
    if !data.Dict? {
      return Err(InvalidData);
    }
    var dictData := data.d;
    if TypeKey !in dictData {
      return Err(MissingTypeTag);
    }
    var typeView := AsString(e.render, dictData[TypeKey]);
    if typeView.None? {
      return Err(NullArgument);
    }
    var tag := typeView.value;
    if tag !in reg {
      return Err(UnregisteredType(tag));
    }
    var newDict: Dict := map[];
    var pending := dictData.Keys;
    while pending != {}
      invariant pending <= dictData.Keys
      invariant newDict.Keys == dictData.Keys - pending
      invariant forall k :: k in newDict ==> !dictData[k].Nil? && Some(newDict[k]) == Resolve(e, dictData[k])
      decreases pending
    {
      var k :| k in pending;
      var s := AsString(e.render, dictData[k]);
      if s.None? {
        assert k in dictData && dictData[k].Nil?;
        return Err(NullReference);
      }
      if HasResPrefix(s.value) {
        newDict := newDict[k := SafeLoadResourceFromPath(e.load, s.value, Nil)];
      } else {
        newDict := newDict[k := dictData[k]];
      }
      pending := pending - {k};
    }
    assert forall k :: k in dictData ==> !dictData[k].Nil?;
    assert newDict == map k | k in dictData :: Resolve(e, dictData[k]).value;
    assert Resolved(e, dictData) == Ok(newDict);
    var t := reg[tag];
    var fields := e.populate(t, newDict);
    if fields.None? {
      return Err(InstanceFailed(tag));
    }
    r := Ok(Obj(t.fullName, fields.value));
  }

  // ---------------------------------------------------------------------
  // Write side

  /** One entry after the resource pass of `Serialize`: a non-Nil value that
      holds a resource becomes that resource's path (null when it has none);
      every other value stays. */
  function WriteRef(v: Variant): Variant
  {
    if v.Nil? then v
    else
      match AsResource(v)
      case Some(res) => PathToVariant(GetResourcePath(Some(res)))
      case None => v
  }

  /** What `Serialize(obj)` returns or throws. */
  function Serialized(e: Engine, obj: Obj): (r: Result<Dict>)
    ensures r.Err? <==> TypeKey in e.emit(obj)
    ensures r.Err? ==> r.error == DuplicateKey(TypeKey)
    ensures r.Ok? ==> r.value.Keys == e.emit(obj).Keys + {TypeKey}
    ensures r.Ok? ==> r.value[TypeKey] == Str(obj.typeName)
    ensures r.Ok? ==> forall k :: k in e.emit(obj) && !e.emit(obj)[k].Res? ==>
              r.value[k] == e.emit(obj)[k]
    ensures r.Ok? ==> forall k :: k in e.emit(obj) && e.emit(obj)[k].Res? ==>
              r.value[k] == PathToVariant(GetResourcePath(Some(e.emit(obj)[k].r)))
  {
    var data := e.emit(obj);
    if TypeKey in data then Err(DuplicateKey(TypeKey))
    else
      var tagged := data[TypeKey := Str(obj.typeName)];
      Ok(map k | k in tagged :: WriteRef(tagged[k]))
  }

  /** `Serialize`: add the tag with `Add` (which throws on an existing
      "Type"), then overwrite each resource entry in place, visiting a
      snapshot of the keys. */
  method Serialize(e: Engine, obj: Obj) returns (r: Result<Dict>)
    ensures r == Serialized(e, obj)
  {
    var data := e.emit(obj);
    if TypeKey in data {
      return Err(DuplicateKey(TypeKey));
    }
    data := data[TypeKey := Str(obj.typeName)];
    ghost var tagged := data;
    var pending := data.Keys;
    while pending != {}
      invariant pending <= tagged.Keys
      invariant data.Keys == tagged.Keys
      invariant forall k :: k in tagged && k !in pending ==> data[k] == WriteRef(tagged[k])
      invariant forall k :: k in pending ==> data[k] == tagged[k]
      decreases pending
    {
      var k :| k in pending;
      pending := pending - {k};
      if data[k].Nil? {
        continue;
      }
      var rValue := AsResource(data[k]);
      if rValue.Some? {
        data := data[k := PathToVariant(GetResourcePath(rValue))];
      }
    }
    assert data == map k | k in tagged :: WriteRef(tagged[k]);
    r := Ok(data);
  }

  // ---------------------------------------------------------------------
  // Round trips

  /** The attribute values a round trip leaves alone: no resources, no
      `Nil` (whose null string view makes the copy throw), and no string
      view that would be mistaken for a `res://` path. */
  predicate PlainAttributes(e: Engine, d: Dict)
  {
    forall k :: k in d ==> !d[k].Nil? && !d[k].Res? && !HasResPrefix(AsString(e.render, d[k]).value)
  }

  /** Serializing a registered object and deserializing the result creates
      an instance of the same type and hands it the object's own attributes
      plus the tag. */
  lemma RoundTripFeedsOwnAttributes(reg: TypeMap, e: Engine, o: Obj)
    requires Consistent(reg) && o.typeName in reg
    requires TypeKey !in e.emit(o) && !HasResPrefix(o.typeName)
    requires PlainAttributes(e, e.emit(o))
    ensures Serialized(e, o).Ok?
    ensures var fed := e.populate(reg[o.typeName], e.emit(o)[TypeKey := Str(o.typeName)]);
            Deserialized(reg, e, Dict(Serialized(e, o).value)) ==
            if fed.Some? then Ok(Obj(o.typeName, fed.value)) else Err(InstanceFailed(o.typeName))
  {
    var tagged := e.emit(o)[TypeKey := Str(o.typeName)];
    var written := Serialized(e, o).value;
    assert written == tagged;
    assert forall k :: k in written ==> !written[k].Nil?;
    forall k | k in written
      ensures Resolve(e, written[k]) == Some(tagged[k])
    {
      if k != TypeKey {
        assert !HasResPrefix(AsString(e.render, e.emit(o)[k]).value);
      }
    }
    assert (map k | k in written :: Resolve(e, written[k]).value) == tagged;
    assert Resolved(e, written) == Ok(tagged);
  }

  /** Hence, for a type whose `Deserialize` restores what its `Serialize`
      emitted, the round trip gives back the same object. */
  lemma RoundTrip(reg: TypeMap, e: Engine, o: Obj)
    requires Consistent(reg) && o.typeName in reg
    requires TypeKey !in e.emit(o) && !HasResPrefix(o.typeName)
    requires PlainAttributes(e, e.emit(o))
    requires e.populate(reg[o.typeName], e.emit(o)[TypeKey := Str(o.typeName)]) == Some(o.fields)
    ensures Deserialized(reg, e, Dict(Serialized(e, o).value)) == Ok(o)
  {
    RoundTripFeedsOwnAttributes(reg, e, o);
  }

  /** A shared resource in the `res://` namespace is written as its path and
      read back as what the loader returns for that path. */
  lemma ReferenceSymmetry(e: Engine, o: Obj, k: string)
    requires TypeKey !in e.emit(o)
    requires k in e.emit(o) && e.emit(o)[k].Res?
    requires !e.emit(o)[k].r.localToScene && HasResPrefix(e.emit(o)[k].r.path)
    ensures Serialized(e, o).value[k] == Str(e.emit(o)[k].r.path)
    ensures Resolve(e, Serialized(e, o).value[k]) == Some(e.load(e.emit(o)[k].r.path))
  {
  }

  // ---------------------------------------------------------------------
  // Lists

  /** What `SerializeList(list)` returns or throws. */
  function SerializedList(e: Engine, list: seq<Obj>): Result<seq<Dict>>
  {
    MapResult((o: Obj) => Serialized(e, o), list)
  }

  /** `SerializeList` yields one dictionary per object, in input order, or
      the error of the first object whose `Serialize` throws. */
  lemma SerializedListShape(e: Engine, list: seq<Obj>)
    ensures SerializedList(e, list).Ok? <==> forall i :: 0 <= i < |list| ==> Serialized(e, list[i]).Ok?
    ensures SerializedList(e, list).Ok? ==>
              |SerializedList(e, list).value| == |list| &&
              forall i :: 0 <= i < |list| ==> SerializedList(e, list).value[i] == Serialized(e, list[i]).value
    ensures forall j ::
              (0 <= j < |list| && Serialized(e, list[j]).Err? &&
               forall i :: 0 <= i < j ==> Serialized(e, list[i]).Ok?) ==>
              SerializedList(e, list) == Err(Serialized(e, list[j]).error)
  {
    var f := (o: Obj) => Serialized(e, o);
    MapResultShape(f, list);
    forall j | 0 <= j < |list| && Serialized(e, list[j]).Err? &&
               (forall i :: 0 <= i < j ==> Serialized(e, list[i]).Ok?)
      ensures SerializedList(e, list) == Err(Serialized(e, list[j]).error)
    {
      MapResultFirstError(f, list, j);
    }
  }

  /** `SerializeList`: append `Serialize(obj)` for each object in turn. */
  method SerializeList(e: Engine, list: seq<Obj>) returns (r: Result<seq<Dict>>)
    ensures r == SerializedList(e, list)
  {
    ghost var f := (o: Obj) => Serialized(e, o);
    var objArray: seq<Dict> := [];
    for i := 0 to |list|
      invariant MapResult(f, list[..i]) == Ok(objArray)
    {
      assert list[..i + 1][..i] == list[..i];
      var item := Serialize(e, list[i]);
      if item.Err? {
        assert MapResult(f, list[..i + 1]) == Err(item.error);
        MapResultPrefixError(f, list, i + 1);
        return Err(item.error);
      }
      objArray := objArray + [item.value];
    }
    assert list[..|list|] == list;
    r := Ok(objArray);
  }

  /** `Variant.As<Array<Dictionary<string, Variant>>>()` read as a partial
      conversion: null unless the value is an array of dictionaries. */
  function AsDictArray(v: Variant): (r: Option<seq<Dict>>)
    ensures r.Some? <==> v.Arr? && forall i :: 0 <= i < |v.a| ==> v.a[i].Dict?
    ensures r.Some? ==> |r.value| == |v.a| && forall i :: 0 <= i < |v.a| ==> v.a[i] == Dict(r.value[i])
  {
    if v.Arr? && forall i :: 0 <= i < |v.a| ==> v.a[i].Dict? then
      Some(seq(|v.a|, i requires 0 <= i < |v.a| && v.a[i].Dict? => v.a[i].d))
    else None
  }

  /** What `DeserializeList(data)` returns or throws: an input that is not
      an array of dictionaries is rejected; otherwise each element goes
      through `Deserialize`, and its exception aborts the whole list. */
  function DeserializedList(reg: TypeMap, e: Engine, data: Variant): Result<seq<Obj>>
  {
    match AsDictArray(data)
    case None => Err(InvalidListData)
    case Some(items) => MapResult((d: Dict) => Deserialized(reg, e, Dict(d)), items)
  }

  /** `DeserializeList` rejects non-list input, and otherwise yields one
      object per element in input order, or fails with the first element's
      error. */
  lemma DeserializedListShape(reg: TypeMap, e: Engine, data: Variant)
    ensures AsDictArray(data).None? ==> DeserializedList(reg, e, data) == Err(InvalidListData)
    ensures AsDictArray(data).Some? ==>
              var items := AsDictArray(data).value;
              (DeserializedList(reg, e, data).Ok? <==>
                 forall i :: 0 <= i < |items| ==> Deserialized(reg, e, Dict(items[i])).Ok?) &&
              (DeserializedList(reg, e, data).Ok? ==>
                 |DeserializedList(reg, e, data).value| == |items| &&
                 forall i :: 0 <= i < |items| ==>
                   DeserializedList(reg, e, data).value[i] == Deserialized(reg, e, Dict(items[i])).value)
    ensures AsDictArray(data).Some? ==>
              var items := AsDictArray(data).value;
              forall j ::
                (0 <= j < |items| && Deserialized(reg, e, Dict(items[j])).Err? &&
                 forall i :: 0 <= i < j ==> Deserialized(reg, e, Dict(items[i])).Ok?) ==>
                DeserializedList(reg, e, data) == Err(Deserialized(reg, e, Dict(items[j])).error)
  {
    if AsDictArray(data).Some? {
      var f := (d: Dict) => Deserialized(reg, e, Dict(d));
      var items := AsDictArray(data).value;
      MapResultShape(f, items);
      forall j | 0 <= j < |items| && Deserialized(reg, e, Dict(items[j])).Err? &&
                 (forall i :: 0 <= i < j ==> Deserialized(reg, e, Dict(items[i])).Ok?)
        ensures DeserializedList(reg, e, data) == Err(Deserialized(reg, e, Dict(items[j])).error)
      {
        MapResultFirstError(f, items, j);
      }
    }
  }

  /** `DeserializeList`: convert, then deserialize each element in turn. */
  method DeserializeList(reg: TypeMap, e: Engine, data: Variant) returns (r: Result<seq<Obj>>)
    ensures r == DeserializedList(reg, e, data)
  {
    var arrayData := AsDictArray(data);
    if arrayData.None? {
      return Err(InvalidListData);
    }
    var items := arrayData.value;
    ghost var f := (d: Dict) => Deserialized(reg, e, Dict(d));
    var objList: seq<Obj> := [];
    for i := 0 to |items|
      invariant MapResult(f, items[..i]) == Ok(objList)
    {
      assert items[..i + 1][..i] == items[..i];
      var obj := Deserialize(reg, e, Dict(items[i]));
      if obj.Err? {
        assert MapResult(f, items[..i + 1]) == Err(obj.error);
        MapResultPrefixError(f, items, i + 1);
        return Err(obj.error);
      }
      objList := objList + [obj.value];
    }
    assert items[..|items|] == items;
    r := Ok(objList);
  }
}
