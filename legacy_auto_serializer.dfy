/** The earlier `MorphonAutoSerializer`, in which objects serialize
    themselves to JSON text. `Deserialize` reports failure by returning null
    (printing a diagnostic) instead of throwing, and `DeserializeList` keeps
    the objects that deserialize and drops the rest. Its type registration
    is the same loop as the current version's, `Registry.RegisterTypes`. */
module LegacyAutoSerializer {
  import opened Values
  import opened Registry

  /** What this version calls but does not define: the engine's rendering of
      a non-string Variant as text, `Json.ParseString`, the text an object's
      `Serialize()` returns, the field state of a fresh instance of a type
      after `Deserialize(json)` (None when creating the instance or its
      `Deserialize` throws), the text `Array<string>.ToString()` gives, and
      the asset loader. */
  datatype LegacyEngine = LegacyEngine(
    render: Variant -> string,
    parse: string -> Variant,
    serializeText: Obj -> string,
    populateText: (TypeInfo, string) -> Option<Dict>,
    renderArray: seq<string> -> string,
    load: string -> Variant)

  /** `Deserialize(json)`: null unless the text parses to a dictionary with
      a registered "Type"; otherwise an instance of the registered type that
      was handed the original text, unchanged. A `Nil` tag is a null key, on
      which the registry lookup throws. Creating the instance or its own
      `Deserialize` may throw; that exception is not caught. */
  function Deserialize(reg: TypeMap, le: LegacyEngine, json: string): (r: Result<Option<Obj>>)
    ensures var p := le.parse(json);
            !(p.Dict? && TypeKey in p.d) ==> r == Ok(None)
    ensures var p := le.parse(json);
            p.Dict? && TypeKey in p.d && p.d[TypeKey].Nil? ==> r == Err(NullArgument)
    ensures var p := le.parse(json);
            p.Dict? && TypeKey in p.d && !p.d[TypeKey].Nil? ==>
              var tag := AsString(le.render, p.d[TypeKey]).value;
              (tag !in reg ==> r == Ok(None)) &&
              (tag in reg ==>
                 (r.Err? <==> le.populateText(reg[tag], json).None?) &&
                 (r.Err? ==> r.error == InstanceFailed(tag)) &&
                 (r.Ok? ==> r.value.Some? &&
                            Some(r.value.value.fields) == le.populateText(reg[tag], json) &&
                            (Consistent(reg) ==> r.value.value.typeName == tag)))
  {
    match AsDict(le.parse(json))
    case None => Ok(None)
    case Some(dict) =>
      if TypeKey !in dict then Ok(None)
      else
        match AsString(le.render, dict[TypeKey])
        case None => Err(NullArgument)
        case Some(tag) =>
          if tag !in reg then Ok(None)
          else
            match le.populateText(reg[tag], json)
            case None => Err(InstanceFailed(tag))
            case Some(fields) => Ok(Some(Obj(reg[tag].fullName, fields)))
  }

  /** One turn of the loop of `DeserializeList`: `item.ToString()` throws on
      a null element; any other element goes through `Deserialize`. */
  function DeserializeItem(reg: TypeMap, le: LegacyEngine, item: Option<string>): (r: Result<Option<Obj>>)
    ensures item.None? ==> r == Err(NullReference)
    ensures item.Some? ==> r == Deserialize(reg, le, item.value)
  {
    match item
    case None => Err(NullReference)
    case Some(text) => Deserialize(reg, le, text)
  }

  /** What the loop of `DeserializeList` does with a sequence of texts: the
      first exception from `Deserialize` escapes it; otherwise the non-null
      objects, in order. */
  function Kept(reg: TypeMap, le: LegacyEngine, texts: seq<Option<string>>): Result<seq<Obj>>
  {
    match MapResult((t: Option<string>) => DeserializeItem(reg, le, t), texts)
    case Err(err) => Err(err)
    case Ok(attempts) => Ok(Somes(attempts))
  }

  /** Keeping distributes over concatenation: the first part's exception,
      else the second part's, else what survives of each part, in order. */
  lemma KeptAppend(reg: TypeMap, le: LegacyEngine, xs: seq<Option<string>>, ys: seq<Option<string>>)
    ensures Kept(reg, le, xs + ys) ==
            match Kept(reg, le, xs)
            case Err(err) => Err(err)
            case Ok(a) =>
              (match Kept(reg, le, ys)
               case Err(err) => Err(err)
               case Ok(b) => Ok(a + b))
  {
    var f := (t: Option<string>) => DeserializeItem(reg, le, t);
    MapResultAppend(f, xs, ys);
    if MapResult(f, xs).Ok? && MapResult(f, ys).Ok? {
      SomesAppend(MapResult(f, xs).value, MapResult(f, ys).value);
    }
  }

  /** A batch of one element: its exception, nothing for a null result, or
      its object. */
  lemma KeptSingle(reg: TypeMap, le: LegacyEngine, t: Option<string>)
    ensures Kept(reg, le, [t]) ==
            match DeserializeItem(reg, le, t)
            case Err(err) => Err(err)
            case Ok(None) => Ok([])
            case Ok(Some(o)) => Ok([o])
  {
    var f := (t: Option<string>) => DeserializeItem(reg, le, t);
    assert [t][..|[t]| - 1] == [];
    assert MapResult(f, [t][..|[t]| - 1]) == Ok([]);
    assert [t][|[t]| - 1] == t;
    if f(t).Err? {
      assert MapResult(f, [t]) == Err(f(t).error);
    } else {
      var x := f(t).value;
      assert MapResult(f, [t][..|[t]| - 1]) == Ok([]);
      assert MapResult(f, [t][..|[t]| - 1]).value + [x] == [x];
      assert MapResult(f, [t]) == Ok([x]);
      assert [x][..|[x]| - 1] == [];
      assert Somes([x]) == if x.Some? then [x.value] else [];
    }
  }

  /** The batch succeeds exactly when no text throws, and then keeps at
      most one object per text: all of them, each in its text's place, when
      every text deserializes to an object, and only objects some text
      deserializes to. Otherwise the first exception is the result. */
  lemma KeptContents(reg: TypeMap, le: LegacyEngine, texts: seq<Option<string>>)
    ensures Kept(reg, le, texts).Ok? <==> forall i :: 0 <= i < |texts| ==> DeserializeItem(reg, le, texts[i]).Ok?
    ensures Kept(reg, le, texts).Ok? ==> |Kept(reg, le, texts).value| <= |texts|
    ensures (forall i :: 0 <= i < |texts| ==> DeserializeItem(reg, le, texts[i]).Ok? &&
                                              DeserializeItem(reg, le, texts[i]).value.Some?) ==>
              Kept(reg, le, texts).Ok? && |Kept(reg, le, texts).value| == |texts| &&
              forall i :: 0 <= i < |texts| ==>
                Kept(reg, le, texts).value[i] == DeserializeItem(reg, le, texts[i]).value.value
    ensures Kept(reg, le, texts).Ok? ==>
              forall o :: o in Kept(reg, le, texts).value ==>
                exists i :: 0 <= i < |texts| && DeserializeItem(reg, le, texts[i]) == Ok(Some(o))
    ensures forall j ::
              (0 <= j < |texts| && DeserializeItem(reg, le, texts[j]).Err? &&
               forall i :: 0 <= i < j ==> DeserializeItem(reg, le, texts[i]).Ok?) ==>
              Kept(reg, le, texts) == Err(DeserializeItem(reg, le, texts[j]).error)
  {
    var f := (t: Option<string>) => DeserializeItem(reg, le, t);
    MapResultShape(f, texts);
    if MapResult(f, texts).Ok? {
      var opts := MapResult(f, texts).value;
      SomesContents(opts);
      forall o | o in Kept(reg, le, texts).value
        ensures exists i :: 0 <= i < |texts| && DeserializeItem(reg, le, texts[i]) == Ok(Some(o))
      {
        var i :| 0 <= i < |opts| && opts[i] == Some(o);
        assert DeserializeItem(reg, le, texts[i]) == Ok(Some(o));
      }
    }
    forall j | 0 <= j < |texts| && DeserializeItem(reg, le, texts[j]).Err? &&
               (forall i :: 0 <= i < j ==> DeserializeItem(reg, le, texts[i]).Ok?)
      ensures Kept(reg, le, texts) == Err(DeserializeItem(reg, le, texts[j]).error)
    {
      MapResultFirstError(f, texts, j);
    }
  }

  /** A batch of a valid text, one with an unknown or missing type, and
      another valid text gives exactly the two valid objects, in order. */
  lemma BatchSkipsFailure(reg: TypeMap, le: LegacyEngine, a: string, bad: string, c: string)
    requires Deserialize(reg, le, a).Ok? && Deserialize(reg, le, a).value.Some?
    requires Deserialize(reg, le, c).Ok? && Deserialize(reg, le, c).value.Some?
    requires Deserialize(reg, le, bad) == Ok(None)
    ensures Kept(reg, le, [Some(a), Some(bad), Some(c)]) ==
            Ok([Deserialize(reg, le, a).value.value, Deserialize(reg, le, c).value.value])
  {
    var ta, tb, tc := Some(a), Some(bad), Some(c);
    KeptAppend(reg, le, [ta], [tb, tc]);
    KeptAppend(reg, le, [tb], [tc]);
    assert [ta] + [tb, tc] == [ta, tb, tc];
    assert [tb] + [tc] == [tb, tc];
    KeptSingle(reg, le, ta);
    KeptSingle(reg, le, tb);
    KeptSingle(reg, le, tc);
    var oa, oc := Deserialize(reg, le, a).value.value, Deserialize(reg, le, c).value.value;
    assert Kept(reg, le, [tb, tc]) == Ok([] + [oc]);
    assert [] + [oc] == [oc];
    assert Kept(reg, le, [ta, tb, tc]) == Ok([oa] + [oc]);
    assert [oa] + [oc] == [oa, oc];
  }

  /** A text whose type cannot be instantiated aborts the batch, even after
      texts that deserialize: the exception is not one of the failures the
      loop drops. */
  lemma BatchAbortsOnThrow(reg: TypeMap, le: LegacyEngine, a: string, throwing: string)
    requires Deserialize(reg, le, a).Ok?
    requires Deserialize(reg, le, throwing).Err?
    ensures Kept(reg, le, [Some(a), Some(throwing)]) == Err(Deserialize(reg, le, throwing).error)
  {
    KeptContents(reg, le, [Some(a), Some(throwing)]);
  }

  /** A null element aborts the batch with a NullReferenceException once
      every element before it has deserialized without throwing. */
  lemma BatchAbortsOnNull(reg: TypeMap, le: LegacyEngine, a: string, c: string)
    requires Deserialize(reg, le, a).Ok?
    ensures Kept(reg, le, [Some(a), None, Some(c)]) == Err(NullReference)
  {
    var items := [Some(a), None, Some(c)];
    KeptContents(reg, le, items);
    assert DeserializeItem(reg, le, items[0]).Ok?;
    assert DeserializeItem(reg, le, items[1]) == Err(NullReference);
  }

  /** `Json.ParseString(text).As<Array<string>>()` read as a partial
      conversion: null unless the text parses to an array, whose elements
      are then read as strings (null for a `Nil` element). */
  function AsStringArray(render: Variant -> string, v: Variant): (r: Option<seq<Option<string>>>)
    ensures r.Some? <==> v.Arr?
    ensures r.Some? ==> |r.value| == |v.a|
    ensures r.Some? ==> forall i :: 0 <= i < |v.a| ==> r.value[i] == AsString(render, v.a[i])
  {
    if v.Arr? then Some(seq(|v.a|, i requires 0 <= i < |v.a| => AsString(render, v.a[i]))) else None
  }

  /** What `DeserializeList(jsonArray)` returns or throws: iterating the
      null a non-array converts to throws; otherwise the loop over its
      elements. */
  function DeserializedList(reg: TypeMap, le: LegacyEngine, jsonArray: string): Result<seq<Obj>>
  {
    match AsStringArray(le.render, le.parse(jsonArray))
    case None => Err(NullReference)
    case Some(items) => Kept(reg, le, items)
  }

  /** `DeserializeList`: add each non-null result of `Deserialize`. */
  method DeserializeList(reg: TypeMap, le: LegacyEngine, jsonArray: string) returns (r: Result<seq<Obj>>)
    ensures r == DeserializedList(reg, le, jsonArray)
  {
    var parsed := AsStringArray(le.render, le.parse(jsonArray));
    if parsed.None? {
      return Err(NullReference);
    }
    var items := parsed.value;
    var objList: seq<Obj> := [];
    for i := 0 to |items|
      invariant Kept(reg, le, items[..i]) == Ok(objList)
    {
      assert items[..i + 1] == items[..i] + [items[i]];
      KeptAppend(reg, le, items[..i], [items[i]]);
      KeptSingle(reg, le, items[i]);
      var obj := DeserializeItem(reg, le, items[i]);
      if obj.Err? {
        assert Kept(reg, le, items[..i + 1]) == Err(obj.error);
        KeptAppend(reg, le, items[..i + 1], items[i + 1..]);
        assert items[..i + 1] + items[i + 1..] == items;
        return Err(obj.error);
      }
      if obj.value.Some? {
        assert Kept(reg, le, items[..i + 1]) == Ok(objList + [obj.value.value]);
        objList := objList + [obj.value.value];
      } else {
        assert objList + [] == objList;
      }
    }
    assert items[..|items|] == items;
    r := Ok(objList);
  }

  /** `SerializeList`: the rendering of the array holding each object's
      own text, one per object, in input order. */
  method SerializeList(le: LegacyEngine, list: seq<Obj>) returns (json: string)
    ensures json == le.renderArray(seq(|list|, i requires 0 <= i < |list| => le.serializeText(list[i])))
  {
    var texts: seq<string> := [];
    for i := 0 to |list|
      invariant |texts| == i
      invariant forall j :: 0 <= j < i ==> texts[j] == le.serializeText(list[j])
    {
      texts := texts + [le.serializeText(list[i])];
    }
    assert texts == seq(|list|, i requires 0 <= i < |list| => le.serializeText(list[i]));
    json := le.renderArray(texts);
  }
}
