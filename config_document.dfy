/** The two-level document a `MorphonConfigFile` holds
    (`Dictionary<string, Dictionary<string, Variant>>`) and the changes its
    methods make to it, as functions on values. */
module ConfigDocument {
  import opened Values
  import opened Registry

  type Section = map<string, Variant>
  type Doc = map<string, Section>

  /** The type argument of `GetValue<T>`: which of its three branches runs. */
  datatype Requested = SerializableKind | ResourceKind | VariantKind

  /** What a `GetValue<T>` call hands back: a plain value (a resource or
      null resource included), a deserialized object, or a null object. */
  datatype Got = Plain(v: Variant) | Instance(o: Obj) | Null

  /** `HasSectionKey`: the section exists and holds the key. */
  predicate Has(d: Doc, section: string, key: string)
  {
    section in d && key in d[section]
  }

  /** `NewKey`: create the section (empty) and the key (Nil) when missing. */
  function WithKey(d: Doc, section: string, key: string): (r: Doc)
    ensures Has(r, section, key)
    ensures r.Keys == d.Keys + {section}
    ensures r[section].Keys == (if section in d then d[section].Keys else {}) + {key}
    ensures r[section][key] == if Has(d, section, key) then d[section][key] else Nil
    ensures forall s :: s in d && s != section ==> r[s] == d[s]
    ensures forall k :: Has(d, section, k) ==> r[section][k] == d[section][k]
  {
    var d1 := if section in d then d else d[section := map[]];
    if key in d1[section] then d1 else d1[section := d1[section][key := Nil]]
  }

  /** `NewKey` followed by `m_Data[section][key] = value`: afterwards the
      pair is present and holds the value; every other section, and every
      other key of the section, is as before. */
  function Put(d: Doc, section: string, key: string, value: Variant): (r: Doc)
    ensures Has(r, section, key) && r[section][key] == value
    ensures r.Keys == d.Keys + {section}
    ensures r[section].Keys == (if section in d then d[section].Keys else {}) + {key}
    ensures forall s :: s in d && s != section ==> r[s] == d[s]
    ensures forall k :: Has(d, section, k) && k != key ==> r[section][k] == d[section][k]
  {
    var w := WithKey(d, section, key);
    w[section := w[section][key := value]]
  }

  /** `ClearKey`: drop the key when the pair exists; the section stays,
      even when it becomes empty. */
  function RemoveKey(d: Doc, section: string, key: string): (r: Doc)
    ensures !Has(r, section, key)
    ensures section in d ==> section in r
    ensures r.Keys == d.Keys
    ensures forall s :: s in d && s != section ==> r[s] == d[s]
    ensures section in d ==> r[section].Keys == d[section].Keys - {key}
    ensures forall k :: Has(d, section, k) && k != key ==> r[section][k] == d[section][k]
    ensures !Has(d, section, key) ==> r == d
  {
    if Has(d, section, key) then d[section := d[section] - {key}] else d
  }

  /** `ClearSection`: drop the section when it exists. */
  function RemoveSection(d: Doc, section: string): (r: Doc)
    ensures section !in r
    ensures r.Keys == d.Keys - {section}
    ensures forall s :: s in d && s != section ==> r[s] == d[s]
    ensures section !in d ==> r == d
  {
    if section in d then d - {section} else d
  }

  /** `Variant.As<Dictionary<string, Dictionary<string, Variant>>>()` read
      as a partial conversion: a dictionary all of whose values are
      dictionaries, null otherwise. */
  function AsDoc(v: Variant): (r: Option<Doc>)
    ensures r.Some? <==> v.Dict? && forall s :: s in v.d ==> v.d[s].Dict?
    ensures r.Some? ==> r.value.Keys == v.d.Keys
    ensures r.Some? ==> forall s :: s in v.d ==> v.d[s] == Dict(r.value[s])
  {
    if v.Dict? && forall s :: s in v.d ==> v.d[s].Dict? then
      Some(map s | s in v.d :: v.d[s].d)
    else None
  }

  /** `Dictionary.Keys.ToArray()`: every key exactly once. */
  method KeysToArray(keys: set<string>) returns (r: seq<string>)
    ensures |r| == |keys|
    ensures forall x :: x in r <==> x in keys
    ensures forall i, j :: 0 <= i < j < |r| ==> r[i] != r[j]
  {
    r := [];
    var pending := keys;
    while pending != {}
      invariant pending <= keys
      invariant forall x :: x in r <==> x in keys - pending
      invariant |r| + |pending| == |keys|
      invariant forall i, j :: 0 <= i < j < |r| ==> r[i] != r[j]
      decreases pending
    {
      var x :| x in pending;
      r := r + [x];
      pending := pending - {x};
    }
  }
}
