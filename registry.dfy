/** The type registry: which types `RegisterTypes` binds to which full type
    name, and the shape of a serializable object. Reflection over the
    executing assembly is replaced by an explicit sequence of type
    descriptors, in the order the assembly lists them. */
module Registry {
  import opened Values

  /** What reflection tells `RegisterTypes` about one type of the assembly. */
  datatype TypeInfo = TypeInfo(fullName: string, implementsSerializable: bool, isAbstract: bool)

  /** An instance of a serializable type: the full name of its runtime type
      (`obj.GetType().FullName`) and the values of its fields. How fields
      map to attribute dictionaries is the object's own code. */
  datatype Obj = Obj(typeName: string, fields: Dict)

  type TypeMap = map<string, TypeInfo>

  /** The filter of `RegisterTypes`: assignable to `IMorphonSerializable`
      and not abstract. */
  predicate Eligible(t: TypeInfo)
  {
    t.implementsSerializable && !t.isAbstract
  }

  /** Every binding is keyed by its type's full name and names an eligible type. */
  predicate Consistent(reg: TypeMap)
  {
    forall k :: k in reg ==> reg[k].fullName == k && Eligible(reg[k])
  }

  /** The map `RegisterTypes` builds: each eligible type, visited in order,
      stored under its full name with the indexer, so a later type with the
      same name replaces an earlier one. */
  function RegistryOf(types: seq<TypeInfo>): TypeMap
  {
    if types == [] then map[]
    else
      var reg := RegistryOf(types[..|types| - 1]);
      var t := types[|types| - 1];
      if Eligible(t) then reg[t.fullName := t] else reg
  }

  /** The registry holds exactly the eligible types, keyed by full name; the
      type bound to a name is the last eligible one of that name. */
  lemma {:induction false} RegistryOfExact(types: seq<TypeInfo>)
    ensures Consistent(RegistryOf(types))
    ensures forall k :: k in RegistryOf(types) <==>
              exists i :: 0 <= i < |types| && Eligible(types[i]) && types[i].fullName == k
    ensures forall k :: k in RegistryOf(types) ==>
              exists i :: 0 <= i < |types| && types[i] == RegistryOf(types)[k] &&
                forall j :: i < j < |types| ==> !(Eligible(types[j]) && types[j].fullName == k)
  {
    if types != [] {
      var init := types[..|types| - 1];
      var n := |types| - 1;
      RegistryOfExact(init);
      assert forall i :: 0 <= i < n ==> init[i] == types[i];
      var reg := RegistryOf(types);
      forall k | k in reg
        ensures exists i :: 0 <= i < |types| && types[i] == reg[k] &&
                  forall j :: i < j < |types| ==> !(Eligible(types[j]) && types[j].fullName == k)
      {
        if Eligible(types[n]) && types[n].fullName == k {
          assert types[n] == reg[k];
        } else {
          var i :| 0 <= i < n && init[i] == RegistryOf(init)[k] &&
                   forall j :: i < j < n ==> !(Eligible(init[j]) && init[j].fullName == k);
          assert types[i] == reg[k];
        }
      }
    }
  }

  /** The registration loop of the static constructor. */
  method RegisterTypes(types: seq<TypeInfo>) returns (reg: TypeMap)
    ensures reg == RegistryOf(types)
  {
    reg := map[];
    for i := 0 to |types|
      invariant reg == RegistryOf(types[..i])
    {
      assert types[..i + 1][..i] == types[..i];
      var t := types[i];
      if !Eligible(t) {
        continue;
      }
      reg := reg[t.fullName := t];
    }
    assert types[..|types|] == types;
  }
}
