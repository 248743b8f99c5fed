/** The Godot value model the serializer works on, the error kinds the C#
    code throws or reports, and the small generic helpers (texts, results,
    option filtering) shared by both versions of the library. */
module Values {

  /** An engine asset: its `ResourcePath` and its `ResourceLocalToScene` flag. */
  datatype Resource = Resource(path: string, localToScene: bool)

  /** Godot's `Variant`, restricted to the kinds the library handles.
      `Nil` also stands for a null object reference. Floats and colours are
      not modelled. */
  datatype Variant =
    | Nil
    | Bool(b: bool)
    | Int(i: int)
    | Str(s: string)
    | Dict(d: map<string, Variant>)
    | Arr(a: seq<Variant>)
    | Res(r: Resource)

  /** `Dictionary<string, Variant>`. Insertion order is not modelled. */
  type Dict = map<string, Variant>

  /** The exceptions the C# code throws, and the null reference it trips over. */
  datatype Error =
    | InvalidData                  // "Invalid data!"
    | MissingTypeTag               // "Type was not set in serialized data!"
    | UnregisteredType(tag: string)
    | DuplicateKey(key: string)    // Dictionary.Add on a key that is present
    | InvalidListData              // "Invalid list data!"
    | NullReference                // a member called on a null reference
    | NullArgument                 // a null key handed to Dictionary.ContainsKey
    | InstanceFailed(typeName: string)
      // creating an instance of a registered type, or that type's own
      // `Deserialize`, threw

  datatype Option<+T> = None | Some(value: T)

  datatype Result<+T> = Ok(value: T) | Err(error: Error)

  /** The reserved attribute key holding an object's full type name. */
  const TypeKey: string := "Type"

  /** The persistent asset namespace every external reference lives in. */
  const ResPrefix: string := "res://"

  /** `s.StartsWith("res://")`. */
  predicate HasResPrefix(s: string)
  {
    |ResPrefix| <= |s| && s[..|ResPrefix|] == ResPrefix
  }

  /** `Variant.As<string>()`: null (None) for `Nil`, exact for strings, and
      for every other kind the engine's textual rendering, which is
      supplied as `render`. */
  function AsString(render: Variant -> string, v: Variant): (s: Option<string>)
    ensures s.None? <==> v.Nil?
    ensures v.Str? ==> s == Some(v.s)
  {
    if v.Nil? then None else if v.Str? then Some(v.s) else Some(render(v))
  }

  /** `Variant.As<Resource>()`: the resource a value holds, null otherwise. */
  function AsResource(v: Variant): (r: Option<Resource>)
    ensures r.Some? <==> v.Res?
    ensures r.Some? ==> v == Res(r.value)
  {
    if v.Res? then Some(v.r) else None
  }

  /** `Variant.As<Dictionary<string, Variant>>()` read as a partial
      conversion: null unless the value is a dictionary. */
  function AsDict(v: Variant): (r: Option<Dict>)
    ensures r.Some? <==> v.Dict?
    ensures r.Some? ==> v == Dict(r.value)
  {
    if v.Dict? then Some(v.d) else None
  }

  /** A C# string assigned into a Variant slot; a null string is modelled
      as `Nil`. */
  function PathToVariant(p: Option<string>): (v: Variant)
    ensures v.Nil? <==> p.None?
    ensures p.Some? ==> v == Str(p.value)
  {
    if p.Some? then Str(p.value) else Nil
  }

  /** `char.IsWhiteSpace`: the Unicode white-space characters. */
  predicate IsWhiteSpace(c: char)
  {
    || ('\U{0009}' <= c <= '\U{000D}')
    || c == ' ' || c == '\U{0085}' || c == '\U{00A0}' || c == '\U{1680}'
    || ('\U{2000}' <= c <= '\U{200A}')
    || c == '\U{2028}' || c == '\U{2029}' || c == '\U{202F}' || c == '\U{205F}' || c == '\U{3000}'
  }

  /** Every character of `s` is white space. */
  predicate IsBlank(s: string)
  {
    forall i :: 0 <= i < |s| ==> IsWhiteSpace(s[i])
  }

  /** `s.TrimStart()`. */
  function TrimStart(s: string): (r: string)
    ensures |r| <= |s| && r == s[|s| - |r|..]
    ensures r == [] || !IsWhiteSpace(r[0])
  {
    if s != [] && IsWhiteSpace(s[0]) then TrimStart(s[1..]) else s
  }

  /** `s.TrimEnd()`. */
  function TrimEnd(s: string): (r: string)
    ensures |r| <= |s| && r == s[..|r|]
    ensures r == [] || !IsWhiteSpace(r[|r| - 1])
  {
    if s != [] && IsWhiteSpace(s[|s| - 1]) then TrimEnd(s[..|s| - 1]) else s
  }

  /** `s.Trim()`. */
  function Trim(s: string): string
  {
    TrimEnd(TrimStart(s))
  }

  /** Everything `TrimStart` drops is white space. */
  lemma {:induction false} TrimStartDropsBlank(s: string)
    ensures IsBlank(s[..|s| - |TrimStart(s)|])
  {
    if s != [] && IsWhiteSpace(s[0]) {
      TrimStartDropsBlank(s[1..]);
      var n := |s| - |TrimStart(s)|;
      assert s[..n] == [s[0]] + s[1..][..n - 1];
    }
  }

  /** `TrimEnd` keeps a text whose first character is not white space non-empty. */
  lemma {:induction false} TrimEndKeepsFirst(s: string)
    requires s != [] && !IsWhiteSpace(s[0])
    ensures TrimEnd(s) != []
  {
    if IsWhiteSpace(s[|s| - 1]) {
      TrimEndKeepsFirst(s[..|s| - 1]);
    }
  }

  /** Trimming leaves nothing exactly when the text is blank, so the test
      `content.Trim() == ""` is a blank test. */
  lemma TrimEmptyIffBlank(s: string)
    ensures Trim(s) == [] <==> IsBlank(s)
  {
    var t := TrimStart(s);
    TrimStartDropsBlank(s);
    if t != [] {
      TrimEndKeepsFirst(t);
      assert t[0] == s[|s| - |t|];
    } else {
      assert s[..|s| - |t|] == s;
    }
  }

  /** Apply a throwing operation to each element in order; the first
      failure aborts, otherwise the results come back in input order. This
      is what a C# `foreach` that appends `f(item)` to a list computes. */
  function MapResult<A, B>(f: A -> Result<B>, xs: seq<A>): Result<seq<B>>
  {
    if xs == [] then Ok([])
    else
      var prefix := MapResult(f, xs[..|xs| - 1]);
      if prefix.Err? then prefix
      else
        var last := f(xs[|xs| - 1]);
        if last.Err? then Err(last.error) else Ok(prefix.value + [last.value])
  }

  /** A failure on a prefix is the failure of the whole sequence. */
  lemma {:induction false} MapResultPrefixError<A, B>(f: A -> Result<B>, xs: seq<A>, i: nat)
    requires i <= |xs|
    requires MapResult(f, xs[..i]).Err?
    ensures MapResult(f, xs) == MapResult(f, xs[..i])
  {
    if i < |xs| {
      assert xs[..|xs| - 1][..i] == xs[..i];
      MapResultPrefixError(f, xs[..|xs| - 1], i);
    } else {
      assert xs[..i] == xs;
    }
  }

  /** `MapResult` succeeds exactly when every element succeeds, and then
      yields one result per element, in input order. */
  lemma {:induction false} MapResultShape<A, B>(f: A -> Result<B>, xs: seq<A>)
    ensures MapResult(f, xs).Ok? <==> forall i :: 0 <= i < |xs| ==> f(xs[i]).Ok?
    ensures MapResult(f, xs).Ok? ==>
              |MapResult(f, xs).value| == |xs| &&
              forall i :: 0 <= i < |xs| ==> MapResult(f, xs).value[i] == f(xs[i]).value
  {
    if xs != [] {
      var init := xs[..|xs| - 1];
      MapResultShape(f, init);
      assert forall i :: 0 <= i < |init| ==> init[i] == xs[i];
    }
  }

  /** When some element fails, the error is the one of the FIRST failing
      element. */
  lemma {:induction false} MapResultFirstError<A, B>(f: A -> Result<B>, xs: seq<A>, j: nat)
    requires j < |xs| && f(xs[j]).Err?
    requires forall i :: 0 <= i < j ==> f(xs[i]).Ok?
    ensures MapResult(f, xs) == Err(f(xs[j]).error)
  {
    var prefix := xs[..j + 1];
    MapResultShape(f, xs[..j]);
    assert prefix[..|prefix| - 1] == xs[..j];
    assert forall i :: 0 <= i < j ==> xs[..j][i] == xs[i];
    MapResultPrefixError(f, xs, j + 1);
  }

  /** `MapResult` over a concatenation: the first part's error, else the
      second part's error, else both parts' results joined in order. */
  lemma {:induction false} MapResultAppend<A, B>(f: A -> Result<B>, xs: seq<A>, ys: seq<A>)
    ensures MapResult(f, xs + ys) ==
            match MapResult(f, xs)
            case Err(err) => Err(err)
            case Ok(a) =>
              (match MapResult(f, ys)
               case Err(err) => Err(err)
               case Ok(b) => Ok(a + b))
  {
    if ys == [] {
      assert xs + ys == xs;
      assert MapResult(f, ys) == Ok([]);
      if MapResult(f, xs).Ok? {
        assert MapResult(f, xs).value + [] == MapResult(f, xs).value;
      }
    } else {
      var init := ys[..|ys| - 1];
      assert (xs + ys)[..|xs + ys| - 1] == xs + init;
      assert (xs + ys)[|xs + ys| - 1] == ys[|ys| - 1];
      MapResultAppend(f, xs, init);
      var zs := xs + ys;
      assert MapResult(f, zs) ==
             (var prefix := MapResult(f, xs + init);
              if prefix.Err? then prefix
              else
                var last := f(ys[|ys| - 1]);
                if last.Err? then Err(last.error) else Ok(prefix.value + [last.value]));
      assert MapResult(f, ys) ==
             (var prefix := MapResult(f, init);
              if prefix.Err? then prefix
              else
                var last := f(ys[|ys| - 1]);
                if last.Err? then Err(last.error) else Ok(prefix.value + [last.value]));
      if MapResult(f, xs).Ok? && MapResult(f, ys).Ok? {
        assert MapResult(f, xs).value + MapResult(f, init).value + [f(ys[|ys| - 1]).value] ==
               MapResult(f, xs).value + (MapResult(f, init).value + [f(ys[|ys| - 1]).value]);
      }
    }
  }

  /** The values of the `Some` entries, in order: a C# loop that adds each
      non-null result to a list. */
  function Somes<T>(xs: seq<Option<T>>): seq<T>
  {
    if xs == [] then []
    else Somes(xs[..|xs| - 1]) + (if xs[|xs| - 1].Some? then [xs[|xs| - 1].value] else [])
  }

  /** `Somes` distributes over concatenation, so kept elements stay in
      their original relative order. */
  lemma {:induction false} SomesAppend<T>(xs: seq<Option<T>>, ys: seq<Option<T>>)
    ensures Somes(xs + ys) == Somes(xs) + Somes(ys)
  {
    if ys != [] {
      var zs := xs + ys;
      assert zs[..|zs| - 1] == xs + ys[..|ys| - 1];
      SomesAppend(xs, ys[..|ys| - 1]);
    } else {
      assert xs + ys == xs;
    }
  }

  /** `Somes` keeps every `Some`, drops every `None`, and adds nothing. */
  lemma {:induction false} SomesContents<T>(xs: seq<Option<T>>)
    ensures |Somes(xs)| <= |xs|
    ensures (forall i :: 0 <= i < |xs| ==> xs[i].Some?) ==>
              |Somes(xs)| == |xs| && forall i :: 0 <= i < |xs| ==> Somes(xs)[i] == xs[i].value
    ensures forall y :: y in Somes(xs) <==> Some(y) in xs
  {
    if xs != [] {
      var init := xs[..|xs| - 1];
      SomesContents(init);
      assert xs == init + [xs[|xs| - 1]];
      assert forall i :: 0 <= i < |init| ==> init[i] == xs[i];
    }
  }
}
