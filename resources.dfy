/** Reference resolution: when a resource is written as its path, and when
    a path is loaded back. The engine's loader (`GD.Load`) is a parameter. */
module Resources {
  import opened Values

  /** `GetResourcePath`: a shared resource is written as its path; a null
      or local-to-scene resource has no path (null). */
  function GetResourcePath(resource: Option<Resource>): (p: Option<string>)
    ensures p.Some? <==> resource.Some? && !resource.value.localToScene
    ensures p.Some? ==> p.value == resource.value.path
  {
    match resource
    case None => None
    case Some(r) => if !r.localToScene then Some(r.path) else None
  }

  /** `SafeLoadResourceFromPath`: only a path in the `res://` namespace is
      handed to the loader; anything else yields the default unchanged. */
  function SafeLoadResourceFromPath(load: string -> Variant, path: string, default: Variant): (r: Variant)
    ensures !HasResPrefix(path) ==> r == default
    ensures HasResPrefix(path) ==> r == load(path)
  {
    if !HasResPrefix(path) then default else load(path)
  }
}
