/**
 * The CORS check of src/Router.php:264-272. The configured `allowedOrigins`
 * array maps an origin, or `*` for any origin, to the HTTP methods allowed
 * from it; the check compares keys and methods strictly.
 */
module Cors {
  /** `allowedOrigins`: each key with its list of methods, in array order. */
  type Origins = seq<(string, seq<string>)>

  /** Some entry whose key is `*` or the origin itself lists the method. */
  predicate OriginAllowed(origins: Origins, origin: string, requestMethod: string)
    ensures origins == [] ==> !OriginAllowed(origins, origin, requestMethod)
  {
    exists i :: 0 <= i < |origins| && (origins[i].0 == "*" || origins[i].0 == origin) && requestMethod in origins[i].1
  }

  /** `isOriginAllowed`: scan the entries and stop at the first that allows the pair. */
  method IsOriginAllowed(origins: Origins, origin: string, requestMethod: string) returns (allowed: bool)
    ensures allowed <==> OriginAllowed(origins, origin, requestMethod)
  {
    var i := 0;
    while i < |origins|
      invariant 0 <= i <= |origins|
      invariant forall j :: 0 <= j < i ==> !((origins[j].0 == "*" || origins[j].0 == origin) && requestMethod in origins[j].1)
    {
      var (allowedOrigin, methods) := origins[i];
      if (allowedOrigin == "*" || allowedOrigin == origin) && requestMethod in methods {
        return true;
      }
      i := i + 1;
    }
    return false;
  }
}
