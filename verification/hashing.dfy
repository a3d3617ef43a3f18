/**
 * `get_hash(text, hash_type)`: pick a digest function by case-insensitive
 * algorithm name, and fall back to MD5 whenever the choice fails.
 * The digest functions themselves are parameters (`Hashlib`), not modelled.
 */
module Hashing {
  import opened Wrappers
  import opened Text

  /** What a user-supplied hash function returned: a `str`, or another object whose `str()` may itself raise. */
  datatype PyValue = Str(s: string) | NonStr(rendered: Option<string>)

  /** One call of the user-supplied hash function. */
  datatype CustomCall = Returned(value: PyValue) | Raised

  /** How a hashlib constructor is invoked: BLAKE2 with a 32-byte digest, SHAKE read out to 128 bytes, or plainly. */
  datatype Family = Blake2 | Shake | Plain

  /**
   * The hashing library as `get_hash` sees it: MD5 of the UTF-8 text as lower-case
   * hex (never fails), the names in `hashlib.algorithms_available`, and the hex
   * digest that the named constructor, invoked per `Family`, gives for the text,
   * or `None` when looking it up or running it raises.
   */
  datatype Hashlib = Hashlib(
    md5: string -> string,
    available: set<string>,
    digest: (Family, string, string) -> Option<string>)

  /** The branch of `get_hash` a lower-cased algorithm name selects. */
  datatype Route = CustomRoute | Builtin(family: Family) | Fallback

  /** Python's `part in s` on strings. */
  predicate Contains(s: string, part: string)
  {
    exists i :: 0 <= i <= |s| && part <= s[i..]
  }

  /** The branch order of `get_hash`: custom, BLAKE2 prefix, SHAKE substring, any available name, else MD5. */
  function Dispatch(algo: string, hasCustom: bool, available: set<string>): Route
  {
    if algo == "custom" && hasCustom then CustomRoute
    else if "blake2" <= algo then Builtin(Blake2)
    else if Contains(algo, "shake") then Builtin(Shake)
    else if algo in available then Builtin(Plain)
    else Fallback
  }

  /** The custom function's answer as a string: the `str` itself, or `str(result)`; `None` if either call raised. */
  function Coerce(call: CustomCall): Option<string>
  {
    match call
    case Returned(Str(s)) => Some(s)
    case Returned(NonStr(rendered)) => rendered
    case Raised => None
  }

  /**
   * The digest of `text` under `hashType`. Whatever fails, the result is the MD5
   * digest; the custom function is used only when one is loaded and the name is
   * "custom" in any letter case; a name no branch knows also gives MD5.
   */
  function GetHash(lib: Hashlib, custom: Option<string -> CustomCall>, text: string, hashType: string): (r: string)
    ensures r == lib.md5(text)
         || (custom.Some? && Coerce(custom.value(text)) == Some(r))
         || (exists f :: lib.digest(f, Lower(hashType), text) == Some(r))
    ensures custom.Some? && SameIgnoringCase(hashType, "CUSTOM") ==>
      r == Coerce(custom.value(text)).GetOr(lib.md5(text))
    ensures (&& (custom.None? || !SameIgnoringCase(hashType, "CUSTOM"))
             && !("blake2" <= Lower(hashType))
             && !Contains(Lower(hashType), "shake")
             && Lower(hashType) !in lib.available) ==>
      r == lib.md5(text)
  {
    var algo := Lower(hashType);
    LowerEqualIff(hashType, "CUSTOM");
    assert Lower("CUSTOM") == "custom";
    match Dispatch(algo, custom.Some?, lib.available)
    case CustomRoute => Coerce(custom.value(text)).GetOr(lib.md5(text))
    case Builtin(f) => lib.digest(f, algo, text).GetOr(lib.md5(text))
    case Fallback => lib.md5(text)
  }

  /** The algorithm name is compared without regard to letter case. */
  lemma GetHashIgnoresCase(lib: Hashlib, custom: Option<string -> CustomCall>, text: string, a: string, b: string)
    requires SameIgnoringCase(a, b)
    ensures GetHash(lib, custom, text, a) == GetHash(lib, custom, text, b)
  {
    LowerEqualIff(a, b);
  }

  /** A built-in algorithm that fails for this text yields the MD5 digest, as does any failure of the custom function. */
  lemma GetHashFailureIsMd5(lib: Hashlib, custom: Option<string -> CustomCall>, text: string, hashType: string)
    requires match Dispatch(Lower(hashType), custom.Some?, lib.available)
             case CustomRoute => Coerce(custom.value(text)).None?
             case Builtin(f) => lib.digest(f, Lower(hashType), text).None?
             case Fallback => true
    ensures GetHash(lib, custom, text, hashType) == lib.md5(text)
  {
  }

  /**
   * The built-in branches, by the lower-cased name: a `blake2` prefix first, then a
   * `shake` substring, then any available name; each falls back to MD5 on failure.
   */
  lemma GetHashBranches(lib: Hashlib, custom: Option<string -> CustomCall>, text: string, hashType: string)
    requires custom.None? || !SameIgnoringCase(hashType, "CUSTOM")
    ensures "blake2" <= Lower(hashType) ==>
      GetHash(lib, custom, text, hashType) == lib.digest(Blake2, Lower(hashType), text).GetOr(lib.md5(text))
    ensures !("blake2" <= Lower(hashType)) && Contains(Lower(hashType), "shake") ==>
      GetHash(lib, custom, text, hashType) == lib.digest(Shake, Lower(hashType), text).GetOr(lib.md5(text))
    ensures !("blake2" <= Lower(hashType)) && !Contains(Lower(hashType), "shake") && Lower(hashType) in lib.available ==>
      GetHash(lib, custom, text, hashType) == lib.digest(Plain, Lower(hashType), text).GetOr(lib.md5(text))
  {
    LowerEqualIff(hashType, "CUSTOM");
    assert Lower("CUSTOM") == "custom";
  }
}
