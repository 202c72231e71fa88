/**
 The `TypeId` enum (src/zig_wasm_exec.js:64-76): an object literal that
 maps each type name to its code and each code back to its name. Only the
 ten keys the literal lists are modelled; keys inherited from
 `Object.prototype` and numeric strings such as "2" are not.
 */
module TypeIds {
  import opened Wrappers

  datatype TypeId = NONE | OBJECT | STRING | SYMBOL | FUNCTION

  /** The code-to-name entries of the literal, indexed by code. `Code` and
      `Name` state their contracts against this list because their partners
      `FromCode` and `FromName` already mention them in their own contracts,
      and Dafny refuses such a cycle between contracts. */
  const Names: seq<string> := ["NONE", "OBJECT", "STRING", "SYMBOL", "FUNCTION"]

  /** The numeric code the name maps to. */
  function Code(t: TypeId): (c: nat)
    ensures c < |Names| && Names[c] == Name(t)
  {
    match t
    case NONE => 0
    case OBJECT => 1
    case STRING => 2
    case SYMBOL => 3
    case FUNCTION => 4
  }

  /** The name the type is listed under. */
  function Name(t: TypeId): (s: string)
    ensures s in Names
  {
    match t
    case NONE => "NONE"
    case OBJECT => "OBJECT"
    case STRING => "STRING"
    case SYMBOL => "SYMBOL"
    case FUNCTION => "FUNCTION"
  }

  /** Reading one of the literal's numeric keys: a type for the codes 0..4,
      and no entry for every other number. */
  function FromCode(c: int): (r: Option<TypeId>)
    ensures r.Some? <==> 0 <= c < 5
    ensures r.Some? ==> Code(r.value) == c
  {
    if c == 0 then Some(NONE)
    else if c == 1 then Some(OBJECT)
    else if c == 2 then Some(STRING)
    else if c == 3 then Some(SYMBOL)
    else if c == 4 then Some(FUNCTION)
    else None
  }

  /** Reading one of the literal's name keys: a type for the five names, and
      no entry among the name keys for every other string. */
  function FromName(s: string): (r: Option<TypeId>)
    ensures r.Some? ==> Name(r.value) == s
    ensures r.None? ==> forall t: TypeId :: Name(t) != s
  {
    if s == "NONE" then Some(NONE)
    else if s == "OBJECT" then Some(OBJECT)
    else if s == "STRING" then Some(STRING)
    else if s == "SYMBOL" then Some(SYMBOL)
    else if s == "FUNCTION" then Some(FUNCTION)
    else None
  }

  /** The literal's name-to-code half: the code listed under a name, if any. */
  function NameToCode(s: string): (r: Option<nat>)
    ensures r.Some? ==> r.value < 5
  {
    match FromName(s)
    case Some(t) => Some(Code(t))
    case None => None
  }

  /** The literal's code-to-name half: the name listed under a code, if any. */
  function CodeToName(c: int): (r: Option<string>)
    ensures r.Some? <==> 0 <= c < 5
  {
    match FromCode(c)
    case Some(t) => Some(Name(t))
    case None => None
  }

  /** Decoding an encoded type gives the type back, by code and by name. */
  lemma TypeIdRoundTrips(t: TypeId)
    ensures FromCode(Code(t)) == Some(t)
    ensures FromName(Name(t)) == Some(t)
  {
  }

  /** The table is a bijection between the codes 0..4 and the five names:
      each code's name leads back to the code, and each listed name's code
      leads back to the name. */
  lemma TableIsBijection(c: int, s: string)
    ensures 0 <= c < 5 ==> CodeToName(c).Some? && NameToCode(CodeToName(c).value) == Some(c)
    ensures NameToCode(s).Some? ==> CodeToName(NameToCode(s).value) == Some(s)
  {
  }

  /** Distinct types have distinct codes and distinct names. */
  lemma CodesAndNamesAreDistinct(t: TypeId, u: TypeId)
    requires t != u
    ensures Code(t) != Code(u)
    ensures Name(t) != Name(u)
  {
  }
}
