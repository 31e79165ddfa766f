/**
 * The JSON values a parsed manifest can hold at a dependency name.
 * Arrays and objects compare by reference under `===`, so they are modelled
 * by an identity token only.
 */
module Values {

  import opened Wrappers

  datatype Value =
    | Str(s: string)
    | Null
    | Bool(b: bool)
    | Num(n: real)
    | Composite(id: nat)   // an array or object, known only by its reference
    | Builtin(name: string) // a method inherited from `Object.prototype`; never parsed JSON

  /** JavaScript truthiness, as used by the conditional `verA ? … : …`. */
  predicate Truthy(v: Value)
    ensures !Truthy(v) <==> v == Null || v == Bool(false) || v == Num(0.0) || v == Str("")
  {
    match v
    case Str(s) => s != ""
    case Null => false
    case Bool(b) => b
    case Num(n) => n != 0.0
    case Composite(_) => true
    case Builtin(_) => true
  }

  /** JavaScript's `undefined` for a missing key is falsy as well. */
  predicate TruthyOpt(v: Option<Value>)
    ensures v.None? ==> !TruthyOpt(v)
    ensures TruthyOpt(v) ==> v.value != Null && v.value != Str("")
  {
    v.Some? && Truthy(v.value)
  }
}
