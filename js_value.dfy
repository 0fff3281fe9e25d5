/**
 * The values a parsed JSON request body can hold for one property, and the three
 * JavaScript operations the report controller applies to them: truthiness (`!v`),
 * the `length` property, and `typeof v === 'string'`.
 */
module JsValue {
  import opened Results
  import opened JsText

  /** Integers a JavaScript number holds exactly. */
  const MaxSafeInteger: int := 0x1F_FFFF_FFFF_FFFF

  type SafeInteger = n: int | -MaxSafeInteger <= n <= MaxSafeInteger

  /** `Undefined` stands for a property the body does not have. An array is known
      here only by its length. */
  datatype Value =
    | Undefined
    | Null
    | Bool(b: bool)
    | Number(n: SafeInteger)
    | Str(s: JsString)
    | Array(length: nat)
    | Object

  /** JavaScript truthiness: `undefined`, `null`, `false`, `0` and `""` are falsy. */
  predicate Truthy(v: Value) {
    match v
    case Undefined => false
    case Null => false
    case Bool(b) => b
    case Number(n) => n != 0
    case Str(s) => s != []
    case Array(_) => true
    case Object => true
  }

  /** `v.length`: the code-unit count of a string, the length of an array, and
      `undefined` (`None`) for every other truthy value. */
  function Length(v: Value): Option<nat> {
    match v
    case Str(s) => Some(|s|)
    case Array(n) => Some(n)
    case _ => None
  }

  /** `typeof v === 'string'`. */
  predicate IsString(v: Value) {
    v.Str?
  }

  /** `v.length < k`: a comparison with `undefined` is false. */
  predicate ShorterThan(v: Value, k: nat) {
    var len := Length(v);
    len.Some? && len.value < k
  }

  /** `v.length > k`, with the same reading of `undefined`. */
  predicate LongerThan(v: Value, k: nat) {
    var len := Length(v);
    len.Some? && len.value > k
  }
}
