/** The shapes in which request data reaches the route handlers: JSON body
    fields with JavaScript's loose typing, numbers parsed from the query
    string, and bodies that could not be parsed at all. */
module Values {

  datatype Option<+T> = None | Some(value: T)

  /** A JSON value as a body field can carry it. Objects and arrays are kept
      together as `Compound`: the handlers only ever ask whether such a value
      is truthy (always) or a number (never). */
  datatype Value = Num(n: real) | Str(s: string) | Bool(b: bool) | Null | Compound

  /** JavaScript truthiness; `!v` is `!Truthy(v)`. The falsy JSON values
      are exactly `0`, `""`, `false` and `null` (JSON has no NaN). */
  predicate Truthy(v: Value)
    ensures Truthy(v) <==> v !in {Num(0.0), Str(""), Bool(false), Null}
  {
    match v
    case Num(n) => n != 0.0
    case Str(s) => s != ""
    case Bool(b) => b
    case Null => false
    case Compound => true
  }

  /** A body field that passes `!body.f == false`: present and truthy.
      An absent field (`undefined`) is falsy. */
  predicate Given(f: Option<Value>)
  {
    f.Some? && Truthy(f.value)
  }

  /** `typeof v === 'number' && v > 0`. Every value it accepts is truthy, so
      a field that passed it also passed the earlier `!field` test. */
  predicate PositiveNumber(v: Value)
    ensures PositiveNumber(v) ==> Truthy(v)
  {
    v.Num? && v.n > 0.0
  }

  /** The outcome of `parseInt`/`parseFloat` on a query parameter that is
      present: a number, or NaN. */
  datatype Parsed = NotANumber | Number(v: real)

  /** `x >= bound`; every comparison with NaN is false, and a number equal
      to the bound meets it. */
  predicate AtLeast(x: real, bound: Parsed)
    ensures bound.NotANumber? ==> !AtLeast(x, bound)
    ensures bound == Number(x) ==> AtLeast(x, bound)
  {
    bound.Number? && x >= bound.v
  }

  /** `x <= bound`; every comparison with NaN is false, while every number
      meets a number bound from at least one side. */
  predicate AtMost(x: real, bound: Parsed)
    ensures bound.NotANumber? ==> !AtMost(x, bound)
    ensures bound.Number? ==> AtMost(x, bound) || AtLeast(x, bound)
  {
    bound.Number? && x <= bound.v
  }

  /** A request as `await request.json()` leaves it: either the body could
      not be read as a JSON object, or it was and these are its fields. */
  datatype Request<B> = Unparseable | Body(fields: B)
}
