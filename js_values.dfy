/** Values as the validation pipeline sees them: what a rule's evaluation is
    fulfilled with, and JavaScript's loose comparison against null. */
module JsValues {

  /** A value a rule's evaluation can be fulfilled with. `undefined` and `null`
      are kept apart, as JavaScript keeps them; every other value (a message,
      an object, but also `false`, `0` or the empty string) is a Descriptor. */
  datatype JsValue = Undefined | Null | Descriptor(text: string)

  /** `v == null` under JavaScript's loose equality: true for null and undefined only. */
  predicate LooselyNull(v: JsValue)
  {
    v.Undefined? || v.Null?
  }
}
