/** A Java reference that may be null: keys and values of the map. */
module Nullables {

  /** `Null` is Java's `null`; `Obj(value)` is a non-null reference to `value`. */
  datatype Nullable<+T> = Null | Obj(value: T)
}
