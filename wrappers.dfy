/** Optional values: a JSON field that may be absent, a nullable column, a lookup that may fail. */
module Wrappers {
  datatype Option<+T> = None | Some(value: T)

  /** JavaScript falsiness of an optional JSON string: absent or empty. */
  predicate FalsyText(field: Option<string>) {
    field.None? || field.value == ""
  }

  /** JavaScript falsiness of an optional number: absent (null) or 0. */
  predicate FalsyNumber(field: Option<int>) {
    field.None? || field.value == 0
  }
}
