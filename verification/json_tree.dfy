/** The configuration tree the collector receives from the appliance client:
    nested mappings with string keys, sequences, and primitive leaves. */
module JsonTree {

  /** A JSON-like value. Numbers are opaque leaves: nothing in the sanitizer
      inspects them, so an `int` stands for any numeric value. Mapping key
      order is not modelled. */
  datatype Json =
    | Null
    | Bool(b: bool)
    | Num(n: int)
    | Str(s: string)
    | Arr(items: seq<Json>)
    | Obj(fields: map<string, Json>)

  /** The value written over every redacted field. */
  const Blank: Json := Str("")
}
