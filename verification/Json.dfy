/** JSON trees as values: what FPJson.h keeps behind `_type` and `_data`. */
module JsonTree {
  import opened Bytes

  /** A C double, as far as the parser is concerned. */
  datatype Double = Finite(value: real) | Infinite | NotANumber

  datatype Json =
    | Object(dict: map<Text, Json>)
    | Array(list: seq<Json>)
    | String(text: Text)
    | Integer(int64: int)
    | UInteger(uint64: int)
    | Real(number: Double)
    | Boolean(flag: bool)
    | Null
    | Uninit

  const INT64_LIMIT: int := 0x8000_0000_0000_0000
  const UINT64_LIMIT: int := 0x1_0000_0000_0000_0000
}
