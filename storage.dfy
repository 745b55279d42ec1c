/**
 The shape of what `JSON.parse(localStorage.getItem(key) || "[]")` returns.
 Reading and writing the browser storage is outside the model; a stored
 list is described by what parsing it produced.
 */
module Storage {

  /** A parsed JSON value (numbers are modelled as integers). */
  datatype Json =
    | JNull
    | JBool(b: bool)
    | JNum(n: int)
    | JStr(s: string)
    | JArr(elems: seq<Json>)
    | JObj(fields: map<string, Json>)

  /** The outcome of reading a list-valued key:
      `Missing` (no entry, so `"[]"` is parsed), `Unparsable` (`JSON.parse` throws),
      `NotArray` (it parses to something `Array.isArray` rejects) or an array. */
  datatype Stored<T> = Missing | Unparsable | NotArray | Array(elems: seq<T>)
}
