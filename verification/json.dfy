/** The JSON values that a block is built from when it is serialised for
    hashing and when it is exported as a dictionary.  A JSON object is a
    `map`, so two objects with the same key/value pairs are equal whatever
    order their keys were inserted in: this is exactly what serialising
    with sorted keys buys the Python code. */
module Json {

  datatype Value =
    | Int(i: int)
    | Float(x: real)
    | Str(s: string)
    | Object(fields: map<string, Value>)

  type Object = map<string, Value>

}
