/** The JSON values a record of the data files can hold. */
module Json {

  /**
   * `Str`, `Int`, `Bool`, `Null` and `List` are the shapes the site reads or
   * writes itself; `Raw` stands for any other JSON value (a float, an
   * object), carried along unread as its JSON text.
   */
  datatype Value = Str(s: string) | Int(i: int) | Bool(b: bool) | Null | List(items: seq<Value>) | Raw(json: string)
}
