/** Shapes shared by every module: optional values, the two ways a Go call can end
    (return or panic), the closed set of runtime values the helpers pass around, and
    the errors they report. */
module Common {

  datatype Option<+T> = None | Some(value: T)

  /** A Go call either returns or panics (index out of range, failed assertion, ...). */
  datatype Outcome<+T> = Returns(value: T) | Panics(reason: string)

  /** One `key:"value"` pair of a Go struct tag. */
  datatype TagPair = TagPair(key: string, value: string)

  /** The dynamic values the helpers see through `any`: a closed variant instead of
      runtime type inspection. A time.Time carries its two renderings: RFC 3339
      (time.Format) and the form fmt.Sprint prints (time.String). */
  datatype Value =
    | Int(i: int)
    | Text(s: string)
    | Bool(b: bool)
    | Time(rfc3339: string, printed: string)
    | List(elemType: string, items: seq<Value>)
    | Record(typeName: string, fields: seq<Field>)

  /** A struct field: its raw tag (empty when the field has no tag) and its value. */
  datatype Field = Field(tag: seq<TagPair>, value: Value)

  /** strconv's *NumError: the function that failed, the input, and why. */
  datatype NumError = SyntaxError(fn: string, num: string) | RangeError(fn: string, num: string)

  /** The errors the helpers return. */
  datatype Error =
    | Plain(msg: string)                                        // errors.New, fmt.Errorf
    | Coded(code: int, msg: string, data: map<string, string>)  // util.Err
    | Parse(numError: NumError)                                 // strconv failures
    | Driver(reason: string)                                    // reported by the database
    | NoRows                                                    // sql.ErrNoRows
    | Wrapped(cause: Error, query: string, args: seq<Value>)    // InsertHelper.Finish

  const StatusBadRequest := 400
  const StatusUnauthorized := 401
  const StatusNotFound := 404
}
