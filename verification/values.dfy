/** How Go's fmt package and reflect package see a Value: fmt.Sprint's text, the
    name of its type, and its kind. */
module Values {
  import opened Common
  import Strs

  /** fmt.Sprint: integers in decimal, strings as they are, booleans as
      true/false, a time through time.String, slices as `[a b]`, structs as `{a b}`. */
  function Sprint(v: Value): string
    decreases v
  {
    match v
    case Int(i) => Strs.IntToString(i)
    case Text(s) => s
    case Bool(b) => if b then "true" else "false"
    case Time(_, printed) => printed
    case List(_, items) =>
      "[" + Strs.Join(seq(|items|, k requires 0 <= k < |items| => Sprint(items[k])), " ") + "]"
    case Record(_, fields) =>
      "{" + Strs.Join(seq(|fields|, k requires 0 <= k < |fields| => Sprint(fields[k].value)), " ") + "}"
  }

  /** reflect.Type.Name(): predeclared names for scalars, "Time" for time.Time, the
      declared name of a struct type ("" for an anonymous one), "" for a slice type. */
  function TypeName(v: Value): string
  {
    match v
    case Int(_) => "int"
    case Text(_) => "string"
    case Bool(_) => "bool"
    case Time(_, _) => "Time"
    case List(_, _) => ""
    case Record(name, _) => name
  }

  /** reflect.Kind == Struct: time.Time is a struct as far as reflect is concerned. */
  predicate IsStructKind(v: Value)
  {
    v.Time? || v.Record?
  }
}
