/** The runtime values of the language (the `Variable` type of the source):
    nil, booleans, numbers and strings. Numbers are exact reals. */
module Values {

  datatype Value = Nil | Bool(b: bool) | Num(n: real) | Str(s: string)

  /** The kind tag of a value, used to state that equality never crosses kinds. */
  datatype Kind = NilKind | BoolKind | NumKind | StrKind

  function KindOf(v: Value): Kind {
    match v
    case Nil => NilKind
    case Bool(_) => BoolKind
    case Num(_) => NumKind
    case Str(_) => StrKind
  }

  /** Number-to-text conversion of the host (JavaScript's `Number.prototype.toString`).
      It is not modelled; every consumer takes it as the parameter `fmt`. */
  type NumberFormat = real -> string

  /** The printed form of a value: `nil` for nil and the value's own `toString`
      otherwise. */
  function Stringify(v: Value, fmt: NumberFormat): string {
    match v
    case Nil => "nil"
    case Bool(b) => if b then "true" else "false"
    case Num(n) => fmt(n)
    case Str(s) => s
  }

  /** The text a JavaScript template literal `${v}` produces: like `Stringify`
      except that nil becomes `null`. */
  function TemplateText(v: Value, fmt: NumberFormat): string {
    if v == Nil then "null" else Stringify(v, fmt)
  }

  /** The message text and the printed form differ on nil alone: a template
      literal writes `null` where printing writes `nil`. */
  lemma TemplateDiffersOnlyOnNil(v: Value, fmt: NumberFormat)
    ensures TemplateText(v, fmt) != Stringify(v, fmt) <==> v == Nil
    ensures v == Nil ==> TemplateText(v, fmt) == "null"
  {
  }

  /** Printing does not show a value's kind: nil, true and false print like
      the strings "nil", "true" and "false". */
  lemma PrintedFormsCollide(fmt: NumberFormat)
    ensures Stringify(Nil, fmt) == Stringify(Str("nil"), fmt)
    ensures Stringify(Bool(true), fmt) == Stringify(Str("true"), fmt)
    ensures Stringify(Bool(false), fmt) == Stringify(Str("false"), fmt)
  {
  }
}
