/**
 The text that print_value produces, as a function of the tree. How numbers and strings are written
 is a parameter here; module JsonTokens says how the library writes them. Characters stand for
 bytes.
 */
module JsonText {
  import opened Json

  /** How a number is written, and how a string is. */
  datatype Writer = Writer(number: real -> string, quote: string -> string)

  function Tabs(n: nat): string { seq(n, i => '\t') }

  function Indent(fmt: bool, depth: nat): string { if fmt then Tabs(depth) else "" }

  function NewLine(fmt: bool): string { if fmt then "\n" else "" }

  function Comma(fmt: bool): string { if fmt then ", " else "," }

  function Colon(fmt: bool): string { if fmt then ":\t" else ":" }

  function LineEnd(fmt: bool, last: bool): string { (if last then "" else ",") + NewLine(fmt) }

  /** print_value, print_array and print_object at a nesting depth */
  function Text(w: Writer, v: Json, fmt: bool, depth: nat): string
    decreases v, 1
  {
    match v
    case Invalid => ""
    case Null => "null"
    case False => "false"
    case True => "true"
    case Number(d) => w.number(d)
    case String(s) => w.quote(s)
    case Array(items) => "[" + (ItemsText(w, items, fmt, depth + 1) + "]")
    case Object(ms) => "{" + (NewLine(fmt) + (MembersText(w, ms, fmt, depth + 1) + (Indent(fmt, depth) + "}")))
  }

  function ItemsText(w: Writer, items: seq<Json>, fmt: bool, depth: nat): string
    decreases items, 0
  {
    if items == [] then ""
    else if |items| == 1 then Text(w, items[0], fmt, depth)
    else Text(w, items[0], fmt, depth) + (Comma(fmt) + ItemsText(w, items[1..], fmt, depth))
  }

  function MembersText(w: Writer, ms: seq<Member>, fmt: bool, depth: nat): string
    decreases ms, 1
  {
    if ms == [] then ""
    else MemberText(w, ms[0], fmt, depth, |ms| == 1) + MembersText(w, ms[1..], fmt, depth)
  }

  function MemberText(w: Writer, m: Member, fmt: bool, depth: nat, last: bool): string
    decreases m, 0
  {
    Indent(fmt, depth) + (w.quote(m.key) + (Colon(fmt) + (Text(w, m.value, fmt, depth) + LineEnd(fmt, last))))
  }
}
