/** The part of the parsed markup tree the preprocessor looks at. The parser is not
    part of this model: a tree is given. */
module Ast {
  import opened Js

  /** One part of an attribute value: literal text, or anything else
      (an interpolated expression, a shorthand). */
  datatype Part =
    | Text(raw: string, start: nat, end: nat)
    | Expression(start: nat, end: nat)

  /** The `value` of an attribute node: `true` for an attribute written without a value,
      otherwise the list of its parts. */
  datatype AttrValue = Flag | Parts(parts: seq<Part>)

  /** An entry of an element's `attributes` list. */
  datatype Attribute =
    | Attribute(name: string, value: AttrValue, start: nat, end: nat)   // also style directives, which carry a value
    | Directive(name: string, start: nat, end: nat)                     // on:, bind:, class:, use:, ...: no `value` field
    | Spread(start: nat, end: nat)                                      // {...props}: neither `name` nor `value`

  /** A markup node; every node kind other than elements and comments is `Other`. */
  datatype Node =
    | Element(name: string, attributes: seq<Attribute>, children: seq<Node>)
    | Comment(data: string)
    | Other(children: seq<Node>)

  /** A `<script>` block: where its content starts in the source. */
  datatype Script = Script(contentStart: nat)

  /** The parse result: the markup fragment and the optional module-level and instance scripts. */
  datatype Root = Root(html: Node, moduleScript: Option<Script>, instanceScript: Option<Script>)

  /** A literal span of the source and the text it holds (an attribute value or part of one). */
  datatype Span = Span(raw: string, start: nat, end: nat)

  /** The order in which the tree walker enters nodes: a node before its children, children left to right. */
  function PreOrder(n: Node): (r: seq<Node>)
    ensures |r| >= 1 && r[0] == n
    decreases n, 1
  {
    match n
    case Element(_, _, children) => [n] + PreOrderAll(children)
    case Comment(_) => [n]
    case Other(children) => [n] + PreOrderAll(children)
  }

  function PreOrderAll(ns: seq<Node>): seq<Node>
    decreases ns, 0
  {
    if ns == [] then [] else PreOrder(ns[0]) + PreOrderAll(ns[1..])
  }
}
