/** The part of a Babel syntax tree (a TypeScript module) that the generators look at.
    Every node kind the visitors never match but may have to walk through is `Other`,
    carrying its children in traversal order. */
module Ast {

  datatype Option<+T> = None | Some(value: T)

  datatype Result<+T, +E> = Ok(value: T) | Err(error: E)

  /** A specifier of an import declaration; it holds identifiers only. */
  datatype Specifier =
    | ImportSpecifier(imported: string, local: string)
    | ImportDefaultSpecifier(localName: string)
    | ImportNamespaceSpecifier(localName: string)

  /** A member of an interface body: `key: TypeName`, or any other signature. */
  datatype Member =
    | PropertySignature(key: string, typeName: string)
    | OtherMember

  datatype Node =
    | ArrayExpression(elements: seq<Node>)
    | ObjectExpression(properties: seq<Node>)
      /** `key` is an `Identifier` (also when written `[key]`), a `StringLiteral`, or any other expression. */
    | ObjectProperty(key: Node, value: Node)
    | Identifier(name: string)
    | StringLiteral(literal: string)
    | BooleanLiteral(truth: bool)
    | ImportDeclaration(specifiers: seq<Specifier>, source: string)
    | ExportAllDeclaration(source: string)
      /** `export <declaration>`; `None` for `export { a }` and `export { a } from 'm'`. */
    | ExportNamedDeclaration(declaration: Option<Node>)
    | InterfaceDeclaration(id: string, body: seq<Member>)
      /** A declaration that carries a name but, in this model, no member list: type alias,
          enum, function, class, namespace. */
    | NamedDeclaration(id: string, children: seq<Node>)
    | Other(children: seq<Node>)

  /** The root node; a module has exactly one and it never occurs inside another node. */
  datatype Program = Program(body: seq<Node>)

  /** The parsed `Program` node as the visitors meet it: one object whose statement
      list an edit updates in place while the traversal walks its statements in order. */
  class ProgramNode {
    var body: seq<Node>

    constructor(body: seq<Node>)
      ensures this.body == body
    {
      this.body := body;
    }
  }

  /** The two nodes are of the same kind (the same constructor). */
  predicate SameKind(a: Node, b: Node) {
    a.ArrayExpression? == b.ArrayExpression? && a.ObjectExpression? == b.ObjectExpression?
    && a.ObjectProperty? == b.ObjectProperty? && a.Identifier? == b.Identifier?
    && a.StringLiteral? == b.StringLiteral? && a.BooleanLiteral? == b.BooleanLiteral?
    && a.ImportDeclaration? == b.ImportDeclaration? && a.ExportAllDeclaration? == b.ExportAllDeclaration?
    && a.ExportNamedDeclaration? == b.ExportNamedDeclaration?
    && a.InterfaceDeclaration? == b.InterfaceDeclaration?
    && a.NamedDeclaration? == b.NamedDeclaration? && a.Other? == b.Other?
  }

  /** Number of nodes, counting every import specifier and interface member as one. */
  function Size(n: Node): (r: nat)
    ensures r >= 1
  {
    match n
    case ArrayExpression(es) => 1 + SizeAll(es)
    case ObjectExpression(ps) => 1 + SizeAll(ps)
    case ObjectProperty(k, v) => 1 + Size(k) + Size(v)
    case ImportDeclaration(ss, _) => 1 + |ss|
    case ExportNamedDeclaration(d) => 1 + (if d.Some? then Size(d.value) else 0)
    case InterfaceDeclaration(_, b) => 1 + |b|
    case NamedDeclaration(_, cs) => 1 + SizeAll(cs)
    case Other(cs) => 1 + SizeAll(cs)
    case _ => 1
  }

  function SizeAll(ns: seq<Node>): (r: nat)
    ensures r >= |ns|
  {
    if ns == [] then 0 else Size(ns[0]) + SizeAll(ns[1..])
  }

  lemma {:induction false} SizeAllAppend(a: seq<Node>, b: seq<Node>)
    ensures SizeAll(a + b) == SizeAll(a) + SizeAll(b)
  {
    if a == [] {
      assert a + b == b;
    } else {
      assert (a + b)[0] == a[0] && (a + b)[1..] == a[1..] + b;
      SizeAllAppend(a[1..], b);
    }
  }

  /** The last element of a non-empty sequence. */
  function Last<T>(s: seq<T>): T
    requires |s| > 0
  {
    s[|s| - 1]
  }

  /** A sequence without its last element; the empty sequence stays empty. */
  function DropLast<T>(s: seq<T>): (r: seq<T>)
    ensures |s| > 0 ==> r + [Last(s)] == s
    ensures |s| == 0 ==> r == []
  {
    if s == [] then [] else s[..|s| - 1]
  }
}
