/** CreateGenerator: the `.env` text written for a new project and the route-file edit
    `readRoute` that points every `component` entry at one fixed page. */
module CreateGenerator {
  import opened Ast

  const EnvPrefix: string := "PROJECT = "

  /** The path every `component` literal (string or boolean) is assigned. */
  const AdjustTheRecordPath: string := "@/pages/adjustTheRecord"

  /** The content of the project's `.env` file: the project name after `PROJECT = `. */
  function EnvText(name: string): (t: string)
    ensures |t| == |EnvPrefix| + |name|
    ensures t[..|EnvPrefix|] == EnvPrefix && t[|EnvPrefix|..] == name
  {
    EnvPrefix + name
  }

  /** The key a property must have to be rewritten: an identifier named `component`.
      A string key `'component'` has no name and does not match. */
  predicate IsComponentKey(k: Node) {
    k.Identifier? && k.name == "component"
  }

  /** What `value.value = path` makes of the value of a `component` property, as the
      printer reads it back: a string literal holds the path; a boolean literal holds
      a string and is printed by its truthiness; any other kind of value is printed
      as before. */
  function AssignValue(v: Node, path: string): (r: Node)
    ensures SameKind(r, v)
  {
    match v
    case StringLiteral(_) => StringLiteral(path)
    case BooleanLiteral(_) => BooleanLiteral(path != "")
    case _ => v
  }

  /** A value the assignment rewrites. */
  predicate IsLiteral(v: Node) {
    v.StringLiteral? || v.BooleanLiteral?
  }

  /** The `ObjectProperty` visitor of `readRoute` run over a whole subtree with
      `path` as the assigned value: every property with key `component` whose
      value is a string or boolean literal gets the assignment. */
  function SetComponents(n: Node, path: string): Node {
    match n
    case ObjectProperty(k, v) =>
      ObjectProperty(SetComponents(k, path),
                     if IsComponentKey(k) && IsLiteral(v) then AssignValue(v, path) else SetComponents(v, path))
    case ArrayExpression(es) => ArrayExpression(SetComponentsAll(es, path))
    case ObjectExpression(ps) => ObjectExpression(SetComponentsAll(ps, path))
    case ExportNamedDeclaration(d) =>
      ExportNamedDeclaration(if d.Some? then Some(SetComponents(d.value, path)) else None)
    case NamedDeclaration(id, cs) => NamedDeclaration(id, SetComponentsAll(cs, path))
    case Other(cs) => Other(SetComponentsAll(cs, path))
    case _ => n
  }

  function SetComponentsAll(ns: seq<Node>, path: string): (r: seq<Node>)
    ensures |r| == |ns|
  {
    seq(|ns|, i requires 0 <= i < |ns| => SetComponents(ns[i], path))
  }

  /** `readRoute` on a parsed route file. */
  function ReplaceComponentPath(p: Program): Program {
    Program(SetComponentsAll(p.body, AdjustTheRecordPath))
  }

  /** `readRoute` on the parsed route file: the traversal walks the top-level
      statements in order and assigns, in place, the string of every `component`
      property it meets. */
  method ReadRoute(tree: ProgramNode)
    modifies tree
    ensures Program(tree.body) == ReplaceComponentPath(Program(old(tree.body)))
  {
    var i := 0;
    while i < |tree.body|
      invariant 0 <= i <= |tree.body| == |old(tree.body)|
      invariant forall j :: 0 <= j < i ==> tree.body[j] == SetComponents(old(tree.body)[j], AdjustTheRecordPath)
      invariant forall j :: i <= j < |tree.body| ==> tree.body[j] == old(tree.body)[j]
    {
      tree.body := tree.body[i := SetComponents(tree.body[i], AdjustTheRecordPath)];
      i := i + 1;
    }
    assert tree.body == SetComponentsAll(old(tree.body), AdjustTheRecordPath);
  }

  /** Every `component` property with a literal value in the subtree already holds
      what the assignment of `path` would give it. */
  predicate ComponentsAre(n: Node, path: string) {
    match n
    case ObjectProperty(k, v) =>
      ComponentsAre(k, path) && ComponentsAre(v, path)
      && (IsComponentKey(k) && IsLiteral(v) ==> AssignValue(v, path) == v)
    case ArrayExpression(es) => AllComponentsAre(es, path)
    case ObjectExpression(ps) => AllComponentsAre(ps, path)
    case ExportNamedDeclaration(d) => d.Some? ==> ComponentsAre(d.value, path)
    case NamedDeclaration(_, cs) => AllComponentsAre(cs, path)
    case Other(cs) => AllComponentsAre(cs, path)
    case _ => true
  }

  predicate AllComponentsAre(ns: seq<Node>, path: string) {
    forall i :: 0 <= i < |ns| ==> ComponentsAre(ns[i], path)
  }

  /** The edit keeps the kind of every node, and of every assigned value, and never
      touches identifiers, so it keeps every key it meets. */
  lemma SetComponentsKeepsKind(n: Node, path: string)
    ensures SameKind(SetComponents(n, path), n)
    ensures SameKind(AssignValue(n, path), n)
    ensures n.Identifier? ==> SetComponents(n, path) == n
    ensures IsComponentKey(SetComponents(n, path)) == IsComponentKey(n)
    ensures IsLiteral(SetComponents(n, path)) == IsLiteral(n)
  {
  }

  /** The last assignment wins: the edit with `q` after the edit with `p` is the edit
      with `q` alone. So the edit is idempotent, and with `q` fixed (say `""`) two
      trees that differ only in the literals of `component` properties agree. */
  lemma {:induction false} SetComponentsOverwrite(n: Node, p: string, q: string)
    ensures SetComponents(SetComponents(n, p), q) == SetComponents(n, q)
    ensures Size(SetComponents(n, p)) == Size(n)
  {
    match n
    case ObjectProperty(k, v) =>
      SetComponentsKeepsKind(k, p);
      SetComponentsKeepsKind(v, p);
      SetComponentsOverwrite(k, p, q);
      SetComponentsOverwrite(v, p, q);
    case ArrayExpression(es) => SetComponentsOverwriteAll(es, p, q);
    case ObjectExpression(ps) => SetComponentsOverwriteAll(ps, p, q);
    case ExportNamedDeclaration(d) => if d.Some? { SetComponentsOverwrite(d.value, p, q); }
    case NamedDeclaration(_, cs) => SetComponentsOverwriteAll(cs, p, q);
    case Other(cs) => SetComponentsOverwriteAll(cs, p, q);
    case _ =>
  }

  lemma {:induction false} SetComponentsOverwriteAll(ns: seq<Node>, p: string, q: string)
    ensures SetComponentsAll(SetComponentsAll(ns, p), q) == SetComponentsAll(ns, q)
    ensures SizeAll(SetComponentsAll(ns, p)) == SizeAll(ns)
  {
    forall i | 0 <= i < |ns|
      ensures SetComponentsAll(SetComponentsAll(ns, p), q)[i] == SetComponentsAll(ns, q)[i]
    {
      SetComponentsOverwrite(ns[i], p, q);
    }
    if ns != [] {
      SetComponentsOverwrite(ns[0], p, q);
      SetComponentsOverwriteAll(ns[1..], p, q);
      assert SetComponentsAll(ns, p)[1..] == SetComponentsAll(ns[1..], p);
    }
  }

  /** After the edit every `component` literal (string or boolean) holds what assigning
      the new path gives it. */
  lemma {:induction false} SetComponentsEstablishes(n: Node, path: string)
    ensures ComponentsAre(SetComponents(n, path), path)
  {
    match n
    case ObjectProperty(k, v) =>
      SetComponentsKeepsKind(k, path);
      SetComponentsKeepsKind(v, path);
      SetComponentsEstablishes(k, path);
      SetComponentsEstablishes(v, path);
    case ArrayExpression(es) => SetComponentsEstablishesAll(es, path);
    case ObjectExpression(ps) => SetComponentsEstablishesAll(ps, path);
    case ExportNamedDeclaration(d) => if d.Some? { SetComponentsEstablishes(d.value, path); }
    case NamedDeclaration(_, cs) => SetComponentsEstablishesAll(cs, path);
    case Other(cs) => SetComponentsEstablishesAll(cs, path);
    case _ =>
  }

  lemma {:induction false} SetComponentsEstablishesAll(ns: seq<Node>, path: string)
    ensures AllComponentsAre(SetComponentsAll(ns, path), path)
  {
    forall i | 0 <= i < |ns| ensures ComponentsAre(SetComponentsAll(ns, path)[i], path) {
      SetComponentsEstablishes(ns[i], path);
    }
  }

  /** A tree whose `component` literals (string or boolean) already hold what assigning
      the path gives them is left as it is. */
  lemma {:induction false} SetComponentsFixes(n: Node, path: string)
    requires ComponentsAre(n, path)
    ensures SetComponents(n, path) == n
  {
    match n
    case ObjectProperty(k, v) =>
      SetComponentsFixes(k, path);
      SetComponentsFixes(v, path);
    case ArrayExpression(es) => SetComponentsFixesAll(es, path);
    case ObjectExpression(ps) => SetComponentsFixesAll(ps, path);
    case ExportNamedDeclaration(d) => if d.Some? { SetComponentsFixes(d.value, path); }
    case NamedDeclaration(_, cs) => SetComponentsFixesAll(cs, path);
    case Other(cs) => SetComponentsFixesAll(cs, path);
    case _ =>
  }

  lemma {:induction false} SetComponentsFixesAll(ns: seq<Node>, path: string)
    requires AllComponentsAre(ns, path)
    ensures SetComponentsAll(ns, path) == ns
  {
    forall i | 0 <= i < |ns| ensures SetComponentsAll(ns, path)[i] == ns[i] {
      SetComponentsFixes(ns[i], path);
    }
  }

  /** The edit changes a tree exactly when some `component` literal (string or boolean)
      differs from what assigning the path gives it. */
  lemma SetComponentsUnchangedIff(n: Node, path: string)
    ensures SetComponents(n, path) == n <==> ComponentsAre(n, path)
  {
    SetComponentsEstablishes(n, path);
    if ComponentsAre(n, path) {
      SetComponentsFixes(n, path);
    }
  }

  /** The edit is characterised by its two halves: a tree `t` is the edit of `n`
      exactly when its `component` literals (string or boolean) hold what assigning the
      path gives them and it agrees with `n` once those literals are blanked. */
  lemma SetComponentsCharacterised(n: Node, t: Node, path: string)
    ensures t == SetComponents(n, path)
        <==> ComponentsAre(t, path) && SetComponents(t, "") == SetComponents(n, "")
  {
    SetComponentsEstablishes(n, path);
    SetComponentsOverwrite(n, path, "");
    if ComponentsAre(t, path) && SetComponents(t, "") == SetComponents(n, "") {
      SetComponentsFixes(t, path);
      SetComponentsOverwrite(t, "", path);
      SetComponentsOverwrite(n, "", path);
    }
  }

  /** Running `readRoute` twice gives the same file as running it once. */
  lemma ReplaceComponentPathIdempotent(p: Program)
    ensures ReplaceComponentPath(ReplaceComponentPath(p)) == ReplaceComponentPath(p)
    ensures SizeAll(ReplaceComponentPath(p).body) == SizeAll(p.body)
  {
    SetComponentsOverwriteAll(p.body, AdjustTheRecordPath, AdjustTheRecordPath);
  }

  /** `component: false` comes out as `component: true`: the boolean literal now holds
      a non-empty string, which the printer writes by its truthiness. */
  lemma BooleanComponentPrintedTrue()
    ensures ReplaceComponentPath(Program([ObjectExpression([ObjectProperty(Identifier("component"), BooleanLiteral(false))])]))
         == Program([ObjectExpression([ObjectProperty(Identifier("component"), BooleanLiteral(true))])])
  {
    var prop := ObjectProperty(Identifier("component"), BooleanLiteral(false));
    assert SetComponents(prop, AdjustTheRecordPath) == ObjectProperty(Identifier("component"), BooleanLiteral(true));
    assert SetComponentsAll([prop], AdjustTheRecordPath) == [ObjectProperty(Identifier("component"), BooleanLiteral(true))];
  }

  /** A key written as a string literal is not an identifier, so `'component': 'x'` stays. */
  lemma StringKeyKept(v: string, path: string)
    ensures SetComponents(ObjectProperty(StringLiteral("component"), StringLiteral(v)), path)
         == ObjectProperty(StringLiteral("component"), StringLiteral(v))
  {
  }
}
