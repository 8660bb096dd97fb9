/** NewModelsGenerator: the `models/connect.d.ts` edit `readModel` (register the new
    page's state type and store) and the names `makeModelFile` derives. */
module NewModelsGenerator {
  import opened Ast
  import Naming
  import NewTypeGenerator

  /** The import source whose specifier list gets the new state type. */
  const TypeModule: string := "../type"

  /** The exported interface that gets the new store member. */
  const ConnectStateId: string := "ConnectState"

  /** `<Cap(name)>State`: the state type of the page. */
  function StateTypeName(name: string): string {
    Naming.Capitalize(name) + "State"
  }

  /** `<name>Store`: the store key, built from the name as typed. */
  function StoreKey(name: string): string {
    name + "Store"
  }

  /** `import { <Cap>State }`: imported and local name are the same identifier. */
  function NewSpecifier(name: string): Specifier {
    ImportSpecifier(StateTypeName(name), StateTypeName(name))
  }

  /** `<name>Store: <Cap>State`. */
  function NewMember(name: string): Member {
    PropertySignature(StoreKey(name), StateTypeName(name))
  }

  /** The TypeErrors the visitor can throw: its test `path.node.declaration.id.name`
      (the first two), or the push into `declaration.body.body` (the third). */
  datatype BindError =
    | DeclarationIsNull     // `export { a }`: the declaration is null
    | DeclarationHasNoId    // `export const x = 1`: the declaration has no `id`
    | DeclarationHasNoBody  // a non-interface `ConnectState`: it has no `body.body` to push to

  /** The `enter` visitor of `readModel` run over a whole subtree. Every import from
      `../type` gets the new specifier; every exported interface `ConnectState` gets
      the new member; every other export declaration is walked through, and one whose
      declaration cannot be read aborts the whole edit with that error. Babel also
      visits the appended specifier and member, which the visitor never matches. */
  function Bind(n: Node, name: string): Result<Node, BindError> {
    match n
    case ImportDeclaration(ss, src) =>
      Ok(ImportDeclaration(if src == TypeModule then ss + [NewSpecifier(name)] else ss, src))
    case ExportNamedDeclaration(d) =>
      if d.None? then Err(DeclarationIsNull)
      else (
        match d.value
        case InterfaceDeclaration(id, body) =>
          Ok(ExportNamedDeclaration(Some(InterfaceDeclaration(id,
            if id == ConnectStateId then body + [NewMember(name)] else body))))
        case NamedDeclaration(id, cs) =>
          if id == ConnectStateId then Err(DeclarationHasNoBody)
          else (
            match BindAll(cs, name)
            case Err(e) => Err(e)
            case Ok(cs') => Ok(ExportNamedDeclaration(Some(NamedDeclaration(id, cs'))))
          )
        case _ => Err(DeclarationHasNoId)
      )
    case ArrayExpression(es) =>
      (match BindAll(es, name) case Err(e) => Err(e) case Ok(es') => Ok(ArrayExpression(es')))
    case ObjectExpression(ps) =>
      (match BindAll(ps, name) case Err(e) => Err(e) case Ok(ps') => Ok(ObjectExpression(ps')))
    case ObjectProperty(k, v) =>
      (match Bind(k, name)
       case Err(e) => Err(e)
       case Ok(k') => (match Bind(v, name) case Err(e) => Err(e) case Ok(v') => Ok(ObjectProperty(k', v'))))
    case NamedDeclaration(id, cs) =>
      (match BindAll(cs, name) case Err(e) => Err(e) case Ok(cs') => Ok(NamedDeclaration(id, cs')))
    case Other(cs) =>
      (match BindAll(cs, name) case Err(e) => Err(e) case Ok(cs') => Ok(Other(cs')))
    case _ => Ok(n)
  }

  /** The nodes of a list in order; the first error met stops the walk. */
  function BindAll(ns: seq<Node>, name: string): (r: Result<seq<Node>, BindError>)
    ensures r.Ok? ==> |r.value| == |ns|
  {
    if ns == [] then Ok([])
    else match Bind(ns[0], name)
      case Err(e) => Err(e)
      case Ok(h) => match BindAll(ns[1..], name)
        case Err(e) => Err(e)
        case Ok(t) => Ok([h] + t)
  }

  /** `readModel` on a parsed `models/connect.d.ts`. */
  function AddModelBinding(p: Program, name: string): Result<Program, BindError> {
    match BindAll(p.body, name)
    case Err(e) => Err(e)
    case Ok(body) => Ok(Program(body))
  }

  /** Walking a list in two parts: the first error in the first part wins, then the
      first error in the second; otherwise the results are concatenated. */
  lemma {:induction false} BindAllAppend(a: seq<Node>, b: seq<Node>, name: string)
    ensures BindAll(a + b, name) ==
      match BindAll(a, name)
      case Err(e) => Err(e)
      case Ok(ta) => (match BindAll(b, name) case Err(e) => Err(e) case Ok(tb) => Ok(ta + tb))
  {
    if a == [] {
      assert a + b == b;
      if BindAll(b, name).Ok? { assert [] + BindAll(b, name).value == BindAll(b, name).value; }
    } else {
      assert (a + b)[0] == a[0] && (a + b)[1..] == a[1..] + b;
      BindAllAppend(a[1..], b, name);
      if BindAll(a, name).Ok? && BindAll(b, name).Ok? {
        var h := Bind(a[0], name).value;
        var ta := BindAll(a[1..], name).value;
        var tb := BindAll(b, name).value;
        assert [h] + ta + tb == [h] + (ta + tb);
      }
    }
  }

  /** `readModel` on the parsed `models/connect.d.ts`: the traversal walks the
      top-level statements in order, updating each one in place, and the first
      `TypeError` escapes the traversal. The statements before the failing one are
      then already edited, the rest are not, and the tree is not printed. */
  method ReadModel(tree: ProgramNode, name: string) returns (err: Option<BindError>)
    modifies tree
    ensures err.None? <==> AddModelBinding(Program(old(tree.body)), name).Ok?
    ensures err.None? ==> AddModelBinding(Program(old(tree.body)), name) == Ok(Program(tree.body))
    ensures err.Some? ==> AddModelBinding(Program(old(tree.body)), name) == Err(err.value)
    ensures |tree.body| == |old(tree.body)|
    ensures err.Some? ==>
      exists k :: 0 <= k < |tree.body|
        && BindAll(old(tree.body)[..k], name) == Ok(tree.body[..k])
        && Bind(old(tree.body)[k], name) == Err(err.value)
        && tree.body[k..] == old(tree.body)[k..]
  {
    ghost var body0 := tree.body;
    var i := 0;
    while i < |tree.body|
      invariant 0 <= i <= |tree.body| == |body0|
      invariant BindAll(body0[..i], name) == Ok(tree.body[..i])
      invariant tree.body[i..] == body0[i..]
    {
      var r := Bind(tree.body[i], name);
      assert body0[i] == tree.body[i] by { assert tree.body[i..][0] == body0[i..][0]; }
      assert body0[..i + 1] == body0[..i] + [body0[i]];
      assert [body0[i]][1..] == [];
      BindAllAppend(body0[..i], [body0[i]], name);
      if r.Err? {
        assert body0 == body0[..i] + body0[i..];
        assert body0[i..][0] == body0[i];
        BindAllAppend(body0[..i], body0[i..], name);
        return Some(r.error);
      }
      assert [r.value] + [] == [r.value];
      assert BindAll([body0[i]], name) == Ok([r.value]);
      assert BindAll(body0[..i + 1], name) == Ok(tree.body[..i] + [r.value]);
      ghost var before := tree.body;
      tree.body := tree.body[i := r.value];
      assert tree.body[..i + 1] == before[..i] + [r.value];
      assert tree.body[i + 1..] == before[i + 1..];
      i := i + 1;
    }
    assert body0[..i] == body0 && tree.body[..i] == tree.body;
    return None;
  }

  /** The visitor handles the declaration of an export without a TypeError: there is a
      declaration with an `id`, so the test reads its name, and a declaration named
      `ConnectState` is an interface, whose body takes the push. */
  predicate ExportReadable(d: Option<Node>) {
    d.Some? && (d.value.InterfaceDeclaration? || (d.value.NamedDeclaration? && d.value.id != ConnectStateId))
  }

  /** Every export declaration in the subtree is handled without a TypeError. */
  predicate Readable(n: Node) {
    match n
    case ExportNamedDeclaration(d) => ExportReadable(d) && Readable(d.value)
    case ArrayExpression(es) => AllReadable(es)
    case ObjectExpression(ps) => AllReadable(ps)
    case ObjectProperty(k, v) => Readable(k) && Readable(v)
    case NamedDeclaration(_, cs) => AllReadable(cs)
    case Other(cs) => AllReadable(cs)
    case _ => true
  }

  predicate AllReadable(ns: seq<Node>) {
    forall i :: 0 <= i < |ns| ==> Readable(ns[i])
  }

  /** An export of the interface the member goes to. */
  predicate IsConnectStateExport(d: Option<Node>) {
    d.Some? && d.value.InterfaceDeclaration? && d.value.id == ConnectStateId
  }

  /** Number of places the edit appends to: imports from `../type` and exported
      `ConnectState` interfaces. */
  function Targets(n: Node): nat {
    match n
    case ImportDeclaration(_, src) => if src == TypeModule then 1 else 0
    case ExportNamedDeclaration(d) =>
      if d.None? then 0 else (if IsConnectStateExport(d) then 1 else 0) + Targets(d.value)
    case ArrayExpression(es) => TargetsAll(es)
    case ObjectExpression(ps) => TargetsAll(ps)
    case ObjectProperty(k, v) => Targets(k) + Targets(v)
    case NamedDeclaration(_, cs) => TargetsAll(cs)
    case Other(cs) => TargetsAll(cs)
    case _ => 0
  }

  function TargetsAll(ns: seq<Node>): nat {
    if ns == [] then 0 else Targets(ns[0]) + TargetsAll(ns[1..])
  }

  /** Drops the last specifier of every import from `../type` and the last member of
      every exported `ConnectState` interface: the inverse of a successful `Bind`. */
  function Unbind(n: Node): Node {
    match n
    case ImportDeclaration(ss, src) => ImportDeclaration(if src == TypeModule then DropLast(ss) else ss, src)
    case ExportNamedDeclaration(d) =>
      if d.None? then n
      else if IsConnectStateExport(d) then ExportNamedDeclaration(Some(InterfaceDeclaration(d.value.id, DropLast(d.value.body))))
      else ExportNamedDeclaration(Some(Unbind(d.value)))
    case ArrayExpression(es) => ArrayExpression(UnbindAll(es))
    case ObjectExpression(ps) => ObjectExpression(UnbindAll(ps))
    case ObjectProperty(k, v) => ObjectProperty(Unbind(k), Unbind(v))
    case NamedDeclaration(id, cs) => NamedDeclaration(id, UnbindAll(cs))
    case Other(cs) => Other(UnbindAll(cs))
    case _ => n
  }

  function UnbindAll(ns: seq<Node>): (r: seq<Node>)
    ensures |r| == |ns|
  {
    seq(|ns|, i requires 0 <= i < |ns| => Unbind(ns[i]))
  }

  /** Every import from `../type` ends with the specifier of `name`, and every exported
      `ConnectState` interface ends with the member of `name`. */
  predicate Bound(n: Node, name: string) {
    match n
    case ImportDeclaration(ss, src) => src == TypeModule ==> |ss| > 0 && Last(ss) == NewSpecifier(name)
    case ExportNamedDeclaration(d) =>
      if d.None? then true
      else if IsConnectStateExport(d) then |d.value.body| > 0 && Last(d.value.body) == NewMember(name)
      else Bound(d.value, name)
    case ArrayExpression(es) => AllBound(es, name)
    case ObjectExpression(ps) => AllBound(ps, name)
    case ObjectProperty(k, v) => Bound(k, name) && Bound(v, name)
    case NamedDeclaration(_, cs) => AllBound(cs, name)
    case Other(cs) => AllBound(cs, name)
    case _ => true
  }

  predicate AllBound(ns: seq<Node>, name: string) {
    forall i :: 0 <= i < |ns| ==> Bound(ns[i], name)
  }

  /** The edit fails exactly when some export declaration in the file cannot be read:
      `export { a }`, `export const x = 1`, or a `ConnectState` that is not an interface. */
  lemma {:induction false} BindFailsIff(n: Node, name: string)
    ensures Bind(n, name).Ok? <==> Readable(n)
  {
    match n
    case ExportNamedDeclaration(d) =>
      if d.Some? && d.value.NamedDeclaration? { BindFailsIffAll(d.value.children, name); }
    case ArrayExpression(es) => BindFailsIffAll(es, name);
    case ObjectExpression(ps) => BindFailsIffAll(ps, name);
    case ObjectProperty(k, v) => BindFailsIff(k, name); BindFailsIff(v, name);
    case NamedDeclaration(_, cs) => BindFailsIffAll(cs, name);
    case Other(cs) => BindFailsIffAll(cs, name);
    case _ =>
  }

  /** A list fails exactly when one of its nodes is not readable, and then with the
      error of the first such node: the walk stops there. */
  lemma {:induction false} BindFailsIffAll(ns: seq<Node>, name: string)
    ensures BindAll(ns, name).Ok? <==> AllReadable(ns)
    ensures !AllReadable(ns) ==>
              exists k :: 0 <= k < |ns| && AllReadable(ns[..k]) && !Readable(ns[k])
                          && Bind(ns[k], name).Err? && BindAll(ns, name) == Err(Bind(ns[k], name).error)
  {
    if ns != [] {
      BindFailsIff(ns[0], name);
      BindFailsIffAll(ns[1..], name);
      assert AllReadable(ns) <==> Readable(ns[0]) && AllReadable(ns[1..]) by {
        if Readable(ns[0]) && AllReadable(ns[1..]) {
          forall i | 0 <= i < |ns| ensures Readable(ns[i]) {
            if i > 0 { assert ns[i] == ns[1..][i - 1]; }
          }
        }
        if AllReadable(ns) {
          forall i | 0 <= i < |ns[1..]| ensures Readable(ns[1..][i]) {
            assert ns[1..][i] == ns[i + 1];
          }
        }
      }
      if !Readable(ns[0]) {
        assert ns[..0] == [];
        assert AllReadable(ns[..0]) && !Readable(ns[0]) && Bind(ns[0], name).Err?
               && BindAll(ns, name) == Err(Bind(ns[0], name).error);
      } else if !AllReadable(ns[1..]) {
        var k :| 0 <= k < |ns[1..]| && AllReadable(ns[1..][..k]) && !Readable(ns[1..][k])
                 && Bind(ns[1..][k], name).Err? && BindAll(ns[1..], name) == Err(Bind(ns[1..][k], name).error);
        assert ns[1..][k] == ns[k + 1];
        var prefix := ns[..k + 1];
        assert AllReadable(prefix) by {
          forall i | 0 <= i < |prefix| ensures Readable(prefix[i]) {
            if i > 0 { assert prefix[i] == ns[1..][..k][i - 1]; }
          }
        }
        assert Bind(ns[k + 1], name).Err? && BindAll(ns, name) == Err(Bind(ns[k + 1], name).error);
      }
    }
  }

  /** What a successful edit did: removing the last specifier and member at every
      target gives back the input (no existing specifier or member is lost or moved,
      and no other node changes); every target now ends with the new specifier or
      member; the result is still readable, has the same targets, and has exactly
      one more node per target. */
  lemma {:induction false} BindSucceeds(n: Node, name: string, t: Node)
    requires Bind(n, name) == Ok(t)
    ensures Unbind(t) == n
    ensures Bound(t, name)
    ensures Readable(t)
    ensures Targets(t) == Targets(n)
    ensures Size(t) == Size(n) + Targets(n)
  {
    match n
    case ImportDeclaration(ss, src) =>
      if src == TypeModule {
        assert t == ImportDeclaration(ss + [NewSpecifier(name)], src);
        assert DropLast(ss + [NewSpecifier(name)]) == ss;
      }
    case ExportNamedDeclaration(d) =>
      match d.value {
        case InterfaceDeclaration(id, body) =>
          if id == ConnectStateId {
            assert t == ExportNamedDeclaration(Some(InterfaceDeclaration(id, body + [NewMember(name)])));
            assert DropLast(body + [NewMember(name)]) == body;
          } else {
            assert t == n;
          }
        case NamedDeclaration(id, cs) =>
          var cs' := BindAll(cs, name).value;
          assert t == ExportNamedDeclaration(Some(NamedDeclaration(id, cs')));
          BindAllSucceeds(cs, name, cs');
      }
    case ArrayExpression(es) =>
      var es' := BindAll(es, name).value;
      assert t == ArrayExpression(es');
      BindAllSucceeds(es, name, es');
    case ObjectExpression(ps) =>
      var ps' := BindAll(ps, name).value;
      assert t == ObjectExpression(ps');
      BindAllSucceeds(ps, name, ps');
    case ObjectProperty(k, v) =>
      var k', v' := Bind(k, name).value, Bind(v, name).value;
      assert t == ObjectProperty(k', v');
      BindSucceeds(k, name, k');
      BindSucceeds(v, name, v');
    case NamedDeclaration(id, cs) =>
      var cs' := BindAll(cs, name).value;
      assert t == NamedDeclaration(id, cs');
      BindAllSucceeds(cs, name, cs');
    case Other(cs) =>
      var cs' := BindAll(cs, name).value;
      assert t == Other(cs');
      BindAllSucceeds(cs, name, cs');
    case _ =>
      assert t == n;
  }

  lemma {:induction false} BindAllSucceeds(ns: seq<Node>, name: string, ts: seq<Node>)
    requires BindAll(ns, name) == Ok(ts)
    ensures UnbindAll(ts) == ns
    ensures AllBound(ts, name)
    ensures AllReadable(ts)
    ensures TargetsAll(ts) == TargetsAll(ns)
    ensures SizeAll(ts) == SizeAll(ns) + TargetsAll(ns)
  {
    if ns != [] {
      var h := Bind(ns[0], name).value;
      var t := BindAll(ns[1..], name).value;
      assert ts == [h] + t;
      BindSucceeds(ns[0], name, h);
      BindAllSucceeds(ns[1..], name, t);
      assert ts[0] == h && ts[1..] == t;
      forall i | 0 <= i < |ts|
        ensures UnbindAll(ts)[i] == ns[i] && Bound(ts[i], name) && Readable(ts[i])
      {
        if i > 0 {
          assert ts[i] == t[i - 1] && ns[i] == ns[1..][i - 1];
          assert UnbindAll(t)[i - 1] == ns[1..][i - 1];
        }
      }
    }
  }

  /** A readable file without targets is left as it is. */
  lemma {:induction false} BindNoTargets(n: Node, name: string)
    requires Readable(n) && Targets(n) == 0
    ensures Bind(n, name) == Ok(n)
  {
    match n
    case ExportNamedDeclaration(d) =>
      if d.value.NamedDeclaration? { BindNoTargetsAll(d.value.children, name); }
    case ArrayExpression(es) => BindNoTargetsAll(es, name);
    case ObjectExpression(ps) => BindNoTargetsAll(ps, name);
    case ObjectProperty(k, v) => BindNoTargets(k, name); BindNoTargets(v, name);
    case NamedDeclaration(_, cs) => BindNoTargetsAll(cs, name);
    case Other(cs) => BindNoTargetsAll(cs, name);
    case _ =>
  }

  lemma {:induction false} BindNoTargetsAll(ns: seq<Node>, name: string)
    requires AllReadable(ns) && TargetsAll(ns) == 0
    ensures BindAll(ns, name) == Ok(ns)
  {
    if ns != [] {
      assert Readable(ns[0]);
      assert AllReadable(ns[1..]) by {
        forall i | 0 <= i < |ns[1..]| ensures Readable(ns[1..][i]) { assert ns[1..][i] == ns[i + 1]; }
      }
      BindNoTargets(ns[0], name);
      BindNoTargetsAll(ns[1..], name);
      assert ns == [ns[0]] + ns[1..];
    }
  }

  /** Conversely, a readable tree whose targets all end with the new specifier and
      member is the edit of the tree with those removed; with `BindSucceeds`, the
      edit is the unique tree with that property. */
  lemma {:induction false} BindOfUnbind(t: Node, name: string)
    requires Readable(t) && Bound(t, name)
    ensures Bind(Unbind(t), name) == Ok(t)
  {
    match t
    case ImportDeclaration(ss, src) =>
      if src == TypeModule {
        assert DropLast(ss) + [NewSpecifier(name)] == ss;
      }
    case ExportNamedDeclaration(d) =>
      if IsConnectStateExport(d) {
        assert DropLast(d.value.body) + [NewMember(name)] == d.value.body;
      } else if d.value.NamedDeclaration? {
        BindOfUnbindAll(d.value.children, name);
      }
    case ArrayExpression(es) => BindOfUnbindAll(es, name);
    case ObjectExpression(ps) => BindOfUnbindAll(ps, name);
    case ObjectProperty(k, v) => BindOfUnbind(k, name); BindOfUnbind(v, name);
    case NamedDeclaration(_, cs) => BindOfUnbindAll(cs, name);
    case Other(cs) => BindOfUnbindAll(cs, name);
    case _ =>
  }

  lemma {:induction false} BindOfUnbindAll(ts: seq<Node>, name: string)
    requires AllReadable(ts) && AllBound(ts, name)
    ensures BindAll(UnbindAll(ts), name) == Ok(ts)
  {
    if ts != [] {
      var us := UnbindAll(ts);
      assert Readable(ts[0]) && Bound(ts[0], name);
      assert AllReadable(ts[1..]) && AllBound(ts[1..], name) by {
        forall i | 0 <= i < |ts[1..]| ensures Readable(ts[1..][i]) && Bound(ts[1..][i], name) {
          assert ts[1..][i] == ts[i + 1];
        }
      }
      BindOfUnbind(ts[0], name);
      BindOfUnbindAll(ts[1..], name);
      assert us[0] == Unbind(ts[0]) && us[1..] == UnbindAll(ts[1..]);
      assert ts == [ts[0]] + ts[1..];
    }
  }

  /** `readModel` on a whole file: it fails exactly when an export declaration cannot be
      read; when it succeeds, the old file is the new one with the last specifier and
      member removed at every target, and every target ends with the new ones. */
  lemma AddModelBindingSpec(p: Program, name: string)
    ensures AddModelBinding(p, name).Ok? <==> AllReadable(p.body)
    ensures AddModelBinding(p, name).Ok? ==>
      var q := AddModelBinding(p, name).value;
      UnbindAll(q.body) == p.body && AllBound(q.body, name) && AllReadable(q.body)
      && TargetsAll(q.body) == TargetsAll(p.body)
      && SizeAll(q.body) == SizeAll(p.body) + TargetsAll(p.body)
  {
    BindFailsIffAll(p.body, name);
    if BindAll(p.body, name).Ok? {
      BindAllSucceeds(p.body, name, BindAll(p.body, name).value);
    }
  }

  /** There is no duplicate check: a second run succeeds again and appends a second
      specifier and member at every target, so it changes the file unless there is no
      target at all. */
  lemma AddModelBindingTwice(p: Program, name: string)
    requires AddModelBinding(p, name).Ok?
    ensures var q := AddModelBinding(p, name).value;
      AddModelBinding(q, name).Ok?
      && (AddModelBinding(q, name).value == q <==> TargetsAll(p.body) == 0)
  {
    var q := AddModelBinding(p, name).value;
    AddModelBindingSpec(p, name);
    AddModelBindingSpec(q, name);
    if TargetsAll(p.body) == 0 {
      BindNoTargetsAll(q.body, name);
    }
  }

  /** No `../type` import and no `ConnectState` interface: the file comes back unchanged, not with an error. */
  lemma AddModelBindingWithoutTargets(p: Program, name: string)
    requires AllReadable(p.body) && TargetsAll(p.body) == 0
    ensures AddModelBinding(p, name) == Ok(p)
  {
    BindNoTargetsAll(p.body, name);
  }

  /** A typical `connect.d.ts`, and the two export forms that make the edit throw. */
  lemma AddModelBindingExamples()
    ensures AddModelBinding(Program([
              ImportDeclaration([ImportSpecifier("ListState", "ListState")], "../type"),
              ImportDeclaration([ImportSpecifier("Reducer", "Reducer")], "umi"),
              ExportNamedDeclaration(Some(InterfaceDeclaration("ConnectState", [PropertySignature("listStore", "ListState")])))]),
            "orderList")
         == Ok(Program([
              ImportDeclaration([ImportSpecifier("ListState", "ListState"), ImportSpecifier("OrderListState", "OrderListState")], "../type"),
              ImportDeclaration([ImportSpecifier("Reducer", "Reducer")], "umi"),
              ExportNamedDeclaration(Some(InterfaceDeclaration("ConnectState",
                [PropertySignature("listStore", "ListState"), PropertySignature("orderListStore", "OrderListState")])))]))
    ensures AddModelBinding(Program([ExportNamedDeclaration(None)]), "orderList") == Err(DeclarationIsNull)
    ensures AddModelBinding(Program([ExportNamedDeclaration(Some(Other([])))]), "orderList") == Err(DeclarationHasNoId)
  {
    Naming.CapitalizeExamples();
    assert StateTypeName("orderList") == "OrderListState";
    assert StoreKey("orderList") == "orderListStore";
    var n0 := ImportDeclaration([ImportSpecifier("ListState", "ListState")], "../type");
    var n1 := ImportDeclaration([ImportSpecifier("Reducer", "Reducer")], "umi");
    var n2 := ExportNamedDeclaration(Some(InterfaceDeclaration("ConnectState", [PropertySignature("listStore", "ListState")])));
    var m0 := ImportDeclaration([ImportSpecifier("ListState", "ListState"), ImportSpecifier("OrderListState", "OrderListState")], "../type");
    var m2 := ExportNamedDeclaration(Some(InterfaceDeclaration("ConnectState",
                [PropertySignature("listStore", "ListState"), PropertySignature("orderListStore", "OrderListState")])));
    assert NewSpecifier("orderList") == ImportSpecifier("OrderListState", "OrderListState");
    assert NewMember("orderList") == PropertySignature("orderListStore", "OrderListState");
    assert n0.specifiers + [NewSpecifier("orderList")] == m0.specifiers;
    assert n2.declaration.value.body + [NewMember("orderList")] == m2.declaration.value.body;
    assert Bind(n0, "orderList") == Ok(m0);
    assert Bind(n1, "orderList") == Ok(n1);
    assert Bind(n2, "orderList") == Ok(m2);
    var body := [n0, n1, n2];
    assert body[1..] == [n1, n2] && body[1..][1..] == [n2] && body[1..][1..][1..] == [];
    assert [n2][1..] == [] && [m2] + [] == [m2];
    assert BindAll([n2], "orderList") == Ok([m2]);
    assert [n1, n2][0] == n1 && [n1, n2][1..] == [n2] && [n1] + [m2] == [n1, m2];
    assert BindAll([n1, n2], "orderList") == Ok([n1, m2]);
    assert body[0] == n0 && [m0] + [n1, m2] == [m0, n1, m2];
    assert BindAll(body, "orderList") == Ok([m0, n1, m2]);
    var e1 := ExportNamedDeclaration(None);
    var e2 := ExportNamedDeclaration(Some(Other([])));
    assert [e1][1..] == [] && [e2][1..] == [];
  }

  /** The names `makeModelFile` writes into `models/<name>Store.ts`. */
  datatype ModelFile = ModelFile(
    fileName: string,      // `<name>Store.ts`
    namespace: string,     // `namespace: '<name>Store'`, in the interface and in the object
    typeName: string,      // `interface <Cap>Type`
    objectName: string,    // `const <Cap>: <Cap>Type`, the default export
    stateImport: string)   // `import { <Cap>State } from '../type'`

  function ModelFileOf(name: string): (m: ModelFile)
    ensures m.namespace == StoreKey(name) && m.objectName == Naming.Capitalize(name)
    ensures m.fileName == m.namespace + ".ts"
    ensures m.typeName == m.objectName + "Type" && m.stateImport == m.objectName + "State"
  {
    var fileName := Naming.Capitalize(name);
    ModelFile(name + "Store.ts", name + "Store", fileName + "Type", fileName, fileName + "State")
  }

  /** The names agree across the generated files: the model's namespace is the store
      key added to `ConnectState`, the state type it imports is the specifier added to
      the `../type` import, and that is the interface the type file declares. */
  lemma ModelNamesAgree(name: string)
    ensures ModelFileOf(name).namespace == StoreKey(name) == NewMember(name).key
    ensures ModelFileOf(name).stateImport == NewSpecifier(name).imported == NewSpecifier(name).local
         == NewMember(name).typeName
    ensures ModelFileOf(name).stateImport == NewTypeGenerator.TypeFileOf(name).interfaceName
  {
  }
}
