/** NewPageGenerator: the route-table edit `readRoute` and the template names of `ejsModel`. */
module NewPageGenerator {
  import opened Ast
  import Naming
  import NewTypeGenerator

  /** The constructor arguments the route edit reads: the page directory name, the
      project chosen from the list, and the route name typed at the prompt. */
  datatype PageRequest = PageRequest(name: string, chooseProject: string, inputRouteName: string)

  /** The parameters `ejsModel` hands to the page template. */
  datatype TemplateParams = TemplateParams(name: string, fileName: string)

  function TemplateParamsOf(req: PageRequest): (t: TemplateParams)
    ensures t.name == req.name
    ensures t.fileName == Naming.Capitalize(req.name)
    ensures |t.fileName| == |req.name|
    ensures Naming.Capitalize(t.fileName) == t.fileName
  {
    Naming.CapitalizeIdempotent(req.name);
    TemplateParams(req.name, Naming.Capitalize(req.name))
  }

  /** The template's `fileName` is the directory the type generator writes and the
      state type it declares is `fileName + "State"`; it differs from the directory
      name of the page itself exactly when the name starts with `a`-`z`. */
  lemma TemplateParamsAgree(req: PageRequest)
    ensures TemplateParamsOf(req).fileName == NewTypeGenerator.TypeFileOf(req.name).directory
    ensures TemplateParamsOf(req).fileName + "State" == NewTypeGenerator.TypeFileOf(req.name).interfaceName
    ensures TemplateParamsOf(req).fileName != TemplateParamsOf(req).name
        <==> |req.name| > 0 && Naming.IsAsciiLower(req.name[0])
  {
    Naming.CapitalizeChangesIff(req.name);
  }

  /** `key: value` with an identifier key. */
  function Property(key: string, value: Node): Node {
    ObjectProperty(Identifier(key), value)
  }

  const RouteSize: nat := 19

  const RouteKeys: seq<string> := ["path", "exact", "name", "component", "layout"]

  /** The route object built each time an array expression is entered. */
  function RouteObject(req: PageRequest): Node {
    ObjectExpression([
      Property("path", StringLiteral("/" + req.name)),
      Property("exact", BooleanLiteral(true)),
      Property("name", StringLiteral(req.inputRouteName)),
      Property("component", StringLiteral("@/views/pages/" + req.chooseProject + "/" + req.name)),
      Property("layout", ObjectExpression([Property("hideNav", BooleanLiteral(true))]))
    ])
  }

  /** The identifier keys of a list of properties, in order. */
  function KeysOf(props: seq<Node>): seq<string> {
    if props == [] then []
    else if props[0].ObjectProperty? && props[0].key.Identifier?
    then [props[0].key.name] + KeysOf(props[1..])
    else KeysOf(props[1..])
  }

  /** The value of the first property with identifier key `key`. */
  function Lookup(props: seq<Node>, key: string): Option<Node> {
    if props == [] then None
    else if props[0].ObjectProperty? && props[0].key == Identifier(key) then Some(props[0].value)
    else Lookup(props[1..], key)
  }

  /** The route object has the five keys in order and the values built from the request. */
  lemma RouteObjectFields(req: PageRequest)
    ensures RouteObject(req).ObjectExpression?
    ensures KeysOf(RouteObject(req).properties) == RouteKeys
    ensures Lookup(RouteObject(req).properties, "path") == Some(StringLiteral("/" + req.name))
    ensures Lookup(RouteObject(req).properties, "exact") == Some(BooleanLiteral(true))
    ensures Lookup(RouteObject(req).properties, "name") == Some(StringLiteral(req.inputRouteName))
    ensures Lookup(RouteObject(req).properties, "component")
         == Some(StringLiteral("@/views/pages/" + req.chooseProject + "/" + req.name))
    ensures Lookup(RouteObject(req).properties, "layout")
         == Some(ObjectExpression([Property("hideNav", BooleanLiteral(true))]))
  {
    var ps := RouteObject(req).properties;
    var ps1, ps2, ps3, ps4 := ps[1..], ps[2..], ps[3..], ps[4..];
    assert ps4[1..] == [];
    assert ps3[1..] == ps4 && ps2[1..] == ps3 && ps1[1..] == ps2 && ps[1..] == ps1;
    assert KeysOf(ps4) == ["layout"];
    assert KeysOf(ps3) == ["component", "layout"];
    assert KeysOf(ps2) == ["name", "component", "layout"];
    assert KeysOf(ps1) == ["exact", "name", "component", "layout"];
    assert Lookup(ps, "name") == Lookup(ps2, "name");
    assert Lookup(ps, "component") == Lookup(ps1, "component") == Lookup(ps2, "component")
        == Lookup(ps3, "component");
    assert Lookup(ps, "layout") == Lookup(ps1, "layout") == Lookup(ps2, "layout")
        == Lookup(ps3, "layout") == Lookup(ps4, "layout");
  }

  /** The `enter` visitor of `readRoute` run over a whole subtree: every array
      expression gets the route object appended to its elements. Babel goes on to
      visit the appended object as well; `RouteObjectUntouched` shows that doing so
      changes nothing. */
  function AddRoute(n: Node, req: PageRequest): Node {
    match n
    case ArrayExpression(es) => ArrayExpression(AddRouteAll(es, req) + [RouteObject(req)])
    case ObjectExpression(ps) => ObjectExpression(AddRouteAll(ps, req))
    case ObjectProperty(k, v) => ObjectProperty(AddRoute(k, req), AddRoute(v, req))
    case ExportNamedDeclaration(d) =>
      ExportNamedDeclaration(if d.Some? then Some(AddRoute(d.value, req)) else None)
    case NamedDeclaration(id, cs) => NamedDeclaration(id, AddRouteAll(cs, req))
    case Other(cs) => Other(AddRouteAll(cs, req))
    case _ => n
  }

  function AddRouteAll(ns: seq<Node>, req: PageRequest): (r: seq<Node>)
    ensures |r| == |ns|
  {
    seq(|ns|, i requires 0 <= i < |ns| => AddRoute(ns[i], req))
  }

  /** `readRoute` on a parsed route file. */
  function AddRouteEntry(p: Program, req: PageRequest): Program {
    Program(AddRouteAll(p.body, req))
  }

  /** `readRoute` on the parsed route file: the traversal walks the top-level
      statements in order and updates each one in place, every array in it gaining
      the route object. */
  method ReadRoute(tree: ProgramNode, req: PageRequest)
    modifies tree
    ensures Program(tree.body) == AddRouteEntry(Program(old(tree.body)), req)
  {
    var i := 0;
    while i < |tree.body|
      invariant 0 <= i <= |tree.body| == |old(tree.body)|
      invariant forall j :: 0 <= j < i ==> tree.body[j] == AddRoute(old(tree.body)[j], req)
      invariant forall j :: i <= j < |tree.body| ==> tree.body[j] == old(tree.body)[j]
    {
      tree.body := tree.body[i := AddRoute(tree.body[i], req)];
      i := i + 1;
    }
    assert tree.body == AddRouteAll(old(tree.body), req);
  }

  /** Number of array expressions in a subtree. */
  function ArrayCount(n: Node): nat {
    match n
    case ArrayExpression(es) => 1 + ArrayCountAll(es)
    case ObjectExpression(ps) => ArrayCountAll(ps)
    case ObjectProperty(k, v) => ArrayCount(k) + ArrayCount(v)
    case ExportNamedDeclaration(d) => if d.Some? then ArrayCount(d.value) else 0
    case NamedDeclaration(_, cs) => ArrayCountAll(cs)
    case Other(cs) => ArrayCountAll(cs)
    case _ => 0
  }

  function ArrayCountAll(ns: seq<Node>): nat {
    if ns == [] then 0 else ArrayCount(ns[0]) + ArrayCountAll(ns[1..])
  }

  /** Drops the last element of every array expression: the inverse of `AddRoute`. */
  function Unroute(n: Node): Node {
    match n
    case ArrayExpression(es) => ArrayExpression(DropLast(UnrouteAll(es)))
    case ObjectExpression(ps) => ObjectExpression(UnrouteAll(ps))
    case ObjectProperty(k, v) => ObjectProperty(Unroute(k), Unroute(v))
    case ExportNamedDeclaration(d) =>
      ExportNamedDeclaration(if d.Some? then Some(Unroute(d.value)) else None)
    case NamedDeclaration(id, cs) => NamedDeclaration(id, UnrouteAll(cs))
    case Other(cs) => Other(UnrouteAll(cs))
    case _ => n
  }

  function UnrouteAll(ns: seq<Node>): (r: seq<Node>)
    ensures |r| == |ns|
  {
    seq(|ns|, i requires 0 <= i < |ns| => Unroute(ns[i]))
  }

  /** Every array expression in the subtree ends with the route object of `req`. */
  predicate RouteTerminated(n: Node, req: PageRequest) {
    match n
    case ArrayExpression(es) => |es| > 0 && Last(es) == RouteObject(req) && AllRouteTerminated(es, req)
    case ObjectExpression(ps) => AllRouteTerminated(ps, req)
    case ObjectProperty(k, v) => RouteTerminated(k, req) && RouteTerminated(v, req)
    case ExportNamedDeclaration(d) => d.Some? ==> RouteTerminated(d.value, req)
    case NamedDeclaration(_, cs) => AllRouteTerminated(cs, req)
    case Other(cs) => AllRouteTerminated(cs, req)
    case _ => true
  }

  predicate AllRouteTerminated(ns: seq<Node>, req: PageRequest) {
    forall i :: 0 <= i < |ns| ==> RouteTerminated(ns[i], req)
  }

  /** A subtree without arrays is left as it is. */
  lemma {:induction false} NoArraysUnchanged(n: Node, req: PageRequest)
    requires ArrayCount(n) == 0
    ensures AddRoute(n, req) == n
  {
    match n
    case ArrayExpression(es) =>
    case ObjectExpression(ps) => NoArraysUnchangedAll(ps, req);
    case ObjectProperty(k, v) => NoArraysUnchanged(k, req); NoArraysUnchanged(v, req);
    case ExportNamedDeclaration(d) => if d.Some? { NoArraysUnchanged(d.value, req); }
    case NamedDeclaration(_, cs) => NoArraysUnchangedAll(cs, req);
    case Other(cs) => NoArraysUnchangedAll(cs, req);
    case _ =>
  }

  lemma {:induction false} NoArraysUnchangedAll(ns: seq<Node>, req: PageRequest)
    requires ArrayCountAll(ns) == 0
    ensures AddRouteAll(ns, req) == ns
  {
    if ns != [] {
      NoArraysUnchanged(ns[0], req);
      NoArraysUnchangedAll(ns[1..], req);
      assert AddRouteAll(ns, req)[1..] == AddRouteAll(ns[1..], req);
      assert AddRouteAll(ns, req) == [AddRoute(ns[0], req)] + AddRouteAll(ns[1..], req);
      assert ns == [ns[0]] + ns[1..];
    }
  }

  /** The appended route object holds no array, so Babel's visit of it adds nothing,
      and it trivially satisfies `RouteTerminated`. */
  lemma RouteObjectUntouched(req: PageRequest)
    ensures ArrayCount(RouteObject(req)) == 0
    ensures AddRoute(RouteObject(req), req) == RouteObject(req)
    ensures RouteTerminated(RouteObject(req), req)
  {
    var r := RouteObject(req);
    var ps := r.properties;
    var layout := ObjectExpression([Property("hideNav", BooleanLiteral(true))]);
    assert ArrayCountAll(layout.properties) == 0 by {
      assert layout.properties[1..] == [];
    }
    var ps1, ps2, ps3, ps4 := ps[1..], ps[2..], ps[3..], ps[4..];
    assert ps4[1..] == [];
    assert ps3[1..] == ps4 && ps2[1..] == ps3 && ps1[1..] == ps2 && ps[1..] == ps1;
    assert ps[0] == Property("path", StringLiteral("/" + req.name));
    assert ArrayCount(ps[0]) == 0;
    assert ps[1] == Property("exact", BooleanLiteral(true));
    assert ArrayCount(ps[1]) == 0;
    assert ps[2] == Property("name", StringLiteral(req.inputRouteName));
    assert ArrayCount(ps[2]) == 0;
    assert ps[3] == Property("component", StringLiteral("@/views/pages/" + req.chooseProject + "/" + req.name));
    assert ArrayCount(ps[3]) == 0;
    assert ps[4] == Property("layout", layout);
    assert ArrayCount(ps[4]) == 0;
    assert ArrayCountAll(ps4) == 0;
    assert ArrayCountAll(ps3) == 0;
    assert ArrayCountAll(ps2) == 0;
    assert ArrayCountAll(ps1) == 0;
    assert ArrayCountAll(ps) == 0;
    NoArraysUnchanged(r, req);
    assert forall i :: 0 <= i < |layout.properties| ==> RouteTerminated(layout.properties[i], req);
    assert RouteTerminated(layout, req);
    assert RouteTerminated(ps[4], req);
    assert forall i :: 0 <= i < |ps| ==> RouteTerminated(ps[i], req);
  }

  /** The route object always has 19 nodes, whatever strings it carries. */
  lemma RouteObjectSize(req: PageRequest)
    ensures Size(RouteObject(req)) == RouteSize
  {
    var ps := RouteObject(req).properties;
    var layout := ObjectExpression([Property("hideNav", BooleanLiteral(true))]);
    assert SizeAll(layout.properties) == 3 by {
      assert layout.properties[1..] == [];
    }
    var ps1, ps2, ps3, ps4 := ps[1..], ps[2..], ps[3..], ps[4..];
    assert ps4[1..] == [];
    assert ps3[1..] == ps4 && ps2[1..] == ps3 && ps1[1..] == ps2 && ps[1..] == ps1;
    assert Size(ps[0]) == Size(ps[1]) == Size(ps[2]) == Size(ps[3]) == 3;
    assert Size(ps[4]) == 6;
    assert SizeAll(ps4) == 6;
    assert SizeAll(ps3) == 9;
    assert SizeAll(ps2) == 12;
    assert SizeAll(ps1) == 15;
    assert SizeAll(ps) == 18;
  }

  /** Removing the last element of every array undoes the edit: every existing
      element is kept, in order, and nothing else in the tree changes. */
  lemma {:induction false} AddRouteRoundTrip(n: Node, req: PageRequest)
    ensures Unroute(AddRoute(n, req)) == n
  {
    match n
    case ArrayExpression(es) =>
      AddRouteRoundTripAll(es, req);
      var t := AddRouteAll(es, req) + [RouteObject(req)];
      assert DropLast(UnrouteAll(t)) == UnrouteAll(AddRouteAll(es, req));
    case ObjectExpression(ps) => AddRouteRoundTripAll(ps, req);
    case ObjectProperty(k, v) => AddRouteRoundTrip(k, req); AddRouteRoundTrip(v, req);
    case ExportNamedDeclaration(d) => if d.Some? { AddRouteRoundTrip(d.value, req); }
    case NamedDeclaration(_, cs) => AddRouteRoundTripAll(cs, req);
    case Other(cs) => AddRouteRoundTripAll(cs, req);
    case _ =>
  }

  lemma {:induction false} AddRouteRoundTripAll(ns: seq<Node>, req: PageRequest)
    ensures UnrouteAll(AddRouteAll(ns, req)) == ns
  {
    forall i | 0 <= i < |ns| ensures UnrouteAll(AddRouteAll(ns, req))[i] == ns[i] {
      AddRouteRoundTrip(ns[i], req);
    }
  }

  /** After the edit every array expression, nested ones included, ends with the route object. */
  lemma {:induction false} AddRouteTerminates(n: Node, req: PageRequest)
    ensures RouteTerminated(AddRoute(n, req), req)
  {
    match n
    case ArrayExpression(es) =>
      AddRouteTerminatesAll(es, req);
      RouteObjectUntouched(req);
      var t := AddRouteAll(es, req) + [RouteObject(req)];
      assert forall i :: 0 <= i < |t| ==> RouteTerminated(t[i], req) by {
        forall i | 0 <= i < |t| ensures RouteTerminated(t[i], req) {
          if i < |es| { assert t[i] == AddRouteAll(es, req)[i]; }
        }
      }
    case ObjectExpression(ps) => AddRouteTerminatesAll(ps, req);
    case ObjectProperty(k, v) => AddRouteTerminates(k, req); AddRouteTerminates(v, req);
    case ExportNamedDeclaration(d) => if d.Some? { AddRouteTerminates(d.value, req); }
    case NamedDeclaration(_, cs) => AddRouteTerminatesAll(cs, req);
    case Other(cs) => AddRouteTerminatesAll(cs, req);
    case _ =>
  }

  lemma {:induction false} AddRouteTerminatesAll(ns: seq<Node>, req: PageRequest)
    ensures AllRouteTerminated(AddRouteAll(ns, req), req)
  {
    forall i | 0 <= i < |ns| ensures RouteTerminated(AddRouteAll(ns, req)[i], req) {
      AddRouteTerminates(ns[i], req);
    }
  }

  /** Conversely, a tree in which every array ends with the route object is the
      edit of the tree with those objects removed: `AddRoute` and `Unroute` are
      inverse bijections between all trees and route-terminated trees. */
  lemma {:induction false} AddRouteOfUnroute(t: Node, req: PageRequest)
    requires RouteTerminated(t, req)
    ensures AddRoute(Unroute(t), req) == t
  {
    match t
    case ArrayExpression(es) =>
      var front := DropLast(es);
      assert AllRouteTerminated(front, req) by {
        forall i | 0 <= i < |front| ensures RouteTerminated(front[i], req) {
          assert front[i] == es[i];
        }
      }
      AddRouteOfUnrouteAll(front, req);
      assert DropLast(UnrouteAll(es)) == UnrouteAll(front);
      assert es == front + [RouteObject(req)];
    case ObjectExpression(ps) => AddRouteOfUnrouteAll(ps, req);
    case ObjectProperty(k, v) => AddRouteOfUnroute(k, req); AddRouteOfUnroute(v, req);
    case ExportNamedDeclaration(d) => if d.Some? { AddRouteOfUnroute(d.value, req); }
    case NamedDeclaration(_, cs) => AddRouteOfUnrouteAll(cs, req);
    case Other(cs) => AddRouteOfUnrouteAll(cs, req);
    case _ =>
  }

  lemma {:induction false} AddRouteOfUnrouteAll(ns: seq<Node>, req: PageRequest)
    requires AllRouteTerminated(ns, req)
    ensures AddRouteAll(UnrouteAll(ns), req) == ns
  {
    forall i | 0 <= i < |ns| ensures AddRouteAll(UnrouteAll(ns), req)[i] == ns[i] {
      AddRouteOfUnroute(ns[i], req);
    }
  }

  /** Each array expression grows by exactly one route object; the number of
      arrays stays the same, since the route object holds none. */
  lemma {:induction false} AddRouteCounts(n: Node, req: PageRequest)
    ensures ArrayCount(AddRoute(n, req)) == ArrayCount(n)
    ensures Size(AddRoute(n, req)) == Size(n) + RouteSize * ArrayCount(n)
  {
    match n
    case ArrayExpression(es) =>
      AddRouteCountsAll(es, req);
      RouteObjectUntouched(req);
      RouteObjectSize(req);
      var front := AddRouteAll(es, req);
      SizeAllAppend(front, [RouteObject(req)]);
      ArrayCountAllAppend(front, [RouteObject(req)]);
      assert [RouteObject(req)][1..] == [];
    case ObjectExpression(ps) => AddRouteCountsAll(ps, req);
    case ObjectProperty(k, v) => AddRouteCounts(k, req); AddRouteCounts(v, req);
    case ExportNamedDeclaration(d) => if d.Some? { AddRouteCounts(d.value, req); }
    case NamedDeclaration(_, cs) => AddRouteCountsAll(cs, req);
    case Other(cs) => AddRouteCountsAll(cs, req);
    case _ =>
  }

  lemma {:induction false} AddRouteCountsAll(ns: seq<Node>, req: PageRequest)
    ensures ArrayCountAll(AddRouteAll(ns, req)) == ArrayCountAll(ns)
    ensures SizeAll(AddRouteAll(ns, req)) == SizeAll(ns) + RouteSize * ArrayCountAll(ns)
  {
    if ns != [] {
      AddRouteCounts(ns[0], req);
      AddRouteCountsAll(ns[1..], req);
      assert AddRouteAll(ns, req)[1..] == AddRouteAll(ns[1..], req);
    }
  }

  lemma {:induction false} ArrayCountAllAppend(a: seq<Node>, b: seq<Node>)
    ensures ArrayCountAll(a + b) == ArrayCountAll(a) + ArrayCountAll(b)
  {
    if a == [] {
      assert a + b == b;
    } else {
      assert (a + b)[0] == a[0] && (a + b)[1..] == a[1..] + b;
      ArrayCountAllAppend(a[1..], b);
    }
  }

  /** The edit leaves a tree as it was exactly when the tree holds no array expression. */
  lemma AddRouteUnchangedIff(n: Node, req: PageRequest)
    ensures AddRoute(n, req) == n <==> ArrayCount(n) == 0
  {
    AddRouteCounts(n, req);
    if ArrayCount(n) == 0 {
      NoArraysUnchanged(n, req);
    }
  }

  lemma AddRouteAllUnchangedIff(ns: seq<Node>, req: PageRequest)
    ensures AddRouteAll(ns, req) == ns <==> ArrayCountAll(ns) == 0
  {
    AddRouteCountsAll(ns, req);
    if ArrayCountAll(ns) == 0 {
      NoArraysUnchangedAll(ns, req);
    }
  }

  /** There is no duplicate check: a second run appends a second, identical route
      object to every array, so the edit is idempotent only on files without arrays. */
  lemma AddRouteEntryTwice(p: Program, req: PageRequest)
    ensures AddRouteEntry(AddRouteEntry(p, req), req) == AddRouteEntry(p, req)
        <==> ArrayCountAll(p.body) == 0
    ensures SizeAll(AddRouteEntry(AddRouteEntry(p, req), req).body)
         == SizeAll(p.body) + 2 * RouteSize * ArrayCountAll(p.body)
  {
    AddRouteCountsAll(p.body, req);
    AddRouteCountsAll(AddRouteAll(p.body, req), req);
    AddRouteAllUnchangedIff(AddRouteAll(p.body, req), req);
  }

  /** `export default [];` with the page `report` of project `sales`, route name 报表. */
  lemma AddRouteEntryExample()
    ensures AddRouteEntry(Program([Other([ArrayExpression([])])]), PageRequest("report", "sales", "报表"))
         == Program([Other([ArrayExpression([ObjectExpression([
              Property("path", StringLiteral("/report")),
              Property("exact", BooleanLiteral(true)),
              Property("name", StringLiteral("报表")),
              Property("component", StringLiteral("@/views/pages/sales/report")),
              Property("layout", ObjectExpression([Property("hideNav", BooleanLiteral(true))]))])])])])
  {
    var req := PageRequest("report", "sales", "报表");
    var arr := ArrayExpression([]);
    assert "/" + req.name == "/report";
    assert "@/views/pages/" + req.chooseProject + "/" + req.name == "@/views/pages/sales/report";
    assert AddRoute(arr, req) == ArrayExpression([RouteObject(req)]);
    assert AddRouteAll([arr], req) == [AddRoute(arr, req)];
  }
}
