/** NewTypeGenerator: the `export * from './<name>'` edit `readType` makes to
    `type/index.ts`, and the names `makeTypeFile` derives for the new type file. */
module NewTypeGenerator {
  import opened Ast
  import Naming

  /** The module path of the appended export; it uses the name as given. */
  function ExportSource(name: string): (s: string)
    ensures |s| == |name| + 2 && s[..2] == "./" && s[2..] == name
  {
    "./" + name
  }

  /** `readType` on a parsed `type/index.ts`: the `enter` visitor matches only the
      Program node, which appends one export-all statement to the top-level body.
      Babel also visits the new statement, which is not a Program. */
  function AddTypeExport(p: Program, name: string): (r: Program)
    ensures |r.body| == |p.body| + 1
    ensures r.body[..|p.body|] == p.body
    ensures Last(r.body) == ExportAllDeclaration(ExportSource(name))
  {
    Program(p.body + [ExportAllDeclaration(ExportSource(name))])
  }

  /** `readType` on the parsed `type/index.ts`: the `enter` visitor pushes the new
      export onto the Program node's own statement list. */
  method ReadType(tree: ProgramNode, name: string)
    modifies tree
    ensures Program(tree.body) == AddTypeExport(Program(old(tree.body)), name)
  {
    tree.body := tree.body + [ExportAllDeclaration(ExportSource(name))];
  }

  /** Number of top-level `export * from source` statements. */
  function CountExportsOf(body: seq<Node>, source: string): nat {
    if body == [] then 0
    else (if body[0] == ExportAllDeclaration(source) then 1 else 0) + CountExportsOf(body[1..], source)
  }

  lemma {:induction false} CountExportsOfAppend(a: seq<Node>, b: seq<Node>, source: string)
    ensures CountExportsOf(a + b, source) == CountExportsOf(a, source) + CountExportsOf(b, source)
  {
    if a == [] {
      assert a + b == b;
    } else {
      assert (a + b)[0] == a[0] && (a + b)[1..] == a[1..] + b;
      CountExportsOfAppend(a[1..], b, source);
    }
  }

  /** Each run adds exactly one `export * from './<name>'`, whether or not the file
      already had it, and no other export-all statement; so two runs leave two copies
      and the edit is never idempotent. */
  lemma AddTypeExportCounts(p: Program, name: string, source: string)
    ensures CountExportsOf(AddTypeExport(p, name).body, source)
         == CountExportsOf(p.body, source) + (if source == ExportSource(name) then 1 else 0)
    ensures CountExportsOf(AddTypeExport(AddTypeExport(p, name), name).body, ExportSource(name))
         == CountExportsOf(p.body, ExportSource(name)) + 2
    ensures AddTypeExport(AddTypeExport(p, name), name) != AddTypeExport(p, name)
  {
    var e := ExportAllDeclaration(ExportSource(name));
    var once := AddTypeExport(p, name);
    CountExportsOfAppend(p.body, [e], source);
    CountExportsOfAppend(p.body, [e], ExportSource(name));
    CountExportsOfAppend(once.body, [e], ExportSource(name));
    assert [e][1..] == [];
  }

  /** The type file `makeTypeFile` writes: `type/<Cap(name)>/index.ts` declaring
      `interface <Cap(name)>State`. */
  datatype TypeFile = TypeFile(directory: string, fileName: string, interfaceName: string)

  function TypeFileOf(name: string): (f: TypeFile)
    ensures f.directory == Naming.Capitalize(name)
    ensures f.fileName == "index.ts"
    ensures |f.directory| == |name|
    ensures f.interfaceName == f.directory + "State"
  {
    var fileName := Naming.Capitalize(name);
    TypeFile(fileName, "index.ts", fileName + "State")
  }

  /** The export names the directory as typed while the file is written under the
      capitalised name: the two agree exactly when the name does not start with `a`-`z`. */
  lemma ExportMatchesDirectoryIff(name: string)
    ensures ExportSource(name) == "./" + TypeFileOf(name).directory
        <==> !(|name| > 0 && Naming.IsAsciiLower(name[0]))
  {
    Naming.CapitalizeChangesIff(name);
    var d := TypeFileOf(name).directory;
    if ExportSource(name) == "./" + d {
      assert ("./" + name)[2..] == name && ("./" + d)[2..] == d;
    }
  }

  lemma TypeFileExample()
    ensures TypeFileOf("orderList") == TypeFile("OrderList", "index.ts", "OrderListState")
    ensures ExportSource("orderList") == "./orderList"
  {
    Naming.CapitalizeExamples();
  }
}
