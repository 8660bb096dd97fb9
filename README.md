# clown-cli syntax-tree edits, modelled in Dafny

clown-cli scaffolds front-end admin projects and the pages inside them. Its only real logic is in a few
source-to-source edits. Each generator follows the same steps:

1. It reads one project file and parses it with Babel.
2. It walks every node of the tree in pre-order, with an `enter` visitor or an
   `ObjectProperty` visitor.
3. It appends to, or overwrites fields of, every node of a given shape.
4. It prints the tree back to the file.

Two string rules feed these edits: first-letter capitalisation of the page name,
and the validator of the route-name prompt.

This project models those parts:

- `ast.dfy` (module `Ast`): a syntax-tree datatype covering only the node shapes the
  visitors look at. It also defines a size measure and small sequence helpers.
- `naming.dfy` (module `Naming`): `name.replace(/^[a-z]/g, L => L.toUpperCase())`.
- `new_page_generator.dfy` (module `NewPageGenerator`): `readRoute`. It appends a
  fixed-shape route object to **every** array literal of `src/router/index.ts`. The
  module also models the template parameters of `ejsModel`.
- `create_generator.dfy` (module `CreateGenerator`): `readRoute` of `create`. It
  overwrites the literal value of **every** `component: …` property of
  `src/route/index.ts` with `@/pages/adjustTheRecord`. The module also models the
  `.env` text.
- `new_type_generator.dfy` (module `NewTypeGenerator`): `readType`. It appends
  `export * from './<name>'` to `type/index.ts`. The module also models the names
  used by `makeTypeFile`.
- `new_models_generator.dfy` (module `NewModelsGenerator`): `readModel` on
  `models/connect.d.ts`. It appends `<Cap>State` to every import from `'../type'`
  and `<name>Store: <Cap>State` to every exported `ConnectState` interface. It fails
  with a JavaScript `TypeError` in three cases. The visitor's test
  `path.node.declaration.id.name` throws when an export has no declaration or its
  declaration has no `id`. The push throws when an exported `ConnectState` is not an
  interface and has no `body.body`. The module also models the names used by
  `makeModelFile`.
- `new_page.dfy` (module `NewPage`): the `validate` callback of the route-name
  prompt. It returns `true` or a fixed message.

The parsed file's root is a `ProgramNode` object in module `Ast`. The methods
`ReadRoute` (of both generators), `ReadType` and `ReadModel` update its statement
list in place:

- The two `ReadRoute` methods and `ReadModel` walk the top-level statements in
  order, as the traversal does, and replace each statement with its edited form.
  `ReadModel` stops at the first `TypeError`.
- `ReadType` only appends one statement to the list, as the visitor's push into
  the `Program` body does.

Each method's postcondition ties the new statement list to a function on the old
one. For the three walking methods, that function applies the edit to a whole
subtree as a recursive function over the tree. For `ReadType` it is
`AddTypeExport`, which appends to the body. Every such function has a partner,
connected to it by all-inputs lemmas:

- **Route edit.** `Unroute` drops the last element of every array. It is the inverse
  of `AddRoute`, and `AddRoute` is the unique tree whose arrays all end with the
  route object and whose `Unroute` is the input. The size grows by exactly one route
  object per array. The edit is a no-op exactly when the tree has no arrays, and
  otherwise it is not idempotent.
- **Component edit.** The predicate `ComponentsAre` says every `component` literal
  already holds what assigning a given path gives it. The edit establishes that predicate and is characterised by
  it. The edit is idempotent, and a later path overrides an earlier one.
- **Type export.** The body grows by exactly one statement. The old body is kept as
  its prefix, and the number of copies of the export grows by one per run.
- **Model binding.**
  - `Unbind` is the inverse of the edit.
  - `Readable` says when the edit throws.
  - `Targets` counts the places the edit appends to.
  - A second run succeeds again and changes the file unless there are no targets.

Babel also visits the nodes that the visitor appends while it is inside `enter`.
The model appends after walking a node's old children. Both orders give the same
tree, because no appended node is one that the visitor would edit:

- For the route object this is proved: it contains no array, and the edit leaves it
  unchanged (`RouteObjectUntouched`).
- For the appended export-all, the import specifier and the interface member, it
  follows from the shape of the datatype, with no lemma. An export-all is not the
  `Program` root. Specifiers and interface members are leaves of their own types,
  and no visitor looks inside them.

The code edits **every** match and never stops at the first:

- Every array expression gets the route object (lib/NewPageGenerator.js:180;
  `AddRouteTerminates`, `AddRouteCounts`).
- Every `component` property is rewritten (lib/CreateGenerator.js:141;
  `SetComponentsEstablishes`).
- Every `../type` import and every exported `ConnectState` interface is extended
  (lib/NewModelsGenerator.js:92, 101; `BindSucceeds`).

When nothing matches, there is no error. The tree comes back unchanged and the
file is still rewritten (`NoArraysUnchanged`, `AddModelBindingWithoutTargets`).

`export { a }` and `export const x = 1` make the model-binding edit throw a
`TypeError` at the test `path.node.declaration.id.name` (lib/NewModelsGenerator.js:101).
This throw is modelled as `BindError` (`BindFailsIff`, `AddModelBindingExamples`).

The page generator edits `src/router/index.ts` (lib/NewPageGenerator.js:155). The
project generator edits `src/route/index.ts` (lib/CreateGenerator.js:118-123).

`lib/newPage.js` calls only the page generator (line 49). The calls of the type and
model generators are commented out (lines 50-51). Their edits are modelled as the
generator classes define them.

## Model

| member | source | states |
|---|---|---|
| Naming.Capitalize | lib/NewPageGenerator.js:126 | The length is kept. Every character after the first is kept. A first character in `a`-`z` becomes its upper-case letter (code point minus 32). Any other string is returned unchanged. |
| Naming.CapitalizeIdempotent | lib/NewModelsGenerator.js:87 | A capitalised name never starts with `a`-`z`. Capitalising twice equals capitalising once. |
| Naming.CapitalizeChangesIff | lib/NewTypeGenerator.js:117 | Capitalisation changes a name if and only if the name starts with `a`-`z`. |
| Naming.CapitalizeExamples | lib/NewModelsGenerator.js:148 | `orderList` becomes `OrderList`. `Report`, `_list` and the empty name are unchanged. |
| NewPageGenerator.TemplateParamsOf | lib/NewPageGenerator.js:126-131 | `ejsModel` passes the name as typed and a `fileName` that is the capitalised name. That `fileName` has the same length, and capitalising it again leaves it unchanged. |
| NewPageGenerator.TemplateParamsAgree | lib/NewPageGenerator.js:126-131 | The template's `fileName` is the directory the type generator writes, and `fileName` + `State` is the interface that file declares. It differs from the page name if and only if the name starts with `a`-`z`. |
| NewPageGenerator.RouteObjectFields | lib/NewPageGenerator.js:183-211 | The route object has the identifier keys `path`, `exact`, `name`, `component`, `layout`, in that order. Their values are `"/"+name`, `true`, the route name, `"@/views/pages/"+project+"/"+name` and `{hideNav: true}`. |
| NewPageGenerator.RouteObjectUntouched | lib/NewPageGenerator.js:180-211 | The route object contains no array. Visiting it after the push adds nothing. It already counts as terminated. |
| NewPageGenerator.RouteObjectSize | lib/NewPageGenerator.js:183-211 | The route object has exactly 19 nodes. |
| NewPageGenerator.NoArraysUnchanged | lib/NewPageGenerator.js:177-180 | A subtree with no array expression is returned unchanged. |
| NewPageGenerator.NoArraysUnchangedAll | lib/NewPageGenerator.js:177-180 | A list of subtrees with no array expression is returned unchanged. |
| NewPageGenerator.AddRouteRoundTrip | lib/NewPageGenerator.js:180-213 | Removing the last element of every array of the edited tree gives back the original tree. So each array keeps its old elements, in order, as a prefix. |
| NewPageGenerator.AddRouteRoundTripAll | lib/NewPageGenerator.js:180-213 | The same round trip holds for lists of nodes. |
| NewPageGenerator.AddRouteTerminates | lib/NewPageGenerator.js:213 | After the edit, every array expression at every depth ends with the route object. |
| NewPageGenerator.AddRouteTerminatesAll | lib/NewPageGenerator.js:213 | The same holds for lists of nodes. |
| NewPageGenerator.AddRouteOfUnroute | lib/NewPageGenerator.js:180-213 | Take a tree whose arrays all end with the route object. It is the edit of that tree with those last elements removed. So the edit's result is unique. |
| NewPageGenerator.AddRouteOfUnrouteAll | lib/NewPageGenerator.js:180-213 | The same uniqueness holds for lists of nodes. |
| NewPageGenerator.AddRouteCounts | lib/NewPageGenerator.js:177-214 | The number of arrays is unchanged. The size grows by exactly one route object per array, nested arrays included. |
| NewPageGenerator.AddRouteCountsAll | lib/NewPageGenerator.js:177-214 | The same counts hold for lists of nodes. |
| NewPageGenerator.AddRouteUnchangedIff | lib/NewPageGenerator.js:180 | The edit leaves a node unchanged if and only if the node contains no array expression. |
| NewPageGenerator.AddRouteAllUnchangedIff | lib/NewPageGenerator.js:180 | The edit leaves a list of nodes unchanged if and only if the list contains no array expression. |
| NewPageGenerator.AddRouteEntryTwice | lib/NewPageGenerator.js:170-223 | There is no duplicate check. A second run equals the first if and only if the file has no array. Two runs add two route objects per array. |
| NewPageGenerator.ReadRoute | lib/NewPageGenerator.js:170-223 | Babel walks the route file statement by statement and updates each in place. The Program node's new statement list is exactly `AddRouteEntry` of the old one. |
| NewPageGenerator.AddRouteEntryExample | lib/NewPageGenerator.js:183-213 | An empty route array gains exactly the route object for page `report` of project `sales` with route name `报表`. |
| CreateGenerator.EnvText | lib/CreateGenerator.js:105-108 | The `.env` text is `PROJECT = ` followed by the project name. |
| CreateGenerator.ReadRoute | lib/CreateGenerator.js:138-145 | The traversal updates every statement of the route file in place. The new statement list is exactly `ReplaceComponentPath` of the old one. |
| CreateGenerator.SetComponentsKeepsKind | lib/CreateGenerator.js:139-142 | The edit, and the assignment to a value, keep every node's constructor. Identifiers are never changed. So component keys and literal values stay what they are. |
| CreateGenerator.SetComponentsOverwrite | lib/CreateGenerator.js:139-142 | Assigning one path and then another equals assigning the second alone. The edit never adds or removes nodes. |
| CreateGenerator.SetComponentsOverwriteAll | lib/CreateGenerator.js:139-142 | The same holds for lists of nodes. |
| CreateGenerator.SetComponentsEstablishes | lib/CreateGenerator.js:139-142 | After the edit, every `component` property at any depth holds the assigned value. A string value holds the path. A boolean value holds the truth of the path. |
| CreateGenerator.SetComponentsEstablishesAll | lib/CreateGenerator.js:139-142 | The same holds for lists of nodes. |
| CreateGenerator.SetComponentsFixes | lib/CreateGenerator.js:139-142 | A tree whose `component` literals already hold the assigned value is left unchanged. |
| CreateGenerator.SetComponentsFixesAll | lib/CreateGenerator.js:139-142 | The same holds for lists of nodes. |
| CreateGenerator.SetComponentsUnchangedIff | lib/CreateGenerator.js:139-142 | The edit leaves a tree unchanged if and only if all its `component` literals already hold the assigned value. |
| CreateGenerator.SetComponentsCharacterised | lib/CreateGenerator.js:139-142 | `t` is the edit of `n` if and only if `t`'s `component` literals hold the assigned value and `t` agrees with `n` once those literals are blanked (assigned `""`). |
| CreateGenerator.ReplaceComponentPathIdempotent | lib/CreateGenerator.js:138-145 | Running `readRoute` twice gives the same tree as once, with the same number of nodes. |
| CreateGenerator.BooleanComponentPrintedTrue | lib/CreateGenerator.js:142 | `component: false` becomes `component: true`. The literal now holds a non-empty string, and the printer writes a boolean by its truthiness. |
| CreateGenerator.StringKeyKept | lib/CreateGenerator.js:141 | A property whose key is the string `'component'` is not rewritten. |
| NewTypeGenerator.ExportSource | lib/NewTypeGenerator.js:96-97 | The export source is `./` followed by the name as typed. |
| NewTypeGenerator.AddTypeExport | lib/NewTypeGenerator.js:89-102 | The body grows by exactly one statement. The old body is its prefix. The last statement is `export * from './<name>'`. |
| NewTypeGenerator.ReadType | lib/NewTypeGenerator.js:89-102 | The Program node's statement list becomes exactly `AddTypeExport` of the old one. |
| NewTypeGenerator.AddTypeExportCounts | lib/NewTypeGenerator.js:91-100 | One run adds exactly one copy of its own export and no other export-all. Two runs add two copies, so the edit is never idempotent. |
| NewTypeGenerator.TypeFileOf | lib/NewTypeGenerator.js:115-139 | The type file is `index.ts` in the directory named by the capitalised name. The file declares `<directory>State`. |
| NewTypeGenerator.ExportMatchesDirectoryIff | lib/NewTypeGenerator.js:96-118 | The export path names the directory actually written if and only if the name does not start with `a`-`z`. |
| NewTypeGenerator.TypeFileExample | lib/NewTypeGenerator.js:117-139 | For `orderList`, the file is `OrderList/index.ts`, it declares `OrderListState`, and the export source is `./orderList`. |
| NewModelsGenerator.BindFailsIff | lib/NewModelsGenerator.js:101-126 | The edit of a subtree succeeds if and only if every export in it has a declaration with an `id`, so the test at line 101 reads its name, and every such declaration named `ConnectState` is an interface, whose body takes the push at line 126. Otherwise it fails. |
| NewModelsGenerator.BindFailsIffAll | lib/NewModelsGenerator.js:101-126 | The same success condition holds for a list of subtrees. When the list fails, it fails with the `TypeError` of the first node of the list that is not readable: every node before it is readable, and the walk stops there. |
| NewModelsGenerator.BindSucceeds | lib/NewModelsGenerator.js:90-129 | A successful edit satisfies three things. Removing the last specifier or member at every target gives back the input. Every target ends with the new specifier or member. The size grows by one per target. |
| NewModelsGenerator.BindAllSucceeds | lib/NewModelsGenerator.js:90-129 | The same holds for a list of nodes. |
| NewModelsGenerator.BindNoTargets | lib/NewModelsGenerator.js:92-101 | A readable subtree without a `../type` import or a `ConnectState` export is returned unchanged. |
| NewModelsGenerator.BindNoTargetsAll | lib/NewModelsGenerator.js:92-101 | The same holds for a list of subtrees. |
| NewModelsGenerator.BindOfUnbind | lib/NewModelsGenerator.js:90-129 | A readable tree whose targets all end with the new specifier or member is the edit of that tree with those removed. So the result is unique. |
| NewModelsGenerator.BindOfUnbindAll | lib/NewModelsGenerator.js:90-129 | The same uniqueness holds for lists of nodes. |
| NewModelsGenerator.AddModelBindingSpec | lib/NewModelsGenerator.js:89-130 | `readModel` succeeds if and only if the file is readable. On success, the round trip holds, every target is extended, and the size grows by the number of targets. |
| NewModelsGenerator.ReadModel | lib/NewModelsGenerator.js:89-130 | Without an error, the new statement list is the successful `AddModelBinding` of the old one. With an error, `readModel` throws the same error that `AddModelBinding` reports. On a throw, the statements before the failing one are edited, and that statement and the rest are as they were. |
| NewModelsGenerator.AddModelBindingTwice | lib/NewModelsGenerator.js:92-126 | A second run succeeds again. It equals the first if and only if the file has no target. |
| NewModelsGenerator.AddModelBindingWithoutTargets | lib/NewModelsGenerator.js:90-129 | A readable file with no target comes back unchanged, not as an error. |
| NewModelsGenerator.AddModelBindingExamples | lib/NewModelsGenerator.js:92-126 | `connect.d.ts` with name `orderList` gains `OrderListState` in its `../type` import and `orderListStore: OrderListState` in `ConnectState`. `export { a }` and `export const x` make the edit throw. |
| NewModelsGenerator.ModelFileOf | lib/NewModelsGenerator.js:148-183 | The namespace is `<name>Store`. The object is the capitalised name. The model file is `<namespace>.ts`. The interface is `<object>Type`. The imported state type is `<object>State`. |
| NewModelsGenerator.ModelNamesAgree | lib/NewModelsGenerator.js:154-165 | The model's namespace is the store key added to `ConnectState`. The state type it imports is the new `../type` specifier, which is the interface the type file declares. |
| NewPage.Validate | lib/newPage.js:30-37 | Only a non-empty name is accepted. Every refusal is the fixed message. |
| NewPage.InClassIff | lib/newPage.js:32 | A character is in the pattern's five ranges if and only if it is an ASCII letter, a digit, `_`, or in U+4E00..U+9FFF. |
| NewPage.MatchPlusIff | lib/newPage.js:32-33 | The anchored `+` pattern matches if and only if the input is non-empty and all its characters are allowed. |
| NewPage.ValidateIff | lib/newPage.js:30-37 | `validate` is `true` if and only if the name is non-empty and every character is allowed. Otherwise it is exactly the message. |
| NewPage.ValidateRejectsEmpty | lib/newPage.js:32 | The empty name is refused. |
| NewPage.ValidateRejectsBadChar | lib/newPage.js:32-36 | A single disallowed character anywhere refuses the whole name. |
| NewPage.ValidateConcat | lib/newPage.js:32 | Two non-empty names concatenate to an accepted name if and only if both are accepted. |
| NewPage.ValidateUnderscoreAnywhere | lib/newPage.js:31-32 | `_` alone is accepted. An accepted name stays accepted with `_` in front or behind. |
| NewPage.ValidateAcceptExamples | lib/newPage.js:32-34 | `报表` and `sales_2` are accepted. |
| NewPage.ValidateRejectExamples | lib/newPage.js:32-36 | `a-b`, `a b` and an emoji are refused with the message. |

## Left out

- Parsing and printing: Babel's parser and generator, and the `jsescOption`
  formatting, are outside the model. The model starts from the parsed tree and ends
  at the edited tree. Parse errors and serialisation errors are therefore not
  modelled.
- Node identity: Babel edits the nodes in place with `push` and field assignment.
  The model keeps only the Program node as an object. Each top-level statement is a
  value, rebuilt by the edit. This agrees because every appended node is built
  afresh for each match and the parsed tree shares no nodes. Object identity and
  aliasing below the Program node are not modelled.
- NewModelsGenerator.ReadModel: after a `TypeError`, the model leaves the failing
  top-level statement unchanged. Babel may already have edited the nodes visited
  before the throw inside that statement. The tree is never printed after a throw.
- Node kinds: the tree keeps only the node kinds the visitors test. Every other
  construct is `Other(children)` or `NamedDeclaration(id, children)`, for a
  declaration that has an `id`.
- Import specifiers and interface members are leaves. No visitor matches inside
  them.
- NewModelsGenerator.Bind: an exported declaration named `ConnectState` that is not
  an interface always fails with `DeclarationHasNoBody`. In JavaScript, this
  matches a type alias, an enum and a `declare function`: none has a `body.body`
  to push to, so line 126 throws. A class, a function with a body, or a namespace
  would instead receive the pushed member in its body. The model does not capture
  that.
- CreateGenerator.SetComponents: on a matching key, `readRoute` assigns
  `value.value` whatever the value node is. The model captures how the printer
  reads back the result:
  - A string literal holds the path.
  - A boolean literal is printed by its truthiness (`AssignValue`).
  - Identifiers, objects, arrays and other values the tree keeps are printed as
    before, and the model leaves them unchanged.
  - A number literal is `Other` here. After the assignment its raw text no longer
    matches, so the printer writes the path without quotes. The model does not
    capture that change.
- NewPage.Validate: works on Unicode scalar values, while JavaScript's regular
  expression without the `u` flag works on UTF-16 code units. Both readings reject
  every character above U+FFFF and every lone surrogate, so they agree.
- I/O: file reads and writes (`fs-extra`), `ensureDir`, the `git clone` of
  `download`, the `ejs` rendering of the page templates, the template file contents
  and `copyFile`'s use of an undefined `fs` are not modelled.
- Interaction and status output: the `inquirer` prompts, the project directory
  listing, the page-exists check in `lib/newPage.js`, the `commander` command line
  of `bin/cli.js`, and the `ora` spinner with `wrapLoading` (which swallows errors)
  are not modelled.
- Ordering: `readModel`/`makeModelFile` and `readType`/`makeTypeFile` run as
  unawaited async calls. Their interleaving is not modelled.
