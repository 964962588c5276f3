# jsondoc rendering core in Dafny

jsondoc documents the JSON inputs and outputs of a Go HTTP API. Inside a
Markdown template, the template functions `input` and `output` name a Go
struct type. The tool then renders that type's fields as a table with the
columns JSON key, value type and description. Every declared type the
table names that is not yet rendered, and every anonymous struct in it, is
rendered after it, each under its own "Type" heading. Names already
rendered, identifiers not bound to a type declaration (such as `float64`)
and map, pointer or selector types queue nothing. This project
models the core of `cmd/jsondoc/main.go`.

- **Field-name resolution.** `tagToName` turns a field's Go name and its
  struct tag into the key shown in the table, or hides the field.
- **The worklist renderer.** `renderTypes`, `renderTypeByName`,
  `renderType`, `typeString`, `renderLater` and `findObject` render the
  root type directly. While doing so they append named and anonymous types
  to `renderQueue`, and they drain that queue by index while it still
  grows. Named types are deduplicated through the `rendered` set, which
  persists across all `input`/`output` calls.

Modules:

- `Basics`: `Option` and `Result`.
- `Strings`: `strings.Split` on one character with its inverse `Join`, a
  suffix test, quoting with its inverse `Unquote`, and Go's export rule.
- `Ast`: the parsed package as a value. It holds field lines, type
  expressions (identifier, array, struct, anything else) and the objects
  bound in each file's scope. `Lookup` is the reference definition of
  `findObject`. `Size` is the nested anonymous-struct weight of a type
  expression.
- `Tags`: `tagToName`. `Resolve` is the pure definition and `TagToName`
  is the loop the source runs, proved equal to it.
- `Render`: what describing a type produces.
  - the text `typeString` returns (`TypeText`);
  - the `renderLater` calls it makes (`Calls`);
  - for a struct, the loop of `renderType` over its identifiers
    (`Describe`);
  - an independent front-to-back reading of that loop (`AllRows`,
    `AllCalls`, `BadTagAt`).
- `Queue`: the `rendered`/`renderQueue` state as a value.
  - `Later` is one `renderLater` call and `ApplyAll` is a run of them.
  - A ghost log `enqueued` records every declaration ever queued.
  - `Inv` states that no declaration was queued twice.
- `Document`: what `renderTypeByName`, `renderTypes`, `input` and
  `output` write and leave behind, as functions of the package and the
  state before the call.
  - The output buffer is a sequence of records: headings, tables of rows,
    the closing `</div>`.
  - `DrainFrom` is the drain loop from index `i`, with its body `Visit`:
    each queued item's section (heading and table), then the rest of the
    queue as that item's calls left it.
  - `RenderRoot`, `RenderAll` and `Page` are `renderTypeByName`,
    `renderTypes` and `input`/`output`.
  - Lemmas prove FIFO order over the whole final queue, including the items
    appended while draining, and the error cases.
- `JsonDoc`: the `JSONDoc` object as a class.
  - Methods `FindObject`, `RenderLater`, `TypeString`, `RenderType`,
    `RenderTypeByName`, `RenderTypes`, `Input` and `Output` follow the
    branches and loops of the Go methods. `findObject`'s nested loop over
    packages and then files is one loop over a single sequence of files.
  - The methods that change the object state their new rendered set,
    queue and buffer as the `Queue` and `Document` functions of the old
    ones: `RenderLater` as `Later`, `TypeString` and `RenderType` as
    `ApplyAll`, `RenderTypeByName` as `RenderRoot`, `RenderTypes` as
    `RenderAll`, `Drain` as `DrainFrom`, `Input` and `Output` as `Page`.
  - `renderTypes`' loop is written as `Drain`, with its body as
    `RenderQueued`. `RenderQueued` states its effect as one step of
    `DrainFrom`.

The drain loop terminates. Each step either marks a new declared type
name rendered, and there are finitely many, or leaves the rendered set as
it is. In that case the current item is replaced by anonymous structs of
strictly smaller total weight when it is a struct. When it is not a struct
(such as `type X Y` or a map type), the queue and its weight stay the same
and the index advances, so `|renderQueue| - i` decreases. This is
`Queue.DrainStep` together with the `decreases` clause of
`JsonDoc.Doc.Drain`.

## Model

| member | source | states |
|---|---|---|
| Strings.Split | cmd/jsondoc/main.go:267 | splitting on a comma yields at least one piece, no piece contains a comma, and joining the pieces with commas gives back the input |
| Strings.SplitJoin | cmd/jsondoc/main.go:267 | splitting undoes joining whenever no piece contains the separator, so each component of a tag value is recovered exactly |
| Strings.QuoteRoundTrip | cmd/jsondoc/main.go:265-279 | unquoting a quoted key gives back the key |
| Strings.QuoteInjective | cmd/jsondoc/main.go:265-279 | two keys are quoted alike exactly when they are equal |
| Tags.ResolveSpec | cmd/jsondoc/main.go:254-280 | an unexported name is hidden whatever the tag; an unquotable tag literal is the only error; no tag or an empty `json` value keeps the Go name with no marker; otherwise the field is hidden exactly when the first component is "-", and the key is the text before the first comma, optional exactly when a later component is `omitempty` |
| Tags.KeyWithOptions | cmd/jsondoc/main.go:267-277 | for a value `key,opt1,...` the result is Quote(key) plus " (optional)" exactly when some option is `omitempty`, however often; the key "-" hides the field; an empty key yields Quote(""), not the Go name |
| Tags.KeyAlone | cmd/jsondoc/main.go:263-277 | a non-empty value with no comma is listed as itself, never optional, unless it is "-" |
| Tags.DisplayRoundTrip | cmd/jsondoc/main.go:271-277 | the shown text determines both the key and whether it is optional: the marker is appended at most once and never ambiguously |
| Tags.TagToName | cmd/jsondoc/main.go:254-280 | the loop over the components after the first computes exactly the resolved key and marker, with the same errors |
| Ast.Lookup | cmd/jsondoc/main.go:204-213 | an object is found exactly when some file binds the name, and it is the object that such a file binds |
| JsonDoc.Doc.FindObject | cmd/jsondoc/main.go:204-213 | the scan over the files returns the object of the first file that binds the name, or none |
| Render.ElementNameOnce | cmd/jsondoc/main.go:218-220 | the element name ends in `-element`, adding the suffix again changes nothing, and a name without the suffix gets it appended |
| Render.Calls | cmd/jsondoc/main.go:215-235 | describing one type expression calls renderLater at most once |
| Render.NestedArrays | cmd/jsondoc/main.go:217-221 | n nested arrays give n times "array of " before the element's text, and the element is described under the name with `-element` added exactly once, whatever n |
| Render.ArrayOfIdent | cmd/jsondoc/main.go:217-224 | an identifier, at any array depth, is shown as its own text and is looked up under its own name |
| Render.AnonymousStruct | cmd/jsondoc/main.go:217-231 | an anonymous struct directly in a field is queued as `of <name>` and shown as `type of <name>`; under one or more arrays it is queued and shown as `<name>-element` |
| Render.DisplayNoElementSuffix | cmd/jsondoc/main.go:189-196 | a key returned by tagToName never ends in `-element`, so a field's own anonymous struct is always queued as `of <key>` |
| JsonDoc.Doc.TypeString | cmd/jsondoc/main.go:215-235 | returns the type text and leaves the queue state that the renderLater calls of that description produce, with the buffer unchanged |
| Queue.Later | cmd/jsondoc/main.go:237-250 | an anonymous struct is appended unconditionally; a name is queued and marked rendered exactly when it is not yet rendered and is bound to a type declaration; otherwise nothing else changes; no declaration is ever queued twice |
| JsonDoc.Doc.RenderLater | cmd/jsondoc/main.go:237-250 | the method's new rendered set and queue are those of `Later`, and the buffer is unchanged |
| Queue.ApplyAllFacts | cmd/jsondoc/main.go:237-250 | a run of renderLater calls only appends to the queue and only adds declared names to `rendered`; it never queues a name that was already rendered and keeps every declaration queued at most once; without new names the queue grows by exactly the anonymous structs, in call order |
| Queue.ApplyAllCount | cmd/jsondoc/main.go:237-250 | the queue grows by one item per anonymous struct plus one per newly queued declaration |
| Render.EntriesConcat | cmd/jsondoc/main.go:187-188 | the identifiers of consecutive field lines are listed in declaration order, one list after the other |
| Render.EmbeddedField | cmd/jsondoc/main.go:188 | an embedded (nameless) field line contributes no identifier, and so no row, wherever it stands |
| Render.StepFacts | cmd/jsondoc/main.go:189-196 | one identifier either fails the loop (tag literal not unquotable), is skipped (hidden), or adds its row and its calls |
| Render.DescribeFailsIff | cmd/jsondoc/main.go:187-197 | the loop fails exactly when some identifier has a tag literal that does not unquote |
| Render.DescribeRows | cmd/jsondoc/main.go:187-197 | without a failure the rows are one per non-hidden identifier, in declaration order, and the calls are those of their types in the same order |
| Render.DescribeStopsAtFirstBad | cmd/jsondoc/main.go:187-195 | a failure is the bad-tag error and happens at the first bad identifier, after exactly the calls of the identifiers before it |
| Render.DescribeStops | cmd/jsondoc/main.go:192-195 | after the loop has failed, further identifiers change nothing |
| Render.DescribeTypeWeight | cmd/jsondoc/main.go:181-202 | a non-struct type emits nothing; a struct queues anonymous structs of strictly smaller total weight than its own |
| JsonDoc.Doc.RenderType | cmd/jsondoc/main.go:181-202 | the buffer gains exactly one table with the described rows for a struct without failure and nothing otherwise; the error is the bad-tag error exactly when the loop fails; the queue state is that of the calls made before stopping |
| JsonDoc.Doc.RenderTypeByName | cmd/jsondoc/main.go:169-179 | "not found" when no file binds the name; "not a type" when the object is not a type declaration, with state and buffer unchanged in both cases; otherwise the declaration is rendered directly, not through the queue |
| Queue.DrainStep | cmd/jsondoc/main.go:158-163 | rendering the item at index i keeps the queue's front and the invariant, and either marks a new declared name rendered or replaces the item by anonymous structs of strictly smaller weight (by nothing for a non-struct) |
| Document.Unfold | cmd/jsondoc/main.go:158-163 | one pass of the loop body writes records whose only heading is the item's name, keeps the queue's front and the invariant, and decreases the loop's measure, after which the loop goes on from the next index or stops with a bad tag |
| Document.DrainFromFacts | cmd/jsondoc/main.go:158-163 | the loop only appends to the queue and only adds declared names to `rendered`; it keeps every declaration queued at most once and never queues a name rendered before it started; its only error is a bad tag |
| Document.DrainFromHeadings | cmd/jsondoc/main.go:158-163 | on success the "Type" headings written are the names of every item of the final queue from the start index on, in queue order, including every item appended during the loop |
| Document.RenderAllFacts | cmd/jsondoc/main.go:154-167 | on success the queue is truncated to empty and the headings after the root's table are the names of every item the queue held before truncation, in order, starting with the ones that were waiting; no declaration is queued twice and no name rendered before is queued |
| Document.PageFacts | cmd/jsondoc/main.go:132-152 | the page starts with its heading and, on success, ends with the closing record; a missing name, a name that is not a type, and a root with a bad tag are each reported as such; the root is marked rendered and never queued by the call; on success every item that was waiting in the queue has its heading |
| JsonDoc.Doc.RenderQueued | cmd/jsondoc/main.go:159-163 | appends exactly the section that one step of the loop specification `DrainFrom` writes, and leaves the state from which that specification either stops with this item's error or continues at the next index; the loop's measure decreases |
| JsonDoc.Doc.Drain | cmd/jsondoc/main.go:158-166 | the loop terminates; the error, the appended records and the new state are exactly those of `DrainFrom` from index 0, with the queue then truncated to empty on success |
| JsonDoc.Doc.RenderTypes | cmd/jsondoc/main.go:154-167 | the error, the appended records and the new state are exactly those of `RenderAll`: the root's table, then the drained sections, with the queue emptied on success and left as it was at a failure |
| JsonDoc.Doc.Input | cmd/jsondoc/main.go:132-141 | the buffer is exactly `Page` with the "Input" heading: the heading, the root's table, every drained section and, on success, the closing record; the result is that buffer on success and the error otherwise; the new state is `Page`'s |
| JsonDoc.Doc.Output | cmd/jsondoc/main.go:143-152 | as `input`, under an "Output" heading |
| JsonDoc.Doc.constructor | cmd/jsondoc/main.go:102 | a new object starts with an empty rendered set, an empty queue and the invariant holding |

## Left out

- `main`, `NewJSONDoc` parsing and template setup, and `WriteTo`. These
  are directory parsing, template parsing, Markdown-to-HTML conversion and
  output. The package is a value given to the constructor.
- Template execution of the `table` template is modelled as appending a
  `Table(rows)` record. Its ignored error plays no part.
- HTML text is modelled as records: `html.EscapeString` and the exact
  markup are not modelled.
- `strconv.Quote`: the key is placed between double quotes without
  escaping. Inner quotes, backslashes and non-printable characters come
  out differently from Go.
- `strconv.Unquote` and `reflect.StructTag.Get("json")` are folded into
  the tag value.
  - A field has no tag, a tag literal that does not unquote (`Malformed`),
    or the already extracted `json` value.
  - Tags whose other keys are malformed are not distinguished.
- `strings.TrimSpace` on the field comment: the comment is taken as
  already trimmed text.
- `ast.IsExported`: modelled as "starts with an ASCII upper-case letter".
  Other Unicode upper-case letters are not covered.
- `findObject` ranges over Go maps of packages and files, in an
  unspecified order. The model fixes one order: the package is a sequence
  of file scopes, and the first file that binds the name wins.
- The `default` branch of `typeString` (maps, selectors, pointers) shows
  Go's debug form of the node. It is modelled as an opaque `Other(text)`
  that is shown as its text and queues nothing.
- When `renderTypes` fails, it returns without truncating `renderQueue`.
  The model keeps that, so `RenderTypes` promises an empty queue only on
  success.
- `JsonDoc.Doc.Drain`, `JsonDoc.Doc.RenderQueued`: the loop of
  `renderTypes` and its body are separate methods, not inline code.
- `JsonDoc.Doc.FindObject`: the Go code loops over the packages and, inside
  that, over each package's files. The model has one loop over the files
  of all packages, taken as one sequence in the order the packages come.
- `cmd/jsondoc/templates.go` holds only static CSS and HTML constants and
  is not part of this model. `example/example.go` is data only; its field
  lines are covered by the general `Tags.KeyWithOptions`, `Tags.KeyAlone`
  and `Render.EmbeddedField` lemmas.
