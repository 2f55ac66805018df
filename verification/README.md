# Microdata extraction, modelled in Dafny

This project models the extraction core of the Go package `microdata`. Given
an HTML node tree that has already been parsed and a base URL, the core
returns the document's top-level microdata items. Each item has:

- its `itemtype` tokens;
- an optional `itemid`, resolved against the base;
- its properties, in discovery order.

A property value is either a string or a nested item.

The model follows `Parser.Parse` and `readItem` in `microdata.go`:

1. One pre-order walk builds the id index (a later `id` overwrites an earlier
   one) and the list of top-level item nodes. These are the nodes with
   `itemscope` and no `itemprop`.
2. Each top-level node gets its types and id.
3. Its `itemref` targets are read.
4. Its children are read.
5. `readItem` handles each node by case:
   - A node with `itemprop` and `itemscope` starts a nested item. That item
     collects its `itemref` targets, then its children, and is added under
     every `itemprop` token.
   - A node with only `itemprop` gets a value from a per-tag table: an
     attribute (URL-resolved for the `src`/`href` tags) or the text of its
     subtree. A non-empty value is added under every token, and the children
     are still read into the same item.
   - Any other node just passes its children on.

Modules, one per file:

| file | module | contents |
|---|---|---|
| `wrappers.dfy` | `Wrappers` | `Option` |
| `text.dfy` | `Text` | Go's `strings.TrimSpace` and `strings.Split`, and the token lists built from them |
| `html.dfy` | `Html` | the node tree, `getAttr`, the pre-order walk and text content |
| `items.dfy` | `Items` | `Item`, `Microdata` and their append operations |
| `extract.dfy` | `Extract` | the id index, the top-level locator, the value table, the reader and `Parse` |
| `properties.dfy` | `Properties` | what extraction guarantees: reading only appends; what a subtree appends does not depend on the item it goes into; the `itemref` cases; the top-level list is exact and ordered |
| `examples.dfy` | `Examples` | the self-referencing document of `TestSkipSelfReferencingItemref`, extracted in full |
| `aswritten.dfy` | `AsWritten` | `readItem` without the in-progress check, as the Go code has it (see Findings) |

Representation choices:

- **Node identity.** A node is identified by its child-index path from the
  root (`Html.Path`). The id index maps an id to a `Visit` (path and node).
- **Property map.** Go's `map[string][]interface{}` becomes an association
  list of `Property(name, values)`. `Items.Values(it, name)` is the map lookup,
  with [] for a missing key. Go's map has no order; here an entry sits where
  its name was first added. The extraction contracts speak through
  `Values`. `AddType` and `AddTypes` leave the list itself unchanged, and the
  worked example compares whole items, so there the first-added order shows.
- **URL resolution.** `base.Parse(ref).String()` is the `resolve` function in
  `Extract.Context`. It returns `None` where Go returns an error.
- **Cycle guard.** The reader threads a set `busy` of node paths whose
  `itemref` expansion is in progress:
  - a nested item adds its own node to `busy` before expanding its
    references;
  - an `itemref` target is skipped when it is already in the set;
  - termination is proved on the lexicographic measure (identified nodes not
    yet in `busy`, subtree, rank, position).

  The Go code has no such guard (see Findings).
- **Empty `itemref` pieces.** `itemtype` and `itemprop` pieces are filtered
  for emptiness (microdata.go:126, 180, 235). `itemref` pieces are only
  trimmed (microdata.go:140-145, 164-169). The model follows the code:
  `Extract.RefTokens` keeps empty pieces, so a run of spaces in `itemref`
  looks up the id "".

## Model

| member | source | states |
|---|---|---|
| Text.TrimLeft | microdata.go:124-125 | the result is a suffix of the input; everything cut off is white space in the sense of `unicode.IsSpace`; the result does not start with white space |
| Text.TrimRight | microdata.go:124-125 | the result is a prefix of the input; everything cut off is white space; the result does not end with white space |
| Text.TrimSpace | microdata.go:124-125 | the result is the input with a white-space prefix and a white-space suffix cut off; neither end of the result is white space, so the cut prefix and suffix are the longest ones; an already trimmed string is returned unchanged |
| Text.SplitPieces | microdata.go:124 | no piece of `strings.Split(s, sep)` contains the separator |
| Text.JoinOfSplit | microdata.go:124 | the pieces joined with the separator give back the input, so nothing is lost by splitting |
| Text.SplitOfJoin | microdata.go:124 | splitting a joined list of separator-free pieces gives the pieces back |
| Text.NonEmptyMembers | microdata.go:126-128 | a string survives the empty-piece filter iff it is among the pieces and not "" |
| Text.NonEmptyConcat | microdata.go:124-128 | the filter of a concatenation is the concatenation of the filters, so order and repeated tokens are kept |
| Text.NonEmptyOne | microdata.go:126-128 | a single piece is kept iff it is not "" |
| Text.PiecesClean | microdata.go:124-125 | every trimmed piece is free of spaces and trimmed |
| Text.TokensAreTokens | microdata.go:124-128 | every `itemtype`/`itemprop` token is non-empty, space-free and trimmed |
| Text.PiecesOfJoin | microdata.go:140-141 | a non-empty list of tokens joined by single spaces splits back into exactly those pieces |
| Text.TokensOfJoin | microdata.go:124-128 | tokens joined by single spaces tokenise back into the same list, so tokenising loses only white space |
| Text.SingleToken | microdata.go:124-128 | a single token is its own piece list and its own token list |
| Text.SpacedTokens | microdata_test.go:291-314 | padding and runs of spaces around `itemprop` names produce no extra tokens: `" A  B "` gives `["A", "B"]` |
| Html.LookupFirstMatch | microdata.go:252-259 | the lookup fails iff no attribute has the key; on success it returns the value of the first attribute with the key |
| Html.GetAttrFirstMatch | microdata.go:252-259 | `getAttr` reports absence iff no attribute of the node has the name, and otherwise returns the first matching attribute's value |
| Html.WalkSound | microdata.go:108-118 | every visit of the walk is a node of the tree, found at the visit's path |
| Html.WalkComplete | microdata.go:108-118 | every node of the tree is visited, at its own path |
| Html.WalkOrdered | microdata.go:108-118 | the walk visits nodes in document order |
| Html.TextContentIsWalkText | microdata.go:222-229 | the text value of an element is the concatenation of the text nodes met by a pre-order walk of its subtree |
| Items.NewItem | microdata.go:32-37 | a new item has no values under any name, no types and no id, and is well formed |
| Items.Append | microdata.go:40-47 | appending to a property list adds the value at the end of that name's values and changes no other name |
| Items.Add | microdata.go:40-47 | the value is appended under the name, other names, types and id are kept, well-formedness is kept |
| Items.AddString | microdata.go:40-42 | `AddString` appends the string under the name and changes nothing else |
| Items.AddItem | microdata.go:45-47 | `AddItem` appends the nested item under the name and changes nothing else |
| Items.AddType | microdata.go:50-52 | `AddType` appends one type and keeps properties and id |
| Items.AddTypes | microdata.go:123-129 | the types grow by exactly the given list, in order; properties and id are kept |
| Items.AppendItem | microdata.go:67-69 | `Microdata.AddItem` keeps the earlier items and puts the new one last |
| Items.AppendAll | microdata.go:120-122 | appending the items one by one gives the earlier items followed by the new ones, in order |
| Items.AddToEach | microdata.go:178-183 | adding under every token appends the value to each name once per occurrence of the name among the tokens, and to no other name |
| Items.AddScalar | microdata.go:232-239 | a non-empty value is appended once per token occurrence; an empty value changes nothing |
| Extract.IndexDomain | microdata.go:115-117 | an id is in the index iff some visited node carries it |
| Extract.IndexLastWins | microdata.go:115-117 | the index entry for an id is the last visit, in walk order, that carries the id |
| Extract.TopLevel | microdata.go:108-113 | a visit is listed iff it is in the walk and its node has `itemscope` and no `itemprop` |
| Extract.ValueRule | microdata.go:190-230 | `meta` reads `content`; the seven media tags read `src` and resolve it; `a`, `area` and `link` read `href` and resolve it; `object` reads `data`; `data` and `meter` read `value`; `time` reads `datetime`; exactly those ten tags resolve URLs; every tag outside the switch's fifteen falls back to text content |
| Extract.PropertyValue | microdata.go:190-230 | the value is the text of the subtree for text-valued tags; for attribute-valued tags it is "" when the attribute is missing, the raw attribute when not resolved, and the resolved URL or "" otherwise |
| Extract.ReadItem | microdata.go:158-250 | reading a subtree keeps the item's types and id, keeps the values already there and keeps well-formedness (no empty strings; nested items without types or id); the three branches are stated by `Properties.NestedIsolation`, `Properties.ScalarFanOut` and `Properties.PassThrough` |
| Extract.ReadNested | microdata.go:160-185 | a nested item never has types or an id, and is well formed |
| Extract.ReadRefs | microdata.go:163-171 | expanding `itemref` targets keeps types and id and well-formedness |
| Extract.ReadKids | microdata.go:173-176 | reading the children keeps types and id, keeps the values already there and keeps well-formedness; which children are read, and in which order, is stated by `Properties.KidsDone` and `Properties.KidsInOrder` |
| Extract.ItemId | microdata.go:123-136 | an id is set only when the node has both `itemtype` and `itemid` and the `itemid` resolves, and then it is the resolved URL |
| Extract.BuildRoot | microdata.go:120-152 | a top-level item's types are its `itemtype` tokens, its id is `ItemId`, and it is well formed; what it holds under each name is stated by `Properties.RootHolds` |
| Extract.Parse | microdata.go:96-156 | the parser's earlier items are kept in front; after them comes one item per top-level item node, the i-th built from the i-th top-level node |
| Properties.ReadItemExtends | microdata.go:158-250 | reading a subtree into an item appends, under every name, exactly what reading it into a blank item yields; types and id are kept |
| Properties.ReadRefsExtends | microdata.go:163-171 | the same for expanding an `itemref` list |
| Properties.ReadKidsExtends | microdata.go:173-176 | the same for reading the children |
| Properties.SharedReference | microdata.go:143-145 | two items reading the same referenced node receive the same values from it |
| Properties.PassThrough | microdata.go:245-248 | a node without `itemprop` reads its children into the same item: the item gains, under every name, exactly what its children give |
| Properties.KidsDone | microdata.go:173-176 | past the last child the loop stops and the item is unchanged |
| Properties.KidsInOrder | microdata.go:149-152 | the children are read left to right: under every name, child i's values come after those already there and before those of the later children |
| Properties.OwnThenKids | microdata.go:232-248 | a node without `itemscope` gives its own `itemprop` values first, then its children's |
| Properties.FlatSubtree | microdata.go:158-250 | in a subtree where no node has `itemscope`, the values under every name are those of its `itemprop` nodes, each fanned out over its tokens, in the order the pre-order walk visits them |
| Properties.ScalarFanOut | microdata.go:187-248 | a scalar property node contributes, under each name, the existing values, then its value once per token occurrence (nothing if empty), then what its descendants add |
| Properties.NestedIsolation | microdata.go:159-185 | a nested item node adds only its nested item, once per token occurrence; the nested item holds its `itemref` targets' values followed by its children's |
| Properties.RefsSkipped | microdata.go:163-171 | tokens naming no identified node, or a node already being expanded, contribute nothing |
| Properties.RefsConcat | microdata.go:164-170 | tokens are expanded left to right: expanding `a + b` is expanding `a`, then `b` into the result |
| Properties.RefsInOrder | microdata.go:164-170 | under every name, a token list adds what its first part adds followed by what the rest adds |
| Properties.RefMatched | microdata.go:167-169 | a token naming an identified node that is not in progress reads that node into the item, with the node in progress meanwhile |
| Properties.RefSkippedAmong | microdata.go:167-169 | a token naming no identified node, or a node in progress, contributes nothing wherever it stands among the other tokens |
| Properties.RootHolds | microdata.go:139-152 | a top-level item holds, under every name, its `itemref` targets' values in token order followed by its children's |
| Properties.ParsedItem | microdata.go:120-152 | the item a parse appends for the i-th top-level node holds what that node's `itemref` targets and children give, in that order |
| Properties.ParseAgain | microdata.go:96-156 | a second `Parse` on the same parser returns the document's items twice, because the item list `NewParser` creates is only ever appended to |
| Properties.SelfReference | microdata.go:163-171 | a nested item whose `itemref` names only itself (or unknown or busy nodes) holds exactly what its children give |
| Properties.SharedItemRef | microdata.go:139-147 | two top-level items with the same `itemref` list receive the same values from it, whatever each already holds |
| Properties.TopLevelOrdered | microdata.go:108-113 | the top-level list keeps the walk's document order |
| Properties.RootsExactly | microdata.go:105-113 | the top-level list holds exactly the tree's nodes with `itemscope` and no `itemprop`, at their paths, in document order |
| Properties.IndexInTree | microdata.go:115-117 | every index entry is a node of the tree at its own path |
| Examples.SelfReferencingItemref | microdata_test.go:576-599 | the self-referencing breadcrumb document gives one `WebPage` item whose `child` is an item with no types holding exactly `url` = `http://example.com/foo/bar` and `title` = `Foo` |
| Examples.SelfReferencingItemrefAsWritten | microdata.go:163-171 | without the in-progress check, reading that document's breadcrumb never finishes, whatever the stack depth |
| AsWritten.SelfReferenceDiverges | microdata.go:163-171 | an unguarded nested item node whose `itemref` names itself never finishes, for any recursion depth |
| AsWritten.RefsDiverge | microdata.go:163-171 | expanding an `itemref` list that holds such a self-reference never finishes |

## Left out

- HTML parsing (`NewParser`, the `h5` tree, microdata.go:91-99): the model starts from a node tree. The document node is modelled as an `Element` with no attributes, so its children are walked. Comments and doctypes are `Other`, with no attributes and no children. Tags are lower-case names, as the HTML parser produces them, standing in for `DataAtom`.
- JSON encoding (`Microdata.Json`, microdata.go:72-78): output formatting, outside the extraction logic.
- URL parsing and resolution against the base (`url.URL.Parse`, `String`): the `resolve` parameter of `Extract.Context`. RFC 3986 reference resolution is not modelled.
- The `error` result of `Parse` (microdata.go:155): it is always nil, so `Extract.Parse` returns the items alone.
- Shared item references: Go adds the same `*Item` reference under each `itemprop` token, and appends the top-level item before filling it. Items here are values, and an item is complete when it is added. Nothing reads an item after extraction ends, so the two agree on every output.
- Extract.ReadRefs: the guard changes behaviour only where the unguarded Go code never finishes. That `Extract.ReadItem` agrees with `AsWritten.RawItem` wherever the latter finishes is not proved.
- The guard is not added to top-level items: they expand their `itemref` with an empty in-progress set, as in Go. A top-level item naming its own id therefore reads its children twice, as Go does.

## Findings

| source | as written | input that shows it | evidently intended | confidence | as-written member | corrected member |
|---|---|---|---|---|---|---|
| microdata.go:163-171 | a nested item reads every `itemref` target, with no check for a target already being expanded | `<span id="1" itemscope itemprop="child" itemref="1">…</span>` inside an item (microdata_test.go:576-599): reading the span reads its own `itemref`, which reads the span again, without end | a target already being expanded is skipped, so the nested item holds only its own children's properties and extraction finishes on every tree | high (not executed) | Examples.SelfReferencingItemrefAsWritten | Examples.SelfReferencingItemref |
