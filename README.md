# mkdocs-sysmlv2 core, modelled in Dafny

mkdocs-sysmlv2 turns SysML v2 text into a diagram. Its core has three
parts:

- **The graph container** (`SysMLModel`, model.py). It holds packages,
  elements and relations. Names are unique, kept so by two indexes. When
  an element arrives under a name that already exists, it is merged into
  the stored record. A relation endpoint that names no element gets an
  external stub.
- **The line-oriented extractor** (`SysMLParser`, parser.py). It removes
  block comments and reads the text line by line, keeping a stack of open
  package scopes that follows the net braces. A package declaration is
  recorded as a package. Any other statement is first read as a
  definition (kind, flavour, name, then types or parents after a
  classifier). When that fails, connections, flows and roles are read off
  it with three regular expressions.
- **The layout engine** (`SysMLRenderer`, renderer.py). It draws one
  column per package and stacks the cards of each column top to bottom.
  It draws a straight edge between the centres of the two cards of each
  relation whose ends are both placed, and sizes the canvas to fit.

The project has one module per concern:

| file | contents |
|---|---|
| `wrappers.dfy` | `Option` and `Result` |
| `seqs.dfy` | distinctness, first-seen deduplication (`dict.fromkeys`) and the order-keeping extension used by every list merge |
| `text.dfy` | the Python `str` operations the core relies on |
| `model.dfy` | the entities as datatypes, and `SysMLModel` as a class whose methods update its lists and indexes in place |
| `identifiers.dfy` | identifier cleaning, `_unique`, `_collect_identifiers` and block-comment removal |
| `shell.dfy` | the POSIX shell-style word splitter that `_tokenize` calls |
| `definitions.dfy` | `_parse_definition` |
| `patterns.dfy` | the connection, flow, role and package-header regular expressions, matched character by character |
| `scopes.dfy` | the package stack and `_update_stack` |
| `parser.dfy` | `parse` and `_extract_relations` |
| `renderer.dfy` | the layout engine |
| `pipeline.dfy` | what parsing and drawing guarantee together |

Where the source computes by changing state step by step, the model does
the same: a class with `modifies` clauses, or a method with a loop. Each
such method is proved equal to a reference function, and the properties
are proved about that function as lemmas. This applies to the loops of
`parse`, of `_parse_definition` and of the renderer.

`parse` is specified by `Parser.StepLine`, a function that reads one line
into a `Reading`: the graph read so far plus the package stack.
`Parser.Parse` is the imperative loop over a `SysMLModel`. It is proved to
return `Parser.Extracted(text)`. `Parser.ExtractedShape` then states what
every parse result satisfies.

The drawing is modelled as structured data rather than as SVG text: the
canvas size, the column labels, the edges and the cards with their text.
`Renderer.SvgOf` is the reference definition of `render_svg`.

### Behaviour of the code worth knowing

The model follows the code in each of these cases.

- A statement is always read as a definition first. A line such as
  `connect A to C;` therefore defines an element `A` of kind "connect",
  and records no `connects` relation. The connection pattern fires only
  when the definition reading fails, for example when the line cannot be
  split into words (`Definitions.ConnectReadsAsDefinition`).
- A line that starts with the word `package`, white space and a name
  records the package and opens its scope, and nothing else on that line
  is read. `package {`, `package;` and `packageX` are no headers
  (`Patterns.PackageHeader`); such lines are read as statements. A one-line
  `package P { part A : B; connect A to C; }` yields only the package `P`
  (`Parser.StepHeader`, `Parser.HeaderOpensScope`).
- An empty drawing is titled "SysML model" when no title is given. A
  non-empty drawing keeps the title it was given, even when it is empty
  (`Renderer.SvgKind`).

### Representation choices

- Every `Optional[str]` of the source is a `string`, with `""` for `None`:
  package, flavour, caption, package description and source path. The
  core tests each of these by truthiness or by comparison with a
  non-empty literal (`node.flavor == "def"`, parser.py:163). In both
  tests `None` and `""` agree.
- The name indexes of `SysMLModel` map a name to a position in its list.
  The source maps a name to the stored object itself. So the in-place
  update of the shared record in `add_node` becomes replacing `nodes[i]`
  by its merge.
- The package stack is a sequence value that is passed into and out of
  each step, because only `parse` holds it.
- Every coordinate is an `int`. With the engine's constants, every
  coordinate is an even integer, the halved ones included, so the
  source's float arithmetic is exact.

## Model

| member | source | states |
|---|---|---|
| Model.Stub | src/mkdocs_sysmlv2/model.py:93-97 | the record made for an undefined endpoint has that name, kind "external", external set, no package, flavour or lists |
| Model.IndexedNamesAreDistinct | src/mkdocs_sysmlv2/model.py:44-50 | a name index that agrees with its list means the list has no repeated name, and the index holds exactly the listed names |
| Model.UnionFieldExtends | src/mkdocs_sysmlv2/model.py:67-78 | a list field is left alone when no items arrive; otherwise it becomes repeat-free and holds the items of both lists, the existing ones in place with the new ones appended |
| Model.MergeKeepsRicherInformation | src/mkdocs_sysmlv2/model.py:61-80 | a merge keeps the name, kind and flavour of the stored record and its package once known; its lists hold the items of both records and are unchanged when nothing arrives; it stays external only if both records are |
| Model.MergeAppendsNewItems | src/mkdocs_sysmlv2/model.py:67-78 | merging into repeat-free lists appends only the new items, in first-seen order, and keeps the lists repeat-free |
| Model.InsertNodeNew | src/mkdocs_sysmlv2/model.py:82-84 | an element under a new name is appended unchanged |
| Model.InsertNodeKeepsOthers | src/mkdocs_sysmlv2/model.py:61-84 | records under other names keep their positions and contents |
| Model.InsertNodeAt | src/mkdocs_sysmlv2/model.py:62-80 | with unique names, an element under a known name is merged into the record of that name in place, and nothing else changes |
| Model.InsertNodeNames | src/mkdocs_sysmlv2/model.py:61-84 | adding an element adds its name exactly when the name is new, so names stay unique |
| Model.InsertPackageNames | src/mkdocs_sysmlv2/model.py:52-59 | adding a package adds its name exactly when the name is new |
| Model.Endpoints | src/mkdocs_sysmlv2/model.py:90-91 | the endpoints are visited relation by relation, the source before the target |
| Model.WithStubsShape | src/mkdocs_sysmlv2/model.py:89-97 | resolving endpoints only appends; each appended record is a stub for one of the endpoints; afterwards every endpoint names a record; names stay unique |
| Model.WithStubsConcat | src/mkdocs_sysmlv2/model.py:90-97 | resolving two lists of endpoints one after the other is resolving their concatenation |
| Model.WithStubsOne | src/mkdocs_sysmlv2/model.py:92-97 | a single endpoint adds a stub exactly when no record has its name |
| Model.EndpointsResolved | src/mkdocs_sysmlv2/model.py:89-97 | after resolution, both ends of every relation name an element |
| Model.SysMLModel.constructor | src/mkdocs_sysmlv2/model.py:44-50 | a new model is empty, its indexes agree with its lists, and it keeps the source path |
| Model.SysMLModel.AddPackage | src/mkdocs_sysmlv2/model.py:52-59 | returns the package of that name and appends one only on first use; the elements and relations are untouched |
| Model.SysMLModel.AddNode | src/mkdocs_sysmlv2/model.py:61-84 | the element list becomes its reference insertion; the list grows only for a new name; returns the merged record for a known name and the element itself for a new one; the index gains exactly the name |
| Model.SysMLModel.MergeAt | src/mkdocs_sysmlv2/model.py:62-80 | the stored record absorbs the arriving one in place; the index and the other lists are unchanged |
| Model.SysMLModel.AppendNode | src/mkdocs_sysmlv2/model.py:82-84 | a new element is appended and indexed at its position |
| Model.SysMLModel.AddRelation | src/mkdocs_sysmlv2/model.py:86-87 | a relation is appended unconditionally, duplicates included, and nothing else changes |
| Model.SysMLModel.ResolveEndpoint | src/mkdocs_sysmlv2/model.py:92-97 | one endpoint is resolved: a stub is appended unless an element of that name exists |
| Model.SysMLModel.ResolveRelation | src/mkdocs_sysmlv2/model.py:91-97 | both ends of one relation are resolved, the source first |
| Model.SysMLModel.EnsureRelationNodes | src/mkdocs_sysmlv2/model.py:89-97 | every endpoint of every relation is resolved in order, after which both ends of each relation are indexed; relations and packages are untouched |
| Seqs.Extend | src/mkdocs_sysmlv2/model.py:67-78 | the existing items stay as a prefix, the result holds the items of both lists, and it keeps a repeat-free prefix repeat-free |
| Seqs.Dedup | src/mkdocs_sysmlv2/parser.py:232 | `dict.fromkeys` yields a repeat-free list of exactly the input's values |
| Seqs.DedupFirstSeenOrder | src/mkdocs_sysmlv2/parser.py:232 | the values come out in the order of their first occurrence |
| Seqs.DedupOfDistinct | src/mkdocs_sysmlv2/model.py:68-69 | a repeat-free list is returned unchanged |
| Seqs.DedupAfterDistinct | src/mkdocs_sysmlv2/model.py:67-78 | deduplicating a repeat-free list followed by new items keeps the list and appends the items not yet present, in first-seen order |
| Text.LowerAt | src/mkdocs_sysmlv2/parser.py:96 | lower-casing maps each character separately and keeps the length |
| Text.LowerOfLowerCase | src/mkdocs_sysmlv2/parser.py:129 | a string with no upper-case letter is its own lower case |
| Text.TrimStartSpec | src/mkdocs_sysmlv2/parser.py:180 | left stripping removes the longest prefix of dropped characters and no more |
| Text.TrimEndSpec | src/mkdocs_sysmlv2/parser.py:180 | right stripping removes the longest suffix of dropped characters and no more |
| Text.Before | src/mkdocs_sysmlv2/parser.py:52 | the text before the first separator is a prefix of the line, and is the whole line when there is no separator |
| Text.BeforeExcludes | src/mkdocs_sysmlv2/parser.py:51-52 | the text before the first separator does not contain the separator |
| Text.StripKeepsOut | src/mkdocs_sysmlv2/parser.py:52 | stripping white space cannot create an occurrence of a marker |
| Text.NextBreak | src/mkdocs_sysmlv2/parser.py:40 | finds the first line break at or after a position |
| Text.SplitLines | src/mkdocs_sysmlv2/parser.py:40 | the lines of a text contain no line-break character |
| Identifiers.CleanIdentifierShape | src/mkdocs_sysmlv2/parser.py:179-181 | a cleaned identifier is no longer than its token and neither starts nor ends with a quote |
| Identifiers.CleanPlainIdentifier | src/mkdocs_sysmlv2/parser.py:179-181 | a token without punctuation or quotes at its ends is kept as it is |
| Identifiers.CleanTrailingPunctuation | src/mkdocs_sysmlv2/parser.py:180 | a trailing separator or terminator is cut off a plain identifier |
| Identifiers.CleanPunctuationOnly | src/mkdocs_sysmlv2/parser.py:179-181 | a token made only of punctuation cleans to nothing |
| Identifiers.NonEmpty | src/mkdocs_sysmlv2/parser.py:232 | the filter keeps exactly the non-empty values and never lengthens the list |
| Identifiers.NonEmptyKeepsOrder | src/mkdocs_sysmlv2/parser.py:232 | the filter keeps the first-occurrence order of the values it keeps, in both directions |
| Identifiers.Unique | src/mkdocs_sysmlv2/parser.py:231-232 | `_unique` returns a repeat-free list of exactly the non-empty input values |
| Identifiers.UniqueFirstSeenOrder | src/mkdocs_sysmlv2/parser.py:231-232 | `_unique` lists the values in the order of their first occurrence |
| Identifiers.UniqueOfIdentifiers | src/mkdocs_sysmlv2/parser.py:144-145 | deduplicating a list of usable identifiers keeps it usable |
| Identifiers.CloseAt | src/mkdocs_sysmlv2/parser.py:81 | finds the first comment closer at or after a position, or reports that there is none |
| Identifiers.StripBlockComments | src/mkdocs_sysmlv2/parser.py:80-81 | removing block comments never lengthens the text |
| Identifiers.StripWithoutComments | src/mkdocs_sysmlv2/parser.py:80-81 | a text without a comment opener is left unchanged |
| Identifiers.StripLeadingComment | src/mkdocs_sysmlv2/parser.py:80-81 | a leading comment disappears up to its first closer, line breaks included, and the rest is processed alone |
| Identifiers.CollectedAreIdentifiers | src/mkdocs_sysmlv2/parser.py:168-177 | every collected entry is non-empty and is no stop word |
| Identifiers.CollectedStopsAt | src/mkdocs_sysmlv2/parser.py:174-175 | collection stops at the first stop word, and what follows it is ignored |
| Identifiers.CollectedWithoutStop | src/mkdocs_sysmlv2/parser.py:170-176 | without a stop word, every token that cleans to something is collected |
| Identifiers.CollectedStep | src/mkdocs_sysmlv2/parser.py:170-176 | one token is skipped, ends the collection, or is appended |
| Identifiers.CollectIdentifiers | src/mkdocs_sysmlv2/parser.py:168-177 | the loop returns the reference collection |
| Shell.ScanUnquoted | src/mkdocs_sysmlv2/parser.py:83-87 | a text without quotes or backslashes always splits, into non-empty words without white space |
| Shell.TokenizeUnquoted | src/mkdocs_sysmlv2/parser.py:83-87 | a line without quotes or backslashes splits into non-empty words without white space |
| Definitions.ReadKind | src/mkdocs_sysmlv2/parser.py:95-106 | "use" "case" and "value" "type" (in any case) are read as the one kind "use case" or "value type", and both words are consumed; a leading "individual" with another word after it becomes the only modifier, and the lower-cased second word is the kind; otherwise the lower-cased first word is the kind and only it is consumed; the rest is always the input less one or two leading words |
| Definitions.PlainKind | src/mkdocs_sysmlv2/parser.py:96 | a first word that starts no two-word kind and is no modifier is the kind, with no modifier |
| Definitions.ClassifierIgnoresCase | src/mkdocs_sysmlv2/parser.py:129-132 | lower-casing a token does not change whether it is a classifier, nor which one |
| Definitions.FirstClassifier | src/mkdocs_sysmlv2/parser.py:125-137 | finds the position of the first classifier token, or reports that there is none |
| Definitions.ReadFlavor | src/mkdocs_sysmlv2/parser.py:111-113 | a "def" or "usage" word is taken as the flavour exactly when it comes first, and the flavour is then that word lower-cased; otherwise nothing is consumed |
| Definitions.Classification | src/mkdocs_sysmlv2/parser.py:122-137 | types and parents are never both read, and neither is read without a classifier |
| Definitions.ClassificationAt | src/mkdocs_sysmlv2/parser.py:125-137 | the first classifier decides: ":" collects types, ":>" and ":>>" collect parents, and the search stops there |
| Definitions.DefinitionOf | src/mkdocs_sysmlv2/parser.py:89-147 | no tokens define nothing; a definition has a non-empty name, is in the given scope, and is not external |
| Definitions.SpecializesRelations | src/mkdocs_sysmlv2/parser.py:150-155 | one "specializes" relation from the element to each parent, in order |
| Definitions.TypedRelations | src/mkdocs_sysmlv2/parser.py:157-165 | one "typed" relation from the element to each type, in order, captioned "typed by" for a definition and "uses" otherwise |
| Definitions.ClassificationIdentifiers | src/mkdocs_sysmlv2/parser.py:131-135 | the type and parent lists hold usable identifiers only |
| Definitions.DefinitionIsDefined | src/mkdocs_sysmlv2/parser.py:89-147 | a definition is named, in its scope, of a kind other than "package", with repeat-free lists of which at most one is non-empty |
| Definitions.DefinitionRelationsShape | src/mkdocs_sysmlv2/parser.py:150-165 | the relations of a definition are repeat-free and are all "specializes" or all "typed" |
| Definitions.DefinitionRelationsEndpoints | src/mkdocs_sysmlv2/parser.py:150-165 | every relation of a definition starts at the element and ends at a non-empty identifier |
| Definitions.PackageKeywordIsNoDefinition | src/mkdocs_sysmlv2/parser.py:104-109 | a statement starting with "package", or with "individual package", is no definition |
| Definitions.NoNameNoDefinition | src/mkdocs_sysmlv2/parser.py:115-116 | a statement with no word left after its kind and flavour is no definition |
| Definitions.KeywordsOnlyNoDefinition | src/mkdocs_sysmlv2/parser.py:98-116 | a two-word statement made of "use case", "value type", "individual" and one word, or a kind and a flavour, is no definition |
| Definitions.EmptyNameNoDefinition | src/mkdocs_sysmlv2/parser.py:118-120 | a statement whose name word cleans to nothing is no definition |
| Definitions.PunctuationNameNoDefinition | src/mkdocs_sysmlv2/parser.py:118-120 | a plain kind followed by a word made only of punctuation is no definition |
| Definitions.ClassifiedIdentifiers | src/mkdocs_sysmlv2/parser.py:118-147 | a plain `kind name ... : ids` statement defines that name and kind, and every identifier after the first classifier is a type (for ":") or a parent (otherwise) |
| Definitions.DefinitionFromParts | src/mkdocs_sysmlv2/parser.py:89-147 | the element is assembled from the kind, flavour, cleaned name, scope, deduplicated lists and modifiers |
| Definitions.ConnectReadsAsDefinition | src/mkdocs_sysmlv2/parser.py:96-147 | `connect a to b` is read as a definition of `a`, of kind "connect", with no lists |
| Definitions.ReadDefinition | src/mkdocs_sysmlv2/parser.py:92-147 | the statement-reading loop returns the reference definition |
| Definitions.ReadClassification | src/mkdocs_sysmlv2/parser.py:122-137 | the classifier search loop returns the reference classification |
| Definitions.ParseDefinition | src/mkdocs_sysmlv2/parser.py:89-166 | answers true exactly for a definition; then adds its element and records its relations; otherwise leaves the elements and relations untouched; never touches the packages |
| Definitions.AddDefinitionRelations | src/mkdocs_sysmlv2/parser.py:150-165 | records the parent relations then the type relations, and nothing else changes |
| Patterns.ConnectAt | src/mkdocs_sysmlv2/parser.py:14-16 | a connection match has two non-empty groups and ends within the line |
| Patterns.FlowAt | src/mkdocs_sysmlv2/parser.py:17-19 | a flow match has two non-empty groups and ends within the line |
| Patterns.RoleAt | src/mkdocs_sysmlv2/parser.py:20-23 | a role match has two non-empty groups and ends within the line |
| Patterns.MatchAt | src/mkdocs_sysmlv2/parser.py:14-23 | a match of any of the three patterns has two non-empty groups |
| Patterns.FindAll | src/mkdocs_sysmlv2/parser.py:184 | every match the scan finds has two non-empty groups |
| Patterns.PackageHeader | src/mkdocs_sysmlv2/parser.py:57 | a package header starts with the word "package" in any case and captures a non-empty name |
| Patterns.PackageHeaderFinds | src/mkdocs_sysmlv2/parser.py:57 | "package" in any case, white space, then a name running up to a space, a `{` or the end, is a header capturing exactly that name |
| Patterns.SpacedWordFinds | src/mkdocs_sysmlv2/parser.py:15 | text shaped as white space, a word and white space is matched with exactly that word |
| Patterns.TargetFinds | src/mkdocs_sysmlv2/parser.py:15 | a target running up to white space, a `;` or the end is captured exactly |
| Patterns.RoleNameFinds | src/mkdocs_sysmlv2/parser.py:21 | a role name followed by a colon is captured exactly |
| Patterns.ConnectAtFinds | src/mkdocs_sysmlv2/parser.py:14-16 | `connect a to b` or `connect a with b` is matched with exactly its two endpoints |
| Patterns.ConnectKeyword | src/mkdocs_sysmlv2/parser.py:15 | whichever of "to" and "with" occurs is the one skipped |
| Patterns.FlowAtFinds | src/mkdocs_sysmlv2/parser.py:17-19 | `from a to b` is matched with exactly its two endpoints |
| Patterns.RoleKeywordFound | src/mkdocs_sysmlv2/parser.py:21 | the role keyword that occurs is the one whose length is taken |
| Patterns.RoleAtFinds | src/mkdocs_sysmlv2/parser.py:20-23 | `port p : T` and its siblings are matched with exactly the name and the type, with or without spaces around the colon |
| Patterns.SpacedWordMatches | src/mkdocs_sysmlv2/parser.py:15 | what a spaced group captures has the shape the pattern describes, and is maximal |
| Patterns.TargetMatches | src/mkdocs_sysmlv2/parser.py:15 | a captured target holds target characters only, and the next character does not extend it |
| Patterns.PackageHeaderMatches | src/mkdocs_sysmlv2/parser.py:57 | a captured package name is preceded only by "package" and white space, holds no space or `{`, and is maximal |
| Patterns.ConnectAtMatches | src/mkdocs_sysmlv2/parser.py:14-16 | a connection match starts with "connect", its first group has no white space, and its second group is maximal |
| Scopes.RebalanceShape | src/mkdocs_sysmlv2/parser.py:222-229 | rebalancing only pops scopes and adjusts the new top, which is left open |
| Scopes.RebalanceShift | src/mkdocs_sysmlv2/parser.py:222-229 | adding the line's net braces to the top and then rebalancing with nothing added gives the same stack |
| Scopes.UpdateStack | src/mkdocs_sysmlv2/parser.py:217-229 | the loop returns the reference rebalancing; an empty stack stays empty; the stack never grows; its top is always open |
| Scopes.RebalanceDepth | src/mkdocs_sysmlv2/parser.py:217-229 | every scope left stays open, and the brace depth changes by the line's net braces, going to zero with an empty stack once the outermost scope closes |
| Scopes.RebalanceZero | src/mkdocs_sysmlv2/parser.py:217-229 | a line without net braces leaves an all-open stack unchanged |
| Scopes.ClosingTwoNestedScopes | src/mkdocs_sysmlv2/parser.py:224-229 | two nested scopes that close on the same line are both popped, and the enclosing scopes are uncovered unchanged |
| Scopes.NewScopeNeedsABrace | src/mkdocs_sysmlv2/parser.py:60-62 | a package scope survives its own line exactly when the line opens braces, and then holds them |
| Parser.RelationsFromShape | src/mkdocs_sysmlv2/parser.py:183-215 | at most one relation per match, each of the given sort and caption, with two non-empty ends |
| Parser.RelationsFromKeeps | src/mkdocs_sysmlv2/parser.py:187-195 | a match whose two ends clean to something is recorded |
| Parser.RelationsFromAll | src/mkdocs_sysmlv2/parser.py:183-215 | when no end cleans away, there is exactly one relation per match, in match order |
| Parser.LineRelationsShape | src/mkdocs_sysmlv2/parser.py:183-215 | every relation read off a statement has two non-empty ends and is a connection, a flow or a role |
| Parser.AddMatches | src/mkdocs_sysmlv2/parser.py:184-195 | one loop over the matches of a pattern records the reference relations, and nothing else changes |
| Parser.ExtractRelations | src/mkdocs_sysmlv2/parser.py:183-215 | records the connections, then the flows, then the roles of the line, and nothing else changes |
| Parser.ClassifyStatement | src/mkdocs_sysmlv2/parser.py:41-57 | a statement is non-empty, free of comment markers, and no package declaration |
| Parser.HeaderOpensScope | src/mkdocs_sysmlv2/parser.py:57-63 | a package declaration that opens a brace pushes a scope for the package, records the package, and adds no element or relation |
| Parser.StatementDefines | src/mkdocs_sysmlv2/parser.py:65-75 | a definition is recorded in the innermost open package, or in none, and no relation is read off its text |
| Parser.InsertNodeScoped | src/mkdocs_sysmlv2/parser.py:70 | adding a scoped element to scoped elements keeps them all scoped |
| Parser.HeaderConsistent | src/mkdocs_sysmlv2/parser.py:57-63 | a package declaration keeps the parse state consistent |
| Parser.DefinitionScoped | src/mkdocs_sysmlv2/parser.py:65-70 | a definition is scoped in the state it is read in |
| Parser.DefinitionConsistent | src/mkdocs_sysmlv2/parser.py:65-75 | a definition keeps the parse state consistent |
| Parser.RelationsConsistent | src/mkdocs_sysmlv2/parser.py:72-75 | relations read off a statement keep the parse state consistent |
| Parser.StepLineConsistent | src/mkdocs_sysmlv2/parser.py:40-75 | every line keeps the parse state consistent: unique names, scoped elements, non-empty relation ends, declared open scopes |
| Parser.ReadLinesConsistent | src/mkdocs_sysmlv2/parser.py:40-75 | any sequence of lines keeps the parse state consistent |
| Parser.ExtractedShape | src/mkdocs_sysmlv2/parser.py:35-78 | every parse result has unique package and element names; every relation has two non-empty ends, each naming an element; no element is a package; each defined element is in no package or a declared one; the external ones are stubs for endpoints and come after all the others |
| Parser.StepBlank | src/mkdocs_sysmlv2/parser.py:42-55 | a blank or comment-only line only rebalances the stack |
| Parser.StepHeader | src/mkdocs_sysmlv2/parser.py:57-63 | a package line records the package, pushes its scope and rebalances; the rest of the line is ignored |
| Parser.StepStatement | src/mkdocs_sysmlv2/parser.py:65-75 | a statement records its definition, or else the relations read off it, and rebalances the stack |
| Parser.ProcessLine | src/mkdocs_sysmlv2/parser.py:41-75 | one iteration of the loop leaves the model and stack that the reference step gives |
| Parser.Parse | src/mkdocs_sysmlv2/parser.py:35-78 | returns a fresh, consistent model holding the reference graph for the text, with the given source path |
| Renderer.DrawableShape | src/mkdocs_sysmlv2/renderer.py:42 | exactly the elements that are not packages are drawn, each once when names are unique |
| Renderer.DrawableAll | src/mkdocs_sysmlv2/renderer.py:42 | when no element is a package, all of them are drawn in order |
| Renderer.OccupiedDeclaredShape | src/mkdocs_sysmlv2/renderer.py:118-120 | the first columns are exactly the declared packages that have an element, repeat-free when the declarations are |
| Renderer.ColumnsShape | src/mkdocs_sysmlv2/renderer.py:111-129 | the columns are never empty; they are repeat-free when the declarations are; they start with the occupied declared packages, in declaration order; every element's column is among them; no column is empty except the lone global column of a drawing with no elements |
| Renderer.ColumnsDedup | src/mkdocs_sysmlv2/renderer.py:118-125 | with repeat-free declarations and some element, the columns are the first-seen deduplication of the occupied declared packages followed by the column of every element |
| Renderer.ColumnsUndeclared | src/mkdocs_sysmlv2/renderer.py:122-125 | after the occupied declared packages come exactly the columns of elements whose package is not declared |
| Renderer.ColumnsUndeclaredOrder | src/mkdocs_sysmlv2/renderer.py:122-125 | those undeclared columns come in the order their packages first occur among the elements |
| Renderer.PackageColumns | src/mkdocs_sysmlv2/renderer.py:111-129 | the loops return the reference columns |
| Renderer.ColumnShape | src/mkdocs_sysmlv2/renderer.py:142-146 | a column holds exactly the elements of its package, in order, each once when names are unique |
| Renderer.ColumnEmpty | src/mkdocs_sysmlv2/renderer.py:150 | a package with no element has an empty column |
| Renderer.GroupColumns | src/mkdocs_sysmlv2/renderer.py:135-146 | the grouping loop gives every column its elements, with `[]` for any package not listed |
| Renderer.PlaceColumnKeys | src/mkdocs_sysmlv2/renderer.py:148-155 | stacking a column places its cards and leaves other names alone |
| Renderer.PlaceColumnAt | src/mkdocs_sysmlv2/renderer.py:148-155 | the k-th card of column c lands at the column's left edge and the k-th row |
| Renderer.StackColumn | src/mkdocs_sysmlv2/renderer.py:149-155 | the inner loop places one column as the reference does |
| Renderer.GridStep | src/mkdocs_sysmlv2/renderer.py:152-155 | consecutive columns and rows are one card and one gap apart, and start at even coordinates |
| Renderer.LayoutKeys | src/mkdocs_sysmlv2/renderer.py:131-157 | every element whose column is listed is placed, and nothing else is |
| Renderer.LayoutAt | src/mkdocs_sysmlv2/renderer.py:148-155 | with unique names and columns, the k-th element of column c is placed at `x = margin_x + c * (node_width + gap_x)` and `y = margin_y + k * (node_height + gap_y)` |
| Renderer.LayoutBox | src/mkdocs_sysmlv2/renderer.py:131-157 | every placement lies in one of the columns, within the rows the tallest column needs |
| Renderer.LayoutNodes | src/mkdocs_sysmlv2/renderer.py:131-157 | the loops return the reference layout |
| Renderer.TallyCounts | src/mkdocs_sysmlv2/renderer.py:159-166 | counts are kept for every listed column and every occupied one, and each is the size of that column |
| Renderer.TallySum | src/mkdocs_sysmlv2/renderer.py:159-166 | when every element's column is listed, the counts add up to the number of elements |
| Renderer.RowCounts | src/mkdocs_sysmlv2/renderer.py:159-166 | the loop returns the reference counts |
| Renderer.MaxCountIsMax | src/mkdocs_sysmlv2/renderer.py:50 | the maximum bounds every count and is one of them |
| Renderer.MaxCountBounds | src/mkdocs_sysmlv2/renderer.py:50 | the maximum over a key list bounds each key's count, and is zero or one of the counts |
| Renderer.RowsCover | src/mkdocs_sysmlv2/renderer.py:48-50 | the canvas has at least one row and room for the tallest column |
| Renderer.CanvasFits | src/mkdocs_sysmlv2/renderer.py:168-184 | the canvas ends one margin past the last column and the last row, and never shrinks below one card plus margins |
| Renderer.InsideCanvas | src/mkdocs_sysmlv2/renderer.py:168-184 | a card on the grid stays a full margin inside the canvas |
| Renderer.EdgeGeometry | src/mkdocs_sysmlv2/renderer.py:235-243 | an edge runs from card centre to card centre with its label exactly halfway, captioned by the label or else the relation kind |
| Renderer.EdgesAllPlaced | src/mkdocs_sysmlv2/renderer.py:228-250 | never more edges than relations; every relation is drawn, in order, exactly when both ends of each are placed |
| Renderer.RenderEdges | src/mkdocs_sysmlv2/renderer.py:228-250 | the loop returns the reference edges |
| Renderer.CardStyle | src/mkdocs_sysmlv2/renderer.py:194-211 | a card is styled external exactly for an external element; the meta line lists kind, flavour and modifiers in that order; there is one detail line per non-empty list of parents and types |
| Renderer.CardsAllPlaced | src/mkdocs_sysmlv2/renderer.py:186-226 | never more cards than elements; every element gets its card, in order, exactly when every element is placed |
| Renderer.CardsAtPlacements | src/mkdocs_sysmlv2/renderer.py:190-193 | every card is drawn at its element's placement |
| Renderer.RenderNodes | src/mkdocs_sysmlv2/renderer.py:186-226 | the loop returns the reference cards |
| Renderer.LabelsCentred | src/mkdocs_sysmlv2/renderer.py:252-265 | each label is centred over its column and halfway down the top margin; it reads "Global" for the global column and the package name otherwise |
| Renderer.RenderPackageLabels | src/mkdocs_sysmlv2/renderer.py:252-265 | the loop returns the reference labels |
| Renderer.SvgKind | src/mkdocs_sysmlv2/renderer.py:41-109 | the prolog is written exactly for a stand-alone document; there is a diagram exactly when some element is not a package; otherwise a 480 by 200 placeholder, titled "SysML model" when no title is given, describing the source path or "No elements found"; a diagram describes its source only when there is one |
| Renderer.ColumnsCover | src/mkdocs_sysmlv2/renderer.py:122-129 | every element's column is among the columns, and there is at least one |
| Renderer.PlacedNames | src/mkdocs_sysmlv2/renderer.py:131-157 | with every element's column listed, exactly the elements are placed |
| Renderer.DrawingGrid | src/mkdocs_sysmlv2/renderer.py:46-50 | every drawn element is placed, within the rows the canvas is sized for, in one of the columns |
| Renderer.CardsOnCanvas | src/mkdocs_sysmlv2/renderer.py:49-53 | when every element is placed on the grid, each gets its card, in order, a full margin inside the canvas |
| Renderer.DiagramCards | src/mkdocs_sysmlv2/renderer.py:41-53 | every element that is not a package gets exactly one card, in model order, a full margin inside the canvas |
| Renderer.DiagramEdges | src/mkdocs_sysmlv2/renderer.py:42-51 | every relation is drawn exactly when both ends of every relation are drawn elements |
| Renderer.RenderFormats | src/mkdocs_sysmlv2/renderer.py:31-39 | only "svg" and "html" are accepted; "html" wraps the inline document in a figure whatever `inline` says; any other format fails with "Unsupported format '...'" |
| Renderer.RenderSvg | src/mkdocs_sysmlv2/renderer.py:41-83 | returns the reference drawing of the model |
| Renderer.Render | src/mkdocs_sysmlv2/renderer.py:31-39 | returns the reference rendering, or the unsupported-format failure |
| Pipeline.ParsedDrawable | src/mkdocs_sysmlv2/parser.py:35-78 | a parse result has no element of kind "package", and every relation's two ends name elements |
| Pipeline.ParsedDrawnInFull | src/mkdocs_sysmlv2/renderer.py:41-53 | a parsed model is drawn as a diagram exactly when it has an element, and then with one card per element and one edge per relation |

### Reference definitions

Each function below is the model's definition of a piece of the source.
Its properties are stated by the lemmas and methods named after it.

- `Model.Merge` (model.py:62-80): `Model.MergeKeepsRicherInformation`,
  `Model.MergeAppendsNewItems`, `Model.SysMLModel.MergeAt`.
- `Model.InsertNode` (model.py:61-84): `Model.InsertNodeNew`,
  `Model.InsertNodeKeepsOthers`, `Model.InsertNodeAt`,
  `Model.InsertNodeNames`, `Model.SysMLModel.AddNode`.
- `Model.InsertPackage` (model.py:52-59): `Model.InsertPackageNames`,
  `Model.SysMLModel.AddPackage`.
- `Model.WithStubs` (model.py:89-97): `Model.WithStubsShape`,
  `Model.WithStubsConcat`, `Model.WithStubsOne`, `Model.EndpointsResolved`,
  `Model.SysMLModel.EnsureRelationNodes`.
- `Identifiers.CleanIdentifier` (parser.py:179-181):
  `Identifiers.CleanIdentifierShape`, `Identifiers.CleanPlainIdentifier`,
  `Identifiers.CleanTrailingPunctuation`, `Identifiers.CleanPunctuationOnly`.
- `Identifiers.Collected` (parser.py:168-177):
  `Identifiers.CollectedAreIdentifiers`, `Identifiers.CollectedStopsAt`,
  `Identifiers.CollectedWithoutStop`, `Identifiers.CollectedStep`,
  `Identifiers.CollectIdentifiers`.
- `Shell.Tokenize` (parser.py:83-87): `Shell.TokenizeUnquoted`,
  `Shell.ScanUnquoted`.
- `Scopes.Rebalance` (parser.py:222-229): `Scopes.RebalanceShape`,
  `Scopes.RebalanceShift`, `Scopes.RebalanceDepth`, `Scopes.RebalanceZero`,
  `Scopes.ClosingTwoNestedScopes`, `Scopes.UpdateStack`.
- `Scopes.BraceDelta` (parser.py:221): the net braces that
  `Scopes.UpdateStack`, `Scopes.NewScopeNeedsABrace`, `Parser.StepBlank`,
  `Parser.StepHeader` and `Parser.StepStatement` add to the top scope.
- `Parser.Classify` (parser.py:41-63): `Parser.ClassifyStatement`,
  `Parser.StepBlank`, `Parser.StepHeader`, `Parser.StepStatement`.
- `Parser.StepLine` (parser.py:40-75): `Parser.StepBlank`,
  `Parser.StepHeader`, `Parser.StepStatement`, `Parser.HeaderOpensScope`,
  `Parser.StatementDefines`, `Parser.StepLineConsistent`,
  `Parser.ProcessLine`.
- `Parser.Extracted` (parser.py:35-78): `Parser.ExtractedShape`,
  `Parser.Parse`, `Pipeline.ParsedDrawable`.
- `Parser.LineRelations` (parser.py:183-215): `Parser.LineRelationsShape`,
  `Parser.ExtractRelations`.
- `Renderer.Drawable` (renderer.py:42): `Renderer.DrawableShape`,
  `Renderer.DrawableAll`.
- `Renderer.Columns` (renderer.py:111-129): `Renderer.ColumnsShape`,
  `Renderer.ColumnsDedup`, `Renderer.ColumnsUndeclared`,
  `Renderer.ColumnsUndeclaredOrder`, `Renderer.ColumnsCover`,
  `Renderer.PackageColumns`.
- `Renderer.Column` (renderer.py:135-146): `Renderer.ColumnShape`,
  `Renderer.ColumnEmpty`, `Renderer.GroupColumns`.
- `Renderer.Layout` (renderer.py:131-157): `Renderer.LayoutKeys`,
  `Renderer.LayoutAt`, `Renderer.LayoutBox`, `Renderer.PlacedNames`,
  `Renderer.LayoutNodes`.
- `Renderer.Tally` (renderer.py:159-166): `Renderer.TallyCounts`,
  `Renderer.TallySum`, `Renderer.RowCounts`.
- `Renderer.CanvasWidth` (renderer.py:168-175) and `Renderer.CanvasHeight`
  (renderer.py:177-184): `Renderer.CanvasFits`, `Renderer.InsideCanvas`,
  `Renderer.RowsCover`.
- `Renderer.EdgeOf` and `Renderer.Edges` (renderer.py:228-250):
  `Renderer.EdgeGeometry`, `Renderer.EdgesAllPlaced`,
  `Renderer.DiagramEdges`, `Renderer.RenderEdges`.
- `Renderer.CardOf` and `Renderer.Cards` (renderer.py:186-226):
  `Renderer.CardStyle`, `Renderer.CardsAllPlaced`,
  `Renderer.CardsAtPlacements`, `Renderer.CardsOnCanvas`,
  `Renderer.DiagramCards`, `Renderer.RenderNodes`.
- `Renderer.Labels` (renderer.py:252-265): `Renderer.LabelsCentred`,
  `Renderer.RenderPackageLabels`.
- `Renderer.EmptySvg` (renderer.py:85-109) and `Renderer.SvgOf`
  (renderer.py:41-83): `Renderer.SvgKind`, `Renderer.DiagramCards`,
  `Renderer.DiagramEdges`, `Renderer.RenderSvg`,
  `Pipeline.ParsedDrawnInFull`.
- `Renderer.RenderOf` (renderer.py:31-39): `Renderer.RenderFormats`,
  `Renderer.Render`.

## Left out

- plugin.py is not part of this model. It is the MkDocs glue that finds
  the fenced blocks and files and writes the rendered output.
- The SVG and HTML text is not modelled byte for byte. This covers the
  markup strings, `_style_block` (renderer.py:267-313), the arrow marker
  and `html.escape`. The drawing is modelled as the data the markup is
  printed from: canvas size, title, description, labels, edges and cards.
- Python prints coordinates as floats (`146.0`). The model keeps them as
  the integers they equal.
- `SysMLRenderer`'s fields are constants that nothing changes, so the
  renderer is a module of constants and functions, not a class.
- `max(row_counts.values())` is computed over the column list rather
  than over the dictionary's values. `TallyCounts`
  shows the two have the same keys, and `MaxCountIsMax` shows that such a
  maximum is the dictionary's maximum.
- `html.unescape` in `_clean_identifier` is the identity. Entity decoding
  is a foreign library table.
- Case mapping (`lower`, `re.IGNORECASE`) and `\w` cover ASCII only.
  Python's Unicode tables are not modelled.
- Shell.Tokenize: `shlex.split` is modelled with the default POSIX
  settings: quotes, backslash escapes and " \t\r\n" as separators. Other
  `shlex` settings are not modelled, and no lemma describes quoted input.
- The exception `render` raises for an unknown format becomes a `Failure`
  value, and the `ValueError` that `shlex` raises becomes the empty token
  list, as `_tokenize` makes it.
- Reading the source file is outside the core and is not modelled. The
  source path is a parameter.
- `SysMLPackage.description` is stored but the core never sets or reads
  it, so no property is stated about it.
