/** `SysMLParser.parse`: the line-by-line extraction of packages, elements
    and relations from SysML v2 text, and `_extract_relations`, which reads
    connections, flows and roles off a statement that is not a definition.

    The per-line behaviour is specified by `StepLine`, a function on a
    `Reading` (the graph read so far and the package stack); `ProcessLine`
    and `Parse` are the imperative loop over a `SysMLModel`, proved to
    follow it, and the lemmas at the end state what every parse result
    satisfies. */
module Parser {
  import opened Wrappers
  import opened Seqs
  import opened Text
  import opened Identifiers
  import opened Model
  import opened Definitions
  import opened Patterns
  import opened Shell
  import opened Scopes

  // ---------------------------------------------------------------------
  // Relations read off a statement

  /** The relations recorded for a sequence of matches: both groups are
      cleaned, and a match with an empty end records nothing. */
  function RelationsFrom(ms: seq<Capture>, relation: string, caption: string): seq<Relation>
    decreases |ms|
  {
    if ms == [] then []
    else
      var init := RelationsFrom(ms[..|ms| - 1], relation, caption);
      var m := ms[|ms| - 1];
      var src, dst := CleanIdentifier(m.first), CleanIdentifier(m.second);
      if src != [] && dst != [] then init + [Relation(src, dst, relation, caption)] else init
  }

  /** At most one relation per match, each of the given sort and with two
      non-empty ends. */
  lemma {:induction false} RelationsFromShape(ms: seq<Capture>, relation: string, caption: string)
    ensures var r := RelationsFrom(ms, relation, caption);
      |r| <= |ms| &&
      forall k :: 0 <= k < |r| ==>
        r[k].source != [] && r[k].target != [] && r[k].relation == relation && r[k].caption == caption
    decreases |ms|
  {
    if ms != [] {
      RelationsFromShape(ms[..|ms| - 1], relation, caption);
    }
  }

  /** Every match whose cleaned ends are both non-empty is recorded. */
  lemma {:induction false} RelationsFromKeeps(ms: seq<Capture>, relation: string, caption: string, k: nat)
    requires k < |ms| && CleanIdentifier(ms[k].first) != [] && CleanIdentifier(ms[k].second) != []
    ensures Relation(CleanIdentifier(ms[k].first), CleanIdentifier(ms[k].second), relation, caption)
              in RelationsFrom(ms, relation, caption)
    decreases |ms|
  {
    if k < |ms| - 1 {
      assert ms[..|ms| - 1][k] == ms[k];
      RelationsFromKeeps(ms[..|ms| - 1], relation, caption, k);
    }
  }

  /** When no match has an end that cleans away, there is exactly one
      relation per match, in match order. */
  lemma {:induction false} RelationsFromAll(ms: seq<Capture>, relation: string, caption: string)
    requires forall k :: 0 <= k < |ms| ==> CleanIdentifier(ms[k].first) != [] && CleanIdentifier(ms[k].second) != []
    ensures var r := RelationsFrom(ms, relation, caption);
      |r| == |ms| &&
      forall k :: 0 <= k < |ms| ==>
        r[k] == Relation(CleanIdentifier(ms[k].first), CleanIdentifier(ms[k].second), relation, caption)
    decreases |ms|
  {
    if ms != [] {
      var init := ms[..|ms| - 1];
      assert forall k :: 0 <= k < |init| ==> init[k] == ms[k];
      RelationsFromAll(init, relation, caption);
    }
  }

  /** What `_extract_relations` records for a statement: the connections,
      then the flows, then the roles, each in the order they occur. */
  function LineRelations(line: string): seq<Relation> {
    RelationsFrom(FindAll(Connect, line, 0), "connects", "connects") +
    RelationsFrom(FindAll(Flow, line, 0), "flows", "flows") +
    RelationsFrom(FindAll(Role, line, 0), "typed", "role")
  }

  /** The sort and caption of an extracted relation. */
  predicate ExtractedSort(r: Relation) {
    (r.relation == "connects" && r.caption == "connects") ||
    (r.relation == "flows" && r.caption == "flows") ||
    (r.relation == "typed" && r.caption == "role")
  }

  /** Every relation read off a statement has two non-empty ends and is a
      connection, a flow or a role. */
  lemma LineRelationsShape(line: string)
    ensures forall k :: 0 <= k < |LineRelations(line)| ==>
              LineRelations(line)[k].source != [] && LineRelations(line)[k].target != [] &&
              ExtractedSort(LineRelations(line)[k])
  {
    var c := RelationsFrom(FindAll(Connect, line, 0), "connects", "connects");
    var f := RelationsFrom(FindAll(Flow, line, 0), "flows", "flows");
    var o := RelationsFrom(FindAll(Role, line, 0), "typed", "role");
    RelationsFromShape(FindAll(Connect, line, 0), "connects", "connects");
    RelationsFromShape(FindAll(Flow, line, 0), "flows", "flows");
    RelationsFromShape(FindAll(Role, line, 0), "typed", "role");
    var r := c + f + o;
    forall k | 0 <= k < |r|
      ensures r[k].source != [] && r[k].target != [] && ExtractedSort(r[k])
    {
      if k < |c| {
        assert r[k] == c[k];
      } else if k < |c| + |f| {
        assert r[k] == f[k - |c|];
      } else {
        assert r[k] == o[k - |c| - |f|];
      }
    }
  }

  /** One loop of `_extract_relations` over the matches of one pattern. */
  method AddMatches(model: SysMLModel, ms: seq<Capture>, relation: string, caption: string)
    requires model.Valid()
    modifies model
    ensures model.Valid()
    ensures model.relations == old(model.relations) + RelationsFrom(ms, relation, caption)
    ensures model.nodes == old(model.nodes) && model.nodeIndex == old(model.nodeIndex)
    ensures model.packages == old(model.packages) && model.packageIndex == old(model.packageIndex)
    ensures model.sourcePath == old(model.sourcePath)
  {
    for k := 0 to |ms|
      invariant model.Valid()
      invariant model.relations == old(model.relations) + RelationsFrom(ms[..k], relation, caption)
      invariant model.nodes == old(model.nodes) && model.nodeIndex == old(model.nodeIndex)
      invariant model.packages == old(model.packages) && model.packageIndex == old(model.packageIndex)
      invariant model.sourcePath == old(model.sourcePath)
    {
      assert ms[..k + 1][..k] == ms[..k];
      var src := CleanIdentifier(ms[k].first);
      var dst := CleanIdentifier(ms[k].second);
      if src != [] && dst != [] {
        model.AddRelation(Relation(src, dst, relation, caption));
      }
    }
    assert ms[..|ms|] == ms;
  }

  /** `_extract_relations(line, model)`. */
  method ExtractRelations(line: string, model: SysMLModel)
    requires model.Valid()
    modifies model
    ensures model.Valid()
    ensures model.relations == old(model.relations) + LineRelations(line)
    ensures model.nodes == old(model.nodes) && model.nodeIndex == old(model.nodeIndex)
    ensures model.packages == old(model.packages) && model.packageIndex == old(model.packageIndex)
    ensures model.sourcePath == old(model.sourcePath)
  {
    ghost var before := model.relations;
    var connects := FindAll(Connect, line, 0);
    AddMatches(model, connects, "connects", "connects");
    var flows := FindAll(Flow, line, 0);
    AddMatches(model, flows, "flows", "flows");
    var roles := FindAll(Role, line, 0);
    AddMatches(model, roles, "typed", "role");
    LineRelationsParts(line, before, model.relations);
  }

  lemma LineRelationsParts(line: string, before: seq<Relation>, after: seq<Relation>)
    requires after == before + RelationsFrom(FindAll(Connect, line, 0), "connects", "connects") +
                      RelationsFrom(FindAll(Flow, line, 0), "flows", "flows") +
                      RelationsFrom(FindAll(Role, line, 0), "typed", "role")
    ensures after == before + LineRelations(line)
  {
  }

  // ---------------------------------------------------------------------
  // One line

  /** How `parse` treats a line: as blank (empty or comment only), as a
      package declaration with the cleaned package name, or as a statement
      (the line without its inline comment). */
  datatype LineClass = Blank | Header(name: string) | Statement(code: string)

  function Classify(raw: string): LineClass {
    var line := Strip(raw);
    if line == [] || StartsWith(line, "//") then Blank
    else
      var code := if Contains(line, "//") then Strip(Before(line, "//")) else line;
      if code == [] then Blank
      else
        match PackageHeader(code)
        case Some(group) => Header(CleanIdentifier(group))
        case None => Statement(code)
  }

  /** A statement is non-empty, free of comment markers, and not a package
      declaration. */
  lemma ClassifyStatement(raw: string)
    requires Classify(raw).Statement?
    ensures var code := Classify(raw).code;
      code != [] && !Contains(code, "//") && PackageHeader(code).None?
  {
    var line := Strip(raw);
    if Contains(line, "//") {
      BeforeExcludes(line, "//");
      StripKeepsOut(Before(line, "//"), "//");
    }
  }

  /** The graph read so far. */
  datatype Graph = Graph(packages: seq<Package>, nodes: seq<Element>, relations: seq<Relation>)

  /** The state between two lines: the graph and the open package scopes. */
  datatype Reading = Reading(graph: Graph, stack: seq<PackageContext>)

  /** Reference definition of one iteration of `parse`'s loop. */
  function StepLine(r: Reading, raw: string): Reading {
    var delta := BraceDelta(raw);
    var g := r.graph;
    match Classify(raw)
    case Blank => Reading(g, Rebalance(r.stack, delta))
    case Header(name) =>
      Reading(g.(packages := InsertPackage(g.packages, name)),
              Rebalance(r.stack + [PackageContext(name, 0)], delta))
    case Statement(code) =>
      var d := DefinitionOf(Tokenize(code), CurrentPackage(r.stack));
      var g' := if d.Some? then g.(nodes := InsertNode(g.nodes, d.value), relations := g.relations + DefinitionRelations(d.value))
                else g.(relations := g.relations + LineRelations(code));
      Reading(g', Rebalance(r.stack, delta))
  }

  /** The state after the lines `lines`, read one after the other. */
  function ReadLines(start: Reading, lines: seq<string>): Reading
    decreases |lines|
  {
    if lines == [] then start
    else StepLine(ReadLines(start, lines[..|lines| - 1]), lines[|lines| - 1])
  }

  /** What `parse` starts from: an empty model and no open scope. */
  function Start(): Reading {
    Reading(Graph([], [], []), [])
  }

  /** Reference definition of the graph `parse` returns for `text`: the
      lines of the text without block comments, read in order, and then
      every relation endpoint resolved. */
  function Extracted(text: string): Graph {
    var g := ReadLines(Start(), SplitLines(StripBlockComments(text))).graph;
    Graph(g.packages, WithStubs(g.nodes, Endpoints(g.relations)), g.relations)
  }

  /** A package declaration that opens a brace opens a scope for the
      package, on top of the enclosing ones, and records the package. */
  lemma HeaderOpensScope(r: Reading, raw: string)
    requires Classify(raw).Header? && AllOpen(r.stack) && BraceDelta(raw) > 0
    ensures var name := Classify(raw).name; var r' := StepLine(r, raw);
      r'.stack == r.stack + [PackageContext(name, BraceDelta(raw))] &&
      name in PackageNames(r'.graph.packages) && r'.graph.nodes == r.graph.nodes &&
      r'.graph.relations == r.graph.relations
  {
    var name := Classify(raw).name;
    NewScopeNeedsABrace(r.stack, name, BraceDelta(raw));
    InsertPackageNames(r.graph.packages, name);
  }

  /** Only a statement changes the elements and relations; a statement
      that is a definition records its element in the innermost open
      package (or none) and never reads relations off the text. */
  lemma StatementDefines(r: Reading, raw: string)
    requires Classify(raw).Statement?
    requires DefinitionOf(Tokenize(Classify(raw).code), CurrentPackage(r.stack)).Some?
    ensures var e := DefinitionOf(Tokenize(Classify(raw).code), CurrentPackage(r.stack)).value;
      var r' := StepLine(r, raw);
      Defined(e, CurrentPackage(r.stack)) &&
      r'.graph.nodes == InsertNode(r.graph.nodes, e) &&
      r'.graph.relations == r.graph.relations + DefinitionRelations(e) &&
      r'.graph.packages == r.graph.packages
  {
    DefinitionIsDefined(Tokenize(Classify(raw).code), CurrentPackage(r.stack));
  }

  // ---------------------------------------------------------------------
  // The invariant of the loop

  /** An element as a definition leaves it: named, not external, not of
      kind "package", and in no package or in a declared one. */
  ghost predicate Scoped(e: Element, declared: seq<string>) {
    e.name != [] && !e.external && e.kind != "package" && (e.package == "" || e.package in declared)
  }

  ghost predicate AllScoped(nodes: seq<Element>, declared: seq<string>) {
    forall i :: 0 <= i < |nodes| ==> Scoped(nodes[i], declared)
  }

  predicate EndsNonEmpty(relations: seq<Relation>) {
    forall i :: 0 <= i < |relations| ==> relations[i].source != [] && relations[i].target != []
  }

  ghost predicate OpenDeclared(stack: seq<PackageContext>, declared: seq<string>) {
    forall i :: 0 <= i < |stack| ==> stack[i].name in declared
  }

  /** What holds of the state after every line: package and element names
      are unique, every element is scoped, every relation has two non-empty
      ends, and every open scope is a declared package. */
  ghost predicate Consistent(r: Reading) {
    var declared := PackageNames(r.graph.packages);
    Distinct(declared) && Distinct(Names(r.graph.nodes)) && AllScoped(r.graph.nodes, declared) &&
    EndsNonEmpty(r.graph.relations) && OpenDeclared(r.stack, declared)
  }

  /** Merging into or appending to scoped elements keeps them scoped. */
  lemma {:induction false} InsertNodeScoped(nodes: seq<Element>, node: Element, declared: seq<string>)
    requires AllScoped(nodes, declared) && Scoped(node, declared)
    ensures AllScoped(InsertNode(nodes, node), declared)
  {
    if nodes != [] && nodes[0].name != node.name {
      InsertNodeScoped(nodes[1..], node, declared);
      assert InsertNode(nodes, node) == [nodes[0]] + InsertNode(nodes[1..], node);
    }
  }

  lemma EndsNonEmptyAppend(a: seq<Relation>, b: seq<Relation>)
    requires EndsNonEmpty(a) && EndsNonEmpty(b)
    ensures EndsNonEmpty(a + b)
  {
    assert forall i :: |a| <= i < |a + b| ==> (a + b)[i] == b[i - |a|];
  }

  /** Rebalancing keeps the open scopes among the declared packages. */
  lemma RebalanceDeclared(stack: seq<PackageContext>, delta: int, declared: seq<string>)
    requires OpenDeclared(stack, declared)
    ensures OpenDeclared(Rebalance(stack, delta), declared)
  {
    RebalanceShape(stack, delta);
  }

  lemma HeaderConsistent(r: Reading, name: string, delta: int)
    requires Consistent(r)
    ensures Consistent(Reading(r.graph.(packages := InsertPackage(r.graph.packages, name)),
                               Rebalance(r.stack + [PackageContext(name, 0)], delta)))
  {
    var g := r.graph;
    var declared := PackageNames(g.packages);
    var declared' := PackageNames(InsertPackage(g.packages, name));
    InsertPackageNames(g.packages, name);
    assert forall x :: x in declared ==> x in declared';
    assert AllScoped(g.nodes, declared') by {
      assert forall i :: 0 <= i < |g.nodes| ==> Scoped(g.nodes[i], declared);
    }
    var s := r.stack + [PackageContext(name, 0)];
    assert OpenDeclared(s, declared') by {
      assert forall i :: 0 <= i < |r.stack| ==> s[i] == r.stack[i];
    }
    RebalanceDeclared(s, delta, declared');
  }

  /** A definition is scoped in the state it is read in. */
  lemma DefinitionScoped(r: Reading, tokens: seq<string>)
    requires OpenDeclared(r.stack, PackageNames(r.graph.packages))
    requires DefinitionOf(tokens, CurrentPackage(r.stack)).Some?
    ensures Scoped(DefinitionOf(tokens, CurrentPackage(r.stack)).value, PackageNames(r.graph.packages))
  {
    DefinitionIsDefined(tokens, CurrentPackage(r.stack));
    if r.stack != [] {
      assert r.stack[|r.stack| - 1].name in PackageNames(r.graph.packages);
    }
  }

  lemma DefinitionConsistent(r: Reading, tokens: seq<string>, delta: int)
    requires Consistent(r)
    requires DefinitionOf(tokens, CurrentPackage(r.stack)).Some?
    ensures var e := DefinitionOf(tokens, CurrentPackage(r.stack)).value;
      Consistent(Reading(r.graph.(nodes := InsertNode(r.graph.nodes, e), relations := r.graph.relations + DefinitionRelations(e)),
                         Rebalance(r.stack, delta)))
  {
    var g := r.graph;
    var package := CurrentPackage(r.stack);
    var e := DefinitionOf(tokens, package).value;
    var declared := PackageNames(g.packages);
    DefinitionScoped(r, tokens);
    InsertNodeScoped(g.nodes, e, declared);
    InsertNodeNames(g.nodes, e);
    assert EndsNonEmpty(DefinitionRelations(e)) by {
      DefinitionIsDefined(tokens, package);
      DefinitionRelationsEndpoints(e, package);
    }
    EndsNonEmptyAppend(g.relations, DefinitionRelations(e));
    RebalanceDeclared(r.stack, delta, declared);
  }

  lemma RelationsConsistent(r: Reading, code: string, delta: int)
    requires Consistent(r)
    ensures Consistent(Reading(r.graph.(relations := r.graph.relations + LineRelations(code)), Rebalance(r.stack, delta)))
  {
    LineRelationsShape(code);
    EndsNonEmptyAppend(r.graph.relations, LineRelations(code));
    RebalanceDeclared(r.stack, delta, PackageNames(r.graph.packages));
  }

  /** Every line keeps the state consistent. */
  lemma StepLineConsistent(r: Reading, raw: string)
    requires Consistent(r)
    ensures Consistent(StepLine(r, raw))
  {
    var delta := BraceDelta(raw);
    match Classify(raw)
    case Blank =>
      RebalanceDeclared(r.stack, delta, PackageNames(r.graph.packages));
    case Header(name) =>
      HeaderConsistent(r, name, delta);
    case Statement(code) =>
      var tokens := Tokenize(code);
      if DefinitionOf(tokens, CurrentPackage(r.stack)).Some? {
        DefinitionConsistent(r, tokens, delta);
      } else {
        RelationsConsistent(r, code, delta);
      }
  }

  lemma {:induction false} ReadLinesConsistent(start: Reading, lines: seq<string>)
    requires Consistent(start)
    ensures Consistent(ReadLines(start, lines))
    decreases |lines|
  {
    if lines != [] {
      ReadLinesConsistent(start, lines[..|lines| - 1]);
      StepLineConsistent(ReadLines(start, lines[..|lines| - 1]), lines[|lines| - 1]);
    }
  }

  /** What every parse result satisfies: package and element names are
      unique; every relation has two non-empty ends, each naming an element;
      no element is of kind "package";
      every element that is not external belongs to no package or to a
      declared one; the external ones are stubs for relation endpoints and
      all come after the others. */
  lemma ExtractedShape(text: string)
    ensures var g := Extracted(text);
      Distinct(PackageNames(g.packages)) && Distinct(Names(g.nodes)) &&
      (forall r :: r in g.relations ==> r.source != [] && r.target != [] &&
                                         r.source in Names(g.nodes) && r.target in Names(g.nodes)) &&
      (forall i :: 0 <= i < |g.nodes| ==> g.nodes[i].kind != "package") &&
      (forall i :: 0 <= i < |g.nodes| && !g.nodes[i].external ==>
                     g.nodes[i].package == "" || g.nodes[i].package in PackageNames(g.packages)) &&
      (forall i :: 0 <= i < |g.nodes| && g.nodes[i].external ==>
                     g.nodes[i] == Stub(g.nodes[i].name) && g.nodes[i].name in Endpoints(g.relations)) &&
      (forall i, j :: 0 <= i < j < |g.nodes| && g.nodes[i].external ==> g.nodes[j].external)
  {
    var r := ReadLines(Start(), SplitLines(StripBlockComments(text)));
    ReadLinesConsistent(Start(), SplitLines(StripBlockComments(text)));
    var g := r.graph;
    var ends := Endpoints(g.relations);
    WithStubsShape(g.nodes, ends);
    EndpointsResolved(g.nodes, g.relations);
    var nodes := WithStubs(g.nodes, ends);
    assert forall i :: 0 <= i < |g.nodes| ==> nodes[i] == g.nodes[i];
    forall r | r in g.relations
      ensures r.source != [] && r.target != []
    {
      var k :| 0 <= k < |g.relations| && g.relations[k] == r;
    }
  }

  // ---------------------------------------------------------------------
  // The imperative parser

  /** The graph a model holds. */
  function GraphOf(model: SysMLModel): Graph
    reads model
  {
    Graph(model.packages, model.nodes, model.relations)
  }

  /** One iteration of `parse`'s loop over the model and the package stack. */
  method ProcessLine(model: SysMLModel, stack: seq<PackageContext>, raw: string) returns (stack': seq<PackageContext>)
    requires model.Valid()
    modifies model
    ensures model.Valid()
    ensures Reading(GraphOf(model), stack') == StepLine(Reading(old(GraphOf(model)), stack), raw)
    ensures model.sourcePath == old(model.sourcePath)
  {
    ghost var r := Reading(GraphOf(model), stack);
    var line := Strip(raw);
    if line == [] || StartsWith(line, "//") {
      stack' := UpdateStack(stack, raw);
      StepBlank(r, raw);
      return;
    }
    if Contains(line, "//") {
      line := Strip(Before(line, "//"));
      if line == [] {
        stack' := UpdateStack(stack, raw);
        StepBlank(r, raw);
        return;
      }
    }
    var packageMatch := PackageHeader(line);
    if packageMatch.Some? {
      var packageName := CleanIdentifier(packageMatch.value);
      var s := stack + [PackageContext(packageName, 0)];
      var _ := model.AddPackage(packageName);
      stack' := UpdateStack(s, raw);
      StepHeader(r, raw, packageName);
      return;
    }
    assert Classify(raw) == Statement(line);
    var currentPackage := if stack == [] then "" else stack[|stack| - 1].name;
    var tokens := Tokenize(line);
    var parsed := false;
    if tokens != [] {
      parsed := ParseDefinition(tokens, currentPackage, model);
    }
    if !parsed {
      ExtractRelations(line, model);
    }
    stack' := UpdateStack(stack, raw);
    StepStatement(r, raw, line);
  }

  lemma StepBlank(r: Reading, raw: string)
    requires Classify(raw) == Blank
    ensures StepLine(r, raw) == Reading(r.graph, Rebalance(r.stack, BraceDelta(raw)))
  {
  }

  lemma StepHeader(r: Reading, raw: string, name: string)
    requires Classify(raw) == Header(name)
    ensures StepLine(r, raw) == Reading(r.graph.(packages := InsertPackage(r.graph.packages, name)),
                                        Rebalance(r.stack + [PackageContext(name, 0)], BraceDelta(raw)))
  {
  }

  lemma StepStatement(r: Reading, raw: string, code: string)
    requires Classify(raw) == Statement(code)
    ensures var d := DefinitionOf(Tokenize(code), CurrentPackage(r.stack));
      StepLine(r, raw) ==
        Reading(if d.Some? then r.graph.(nodes := InsertNode(r.graph.nodes, d.value),
                                          relations := r.graph.relations + DefinitionRelations(d.value))
                else r.graph.(relations := r.graph.relations + LineRelations(code)),
                Rebalance(r.stack, BraceDelta(raw)))
  {
  }

  /** `parse(text, source_path=...)`. */
  method Parse(text: string, sourcePath: string) returns (model: SysMLModel)
    ensures fresh(model) && model.Valid()
    ensures GraphOf(model) == Extracted(text)
    ensures model.sourcePath == sourcePath
  {
    var cleaned := StripBlockComments(text);
    model := new SysMLModel(sourcePath);
    var stack: seq<PackageContext> := [];
    var lines := SplitLines(cleaned);
    for i := 0 to |lines|
      invariant model.Valid() && model.sourcePath == sourcePath
      invariant Reading(GraphOf(model), stack) == ReadLines(Start(), lines[..i])
    {
      assert lines[..i + 1][..i] == lines[..i];
      stack := ProcessLine(model, stack, lines[i]);
    }
    assert lines[..|lines|] == lines;
    model.EnsureRelationNodes();
  }
}
