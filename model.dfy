/** The graph container of the extractor: packages, elements and relations,
    kept in first-seen order and indexed by name.

    Python's `None` in the optional string fields (`description`, `flavor`,
    `package`, `label`, `source_path`) is the empty string here
    (a relation's `label` is called `caption`, `label` being a Dafny keyword): the core
    only ever tests these fields for truthiness or compares them with a non-empty
    literal (`flavor == "def"`), and in both tests `None` and `""` agree. */
module Model {
  import opened Seqs

  datatype Package = Package(name: string, description: string)

  datatype Relation = Relation(source: string, target: string, relation: string, caption: string)

  datatype Element = Element(
    name: string,
    kind: string,
    flavor: string,
    package: string,
    typeOf: seq<string>,
    specializes: seq<string>,
    modifiers: seq<string>,
    external: bool)

  /** The record synthesised for a relation endpoint that was never defined. */
  function Stub(name: string): (e: Element)
    ensures e.name == name && e.kind == "external" && e.external
    ensures e.package == "" && e.flavor == ""
    ensures e.typeOf == [] && e.specializes == [] && e.modifiers == []
  {
    Element(name, "external", "", "", [], [], [], true)
  }

  function Names(nodes: seq<Element>): (r: seq<string>)
    ensures |r| == |nodes|
    ensures forall i :: 0 <= i < |nodes| ==> r[i] == nodes[i].name
  {
    seq(|nodes|, i requires 0 <= i < |nodes| => nodes[i].name)
  }

  function PackageNames(packages: seq<Package>): (r: seq<string>)
    ensures |r| == |packages|
    ensures forall i :: 0 <= i < |packages| ==> r[i] == packages[i].name
  {
    seq(|packages|, i requires 0 <= i < |packages| => packages[i].name)
  }

  /** `index` maps each name of `names` to its position, and nothing else. */
  ghost predicate Indexes(names: seq<string>, index: map<string, nat>) {
    (forall i :: 0 <= i < |names| ==> names[i] in index && index[names[i]] == i) &&
    (forall n :: n in index ==> index[n] < |names| && names[index[n]] == n)
  }

  /** Appending a new name extends its index by the last position. */
  lemma IndexesAppend(names: seq<string>, index: map<string, nat>, n: string)
    requires Indexes(names, index) && n !in index
    ensures Indexes(names + [n], index[n := |names|])
  {
    var names', index' := names + [n], index[n := |names|];
    forall i | 0 <= i < |names'|
      ensures names'[i] in index' && index'[names'[i]] == i
    {
      if i < |names| {
        assert names'[i] == names[i] && names[i] in index;
      }
    }
  }

  /** Replacing a record by one of the same name keeps the names. */
  lemma NamesUpdate(nodes: seq<Element>, i: nat, e: Element)
    requires i < |nodes| && e.name == nodes[i].name
    ensures Names(nodes[i := e]) == Names(nodes)
  {
  }

  lemma IndexedNamesAreDistinct(names: seq<string>, index: map<string, nat>)
    requires Indexes(names, index)
    ensures Distinct(names)
    ensures forall n :: n in index <==> n in names
  {
    forall i, j | 0 <= i < j < |names| ensures names[i] != names[j] {
      assert index[names[i]] == i && index[names[j]] == j;
    }
  }

  /** A list field as `add_node` merges it: untouched when nothing arrives,
      otherwise `list(dict.fromkeys(existing + incoming))`. */
  function UnionField(existing: seq<string>, incoming: seq<string>): seq<string> {
    if incoming == [] then existing else Dedup(existing + incoming)
  }

  /** The merged list keeps the existing items in place and appends the new
      ones in first-seen order, each once. */
  lemma UnionFieldExtends(existing: seq<string>, incoming: seq<string>)
    ensures incoming == [] ==> UnionField(existing, incoming) == existing
    ensures incoming != [] ==> Distinct(UnionField(existing, incoming))
    ensures incoming != [] && Distinct(existing) ==> UnionField(existing, incoming) == Extend(existing, incoming)
    ensures forall x :: x in UnionField(existing, incoming) <==> x in existing || x in incoming
  {
    if incoming != [] && Distinct(existing) {
      DedupAfterDistinct(existing, incoming);
    }
  }

  /** The record `add_node` leaves behind when `node` arrives under the name
      of `existing`. */
  function Merge(existing: Element, node: Element): Element {
    existing.(
      package := if existing.package == "" && node.package != "" then node.package else existing.package,
      specializes := UnionField(existing.specializes, node.specializes),
      typeOf := UnionField(existing.typeOf, node.typeOf),
      modifiers := UnionField(existing.modifiers, node.modifiers),
      external := existing.external && node.external)
  }

  /** Merging preserves whichever information is richer: the identity of
      the first record, a package once known, every list item of either
      record, and `external` only if both records are external. */
  lemma MergeKeepsRicherInformation(existing: Element, node: Element)
    ensures var r := Merge(existing, node);
      r.name == existing.name && r.kind == existing.kind && r.flavor == existing.flavor &&
      r.package == (if existing.package != "" then existing.package else node.package) &&
      r.external == (existing.external && node.external) &&
      (forall x :: x in r.specializes <==> x in existing.specializes || x in node.specializes) &&
      (forall x :: x in r.typeOf <==> x in existing.typeOf || x in node.typeOf) &&
      (forall x :: x in r.modifiers <==> x in existing.modifiers || x in node.modifiers) &&
      (node.specializes == [] ==> r.specializes == existing.specializes) &&
      (node.typeOf == [] ==> r.typeOf == existing.typeOf) &&
      (node.modifiers == [] ==> r.modifiers == existing.modifiers)
  {
    UnionFieldExtends(existing.specializes, node.specializes);
    UnionFieldExtends(existing.typeOf, node.typeOf);
    UnionFieldExtends(existing.modifiers, node.modifiers);
  }

  /** Merging into a record whose lists have no repeats appends the new
      items of each list after the existing ones and keeps it repeat-free. */
  lemma MergeAppendsNewItems(existing: Element, node: Element)
    requires Distinct(existing.specializes) && Distinct(existing.typeOf) && Distinct(existing.modifiers)
    ensures var r := Merge(existing, node);
      r.specializes == Extend(existing.specializes, node.specializes) &&
      r.typeOf == Extend(existing.typeOf, node.typeOf) &&
      r.modifiers == Extend(existing.modifiers, node.modifiers) &&
      Distinct(r.specializes) && Distinct(r.typeOf) && Distinct(r.modifiers)
  {
    UnionFieldExtends(existing.specializes, node.specializes);
    UnionFieldExtends(existing.typeOf, node.typeOf);
    UnionFieldExtends(existing.modifiers, node.modifiers);
  }

  /** Reference definition of the node list after `add_node`, without an
      index: merge into the record of the same name, or append. */
  function InsertNode(nodes: seq<Element>, node: Element): seq<Element> {
    if nodes == [] then [node]
    else if nodes[0].name == node.name then [Merge(nodes[0], node)] + nodes[1..]
    else [nodes[0]] + InsertNode(nodes[1..], node)
  }

  /** A name not yet present is appended with its record as it is. */
  lemma {:induction false} InsertNodeNew(nodes: seq<Element>, node: Element)
    requires forall k :: 0 <= k < |nodes| ==> nodes[k].name != node.name
    ensures InsertNode(nodes, node) == nodes + [node]
  {
    if nodes != [] {
      InsertNodeNew(nodes[1..], node);
      assert [nodes[0]] + (nodes[1..] + [node]) == nodes + [node];
    }
  }

  /** Records under other names keep their positions. */
  lemma {:induction false} InsertNodeKeepsOthers(nodes: seq<Element>, node: Element, i: nat)
    requires i < |nodes| && nodes[i].name != node.name
    ensures |InsertNode(nodes, node)| > i && InsertNode(nodes, node)[i] == nodes[i]
  {
    if i > 0 && nodes[0].name != node.name {
      InsertNodeKeepsOthers(nodes[1..], node, i - 1);
    }
  }

  /** With names kept distinct, the reference merge lands on the record at
      the position the index stores. */
  lemma {:induction false} InsertNodeAt(nodes: seq<Element>, node: Element, i: nat)
    requires Distinct(Names(nodes))
    requires i < |nodes| && nodes[i].name == node.name
    ensures InsertNode(nodes, node) == nodes[i := Merge(nodes[i], node)]
  {
    if i > 0 {
      assert Distinct(Names(nodes[1..])) by {
        assert forall k :: 0 <= k < |nodes| - 1 ==> Names(nodes[1..])[k] == Names(nodes)[k + 1];
      }
      assert nodes[0].name != node.name by {
        assert Names(nodes)[0] != Names(nodes)[i];
      }
      InsertNodeAt(nodes[1..], node, i - 1);
      assert nodes[i := Merge(nodes[i], node)] == [nodes[0]] + nodes[1..][i - 1 := Merge(nodes[i], node)];
    }
  }

  /** With names kept distinct, `add_node` adds the name if it is new and
      otherwise keeps the names as they are, so they stay distinct. */
  lemma InsertNodeNames(nodes: seq<Element>, node: Element)
    requires Distinct(Names(nodes))
    ensures Names(InsertNode(nodes, node)) ==
              if node.name in Names(nodes) then Names(nodes) else Names(nodes) + [node.name]
    ensures Distinct(Names(InsertNode(nodes, node)))
  {
    if node.name in Names(nodes) {
      var i :| 0 <= i < |nodes| && Names(nodes)[i] == node.name;
      InsertNodeAt(nodes, node, i);
      NamesUpdate(nodes, i, Merge(nodes[i], node));
    } else {
      InsertNodeNew(nodes, node);
      assert Names(nodes + [node]) == Names(nodes) + [node.name];
    }
  }

  /** Reference definition of the package list after `add_package`. */
  function InsertPackage(packages: seq<Package>, name: string): seq<Package> {
    if name in PackageNames(packages) then packages else packages + [Package(name, "")]
  }

  /** `add_package` adds the name if it is new and otherwise leaves the
      packages as they are. */
  lemma InsertPackageNames(packages: seq<Package>, name: string)
    ensures PackageNames(InsertPackage(packages, name)) ==
              if name in PackageNames(packages) then PackageNames(packages) else PackageNames(packages) + [name]
  {
    if name !in PackageNames(packages) {
      assert PackageNames(packages + [Package(name, "")]) == PackageNames(packages) + [name];
    }
  }

  /** Every relation endpoint, source before target, relation by relation. */
  function Endpoints(relations: seq<Relation>): (r: seq<string>)
    ensures |r| == 2 * |relations|
    ensures forall k :: 0 <= k < |relations| ==> r[2 * k] == relations[k].source && r[2 * k + 1] == relations[k].target
  {
    if relations == [] then []
    else Endpoints(relations[..|relations| - 1]) + [relations[|relations| - 1].source, relations[|relations| - 1].target]
  }

  /** The node list after the endpoints `ends` have been resolved one by one,
      a stub being appended for each name not yet present. */
  function WithStubs(nodes: seq<Element>, ends: seq<string>): seq<Element>
    decreases |ends|
  {
    if ends == [] then nodes
    else
      var n := WithStubs(nodes, ends[..|ends| - 1]);
      var e := ends[|ends| - 1];
      if e in Names(n) then n else n + [Stub(e)]
  }

  /** Resolution only appends, a stub per missing name; afterwards every
      endpoint names a record, and names stay unique. */
  lemma {:induction false} WithStubsShape(nodes: seq<Element>, ends: seq<string>)
    ensures var r := WithStubs(nodes, ends);
      |nodes| <= |r| && r[..|nodes|] == nodes &&
      (forall e :: e in ends ==> e in Names(r)) &&
      (forall i :: |nodes| <= i < |r| ==> r[i] == Stub(r[i].name) && r[i].name in ends) &&
      (Distinct(Names(nodes)) ==> Distinct(Names(r)))
    decreases |ends|
  {
    if ends != [] {
      var init := ends[..|ends| - 1];
      WithStubsShape(nodes, init);
      var n := WithStubs(nodes, init);
      var e := ends[|ends| - 1];
      assert forall x :: x in ends <==> x in init || x == e;
      if e !in Names(n) {
        assert Names(n + [Stub(e)]) == Names(n) + [e];
      }
    }
  }

  /** `SysMLModel`: the parsed document's packages, elements and relations. */
  class SysMLModel {
    var sourcePath: string
    var nodes: seq<Element>
    var relations: seq<Relation>
    var packages: seq<Package>
    var nodeIndex: map<string, nat>
    var packageIndex: map<string, nat>

    /** Both indexes agree with their lists, so names are unique in each. */
    ghost predicate Valid()
      reads this
    {
      Indexes(Names(nodes), nodeIndex) && Indexes(PackageNames(packages), packageIndex)
    }

    constructor (sourcePath: string)
      ensures Valid()
      ensures this.sourcePath == sourcePath
      ensures nodes == [] && relations == [] && packages == []
    {
      this.sourcePath := sourcePath;
      nodes, relations, packages := [], [], [];
      nodeIndex, packageIndex := map[], map[];
    }

    /** `add_package`: returns the package of that name, creating and
        appending it on first use. */
    method AddPackage(name: string) returns (p: Package)
      requires Valid()
      modifies this
      ensures Valid()
      ensures packages == InsertPackage(old(packages), name)
      ensures name in old(packageIndex) ==> packages == old(packages)
      ensures name !in old(packageIndex) ==> packages == old(packages) + [Package(name, "")]
      ensures name in packageIndex && p == packages[packageIndex[name]] && p.name == name
      ensures nodes == old(nodes) && nodeIndex == old(nodeIndex)
      ensures relations == old(relations) && sourcePath == old(sourcePath)
    {
      IndexedNamesAreDistinct(PackageNames(packages), packageIndex);
      if name in packageIndex {
        p := packages[packageIndex[name]];
        return;
      }
      p := Package(name, "");
      packages := packages + [p];
      packageIndex := packageIndex[name := |packages| - 1];
    }

    /** `add_node`: merges into the record of the same name, or appends;
        returns the record now stored under that name. */
    method AddNode(node: Element) returns (r: Element)
      requires Valid()
      modifies this
      ensures Valid()
      ensures nodes == InsertNode(old(nodes), node)
      ensures |nodes| == |old(nodes)| + (if node.name in old(nodeIndex) then 0 else 1)
      ensures node.name in old(nodeIndex) ==>
                r == Merge(old(nodes)[old(nodeIndex)[node.name]], node)
      ensures node.name !in old(nodeIndex) ==> r == node
      ensures node.name in nodeIndex && r == nodes[nodeIndex[node.name]]
      ensures nodeIndex.Keys == old(nodeIndex).Keys + {node.name}
      ensures packages == old(packages) && packageIndex == old(packageIndex)
      ensures relations == old(relations) && sourcePath == old(sourcePath)
    {
      IndexedNamesAreDistinct(Names(nodes), nodeIndex);
      if node.name in nodeIndex {
        var i := nodeIndex[node.name];
        InsertNodeAt(nodes, node, i);
        r := MergeAt(i, node);
        return;
      }
      InsertNodeNew(nodes, node);
      AppendNode(node);
      r := node;
    }

    /** The merging half of `add_node`: the record at position `i` absorbs
        `node`, which carries the same name. */
    method MergeAt(i: nat, node: Element) returns (r: Element)
      requires Valid() && i < |nodes| && nodes[i].name == node.name
      modifies this
      ensures Valid()
      ensures r == Merge(old(nodes)[i], node) && nodes == old(nodes)[i := r]
      ensures nodeIndex == old(nodeIndex)
      ensures packages == old(packages) && packageIndex == old(packageIndex)
      ensures relations == old(relations) && sourcePath == old(sourcePath)
    {
      r := Merge(nodes[i], node);
      NamesUpdate(nodes, i, r);
      nodes := nodes[i := r];
    }

    /** The appending half of `add_node`, for a name not yet present. */
    method AppendNode(node: Element)
      requires Valid() && node.name !in nodeIndex
      modifies this
      ensures Valid()
      ensures nodes == old(nodes) + [node] && nodeIndex == old(nodeIndex)[node.name := |old(nodes)|]
      ensures packages == old(packages) && packageIndex == old(packageIndex)
      ensures relations == old(relations) && sourcePath == old(sourcePath)
    {
      IndexesAppend(Names(nodes), nodeIndex, node.name);
      assert Names(nodes + [node]) == Names(nodes) + [node.name];
      nodes := nodes + [node];
      nodeIndex := nodeIndex[node.name := |nodes| - 1];
    }

    /** `add_relation`: an unconditional append; duplicates are kept. */
    method AddRelation(relation: Relation)
      requires Valid()
      modifies this
      ensures Valid()
      ensures relations == old(relations) + [relation]
      ensures nodes == old(nodes) && nodeIndex == old(nodeIndex)
      ensures packages == old(packages) && packageIndex == old(packageIndex)
      ensures sourcePath == old(sourcePath)
    {
      relations := relations + [relation];
    }

    /** One step of `ensure_relation_nodes`: a stub for `endpoint` unless
        an element of that name exists. */
    method ResolveEndpoint(endpoint: string)
      requires Valid()
      modifies this
      ensures Valid()
      ensures nodes == WithStubs(old(nodes), [endpoint])
      ensures relations == old(relations)
      ensures packages == old(packages) && packageIndex == old(packageIndex)
      ensures sourcePath == old(sourcePath)
    {
      IndexedNamesAreDistinct(Names(nodes), nodeIndex);
      WithStubsOne(nodes, endpoint);
      if endpoint !in nodeIndex {
        InsertNodeNew(nodes, Stub(endpoint));
        var _ := AddNode(Stub(endpoint));
      }
    }

    /** The inner loop of `ensure_relation_nodes`: both endpoints of one
        relation, source first. */
    method ResolveRelation(relation: Relation)
      requires Valid()
      modifies this
      ensures Valid()
      ensures nodes == WithStubs(old(nodes), [relation.source, relation.target])
      ensures relations == old(relations)
      ensures packages == old(packages) && packageIndex == old(packageIndex)
      ensures sourcePath == old(sourcePath)
    {
      var ends := [relation.source, relation.target];
      assert ends[..0] == [];
      for j := 0 to 2
        invariant Valid()
        invariant nodes == WithStubs(old(nodes), ends[..j])
        invariant relations == old(relations)
        invariant packages == old(packages) && packageIndex == old(packageIndex)
        invariant sourcePath == old(sourcePath)
      {
        WithStubsConcat(old(nodes), ends[..j], [ends[j]]);
        assert ends[..j + 1] == ends[..j] + [ends[j]];
        ResolveEndpoint(ends[j]);
      }
      assert ends[..2] == ends;
    }

    /** `ensure_relation_nodes`: appends an external stub for every relation
        endpoint that names no element, so that every endpoint resolves. */
    method EnsureRelationNodes()
      requires Valid()
      modifies this
      ensures Valid()
      ensures nodes == WithStubs(old(nodes), Endpoints(relations))
      ensures forall r :: r in relations ==> r.source in nodeIndex && r.target in nodeIndex
      ensures relations == old(relations)
      ensures packages == old(packages) && packageIndex == old(packageIndex)
      ensures sourcePath == old(sourcePath)
    {
      for i := 0 to |relations|
        invariant relations == old(relations)
        invariant Valid()
        invariant nodes == WithStubs(old(nodes), Endpoints(relations[..i]))
        invariant packages == old(packages) && packageIndex == old(packageIndex)
        invariant sourcePath == old(sourcePath)
      {
        EndpointsStep(relations, i);
        WithStubsConcat(old(nodes), Endpoints(relations[..i]), [relations[i].source, relations[i].target]);
        ResolveRelation(relations[i]);
      }
      assert relations[..|relations|] == relations;
      EndpointsResolved(old(nodes), relations);
      IndexedNamesAreDistinct(Names(nodes), nodeIndex);
    }
  }

  lemma EndpointsStep(relations: seq<Relation>, i: nat)
    requires i < |relations|
    ensures Endpoints(relations[..i + 1]) == Endpoints(relations[..i]) + [relations[i].source, relations[i].target]
  {
    assert relations[..i + 1][..i] == relations[..i];
  }

  /** Resolving two lists of endpoints in turn is resolving their concatenation. */
  lemma {:induction false} WithStubsConcat(nodes: seq<Element>, a: seq<string>, b: seq<string>)
    ensures WithStubs(nodes, a + b) == WithStubs(WithStubs(nodes, a), b)
    decreases |b|
  {
    if b == [] {
      assert a + b == a;
    } else {
      var b' := b[..|b| - 1];
      WithStubsConcat(nodes, a, b');
      assert (a + b)[..|a + b| - 1] == a + b';
    }
  }

  /** Resolving a single endpoint. */
  lemma WithStubsOne(nodes: seq<Element>, e: string)
    ensures WithStubs(nodes, [e]) == if e in Names(nodes) then nodes else nodes + [Stub(e)]
  {
    assert [e][..0] == [];
  }

  /** After resolving all endpoints, both ends of every relation name an element. */
  lemma EndpointsResolved(nodes: seq<Element>, relations: seq<Relation>)
    ensures forall r :: r in relations ==>
              r.source in Names(WithStubs(nodes, Endpoints(relations))) &&
              r.target in Names(WithStubs(nodes, Endpoints(relations)))
  {
    WithStubsShape(nodes, Endpoints(relations));
    forall r | r in relations
      ensures r.source in Endpoints(relations) && r.target in Endpoints(relations)
    {
      var k :| 0 <= k < |relations| && relations[k] == r;
      assert Endpoints(relations)[2 * k] == r.source;
      assert Endpoints(relations)[2 * k + 1] == r.target;
    }
  }
}
