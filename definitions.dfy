/** Reading one statement as an element definition or usage
    (`_parse_definition` in parser.py): a kind word, an optional flavour,
    a name, and after the first classifier (`:` typed by, `:>` or `:>>`
    specializes) a list of identifiers. */
module Definitions {
  import opened Wrappers
  import opened Seqs
  import opened Text
  import opened Identifiers
  import opened Model

  /** The kind read from the front of a statement, the modifiers met on the
      way, and the tokens that follow. */
  datatype Head = Head(kind: string, modifiers: seq<string>, rest: seq<string>)

  /** The kind word, lower-cased; "use case" and "value type" are one kind,
      and a leading "individual" becomes a modifier of the kind after it. */
  function ReadKind(tokens: seq<string>): (h: Head)
    requires tokens != []
    ensures |h.rest| < |tokens| && h.rest == tokens[|tokens| - |h.rest|..]
    ensures |h.rest| >= |tokens| - 2
    ensures h.modifiers == [] || h.modifiers == ["individual"]
    ensures h.modifiers == ["individual"] <==> Lower(tokens[0]) == "individual" && |tokens| > 1
    ensures |tokens| >= 2 && Lower(tokens[0]) == "use" && Lower(tokens[1]) == "case" ==>
              h == Head("use case", [], tokens[2..])
    ensures |tokens| >= 2 && Lower(tokens[0]) == "value" && Lower(tokens[1]) == "type" ==>
              h == Head("value type", [], tokens[2..])
    ensures |tokens| >= 2 && Lower(tokens[0]) == "individual" ==>
              h == Head(Lower(tokens[1]), ["individual"], tokens[2..])
    ensures |h.rest| == |tokens| - 1 ==> h == Head(Lower(tokens[0]), [], tokens[1..])
  {
    var first := Lower(tokens[0]);
    var t := tokens[1..];
    if first == "use" && t != [] && Lower(t[0]) == "case" then Head("use case", [], t[1..])
    else if first == "value" && t != [] && Lower(t[0]) == "type" then Head("value type", [], t[1..])
    else if first == "individual" && t != [] then Head(Lower(t[0]), ["individual"], t[1..])
    else Head(first, [], t)
  }

  /** A first word that starts no two-word kind and is no modifier is the kind. */
  lemma PlainKind(tokens: seq<string>)
    requires tokens != []
    requires Lower(tokens[0]) != "use" && Lower(tokens[0]) != "value" && Lower(tokens[0]) != "individual"
    ensures ReadKind(tokens) == Head(Lower(tokens[0]), [], tokens[1..])
  {
  }

  predicate IsFlavor(token: string) {
    Lower(token) == "def" || Lower(token) == "usage"
  }

  /** The three classifier tokens of the extractor. They contain no
      letters, so comparing the lower-cased token with them is comparing
      the token itself (ClassifierIgnoresCase). */
  predicate IsClassifier(token: string) {
    token == ":" || token == ":>" || token == ":>>"
  }

  lemma ClassifierIgnoresCase(token: string)
    ensures IsClassifier(token) <==> Lower(token) == ":" || Lower(token) == ":>" || Lower(token) == ":>>"
    ensures IsClassifier(token) ==> (Lower(token) == ":" <==> token == ":")
  {
    LowerAt(token);
    if |token| == 1 {
      assert Lower(token) == [LowerChar(token[0])];
    } else if |token| == 2 {
      assert Lower(token) == [LowerChar(token[0]), LowerChar(token[1])];
    } else if |token| == 3 {
      assert Lower(token) == [LowerChar(token[0]), LowerChar(token[1]), LowerChar(token[2])];
    }
  }

  /** Position of the first classifier token, or `|tokens|` if none. */
  function FirstClassifier(tokens: seq<string>): (k: nat)
    ensures k <= |tokens|
    ensures k < |tokens| ==> IsClassifier(tokens[k])
    ensures forall j :: 0 <= j < k ==> !IsClassifier(tokens[j])
  {
    if tokens == [] || IsClassifier(tokens[0]) then 0 else 1 + FirstClassifier(tokens[1..])
  }

  /** The caption of a `typed` relation: definitions are "typed by" their
      types, usages "use" them. */
  function TypedCaption(flavor: string): string {
    if flavor == "def" then "typed by" else "uses"
  }

  /** The flavour word ("def" or "usage", lower-cased) that may follow the
      kind, or "" when there is none, and the tokens after it. */
  datatype Flavored = Flavored(flavor: string, rest: seq<string>)

  function ReadFlavor(tokens: seq<string>): (f: Flavored)
    ensures f.flavor == "" || f.flavor == "def" || f.flavor == "usage"
    ensures f.flavor != "" <==> tokens != [] && IsFlavor(tokens[0])
    ensures f.flavor != "" ==> f.flavor == Lower(tokens[0])
    ensures f.rest == if f.flavor != "" then tokens[1..] else tokens
  {
    if tokens != [] && IsFlavor(tokens[0]) then Flavored(Lower(tokens[0]), tokens[1..]) else Flavored("", tokens)
  }

  /** The raw identifier lists after the first classifier of `after`. */
  datatype Classes = Classes(typeOf: seq<string>, specializes: seq<string>)

  function Classification(after: seq<string>): (c: Classes)
    ensures c.typeOf == [] || c.specializes == []
    ensures FirstClassifier(after) == |after| ==> c == Classes([], [])
  {
    var k := FirstClassifier(after);
    if k == |after| then Classes([], [])
    else
      var values := Collected(after[k + 1..]);
      if after[k] == ":" then Classes(values, []) else Classes([], values)
  }

  /** The classification is decided by the first classifier token. */
  lemma ClassificationAt(after: seq<string>, k: nat)
    requires k <= |after| && (k < |after| ==> IsClassifier(after[k]))
    requires forall j :: 0 <= j < k ==> !IsClassifier(after[j])
    ensures k == |after| ==> Classification(after) == Classes([], [])
    ensures k < |after| && after[k] == ":" ==> Classification(after) == Classes(Collected(after[k + 1..]), [])
    ensures k < |after| && after[k] != ":" ==> Classification(after) == Classes([], Collected(after[k + 1..]))
  {
    assert FirstClassifier(after) == k;
  }

  /** What a definition of an element satisfies: a name, the scope it was
      read in, an explicit kind other than "package", and repeat-free lists
      of which at most one is present. */
  ghost predicate Defined(e: Element, package: string) {
    e.name != [] && e.package == package && !e.external && e.kind != "package" &&
    (e.flavor == "" || e.flavor == "def" || e.flavor == "usage") &&
    (e.modifiers == [] || e.modifiers == ["individual"]) &&
    Distinct(e.typeOf) && Distinct(e.specializes) &&
    (e.typeOf == [] || e.specializes == []) &&
    IdentifierList(e.typeOf) && IdentifierList(e.specializes)
  }

  /** Reference definition of the element `_parse_definition` adds for a
      statement's tokens in the scope `package`, or None when the statement
      is not a definition. */
  function DefinitionOf(tokens: seq<string>, package: string): (d: Option<Element>)
    ensures tokens == [] ==> d.None?
    ensures d.Some? ==> d.value.name != [] && d.value.package == package && !d.value.external
  {
    if tokens == [] then None
    else
      var head := ReadKind(tokens);
      var f := ReadFlavor(head.rest);
      if head.kind == "package" || f.rest == [] || CleanIdentifier(f.rest[0]) == [] then None
      else
        var c := Classification(f.rest[1..]);
        var e := Element(CleanIdentifier(f.rest[0]), head.kind, f.flavor, package,
                         Unique(c.typeOf), Unique(c.specializes), head.modifiers, false);
        Some(e)
  }

  /** One relation of the given sort from `source` to each target, in order. */
  function RelationsTo(source: string, targets: seq<string>, relation: string, caption: string): (r: seq<Relation>)
    ensures |r| == |targets|
    ensures forall k :: 0 <= k < |r| ==> r[k] == Relation(source, targets[k], relation, caption)
  {
    if targets == [] then []
    else RelationsTo(source, targets[..|targets| - 1], relation, caption) + [Relation(source, targets[|targets| - 1], relation, caption)]
  }

  /** One `specializes` relation from the element to each parent, in order. */
  function SpecializesRelations(e: Element): (r: seq<Relation>)
    ensures |r| == |e.specializes|
    ensures forall k :: 0 <= k < |r| ==> r[k] == Relation(e.name, e.specializes[k], "specializes", "specializes")
  {
    RelationsTo(e.name, e.specializes, "specializes", "specializes")
  }

  /** One `typed` relation from the element to each type, in order. */
  function TypedRelations(e: Element): (r: seq<Relation>)
    ensures |r| == |e.typeOf|
    ensures forall k :: 0 <= k < |r| ==> r[k] == Relation(e.name, e.typeOf[k], "typed", TypedCaption(e.flavor))
  {
    RelationsTo(e.name, e.typeOf, "typed", TypedCaption(e.flavor))
  }

  /** The classifier lists hold usable identifiers only. */
  lemma ClassificationIdentifiers(after: seq<string>)
    ensures IdentifierList(Classification(after).typeOf) && IdentifierList(Classification(after).specializes)
  {
    var k := FirstClassifier(after);
    if k < |after| {
      CollectedAreIdentifiers(after[k + 1..]);
    }
  }

  /** Every element read from a statement is a definition in the scope it
      was read in. */
  lemma DefinitionIsDefined(tokens: seq<string>, package: string)
    requires DefinitionOf(tokens, package).Some?
    ensures Defined(DefinitionOf(tokens, package).value, package)
  {
    var head := ReadKind(tokens);
    var f := ReadFlavor(head.rest);
    var c := Classification(f.rest[1..]);
    ClassificationIdentifiers(f.rest[1..]);
    UniqueOfIdentifiers(c.typeOf);
    UniqueOfIdentifiers(c.specializes);
  }

  /** The relations `_parse_definition` records for a new element: the
      `specializes` ones, then the `typed` ones, all from the element itself. */
  function DefinitionRelations(e: Element): (r: seq<Relation>)
    ensures |r| == |e.specializes| + |e.typeOf|
  {
    SpecializesRelations(e) + TypedRelations(e)
  }

  /** A parsed definition records relations of one kind only, with
      non-empty endpoints and without repeats. */
  lemma DefinitionRelationsShape(e: Element, package: string)
    requires Defined(e, package)
    ensures Distinct(DefinitionRelations(e))
    ensures e.typeOf == [] ==> DefinitionRelations(e) == SpecializesRelations(e)
    ensures e.specializes == [] ==> DefinitionRelations(e) == TypedRelations(e)
  {
    if e.specializes != [] {
      assert DefinitionRelations(e) == SpecializesRelations(e);
      RelationsToShape(e.name, e.specializes, "specializes", "specializes");
    } else {
      assert DefinitionRelations(e) == TypedRelations(e);
      RelationsToShape(e.name, e.typeOf, "typed", TypedCaption(e.flavor));
    }
  }

  /** Every relation of a definition starts at the element and ends at a
      non-empty identifier. */
  lemma DefinitionRelationsEndpoints(e: Element, package: string)
    requires Defined(e, package)
    ensures forall k :: 0 <= k < |DefinitionRelations(e)| ==>
              DefinitionRelations(e)[k].source == e.name && DefinitionRelations(e)[k].target != []
  {
    var r, s, t := DefinitionRelations(e), SpecializesRelations(e), TypedRelations(e);
    assert r == s + t;
    forall k | 0 <= k < |r| ensures r[k].source == e.name && r[k].target != [] {
      if k < |s| {
        assert r[k] == s[k];
      } else {
        assert r[k] == t[k - |s|];
      }
    }
  }

  /** Relations to distinct usable identifiers are distinct and have
      non-empty targets. */
  lemma RelationsToShape(source: string, targets: seq<string>, relation: string, caption: string)
    requires Distinct(targets) && IdentifierList(targets)
    ensures var r := RelationsTo(source, targets, relation, caption);
      Distinct(r) && forall k :: 0 <= k < |r| ==> r[k].target != []
  {
    var r := RelationsTo(source, targets, relation, caption);
    forall i, j | 0 <= i < j < |r| ensures r[i] != r[j] {
      assert r[i].target == targets[i] && r[j].target == targets[j];
    }
  }

  /** A statement whose kind is "package", read directly or after
      "individual", never defines an element. */
  lemma PackageKeywordIsNoDefinition(tokens: seq<string>, package: string)
    requires tokens != []
    requires Lower(tokens[0]) == "package" ||
             (|tokens| >= 2 && Lower(tokens[0]) == "individual" && Lower(tokens[1]) == "package")
    ensures DefinitionOf(tokens, package).None?
  {
    if Lower(tokens[0]) == "package" {
      PlainKind(tokens);
    }
    assert ReadKind(tokens).kind == "package";
  }

  /** A statement with no word left for the name once the kind and the
      flavour are read never defines an element. */
  lemma NoNameNoDefinition(tokens: seq<string>, package: string)
    requires tokens == [] || ReadFlavor(ReadKind(tokens).rest).rest == []
    ensures DefinitionOf(tokens, package).None?
  {
  }

  /** `use case`, `value type`, `individual part` and `part def` name
      nothing: each of these two-word statements is only a kind, or a kind
      and a flavour. */
  lemma KeywordsOnlyNoDefinition(tokens: seq<string>, package: string)
    requires |tokens| == 2
    requires (Lower(tokens[0]) == "use" && Lower(tokens[1]) == "case") ||
             (Lower(tokens[0]) == "value" && Lower(tokens[1]) == "type") ||
             Lower(tokens[0]) == "individual" || IsFlavor(tokens[1])
    ensures DefinitionOf(tokens, package).None?
  {
    var head := ReadKind(tokens);
    assert |head.rest| <= 1;
    if head.rest != [] {
      assert head == Head(Lower(tokens[0]), [], tokens[1..]);
      assert IsFlavor(head.rest[0]);
    }
    NoNameNoDefinition(tokens, package);
  }

  /** A statement whose name cleans to nothing never defines an element. */
  lemma EmptyNameNoDefinition(tokens: seq<string>, package: string)
    requires tokens != []
    requires var rest := ReadFlavor(ReadKind(tokens).rest).rest;
      rest != [] && CleanIdentifier(rest[0]) == []
    ensures DefinitionOf(tokens, package).None?
  {
  }

  /** `part ";"` and the like: a plain kind followed by a name made only of
      punctuation defines nothing. */
  lemma PunctuationNameNoDefinition(tokens: seq<string>, package: string)
    requires |tokens| >= 2
    requires Lower(tokens[0]) != "use" && Lower(tokens[0]) != "value" && Lower(tokens[0]) != "individual"
    requires forall k :: 0 <= k < |tokens[1]| ==> EdgePunctuation(tokens[1][k])
    ensures DefinitionOf(tokens, package).None?
  {
    PlainKind(tokens);
    var name := tokens[1];
    CleanPunctuationOnly(name);
    LowerOfLowerCase(name);
    assert ReadFlavor(tokens[1..]) == Flavored("", tokens[1..]);
    EmptyNameNoDefinition(tokens, package);
  }

  /** Every identifier after the first classifier, up to a stop word, is a
      type (for `:`) or a parent (for `:>` and `:>>`) of the element. */
  lemma ClassifiedIdentifiers(tokens: seq<string>, package: string, k: nat)
    requires |tokens| >= 2 && Lower(tokens[0]) != "package"
    requires Lower(tokens[0]) != "use" && Lower(tokens[0]) != "value" && Lower(tokens[0]) != "individual"
    requires !IsFlavor(tokens[1]) && CleanIdentifier(tokens[1]) != []
    requires 2 + k < |tokens| && IsClassifier(tokens[2 + k])
    requires forall j :: 2 <= j < 2 + k ==> !IsClassifier(tokens[j])
    ensures var d := DefinitionOf(tokens, package);
      d.Some? && d.value.name == CleanIdentifier(tokens[1]) && d.value.kind == Lower(tokens[0]) &&
      d.value.flavor == "" &&
      (forall x :: x in Collected(tokens[3 + k..]) ==>
         if tokens[2 + k] == ":" then x in d.value.typeOf else x in d.value.specializes)
  {
    PlainKind(tokens);
    var head := Head(Lower(tokens[0]), [], tokens[1..]);
    var f := Flavored("", tokens[1..]);
    assert ReadFlavor(head.rest) == f;
    var after := tokens[2..];
    assert after[k + 1..] == tokens[3 + k..];
    ClassificationAt(after, k);
    CollectedAreIdentifiers(after[k + 1..]);
    DefinitionFromParts(tokens, package, head, f, Classification(after));
  }

  /** DefinitionOf unfolded once, for statements whose parts are known. */
  lemma DefinitionFromParts(tokens: seq<string>, package: string, head: Head, f: Flavored, c: Classes)
    requires tokens != [] && ReadKind(tokens) == head && head.kind != "package"
    requires ReadFlavor(head.rest) == f && f.rest != [] && CleanIdentifier(f.rest[0]) != []
    requires Classification(f.rest[1..]) == c
    ensures DefinitionOf(tokens, package) ==
              Some(Element(CleanIdentifier(f.rest[0]), head.kind, f.flavor, package,
                           Unique(c.typeOf), Unique(c.specializes), head.modifiers, false))
  {
  }

  /** `to b` holds no classifier when `b` is none. */
  lemma UnclassifiedPair(after: seq<string>)
    requires |after| == 2 && after[0] == "to" && !IsClassifier(after[1])
    ensures Classification(after) == Classes([], [])
  {
    ClassificationAt(after, 2);
  }

  /** A `connect a to b` statement splits into words and reads as a
      definition of its first endpoint, of kind "connect", with no
      relation of its own. */
  lemma ConnectReadsAsDefinition(tokens: seq<string>, package: string)
    requires |tokens| == 4 && tokens[0] == "connect" && tokens[2] == "to"
    requires !IsFlavor(tokens[1]) && CleanIdentifier(tokens[1]) != [] && !IsClassifier(tokens[3])
    ensures DefinitionOf(tokens, package) ==
              Some(Element(CleanIdentifier(tokens[1]), "connect", "", package, [], [], [], false))
  {
    LowerOfLowerCase("connect");
    PlainKind(tokens);
    var head := Head("connect", [], tokens[1..]);
    var f := Flavored("", tokens[1..]);
    assert ReadFlavor(head.rest) == f;
    UnclassifiedPair(tokens[2..]);
    DefinitionFromParts(tokens, package, head, f, Classes([], []));
  }

  /** The statement-reading half of `_parse_definition`: the kind, flavour
      and name taken from the front of the tokens, and the search for the
      first classifier. */
  method ReadDefinition(tokens: seq<string>, package: string) returns (d: Option<Element>)
    ensures d == DefinitionOf(tokens, package)
  {
    if tokens == [] {
      return None;
    }
    var head := ReadKind(tokens);
    if head.kind == "package" {
      return None;
    }
    var rest := head.rest;
    var flavor := "";
    if rest != [] && IsFlavor(rest[0]) {
      flavor := Lower(rest[0]);
      rest := rest[1..];
    }
    assert ReadFlavor(head.rest) == Flavored(flavor, rest);
    if rest == [] {
      return None;
    }
    var name := CleanIdentifier(rest[0]);
    if name == [] {
      return None;
    }
    var c := ReadClassification(rest[1..]);
    d := Some(Element(name, head.kind, flavor, package, Unique(c.typeOf), Unique(c.specializes), head.modifiers, false));
  }

  /** The classifier search of `_parse_definition`: the identifiers after
      the first classifier become types or parents, and the search stops there. */
  method ReadClassification(after: seq<string>) returns (c: Classes)
    ensures c == Classification(after)
  {
    var typeOf: seq<string>, specializes: seq<string> := [], [];
    var idx := 0;
    while idx < |after|
      invariant idx <= |after|
      invariant forall j :: 0 <= j < idx ==> !IsClassifier(after[j])
      invariant typeOf == [] && specializes == []
    {
      ClassifierIgnoresCase(after[idx]);
      if Lower(after[idx]) == ":" || Lower(after[idx]) == ":>" || Lower(after[idx]) == ":>>" {
        var values := CollectIdentifiers(after[idx + 1..]);
        ClassificationAt(after, idx);
        if Lower(after[idx]) == ":" {
          typeOf := typeOf + values;
          assert typeOf == values;
        } else {
          specializes := specializes + values;
          assert specializes == values;
        }
        break;
      }
      idx := idx + 1;
    }
    if idx == |after| {
      ClassificationAt(after, idx);
    }
    c := Classes(typeOf, specializes);
  }

  /** `_parse_definition`: adds the element and its relations to `model`
      and answers whether the statement was a definition. */
  method ParseDefinition(tokens: seq<string>, package: string, model: SysMLModel) returns (parsed: bool)
    requires model.Valid()
    modifies model
    ensures model.Valid()
    ensures parsed <==> DefinitionOf(tokens, package).Some?
    ensures parsed ==> model.nodes == InsertNode(old(model.nodes), DefinitionOf(tokens, package).value)
    ensures parsed ==> model.relations == old(model.relations) + DefinitionRelations(DefinitionOf(tokens, package).value)
    ensures !parsed ==> model.nodes == old(model.nodes) && model.relations == old(model.relations)
    ensures model.packages == old(model.packages) && model.packageIndex == old(model.packageIndex)
    ensures model.sourcePath == old(model.sourcePath)
  {
    var d := ReadDefinition(tokens, package);
    if d.None? {
      return false;
    }
    var node := d.value;
    ghost var before := model.relations;
    var _ := model.AddNode(node);
    assert model.relations == before;
    AddDefinitionRelations(node, model);
    parsed := true;
  }

  /** The loops of `_parse_definition` over the new element's parents and
      types, recording one relation each. */
  method AddDefinitionRelations(node: Element, model: SysMLModel)
    requires model.Valid()
    modifies model
    ensures model.Valid()
    ensures model.relations == old(model.relations) + DefinitionRelations(node)
    ensures model.nodes == old(model.nodes) && model.nodeIndex == old(model.nodeIndex)
    ensures model.packages == old(model.packages) && model.packageIndex == old(model.packageIndex)
    ensures model.sourcePath == old(model.sourcePath)
  {
    AddRelations(model, SpecializesRelations(node));
    AddRelations(model, TypedRelations(node));
  }

  /** Records `relations` one by one. */
  method AddRelations(model: SysMLModel, relations: seq<Relation>)
    requires model.Valid()
    modifies model
    ensures model.Valid()
    ensures model.relations == old(model.relations) + relations
    ensures model.nodes == old(model.nodes) && model.nodeIndex == old(model.nodeIndex)
    ensures model.packages == old(model.packages) && model.packageIndex == old(model.packageIndex)
    ensures model.sourcePath == old(model.sourcePath)
  {
    for k := 0 to |relations|
      invariant model.Valid()
      invariant model.relations == old(model.relations) + relations[..k]
      invariant model.nodes == old(model.nodes) && model.nodeIndex == old(model.nodeIndex)
      invariant model.packages == old(model.packages) && model.packageIndex == old(model.packageIndex)
      invariant model.sourcePath == old(model.sourcePath)
    {
      assert relations[..k + 1] == relations[..k] + [relations[k]];
      model.AddRelation(relations[k]);
    }
    assert relations[..|relations|] == relations;
  }
}
