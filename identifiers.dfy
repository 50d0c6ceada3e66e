/** The extractor's text-level helpers from parser.py: identifier cleaning,
    `_unique`, block-comment removal and identifier-list collection.
    `html.unescape` is the identity here. */
module Identifiers {
  import opened Seqs
  import opened Text

  predicate EdgePunctuation(c: char) { c == ' ' || c == ',' || c == ';' || c == '{' || c == '}' }

  predicate QuoteChar(c: char) { c == '\'' || c == '"' }

  /** `_clean_identifier`: `token.strip(" ,;{}")`, then `.strip("'\"")`. */
  function CleanIdentifier(token: string): string {
    StripWith(StripWith(token, EdgePunctuation), QuoteChar)
  }

  /** A cleaned identifier is a piece of the token that neither starts nor
      ends with a quote. */
  lemma CleanIdentifierShape(token: string)
    ensures var r := CleanIdentifier(token);
      |r| <= |token| && (r != [] ==> !QuoteChar(r[0]) && !QuoteChar(r[|r| - 1]))
  {
    var a := TrimEnd(token, EdgePunctuation);
    TrimEndSpec(token, EdgePunctuation);
    var b := TrimStart(a, EdgePunctuation);
    TrimStartSpec(a, EdgePunctuation);
    var c := TrimEnd(b, QuoteChar);
    TrimEndSpec(b, QuoteChar);
    var d := TrimStart(c, QuoteChar);
    TrimStartSpec(c, QuoteChar);
    if d != [] {
      assert d[|d| - 1] == c[|c| - 1];
    }
  }

  /** An identifier with no punctuation or quote at either end is kept as is. */
  lemma CleanPlainIdentifier(token: string)
    requires token != []
    requires !EdgePunctuation(token[0]) && !EdgePunctuation(token[|token| - 1])
    requires !QuoteChar(token[0]) && !QuoteChar(token[|token| - 1])
    ensures CleanIdentifier(token) == token
  {
  }

  /** A trailing separator or terminator is cut from a plain identifier. */
  lemma CleanTrailingPunctuation(w: string, c: char)
    requires w != [] && EdgePunctuation(c)
    requires !EdgePunctuation(w[0]) && !EdgePunctuation(w[|w| - 1])
    requires !QuoteChar(w[0]) && !QuoteChar(w[|w| - 1])
    ensures CleanIdentifier(w + [c]) == w
  {
    assert (w + [c])[..|w|] == w;
    assert TrimEnd(w, EdgePunctuation) == w;
    assert TrimEnd(w + [c], EdgePunctuation) == w;
    CleanPlainIdentifier(w);
  }

  /** Tokens made only of punctuation and quotes clean to nothing. */
  lemma CleanPunctuationOnly(token: string)
    requires forall k :: 0 <= k < |token| ==> EdgePunctuation(token[k])
    ensures CleanIdentifier(token) == []
  {
    TrimEndSpec(token, EdgePunctuation);
    assert TrimEnd(token, EdgePunctuation) == [];
  }

  /** The non-empty values, in order. */
  function NonEmpty(values: seq<string>): (r: seq<string>)
    ensures forall v :: v in r <==> v in values && v != []
    ensures |r| <= |values|
  {
    if values == [] then []
    else (if values[0] != [] then [values[0]] else []) + NonEmpty(values[1..])
  }

  /** `_unique`: `list(dict.fromkeys([val for val in values if val]))`. */
  function Unique(values: seq<string>): (r: seq<string>)
    ensures Distinct(r)
    ensures forall v :: v in r <==> v in values && v != []
  {
    Dedup(NonEmpty(values))
  }

  lemma FirstIndexAfterHead(h: string, t: seq<string>, v: string)
    requires v in t && v != h
    ensures FirstIndex([h] + t, v) == 1 + FirstIndex(t, v)
  {
    assert ([h] + t)[1..] == t;
  }

  lemma {:induction false} NonEmptyKeepsOrder(values: seq<string>, u: string, v: string)
    requires u in values && v in values && u != [] && v != []
    ensures FirstIndex(NonEmpty(values), u) < FirstIndex(NonEmpty(values), v) <==>
            FirstIndex(values, u) < FirstIndex(values, v)
  {
    var h, t := values[0], values[1..];
    var ne, tl := NonEmpty(values), NonEmpty(t);
    assert values == [h] + t;
    if h == u || h == v {
      assert ne == [h] + tl;
      assert FirstIndex(ne, h) == 0 && FirstIndex(values, h) == 0;
      if h != u {
        FirstIndexAfterHead(h, t, u);
        FirstIndexAfterHead(h, tl, u);
      } else if h != v {
        FirstIndexAfterHead(h, t, v);
        FirstIndexAfterHead(h, tl, v);
      }
    } else {
      NonEmptyKeepsOrder(t, u, v);
      FirstIndexAfterHead(h, t, u);
      FirstIndexAfterHead(h, t, v);
      if h != [] {
        assert ne == [h] + tl;
        FirstIndexAfterHead(h, tl, u);
        FirstIndexAfterHead(h, tl, v);
      } else {
        assert ne == tl;
      }
    }
  }

  /** `_unique` keeps the first occurrence of each value: the values come
      out in the order in which they first appear in the input. */
  lemma UniqueFirstSeenOrder(values: seq<string>)
    ensures forall i, j :: 0 <= i < j < |Unique(values)| ==>
              FirstIndex(values, Unique(values)[i]) < FirstIndex(values, Unique(values)[j])
  {
    var r := Unique(values);
    DedupFirstSeenOrder(NonEmpty(values));
    forall i, j | 0 <= i < j < |r|
      ensures FirstIndex(values, r[i]) < FirstIndex(values, r[j])
    {
      NonEmptyKeepsOrder(values, r[i], r[j]);
    }
  }

  /** Deduplication keeps a list of usable identifiers usable. */
  lemma UniqueOfIdentifiers(xs: seq<string>)
    requires IdentifierList(xs)
    ensures IdentifierList(Unique(xs))
  {
    var r := Unique(xs);
    forall k | 0 <= k < |r| ensures r[k] != [] && !IsStopWord(r[k]) {
      assert r[k] in xs;
    }
  }

  // Index of the first "*" "/" pair starting at or after `i`, or `|s|` if none.
  function CloseAt(s: string, i: nat): (k: nat)
    requires i <= |s|
    ensures i <= k <= |s|
    ensures k < |s| ==> k + 1 < |s| && s[k] == '*' && s[k + 1] == '/'
    ensures forall j :: i <= j < k && j + 1 < |s| ==> !(s[j] == '*' && s[j + 1] == '/')
    decreases |s| - i
  {
    if i + 1 >= |s| then |s|
    else if s[i] == '*' && s[i + 1] == '/' then i
    else CloseAt(s, i + 1)
  }

  // Block-comment removal (a non-greedy, dot-matches-all substitution):
  // scanning left to right, each comment opener with a later closer is
  // removed up to and including the first such closer; an opener without
  // a closer stays.
  function StripBlockComments(text: string): (r: string)
    ensures |r| <= |text|
    decreases |text|
  {
    if |text| < 2 then text
    else if text[0] == '/' && text[1] == '*' && CloseAt(text, 2) < |text| then
      StripBlockComments(text[CloseAt(text, 2) + 2..])
    else [text[0]] + StripBlockComments(text[1..])
  }

  // Text without any comment opener is left unchanged.
  lemma {:induction false} StripWithoutComments(text: string)
    requires !Contains(text, "/*")
    ensures StripBlockComments(text) == text
    decreases |text|
  {
    if |text| >= 2 {
      assert !(text[0] == '/' && text[1] == '*') by {
        assert !StartsWith(text, "/*");
      }
      StripWithoutComments(text[1..]);
    }
  }

  // A complete comment at the front disappears, and with it every
  // character up to and including its first closer, line breaks included.
  lemma StripLeadingComment(body: string, rest: string)
    requires !Contains(body, "*/")
    ensures StripBlockComments("/*" + body + "*/" + rest) == StripBlockComments(rest)
  {
    var s := "/*" + body + "*/" + rest;
    var e := 2 + |body|;
    assert s[2..e] == body && s[e + 2..] == rest;
    assert s[0] == '/' && s[1] == '*' && s[e] == '*' && s[e + 1] == '/';
    forall j | 2 <= j < e
      ensures !(s[j] == '*' && s[j + 1] == '/')
    {
      if j + 1 < e {
        NoOccurrenceAt(body, "*/", j - 2);
        assert s[j..j + 2] == s[2..e][j - 2..j];
      } else {
        assert s[j + 1] == '*';
      }
    }
    var k := CloseAt(s, 2);
    assert k == e;
  }

  lemma {:induction false} NoOccurrenceAt(s: string, p: string, i: nat)
    requires !Contains(s, p)
    requires i + |p| <= |s|
    ensures s[i..i + |p|] != p
    decreases i
  {
    if i > 0 {
      assert s[1..][i - 1..i - 1 + |p|] == s[i..i + |p|];
      NoOccurrenceAt(s[1..], p, i - 1);
    } else {
      assert !StartsWith(s, p);
    }
  }

  /** Cleaned words that end an identifier list without being part of it. */
  predicate IsStopWord(w: string) {
    w == "{" || w == "}" || w == "connect" || w == "from" || w == "to" || w == "and"
  }

  /** Every entry is a usable identifier: non-empty and no stop word. */
  predicate IdentifierList(xs: seq<string>) {
    forall k :: 0 <= k < |xs| ==> xs[k] != [] && !IsStopWord(xs[k])
  }

  /** Reference definition of `_collect_identifiers`: the cleaned tokens,
      skipping those that clean to nothing, up to the first stop word. */
  function Collected(tokens: seq<string>): (r: seq<string>)
    ensures |r| <= |tokens|
  {
    if tokens == [] then []
    else
      var c := CleanIdentifier(tokens[0]);
      if c == [] then Collected(tokens[1..])
      else if IsStopWord(c) then []
      else [c] + Collected(tokens[1..])
  }

  /** What is collected is usable: nothing empty, no stop word. */
  lemma {:induction false} CollectedAreIdentifiers(tokens: seq<string>)
    ensures IdentifierList(Collected(tokens))
  {
    if tokens != [] {
      CollectedAreIdentifiers(tokens[1..]);
      var c := CleanIdentifier(tokens[0]);
      if c != [] && !IsStopWord(c) {
        var r := Collected(tokens);
        assert r == [c] + Collected(tokens[1..]);
        assert forall k :: 1 <= k < |r| ==> r[k] == Collected(tokens[1..])[k - 1];
      }
    }
  }

  /** Collection stops at the first stop word: what follows it is ignored. */
  lemma {:induction false} CollectedStopsAt(tokens: seq<string>, k: nat)
    requires k < |tokens| && IsStopWord(CleanIdentifier(tokens[k]))
    ensures Collected(tokens) == Collected(tokens[..k])
  {
    if k > 0 {
      assert tokens[1..][..k - 1] == tokens[..k][1..];
      CollectedStopsAt(tokens[1..], k - 1);
    } else {
      assert tokens[..0] == [];
    }
  }

  /** Without a stop word, every token that cleans to something is collected. */
  lemma {:induction false} CollectedWithoutStop(tokens: seq<string>)
    requires forall k :: 0 <= k < |tokens| ==> !IsStopWord(CleanIdentifier(tokens[k]))
    ensures forall k :: 0 <= k < |tokens| && CleanIdentifier(tokens[k]) != [] ==>
              CleanIdentifier(tokens[k]) in Collected(tokens)
  {
    if tokens != [] {
      CollectedWithoutStop(tokens[1..]);
      forall k | 1 <= k < |tokens| ensures tokens[k] == tokens[1..][k - 1] { }
    }
  }

  /** One step of Collected, at position `i`. */
  lemma CollectedStep(tokens: seq<string>, i: nat)
    requires i < |tokens|
    ensures var c := CleanIdentifier(tokens[i]);
      Collected(tokens[i..]) ==
        if c == [] then Collected(tokens[i + 1..])
        else if IsStopWord(c) then []
        else [c] + Collected(tokens[i + 1..])
  {
    assert tokens[i..][1..] == tokens[i + 1..];
  }

  /** `_collect_identifiers`. */
  method CollectIdentifiers(tokens: seq<string>) returns (results: seq<string>)
    ensures results == Collected(tokens)
  {
    results := [];
    assert tokens[0..] == tokens;
    for i := 0 to |tokens|
      invariant results + Collected(tokens[i..]) == Collected(tokens)
    {
      var cleaned := CleanIdentifier(tokens[i]);
      CollectedStep(tokens, i);
      if cleaned != [] {
        if IsStopWord(cleaned) {
          assert results + [] == results;
          return;
        }
        assert results + ([cleaned] + Collected(tokens[i + 1..])) == (results + [cleaned]) + Collected(tokens[i + 1..]);
        results := results + [cleaned];
      }
    }
    assert tokens[|tokens|..] == [];
    assert results + [] == results;
  }
}
