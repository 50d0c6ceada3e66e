/** The regular expressions of the extractor, matched character by
    character. Each pattern below is deterministic: every repetition is
    followed by a character class it excludes, so the greedy run is the only
    one that can succeed and no backtracking alternative exists, except in
    the package header, whose backtracking is modelled explicitly.
    `\s` is `Text.IsSpace`; `\w` and case-insensitive letters are ASCII. */
module Patterns {
  import opened Wrappers
  import opened Text

  /** End of the longest run of characters satisfying `p` that starts at `i`. */
  function RunEnd(s: string, i: nat, p: char -> bool): (j: nat)
    requires i <= |s|
    ensures i <= j <= |s|
    decreases |s| - i
  {
    if i == |s| || !p(s[i]) then i else RunEnd(s, i + 1, p)
  }

  /** The run is maximal: every character in it satisfies `p`, and the one
      after it, if any, does not. */
  lemma {:induction false} RunEndSpec(s: string, i: nat, p: char -> bool)
    requires i <= |s|
    ensures var j := RunEnd(s, i, p);
      (forall k :: i <= k < j ==> p(s[k])) && (j < |s| ==> !p(s[j]))
    decreases |s| - i
  {
    if i < |s| && p(s[i]) {
      RunEndSpec(s, i + 1, p);
    }
  }

  /** A run that is known to end at `j` is found to end there. */
  lemma {:induction false} RunEndAt(s: string, i: nat, j: nat, p: char -> bool)
    requires i <= j <= |s|
    requires forall k :: i <= k < j ==> p(s[k])
    requires j < |s| ==> !p(s[j])
    ensures RunEnd(s, i, p) == j
    decreases j - i
  {
    if i < j {
      RunEndAt(s, i + 1, j, p);
    }
  }

  /** The lower-case word `w` occurs at `s[i]`, ignoring case. */
  predicate WordAt(s: string, i: nat, w: string) {
    i + |w| <= |s| && forall k :: 0 <= k < |w| ==> LowerChar(s[i + k]) == w[k]
  }

  /** A word occurring at `i` begins with a character that lower-cases to
      the word's first letter. */
  lemma WordStart(s: string, i: nat, w: string)
    requires w != [] && WordAt(s, i, w)
    ensures i < |s| && LowerChar(s[i]) == w[0]
  {
    assert LowerChar(s[i + 0]) == w[0];
  }

  predicate NotSpace(c: char) { !IsSpace(c) }

  /** `[^\s;]` */
  predicate TargetChar(c: char) { !IsSpace(c) && c != ';' }

  /** `[\w\.]` */
  predicate NameChar(c: char) {
    ('a' <= c <= 'z') || ('A' <= c <= 'Z') || ('0' <= c <= '9') || c == '_' || c == '.'
  }

  /** `[^ {]` */
  predicate HeaderChar(c: char) { c != ' ' && c != '{' }

  /** A group `s[start..end]` and the position where matching goes on. */
  datatype Group = Group(start: nat, end: nat, next: nat)

  /** `\s+(\S+)\s+` at `p`. */
  function SpacedWord(s: string, p: nat): (g: Option<Group>)
    requires p <= |s|
    ensures g.Some? ==> p < g.value.start < g.value.end < g.value.next <= |s|
  {
    var a := RunEnd(s, p, IsSpace);
    var b := RunEnd(s, a, NotSpace);
    var c := RunEnd(s, b, IsSpace);
    if a == p || b == a || c == b then None else Some(Group(a, b, c))
  }

  /** `\s+([^\s;]+)` at `p` when `spaced`, else `\s*([^\s;]+)`. */
  function Target(s: string, p: nat, spaced: bool): (g: Option<Group>)
    requires p <= |s|
    ensures g.Some? ==> p <= g.value.start < g.value.end == g.value.next <= |s|
  {
    var d := RunEnd(s, p, IsSpace);
    var e := RunEnd(s, d, TargetChar);
    if (spaced && d == p) || e == d then None else Some(Group(d, e, e))
  }

  /** `\s+([\w\.]+)\s*:` at `p`; matching goes on after the colon. */
  function RoleName(s: string, p: nat): (g: Option<Group>)
    requires p <= |s|
    ensures g.Some? ==> p < g.value.start < g.value.end < g.value.next <= |s|
  {
    var a := RunEnd(s, p, IsSpace);
    var b := RunEnd(s, a, NameChar);
    var c := RunEnd(s, b, IsSpace);
    if a == p || b == a || c == |s| || s[c] != ':' then None else Some(Group(a, b, c + 1))
  }

  /** The two groups of a match and the index just past it. */
  datatype Capture = Capture(first: string, second: string, end: nat)

  /** `CONNECT_RE`, `FLOW_RE` and `ROLE_RE`. */
  datatype Pattern = Connect | Flow | Role

  /** The capture made of two groups of `s`. */
  function Captured(s: string, g: Group, t: Group): Capture
    requires g.start <= g.end <= |s| && t.start <= t.end <= |s|
  {
    Capture(s[g.start..g.end], s[t.start..t.end], t.end)
  }

  /** `connect\s+(\S+)\s+(?:to|with)\s+([^\s;]+)` at `i`. */
  function ConnectAt(s: string, i: nat): (m: Option<Capture>)
    requires i <= |s|
    ensures m.Some? ==> i < m.value.end <= |s| && m.value.first != [] && m.value.second != []
  {
    if !WordAt(s, i, "connect") then None
    else match SpacedWord(s, i + 7)
      case None => None
      case Some(g) =>
        var d := AfterToOrWith(s, g.next);
        if d == g.next then None
        else match Target(s, d, true)
          case None => None
          case Some(t) => Some(Captured(s, g, t))
  }

  /** Position after `to` or `with` at `c`, or `c` when neither occurs. */
  function AfterToOrWith(s: string, c: nat): nat {
    if WordAt(s, c, "to") then c + 2 else if WordAt(s, c, "with") then c + 4 else c
  }

  /** `from\s+(\S+)\s+to\s+([^\s;]+)` at `i`. */
  function FlowAt(s: string, i: nat): (m: Option<Capture>)
    requires i <= |s|
    ensures m.Some? ==> i < m.value.end <= |s| && m.value.first != [] && m.value.second != []
  {
    if !WordAt(s, i, "from") then None
    else match SpacedWord(s, i + 4)
      case None => None
      case Some(g) =>
        if !WordAt(s, g.next, "to") then None
        else match Target(s, g.next + 2, true)
          case None => None
          case Some(t) => Some(Captured(s, g, t))
  }

  /** Length of the role keyword (`subject`, `actor`, `item` or `port`) at
      `i`, or 0; the four start with different letters, so at most one applies. */
  function RoleKeywordLength(s: string, i: nat): (n: nat)
    ensures n != 0 ==> i + n <= |s|
  {
    if WordAt(s, i, "subject") then 7
    else if WordAt(s, i, "actor") then 5
    else if WordAt(s, i, "item") || WordAt(s, i, "port") then 4
    else 0
  }

  /** `(?:subject|actor|item|port)\s+([\w\.]+)\s*:\s*([^\s;]+)` at `i`. */
  function RoleAt(s: string, i: nat): (m: Option<Capture>)
    requires i <= |s|
    ensures m.Some? ==> i < m.value.end <= |s| && m.value.first != [] && m.value.second != []
  {
    var w := RoleKeywordLength(s, i);
    if w == 0 then None
    else match RoleName(s, i + w)
      case None => None
      case Some(g) =>
        match Target(s, g.next, false)
        case None => None
        case Some(t) => Some(Captured(s, g, t))
  }

  function MatchAt(p: Pattern, s: string, i: nat): (m: Option<Capture>)
    requires i <= |s|
    ensures m.Some? ==> i < m.value.end <= |s| && m.value.first != [] && m.value.second != []
  {
    match p
    case Connect => ConnectAt(s, i)
    case Flow => FlowAt(s, i)
    case Role => RoleAt(s, i)
  }

  /** `pattern.finditer(s)` from index `i`: leftmost matches, each search
      resuming where the previous match ended. */
  function FindAll(p: Pattern, s: string, i: nat): (ms: seq<Capture>)
    requires i <= |s|
    ensures forall k :: 0 <= k < |ms| ==> ms[k].first != [] && ms[k].second != []
    decreases |s| - i
  {
    if i == |s| then []
    else
      match MatchAt(p, s, i)
      case Some(m) => [m] + FindAll(p, s, m.end)
      case None => FindAll(p, s, i + 1)
  }

  /** `re.match(r"^package\s+([^ {]+)", line, re.IGNORECASE)`, giving group 1. */
  function PackageHeader(line: string): (g: Option<string>)
    ensures g.Some? ==> g.value != [] && WordAt(line, 0, "package")
  {
    if !WordAt(line, 0, "package") then None
    else
      var w := RunEnd(line, 7, IsSpace);
      if w == 7 then None else HeaderGroup(line, w)
  }

  /** Group 1 when `\s+` covers `line[7..k]`, retrying with shorter runs of
      white space as the regular expression engine backtracks. */
  function HeaderGroup(line: string, k: nat): (g: Option<string>)
    requires 8 <= k <= |line|
    ensures g.Some? ==> g.value != []
    decreases k
  {
    if k < |line| && HeaderChar(line[k]) then Some(line[k..RunEnd(line, k, HeaderChar)])
    else if k > 8 then HeaderGroup(line, k - 1)
    else None
  }

  // Completeness: text of the shape a pattern describes is matched, with
  // the groups the pattern's parentheses delimit.

  /** `package P {`: the header captures exactly the name, the run of
      characters other than a space and `{` after the white space. */
  lemma PackageHeaderFinds(line: string, w: nat, e: nat)
    requires WordAt(line, 0, "package") && 7 < w < e <= |line|
    requires forall k :: 7 <= k < w ==> IsSpace(line[k])
    requires !IsSpace(line[w])
    requires forall k :: w <= k < e ==> HeaderChar(line[k])
    requires e < |line| ==> !HeaderChar(line[e])
    ensures PackageHeader(line) == Some(line[w..e])
  {
    RunEndAt(line, 7, w, IsSpace);
    RunEndAt(line, w, e, HeaderChar);
  }

  lemma SpacedWordFinds(s: string, p: nat, a: nat, b: nat, c: nat)
    requires p < a < b < c <= |s|
    requires forall k :: p <= k < a ==> IsSpace(s[k])
    requires forall k :: a <= k < b ==> !IsSpace(s[k])
    requires forall k :: b <= k < c ==> IsSpace(s[k])
    requires c < |s| ==> !IsSpace(s[c])
    ensures SpacedWord(s, p) == Some(Group(a, b, c))
  {
    RunEndAt(s, p, a, IsSpace);
    RunEndAt(s, a, b, NotSpace);
    RunEndAt(s, b, c, IsSpace);
  }

  lemma TargetFinds(s: string, p: nat, spaced: bool, d: nat, e: nat)
    requires p <= d < e <= |s| && (spaced ==> p < d)
    requires forall k :: p <= k < d ==> IsSpace(s[k])
    requires forall k :: d <= k < e ==> TargetChar(s[k])
    requires e < |s| ==> !TargetChar(s[e])
    ensures Target(s, p, spaced) == Some(Group(d, e, e))
  {
    RunEndAt(s, p, d, IsSpace);
    RunEndAt(s, d, e, TargetChar);
  }

  lemma RoleNameFinds(s: string, p: nat, a: nat, b: nat, c: nat)
    requires p < a < b <= c < |s|
    requires forall k :: p <= k < a ==> IsSpace(s[k])
    requires forall k :: a <= k < b ==> NameChar(s[k])
    requires forall k :: b <= k < c ==> IsSpace(s[k])
    requires s[c] == ':'
    ensures RoleName(s, p) == Some(Group(a, b, c + 1))
  {
    RunEndAt(s, p, a, IsSpace);
    RunEndAt(s, a, b, NameChar);
    RunEndAt(s, b, c, IsSpace);
  }

  /** `connect a to b` (or `with`): `ConnectAt` captures exactly the two
      endpoints, the second running up to a space, a `;` or the end. */
  lemma ConnectAtFinds(s: string, i: nat, kw: string, a: nat, b: nat, c: nat, e: nat, f: nat)
    requires i + 7 < a < b < c && c + |kw| < e < f <= |s|
    requires WordAt(s, i, "connect")
    requires forall k :: i + 7 <= k < a ==> IsSpace(s[k])
    requires forall k :: a <= k < b ==> !IsSpace(s[k])
    requires forall k :: b <= k < c ==> IsSpace(s[k])
    requires (kw == "to" || kw == "with") && WordAt(s, c, kw)
    requires forall k :: c + |kw| <= k < e ==> IsSpace(s[k])
    requires forall k :: e <= k < f ==> TargetChar(s[k])
    requires f < |s| ==> !TargetChar(s[f])
    ensures ConnectAt(s, i) == Some(Capture(s[a..b], s[e..f], f))
  {
    WordStart(s, c, kw);
    SpacedWordFinds(s, i + 7, a, b, c);
    ConnectKeyword(s, c, kw);
    TargetFinds(s, c + |kw|, true, e, f);
    ConnectAtOfStages(s, i, Group(a, b, c), Group(e, f, f));
  }

  /** `ConnectAt` composes its stages. */
  lemma ConnectAtOfStages(s: string, i: nat, g: Group, t: Group)
    requires i <= |s| && WordAt(s, i, "connect") && SpacedWord(s, i + 7) == Some(g)
    requires AfterToOrWith(s, g.next) != g.next && Target(s, AfterToOrWith(s, g.next), true) == Some(t)
    ensures ConnectAt(s, i) == Some(Captured(s, g, t))
  {
  }

  /** Whichever of `to` and `with` occurs is the one skipped. */
  lemma ConnectKeyword(s: string, c: nat, kw: string)
    requires (kw == "to" || kw == "with") && WordAt(s, c, kw)
    ensures AfterToOrWith(s, c) == c + |kw|
  {
    if kw == "with" {
      WordStart(s, c, kw);
      if WordAt(s, c, "to") { WordStart(s, c, "to"); }
    }
  }

  /** `from a to b`: `FlowAt` captures exactly the two endpoints. */
  lemma FlowAtFinds(s: string, i: nat, a: nat, b: nat, c: nat, e: nat, f: nat)
    requires i + 4 < a < b < c && c + 2 < e < f <= |s|
    requires WordAt(s, i, "from")
    requires forall k :: i + 4 <= k < a ==> IsSpace(s[k])
    requires forall k :: a <= k < b ==> !IsSpace(s[k])
    requires forall k :: b <= k < c ==> IsSpace(s[k])
    requires WordAt(s, c, "to")
    requires forall k :: c + 2 <= k < e ==> IsSpace(s[k])
    requires forall k :: e <= k < f ==> TargetChar(s[k])
    requires f < |s| ==> !TargetChar(s[f])
    ensures FlowAt(s, i) == Some(Capture(s[a..b], s[e..f], f))
  {
    WordStart(s, c, "to");
    SpacedWordFinds(s, i + 4, a, b, c);
    TargetFinds(s, c + 2, true, e, f);
    FlowAtOfStages(s, i, Group(a, b, c), Group(e, f, f));
  }

  /** `FlowAt` composes its stages. */
  lemma FlowAtOfStages(s: string, i: nat, g: Group, t: Group)
    requires i <= |s| && WordAt(s, i, "from") && SpacedWord(s, i + 4) == Some(g)
    requires WordAt(s, g.next, "to") && Target(s, g.next + 2, true) == Some(t)
    ensures FlowAt(s, i) == Some(Captured(s, g, t))
  {
  }

  /** The role keyword that occurs is the one whose length is taken. */
  lemma RoleKeywordFound(s: string, i: nat, kw: string)
    requires (kw == "subject" || kw == "actor" || kw == "item" || kw == "port") && WordAt(s, i, kw)
    ensures RoleKeywordLength(s, i) == |kw|
  {
    WordStart(s, i, kw);
    if WordAt(s, i, "subject") { WordStart(s, i, "subject"); }
    if WordAt(s, i, "actor") { WordStart(s, i, "actor"); }
    if WordAt(s, i, "item") { WordStart(s, i, "item"); }
  }

  /** `port p : T` and its siblings: `RoleAt` captures the name and the type,
      with or without white space around the colon. */
  lemma RoleAtFinds(s: string, i: nat, kw: string, a: nat, b: nat, c: nat, d: nat, e: nat)
    requires i + |kw| < a < b <= c < d < e <= |s|
    requires (kw == "subject" || kw == "actor" || kw == "item" || kw == "port") && WordAt(s, i, kw)
    requires forall k :: i + |kw| <= k < a ==> IsSpace(s[k])
    requires forall k :: a <= k < b ==> NameChar(s[k])
    requires (forall k :: b <= k < c ==> IsSpace(s[k])) && s[c] == ':'
    requires forall k :: c + 1 <= k < d ==> IsSpace(s[k])
    requires forall k :: d <= k < e ==> TargetChar(s[k])
    requires e < |s| ==> !TargetChar(s[e])
    ensures RoleAt(s, i) == Some(Capture(s[a..b], s[d..e], e))
  {
    RoleKeywordFound(s, i, kw);
    RoleNameFinds(s, i + |kw|, a, b, c);
    TargetFinds(s, c + 1, false, d, e);
    RoleAtOfStages(s, i, Group(a, b, c + 1), Group(d, e, e));
  }

  /** `RoleAt` composes its stages. */
  lemma RoleAtOfStages(s: string, i: nat, g: Group, t: Group)
    requires i <= |s| && RoleKeywordLength(s, i) != 0
    requires RoleName(s, i + RoleKeywordLength(s, i)) == Some(g) && Target(s, g.next, false) == Some(t)
    ensures RoleAt(s, i) == Some(Captured(s, g, t))
  {
  }

  // Soundness: what a pattern captures has the shape the pattern describes.

  /** A package header's name is a maximal run of characters other than a
      space and `{`, preceded only by "package" and white space. */
  lemma PackageHeaderMatches(line: string) returns (a: nat, e: nat)
    requires PackageHeader(line).Some?
    ensures WordAt(line, 0, "package") && 8 <= a < e <= |line|
    ensures PackageHeader(line).value == line[a..e]
    ensures forall k :: 7 <= k < a ==> IsSpace(line[k])
    ensures forall k :: a <= k < e ==> HeaderChar(line[k])
    ensures e < |line| ==> !HeaderChar(line[e])
  {
    var w := RunEnd(line, 7, IsSpace);
    RunEndSpec(line, 7, IsSpace);
    a, e := HeaderGroupMatches(line, w);
  }

  lemma {:induction false} HeaderGroupMatches(line: string, k: nat) returns (a: nat, e: nat)
    requires 8 <= k <= |line| && HeaderGroup(line, k).Some?
    requires forall j :: 7 <= j < k ==> IsSpace(line[j])
    ensures 8 <= a <= k && a < e <= |line| && HeaderGroup(line, k).value == line[a..e]
    ensures forall j :: 7 <= j < a ==> IsSpace(line[j])
    ensures forall j :: a <= j < e ==> HeaderChar(line[j])
    ensures e < |line| ==> !HeaderChar(line[e])
    decreases k
  {
    if k < |line| && HeaderChar(line[k]) {
      a, e := k, RunEnd(line, k, HeaderChar);
      RunEndSpec(line, k, HeaderChar);
    } else {
      a, e := HeaderGroupMatches(line, k - 1);
    }
  }

  lemma SpacedWordMatches(s: string, p: nat)
    requires p <= |s| && SpacedWord(s, p).Some?
    ensures var g := SpacedWord(s, p).value;
      (forall k :: p <= k < g.start ==> IsSpace(s[k])) &&
      (forall k :: g.start <= k < g.end ==> !IsSpace(s[k])) &&
      (forall k :: g.end <= k < g.next ==> IsSpace(s[k])) &&
      (g.next < |s| ==> !IsSpace(s[g.next]))
  {
    var a := RunEnd(s, p, IsSpace);
    var b := RunEnd(s, a, NotSpace);
    RunEndSpec(s, p, IsSpace);
    RunEndSpec(s, a, NotSpace);
    RunEndSpec(s, b, IsSpace);
  }

  lemma TargetMatches(s: string, p: nat, spaced: bool)
    requires p <= |s| && Target(s, p, spaced).Some?
    ensures var t := Target(s, p, spaced).value;
      (spaced ==> p < t.start) &&
      (forall k :: p <= k < t.start ==> IsSpace(s[k])) &&
      (forall k :: t.start <= k < t.end ==> TargetChar(s[k])) &&
      (t.end < |s| ==> !TargetChar(s[t.end]))
  {
    var d := RunEnd(s, p, IsSpace);
    RunEndSpec(s, p, IsSpace);
    RunEndSpec(s, d, TargetChar);
  }

  /** A match of `ConnectAt` is what the regular expression describes: it
      starts with the word `connect`, its first group holds no white space,
      and its second group holds target characters that the next character,
      if any, does not extend. */
  lemma ConnectAtMatches(s: string, i: nat)
    requires i <= |s| && ConnectAt(s, i).Some?
    ensures var m := ConnectAt(s, i).value;
      WordAt(s, i, "connect") &&
      (forall k :: 0 <= k < |m.first| ==> !IsSpace(m.first[k])) &&
      (forall k :: 0 <= k < |m.second| ==> TargetChar(m.second[k])) &&
      (m.end < |s| ==> !TargetChar(s[m.end]))
  {
    var g := SpacedWord(s, i + 7).value;
    SpacedWordMatches(s, i + 7);
    TargetMatches(s, AfterToOrWith(s, g.next), true);
  }
}
