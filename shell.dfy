/** A model of `shlex.split(line, posix=True)`: words separated by
    " \t\r\n", single quotes taken literally, double quotes honouring `\"`
    and `\\`, a backslash outside quotes escaping the next character, and
    failure (Python's `ValueError`) for an unclosed quote or a trailing
    backslash. A quoted empty string yields an empty word. */
module Shell {
  import opened Wrappers

  predicate ShellSpace(c: char) { c == ' ' || c == '\t' || c == '\r' || c == '\n' }

  datatype Mode = Plain | SingleQuoted | DoubleQuoted

  /** The scanner: `words` finished so far, the word `cur` under way
      (`open` once a word has started, even if it is still empty). */
  function Scan(s: string, words: seq<string>, cur: string, open: bool, mode: Mode): Option<seq<string>>
    decreases |s|
  {
    if s == [] then
      if mode != Plain then None else Some(if open then words + [cur] else words)
    else
      var c, rest := s[0], s[1..];
      match mode
      case Plain =>
        if ShellSpace(c) then
          if open then Scan(rest, words + [cur], [], false, Plain) else Scan(rest, words, cur, false, Plain)
        else if c == '\'' then Scan(rest, words, cur, true, SingleQuoted)
        else if c == '"' then Scan(rest, words, cur, true, DoubleQuoted)
        else if c == '\\' then
          if rest == [] then None else Scan(rest[1..], words, cur + [rest[0]], true, Plain)
        else Scan(rest, words, cur + [c], true, Plain)
      case SingleQuoted =>
        if c == '\'' then Scan(rest, words, cur, true, Plain)
        else Scan(rest, words, cur + [c], true, SingleQuoted)
      case DoubleQuoted =>
        if c == '"' then Scan(rest, words, cur, true, Plain)
        else if c == '\\' then
          if rest == [] then None
          else if rest[0] == '"' || rest[0] == '\\' then Scan(rest[1..], words, cur + [rest[0]], true, DoubleQuoted)
          else Scan(rest[1..], words, cur + [c, rest[0]], true, DoubleQuoted)
        else Scan(rest, words, cur + [c], true, DoubleQuoted)
  }

  predicate PlainWord(w: string) {
    w != [] && forall k :: 0 <= k < |w| ==> !ShellSpace(w[k])
  }

  predicate NoQuoting(s: string) {
    forall k :: 0 <= k < |s| ==> s[k] != '\'' && s[k] != '"' && s[k] != '\\'
  }

  /** `_tokenize`: the words of `line`, or none when splitting fails. */
  function Tokenize(line: string): seq<string> {
    match Scan(line, [], [], false, Plain)
    case Some(words) => words
    case None => []
  }

  lemma {:induction false} ScanUnquoted(s: string, words: seq<string>, cur: string, open: bool)
    requires NoQuoting(s)
    requires forall k :: 0 <= k < |words| ==> PlainWord(words[k])
    requires open ==> PlainWord(cur)
    requires !open ==> cur == []
    ensures Scan(s, words, cur, open, Plain).Some?
    ensures forall k :: 0 <= k < |Scan(s, words, cur, open, Plain).value| ==>
              PlainWord(Scan(s, words, cur, open, Plain).value[k])
    decreases |s|
  {
    if s != [] {
      var c, rest := s[0], s[1..];
      assert NoQuoting(rest) by { assert forall k :: 0 <= k < |rest| ==> rest[k] == s[k + 1]; }
      if ShellSpace(c) {
        if open { ScanUnquoted(rest, words + [cur], [], false); } else { ScanUnquoted(rest, words, cur, false); }
      } else {
        assert c != '\'' && c != '"' && c != '\\';
        ScanUnquoted(rest, words, cur + [c], true);
      }
    }
  }

  /** A line without quotes or backslashes always splits, into non-empty
      words free of white space. */
  lemma TokenizeUnquoted(line: string)
    requires NoQuoting(line)
    ensures forall k :: 0 <= k < |Tokenize(line)| ==> PlainWord(Tokenize(line)[k])
  {
    ScanUnquoted(line, [], [], false);
  }
}
