/** The tmux shim's shell quoting, and the pane token in an agent's environment. */
module TeamSupport {

  // ---------- Quoting ----------

  /** `s.replace('\'', "'\\''")` */
  function EscapeQuotes(s: string): string {
    if s == [] then []
    else (if s[0] == '\'' then "'\\''" else [s[0]]) + EscapeQuotes(s[1..])
  }

  function Quoted(s: string): string {
    "'" + EscapeQuotes(s) + "'"
  }

  function ShimScript(helper: string): string {
    "#!/bin/sh\nexec " + Quoted(helper) + " tmux \"$@\"\n"
  }

  /** What a shell makes of the start of a text: one word and what follows it. */
  datatype Reading =
    | Word(value: string, rest: string)
    | Unterminated
    | Unmodelled        // double quotes, expansions and substitutions

  predicate IsDelimiter(c: char) {
    c == ' ' || c == '\t' || c == '\n' || c == '|' || c == '&' || c == ';' || c == '<' || c == '>' || c == '(' || c == ')'
  }

  /** Outside quotes: sections 2.2.1 (escape character) and 2.3 (token recognition) of the Shell Command Language. */
  function ReadWord(text: string, word: string): Reading
    decreases |text|
  {
    if text == [] || IsDelimiter(text[0]) then Word(word, text)
    else if text[0] == '\'' then ReadQuoted(text[1..], word)
    else if text[0] == '\\' then
      if |text| == 1 then Unterminated
      else ReadWord(text[2..], if text[1] == '\n' then word else word + [text[1]])
    else if text[0] == '"' || text[0] == '$' || text[0] == '`' then Unmodelled
    else ReadWord(text[1..], word + [text[0]])
  }

  /** Inside single quotes, section 2.2.2: every character up to the next single quote stands for itself. */
  function ReadQuoted(text: string, word: string): Reading
    decreases |text|
  {
    if text == [] then Unterminated
    else if text[0] == '\'' then ReadWord(text[1..], word)
    else ReadQuoted(text[1..], word + [text[0]])
  }

  lemma ReadClosingQuote(rest: string, word: string)
    ensures ReadQuoted("'" + rest, word) == ReadWord(rest, word)
  {
    assert ("'" + rest)[1..] == rest;
  }

  lemma ReadQuotedCharacter(c: char, tail: string, word: string)
    requires c != '\''
    ensures ReadQuoted([c] + tail, word) == ReadQuoted(tail, word + [c])
  {
    assert ([c] + tail)[1..] == tail;
  }

  lemma {:induction false} ReadEscaped(s: string, rest: string, word: string)
    ensures ReadQuoted(EscapeQuotes(s) + "'" + rest, word) == ReadWord(rest, word + s)
  {
    hide ReadQuoted, ReadWord;
    var text := EscapeQuotes(s) + "'" + rest;
    if s == [] {
      assert text == "'" + rest && word + s == word;
      ReadClosingQuote(rest, word);
    } else {
      var tail := EscapeQuotes(s[1..]) + "'" + rest;
      ReadEscaped(s[1..], rest, word + [s[0]]);
      assert word + [s[0]] + s[1..] == word + s;
      if s[0] == '\'' {
        assert text == "'\\''" + tail;
        ReadEscapedQuote(tail, word);
      } else {
        assert text == [s[0]] + tail;
        ReadQuotedCharacter(s[0], tail, word);
      }
    }
  }

  /** Close, escape, reopen: three steps that add one single quote to the word. */
  lemma ReadEscapedQuote(tail: string, word: string)
    ensures ReadQuoted("'\\''" + tail, word) == ReadQuoted(tail, word + ['\''])
  {
    var text, escaped, reopened := "'\\''" + tail, "\\''" + tail, "'" + tail;
    assert text[1..] == escaped && escaped[2..] == reopened && reopened[1..] == tail;
    assert ReadQuoted(text, word) == ReadWord(escaped, word);
    assert escaped[0] == '\\' && escaped[1] == '\'';
    assert ReadWord(escaped, word) == ReadWord(reopened, word + ['\'']);
    assert ReadWord(reopened, word + ['\'']) == ReadQuoted(tail, word + ['\'']);
  }

  /** The shell reads back exactly the text that was quoted, and stops right after it. */
  lemma ShellReadsBackQuoted(s: string, rest: string)
    requires rest == [] || IsDelimiter(rest[0])
    ensures ReadWord(Quoted(s) + rest, []) == Word(s, rest)
  {
    var text, inside := Quoted(s) + rest, EscapeQuotes(s) + "'" + rest;
    assert text[0] == '\'' && text[1..] == inside;
    assert ReadWord(text, []) == ReadQuoted(inside, []);
    ReadEscaped(s, rest, []);
    assert [] + s == s;
    assert ReadWord(rest, s) == Word(s, rest);
  }

  lemma {:induction false} PlainWord(s: string, rest: string, word: string)
    requires forall i :: 0 <= i < |s| ==> 'a' <= s[i] <= 'z'
    requires rest == [] || IsDelimiter(rest[0])
    ensures ReadWord(s + rest, word) == Word(word + s, rest)
  {
    if s == [] {
      assert s + rest == rest && word + s == word;
    } else {
      assert (s + rest)[1..] == s[1..] + rest;
      PlainWord(s[1..], rest, word + [s[0]]);
      assert word + [s[0]] + s[1..] == word + s;
    }
  }

  /** The command line of the shim runs the helper, whatever its path, with `tmux` as the first argument. */
  lemma ShimRunsHelper(helper: string)
    ensures "#!/bin/sh\n" <= ShimScript(helper)
    ensures var command := ShimScript(helper)[|"#!/bin/sh\n"|..];
            var afterHelper := " tmux \"$@\"\n";
            && ReadWord(command, []) == Word("exec", " " + Quoted(helper) + afterHelper)
            && ReadWord(Quoted(helper) + afterHelper, []) == Word(helper, afterHelper)
            && ReadWord(afterHelper[1..], []) == Word("tmux", " \"$@\"\n")
  {
    hide ReadWord, ReadQuoted, EscapeQuotes, Quoted;
    var afterHelper := " tmux \"$@\"\n";
    var command := ShimScript(helper)[|"#!/bin/sh\n"|..];
    assert command == "exec" + (" " + Quoted(helper) + afterHelper);
    PlainWord("exec", " " + Quoted(helper) + afterHelper, []);
    ShellReadsBackQuoted(helper, afterHelper);
    assert afterHelper[1..] == "tmux" + " \"$@\"\n";
    PlainWord("tmux", " \"$@\"\n", []);
    assert [] + "exec" == "exec" && [] + "tmux" == "tmux";
  }

  // ---------- Pane token ----------

  datatype Entry = Entry(name: string, value: string)

  const PANE := "TMUX_PANE"

  function Replaced(e: Entry, token: string): Entry {
    if e.name == PANE then Entry(PANE, token) else e
  }

  function ReplaceAll(env: seq<Entry>, token: string): (out: seq<Entry>)
    ensures |out| == |env| && forall i :: 0 <= i < |env| ==> out[i] == Replaced(env[i], token)
  {
    seq(|env|, i requires 0 <= i < |env| => Replaced(env[i], token))
  }

  predicate HasPane(env: seq<Entry>) {
    exists i | 0 <= i < |env| :: env[i].name == PANE
  }

  function Override(env: seq<Entry>, token: string): seq<Entry> {
    ReplaceAll(env, token) + if HasPane(env) then [] else [Entry(PANE, token)]
  }

  method WithTmuxPaneToken(baseEnv: seq<Entry>, paneToken: string) returns (out: seq<Entry>)
    ensures out == Override(baseEnv, paneToken)
  {
    out := [];
    var replaced := false;
    for i := 0 to |baseEnv|
      invariant out == ReplaceAll(baseEnv[..i], paneToken)
      invariant replaced == HasPane(baseEnv[..i])
    {
      var Entry(key, value) := baseEnv[i];
      assert baseEnv[..i + 1] == baseEnv[..i] + [baseEnv[i]];
      PaneInLonger(baseEnv[..i], baseEnv[i]);
      if key == PANE {
        out := out + [Entry(key, paneToken)];
        replaced := true;
      } else {
        out := out + [Entry(key, value)];
      }
    }
    assert baseEnv[..|baseEnv|] == baseEnv;
    if !replaced {
      out := out + [Entry(PANE, paneToken)];
    }
  }

  lemma PaneInLonger(env: seq<Entry>, e: Entry)
    ensures HasPane(env + [e]) <==> HasPane(env) || e.name == PANE
  {
    var longer := env + [e];
    assert longer[|env|] == e;
    if i :| 0 <= i < |env| && env[i].name == PANE {
      assert longer[i].name == PANE;
    }
  }

  /** The entries of every other variable. */
  function Others(env: seq<Entry>): seq<Entry> {
    if env == [] then [] else (if env[0].name == "TMUX_PANE" then [] else [env[0]]) + Others(env[1..])
  }

  function Names(env: seq<Entry>): (names: seq<string>)
    ensures |names| == |env| && forall i :: 0 <= i < |env| ==> names[i] == env[i].name
  {
    seq(|env|, i requires 0 <= i < |env| => env[i].name)
  }

  ghost predicate DistinctNames(env: seq<Entry>) {
    forall i, j :: 0 <= i < j < |env| ==> env[i].name != env[j].name
  }

  lemma {:induction false} OthersOfConcat(a: seq<Entry>, b: seq<Entry>)
    ensures Others(a + b) == Others(a) + Others(b)
  {
    if a == [] {
      assert a + b == b;
    } else {
      assert (a + b)[1..] == a[1..] + b;
      OthersOfConcat(a[1..], b);
    }
  }

  lemma {:induction false} ReplacingKeepsOthers(env: seq<Entry>, token: string)
    ensures Others(ReplaceAll(env, token)) == Others(env)
  {
    if env != [] {
      assert ReplaceAll(env, token)[1..] == ReplaceAll(env[1..], token);
      ReplacingKeepsOthers(env[1..], token);
    }
  }

  lemma PaneIsSet(env: seq<Entry>, token: string)
    ensures Entry(PANE, token) in Override(env, token)
  {
    var out := Override(env, token);
    if HasPane(env) {
      var i :| 0 <= i < |env| && env[i].name == PANE;
      assert out[i] == Entry(PANE, token);
    } else {
      assert out[|env|] == Entry(PANE, token);
    }
  }

  lemma NamesStayDistinct(env: seq<Entry>, token: string)
    requires DistinctNames(env)
    ensures DistinctNames(Override(env, token))
  {
    hide PANE;
    var out := Override(env, token);
    assert forall i :: 0 <= i < |env| ==> out[i].name == env[i].name;
    assert |out| > |env| ==> !HasPane(env) && out[|env|].name == PANE;
  }

  /**
   The override writes one variable and nothing else: it is set, every entry of that name carries the token,
   all other entries keep their values and order, and no name appears that was not there.
   */
  lemma OverrideSetsOnlyThePane(env: seq<Entry>, token: string)
    ensures Entry("TMUX_PANE", token) in Override(env, token)
    ensures forall e :: e in Override(env, token) && e.name == "TMUX_PANE" ==> e.value == token
    ensures Others(Override(env, token)) == Others(env)
    ensures Names(Override(env, token))
            == Names(env) + if exists e :: e in env && e.name == "TMUX_PANE" then [] else ["TMUX_PANE"]
    ensures DistinctNames(env) ==> DistinctNames(Override(env, token))
  {
    hide DistinctNames;
    ReplacingKeepsOthers(env, token);
    OthersOfConcat(ReplaceAll(env, token), if HasPane(env) then [] else [Entry(PANE, token)]);
    PaneIsSet(env, token);
    if DistinctNames(env) {
      NamesStayDistinct(env, token);
    }
  }

  /** Only the last override counts. */
  lemma LastOverrideWins(env: seq<Entry>, first: string, second: string)
    ensures Override(Override(env, first), second) == Override(env, second)
  {
    var once := Override(env, first);
    if HasPane(env) {
      var i :| 0 <= i < |env| && env[i].name == PANE;
      assert once[i].name == PANE;
    } else {
      assert once[|env|].name == PANE;
    }
  }
}
