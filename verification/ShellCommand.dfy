/** tools/helpers/run.py: flattening an argument list into one shell string, and the shell's
    side: a reader of that string after "Quoting" and "Token Recognition" (sections 2.2 and
    2.3 of Shell Command Language, IEEE Std 1003.1-2017). */
module ShellCommand {
  import opened Strings

  // ----- the shell's side -----

  /** A character of a word, and whether it was quoted. */
  datatype Ch = Ch(c: char, quoted: bool)

  datatype Token = Word(chars: seq<Ch>) | Operator(op: char)

  datatype Mode = Between | InWord | Single | Double

  function Prepend(t: Token, rest: Option<seq<Token>>): Option<seq<Token>> {
    match rest
    case None => None
    case Some(ts) => Some([t] + ts)
  }

  predicate IsOperator(c: char) { c in "|&;<>()\n" }

  /** Unquoted, these make the shell do more than take the character: expansions, patterns. */
  predicate IsActive(c: char) { c in "$`*?[~" }

  /** The tokens of `s`, read in the given mode with `w` already in the current word. None if a
      quote is left open or the shell would expand something. */
  function Lex(s: string, mode: Mode, w: seq<Ch>): Option<seq<Token>>
    decreases |s|
  {
    if s == [] then
      match mode
      case Between => Some([])
      case InWord => Some([Word(w)])
      case _ => None
    else
      var c, rest := s[0], s[1..];
      match mode
      case Single =>
        if c == '\'' then Lex(rest, InWord, w) else Lex(rest, Single, w + [Ch(c, true)])
      case Double =>
        if c == '"' then Lex(rest, InWord, w)
        else if c == '$' || c == '`' then None
        else if c == '\\' && rest == [] then None
        else if c == '\\' && rest[0] == '\n' then Lex(rest[1..], Double, w)
        else if c == '\\' && rest[0] in "$`\"\\" then Lex(rest[1..], Double, w + [Ch(rest[0], true)])
        else Lex(rest, Double, w + [Ch(c, true)])
      case _ =>
        if c == '\'' then Lex(rest, Single, w)
        else if c == '"' then Lex(rest, Double, w)
        else if c == '\\' then
          if rest == [] then None
          else if rest[0] == '\n' then Lex(rest[1..], mode, w)
          else Lex(rest[1..], InWord, w + [Ch(rest[0], true)])
        else if IsActive(c) || (c == '#' && mode == Between) then None
        else if c == ' ' || c == '\t' then
          if mode == InWord then Prepend(Word(w), Lex(rest, Between, [])) else Lex(rest, Between, [])
        else if IsOperator(c) then
          var more := Prepend(Operator(c), Lex(rest, Between, []));
          if mode == InWord then Prepend(Word(w), more) else more
        else Lex(rest, InWord, w + [Ch(c, false)])
  }

  function Tokenise(s: string): Option<seq<Token>> { Lex(s, Between, []) }

  function Text(w: seq<Ch>): string { seq(|w|, i requires 0 <= i < |w| => w[i].c) }

  predicate IsNameChar(c: char) {
    'a' <= c <= 'z' || 'A' <= c <= 'Z' || '0' <= c <= '9' || c == '_'
  }

  /** An environment variable name. */
  predicate IsName(s: string) {
    s != [] && !('0' <= s[0] <= '9') && forall c :: c in s ==> IsNameChar(c)
  }

  /** How far an unquoted name reaches into the word. */
  function NameLength(w: seq<Ch>): nat {
    if w == [] || w[0].quoted || !IsNameChar(w[0].c) then 0 else 1 + NameLength(w[1..])
  }

  /** A word of the form name=value with an unquoted name and equals sign. */
  predicate IsAssignment(w: seq<Ch>) {
    var n := NameLength(w);
    0 < n < |w| && !('0' <= w[0].c <= '9') && w[n] == Ch('=', false)
  }

  /** A simple command: assignments, then the words of the command. */
  datatype Command = Command(env: seq<(string, string)>, words: seq<string>)

  function Words(ts: seq<Token>): Option<seq<string>> {
    if ts == [] then Some([])
    else if ts[0].Operator? then None
    else match Words(ts[1..])
      case None => None
      case Some(ws) => Some([Text(ts[0].chars)] + ws)
  }

  function Simple(ts: seq<Token>): Option<Command> {
    if ts != [] && ts[0].Word? && IsAssignment(ts[0].chars) then
      var w, n := ts[0].chars, NameLength(ts[0].chars);
      match Simple(ts[1..])
      case None => None
      case Some(c) => Some(Command([(Text(w[..n]), Text(w[n + 1..]))] + c.env, c.words))
    else match Words(ts)
      case None => None
      case Some(ws) => Some(Command([], ws))
  }

  /** The reserved words, and those that section 2.4 allows a shell to reserve. */
  const RESERVED_WORDS: seq<string> := [
    "!", "{", "}", "case", "do", "done", "elif", "else", "esac", "fi", "for", "if", "in", "then", "until", "while",
    "[[", "]]", "function", "select"]

  predicate IsUnquoted(w: seq<Ch>) { forall i :: 0 <= i < |w| ==> !w[i].quoted }

  /** A reserved word, or a name with a colon after it, which section 2.4 reserves too. */
  predicate IsReserved(w: seq<Ch>) {
    && IsUnquoted(w) && w != []
    && (Text(w) in RESERVED_WORDS || (IsName(Text(w)[..|w| - 1]) && w[|w| - 1].c == ':'))
  }

  /** Reserved words are only recognised where a command begins, so not after an assignment. */
  predicate StartsReserved(ts: seq<Token>) {
    ts != [] && ts[0].Word? && IsReserved(ts[0].chars)
  }

  /** The string as one simple command. None if it is not one. */
  function Parse(s: string): Option<Command> {
    match Tokenise(s)
    case None => None
    case Some(ts) => if StartsReserved(ts) then None else Simple(ts)
  }

  // ----- run.py -----

  /** The characters that shlex.quote leaves alone. */
  predicate IsSafe(c: char) { IsNameChar(c) || c in "@%+=:,./-" }

  predicate AllSafe(s: string) { forall c :: c in s ==> IsSafe(c) }

  function Escape(s: string): string {
    if s == [] then [] else (if s[0] == '\'' then "'\"'\"'" else [s[0]]) + Escape(s[1..])
  }

  function Quote(s: string): string {
    if s == [] then "''" else if AllSafe(s) then s else "'" + Escape(s) + "'"
  }

  function EscapedEnv(env: seq<(string, string)>): seq<string> {
    seq(|env|, i requires 0 <= i < |env| => env[i].0 + "=" + Quote(env[i].1))
  }

  function EscapedCmd(cmd: seq<string>): seq<string> {
    seq(|cmd|, i requires 0 <= i < |cmd| => Quote(cmd[i]))
  }

  function Join(xs: seq<string>): string {
    if xs == [] then "" else if |xs| == 1 then xs[0] else xs[0] + " " + Join(xs[1..])
  }

  function Flat(env: seq<(string, string)>, cmd: seq<string>): string {
    Join(EscapedEnv(env) + EscapedCmd(cmd))
  }

  method FlatCmd(cmd: seq<string>, workingDir: string, env: seq<(string, string)>) returns (ret: string)
    ensures ret == (if workingDir == "" then "" else "cd " + Quote(workingDir) + ";") + Flat(env, cmd)
  {
    var escaped: seq<string> := [];
    for i := 0 to |env|
      invariant escaped == EscapedEnv(env[..i])
    {
      escaped := escaped + [env[i].0 + "=" + Quote(env[i].1)];
    }
    assert env[..|env|] == env;
    for i := 0 to |cmd|
      invariant escaped == EscapedEnv(env) + EscapedCmd(cmd[..i])
    {
      escaped := escaped + [Quote(cmd[i])];
    }
    assert cmd[..|cmd|] == cmd;
    ret := Join(escaped);
    if workingDir != "" {
      ret := "cd " + Quote(workingDir) + ";" + ret;
    }
  }

  /** The argument list that `user` hands to the process. */
  function UserArgv(env: seq<(string, string)>, cmd: seq<string>): seq<string> {
    if env == [] then cmd else ["sh", "-c", Flat(env, cmd)]
  }

  /** `root`: the command wrapped once, behind sudo, and given to `user`, which wraps it again. */
  function RootArgv(env: seq<(string, string)>, cmd: seq<string>): seq<string> {
    UserArgv(env, ["sudo"] + UserArgv(env, cmd))
  }

  // ----- reading back one quoted word -----

  function Marked(s: string, quoted: bool): seq<Ch> {
    seq(|s|, i requires 0 <= i < |s| => Ch(s[i], quoted))
  }

  function QuotedWord(s: string): seq<Ch> { Marked(s, !AllSafe(s)) }

  lemma TextOfMarked(s: string, quoted: bool)
    ensures Text(Marked(s, quoted)) == s
  {}

  lemma MarkedCons(s: string, quoted: bool)
    requires s != []
    ensures Marked(s, quoted) == [Ch(s[0], quoted)] + Marked(s[1..], quoted)
  {}

  lemma {:induction false} LexSafe(s: string, rest: string, mode: Mode, w: seq<Ch>)
    requires AllSafe(s) && s != [] && (mode == InWord || mode == Between)
    ensures Lex(s + rest, mode, w) == Lex(rest, InWord, w + Marked(s, false))
  {
    assert IsSafe(s[0]);
    assert (s + rest)[1..] == s[1..] + rest;
    MarkedCons(s, false);
    var w1 := w + [Ch(s[0], false)];
    assert Lex(s + rest, mode, w) == Lex(s[1..] + rest, InWord, w1);
    if s[1..] == [] {
      assert s[1..] + rest == rest;
      assert Marked(s[1..], false) == [];
      assert w1 == w + Marked(s, false);
    } else {
      LexSafe(s[1..], rest, InWord, w1);
      assert w1 + Marked(s[1..], false) == w + Marked(s, false);
    }
  }

  lemma {:induction false} LexEscaped(s: string, rest: string, w: seq<Ch>)
    ensures Lex(Escape(s) + rest, Single, w) == Lex(rest, Single, w + Marked(s, true))
  {
    if s == [] {
      assert Escape(s) + rest == rest && w + Marked(s, true) == w;
    } else {
      MarkedCons(s, true);
      var tail, w1 := Escape(s[1..]) + rest, w + [Ch(s[0], true)];
      if s[0] == '\'' {
        LexApostrophe(tail, w);
        assert Escape(s) + rest == "'\"'\"'" + tail;
      } else {
        assert Escape(s) + rest == [s[0]] + tail;
        assert ([s[0]] + tail)[1..] == tail;
      }
      LexEscaped(s[1..], rest, w1);
      assert w1 + Marked(s[1..], true) == w + Marked(s, true);
    }
  }

  /** An apostrophe outside quotes opens, inside closes. */
  lemma LexOpenClose(rest: string, mode: Mode, w: seq<Ch>)
    requires mode == InWord || mode == Between
    ensures Lex("'" + rest, mode, w) == Lex(rest, Single, w)
    ensures Lex("'" + rest, Single, w) == Lex(rest, InWord, w)
  {
    assert ("'" + rest)[1..] == rest;
  }

  /** A double quote opens and closes likewise, and an apostrophe in between is a character. */
  lemma LexDouble(rest: string, w: seq<Ch>)
    ensures Lex("\"" + rest, InWord, w) == Lex(rest, Double, w)
    ensures Lex("\"" + rest, Double, w) == Lex(rest, InWord, w)
    ensures Lex("'" + rest, Double, w) == Lex(rest, Double, w + [Ch('\'', true)])
  {
    assert ("\"" + rest)[1..] == rest && ("'" + rest)[1..] == rest;
  }

  /** Close, quote one apostrophe with double quotes, open again. */
  lemma LexApostrophe(tail: string, w: seq<Ch>)
    ensures Lex("'\"'\"'" + tail, Single, w) == Lex(tail, Single, w + [Ch('\'', true)])
  {
    var s1, s2, s3, s4 := "\"'\"'" + tail, "'\"'" + tail, "\"'" + tail, "'" + tail;
    var w1 := w + [Ch('\'', true)];
    assert "'\"'\"'" + tail == "'" + s1 && s1 == "\"" + s2 && s2 == "'" + s3 && s3 == "\"" + s4;
    LexOpenClose(s1, InWord, w);
    LexDouble(s2, w);
    LexDouble(s3, w);
    LexDouble(s4, w1);
    LexOpenClose(tail, InWord, w1);
  }

  lemma LexQuote(s: string, rest: string, mode: Mode, w: seq<Ch>)
    requires mode == InWord || mode == Between
    ensures Lex(Quote(s) + rest, mode, w) == Lex(rest, InWord, w + QuotedWord(s))
  {
    if s == [] {
      assert Quote(s) + rest == "'" + ("'" + rest);
      LexOpenClose("'" + rest, mode, w);
      LexOpenClose(rest, mode, w);
      assert w + QuotedWord(s) == w;
    } else if AllSafe(s) {
      LexSafe(s, rest, mode, w);
    } else {
      var body := Escape(s) + ("'" + rest);
      assert Quote(s) + rest == "'" + body;
      LexOpenClose(body, mode, w);
      LexEscaped(s, "'" + rest, w);
      LexOpenClose(rest, mode, w + Marked(s, true));
    }
  }

  // ----- reading back the whole string -----

  /** The word that `key=Quote(value)` is read as. */
  function EnvWord(kv: (string, string)): seq<Ch> {
    Marked(kv.0 + "=", false) + QuotedWord(kv.1)
  }

  function FlatTokens(env: seq<(string, string)>, cmd: seq<string>): seq<Token> {
    EnvTokens(env) + CmdTokens(cmd)
  }

  function EnvTokens(env: seq<(string, string)>): seq<Token> {
    seq(|env|, i requires 0 <= i < |env| => Word(EnvWord(env[i])))
  }

  function CmdTokens(cmd: seq<string>): seq<Token> {
    seq(|cmd|, i requires 0 <= i < |cmd| => Word(QuotedWord(cmd[i])))
  }

  predicate GoodNames(env: seq<(string, string)>) {
    forall i :: 0 <= i < |env| ==> IsName(env[i].0)
  }

  /** The strings of `xs` are each read as one word, whatever follows. */
  ghost predicate ReadAs(xs: seq<string>, ts: seq<Token>) {
    |xs| == |ts| && forall i :: 0 <= i < |xs| ==> ts[i].Word? && ReadsAs(xs[i], ts[i].chars)
  }

  ghost predicate ReadsAs(x: string, w: seq<Ch>) {
    forall rest :: Lex(x + rest, Between, []) == Lex(rest, InWord, w)
  }

  lemma {:induction false} LexJoin(xs: seq<string>, ts: seq<Token>)
    requires ReadAs(xs, ts)
    ensures Tokenise(Join(xs)) == Some(ts)
  {
    if xs == [] {
    } else {
      var w := ts[0].chars;
      assert ReadsAs(xs[0], w);
      if |xs| == 1 {
        assert xs[0] + [] == xs[0];
        assert ts == [Word(w)];
      } else {
        var rest := " " + Join(xs[1..]);
        assert Join(xs) == xs[0] + rest;
        assert rest[1..] == Join(xs[1..]);
        LexJoin(xs[1..], ts[1..]);
        assert ts == [ts[0]] + ts[1..];
      }
    }
  }

  lemma QuotesRead(s: string)
    ensures ReadsAs(Quote(s), QuotedWord(s))
  {
    forall rest ensures Lex(Quote(s) + rest, Between, []) == Lex(rest, InWord, QuotedWord(s)) {
      LexQuote(s, rest, Between, []);
      assert [] + QuotedWord(s) == QuotedWord(s);
    }
  }

  lemma EnvReads(kv: (string, string))
    requires IsName(kv.0)
    ensures ReadsAs(kv.0 + "=" + Quote(kv.1), EnvWord(kv))
  {
    var k := kv.0 + "=";
    forall rest ensures Lex(k + Quote(kv.1) + rest, Between, []) == Lex(rest, InWord, EnvWord(kv)) {
      assert k + Quote(kv.1) + rest == k + (Quote(kv.1) + rest);
      LexSafe(k, Quote(kv.1) + rest, Between, []);
      assert [] + Marked(k, false) == Marked(k, false);
      LexQuote(kv.1, rest, InWord, Marked(k, false));
    }
  }

  /** Tokenising the flat string gives back one word per assignment and per argument. */
  lemma FlatTokenises(env: seq<(string, string)>, cmd: seq<string>)
    requires GoodNames(env)
    ensures Tokenise(Flat(env, cmd)) == Some(FlatTokens(env, cmd))
  {
    var xs, ts := EscapedEnv(env) + EscapedCmd(cmd), FlatTokens(env, cmd);
    forall i | 0 <= i < |xs| ensures ts[i].Word? && ReadsAs(xs[i], ts[i].chars) {
      if i < |env| {
        EnvReads(env[i]);
      } else {
        QuotesRead(cmd[i - |env|]);
      }
    }
    LexJoin(xs, ts);
  }

  /** ... and the words carry the argument strings themselves, quotes and all. */
  lemma {:induction false} CmdWords(cmd: seq<string>)
    ensures Words(CmdTokens(cmd)) == Some(cmd)
  {
    if cmd != [] {
      CmdWords(cmd[1..]);
      assert CmdTokens(cmd)[1..] == CmdTokens(cmd[1..]);
      TextOfMarked(cmd[0], !AllSafe(cmd[0]));
      assert cmd == [cmd[0]] + cmd[1..];
    }
  }

  // ----- assignments -----

  lemma {:induction false} NameLengthOfMarked(s: string, quoted: bool, tail: seq<Ch>)
    ensures quoted && s != [] ==> NameLength(Marked(s, quoted) + tail) == 0
    ensures !quoted && (forall c :: c in s ==> IsNameChar(c)) ==>
              NameLength(Marked(s, quoted) + tail) == |s| + NameLength(tail)
  {
    if s == [] {
      assert Marked(s, quoted) + tail == tail;
    } else {
      MarkedCons(s, quoted);
      assert (Marked(s, quoted) + tail)[1..] == Marked(s[1..], quoted) + tail;
      NameLengthOfMarked(s[1..], quoted, tail);
    }
  }

  lemma EnvWordIsAssignment(kv: (string, string))
    requires IsName(kv.0)
    ensures var w := EnvWord(kv);
            IsAssignment(w) && Text(w[..NameLength(w)]) == kv.0 && Text(w[NameLength(w) + 1..]) == kv.1
  {
    var w, tail := EnvWord(kv), [Ch('=', false)] + QuotedWord(kv.1);
    assert w == Marked(kv.0, false) + tail;
    NameLengthOfMarked(kv.0, false, tail);
    assert NameLength(tail) == 0;
    assert w[..|kv.0|] == Marked(kv.0, false) && w[|kv.0| + 1..] == QuotedWord(kv.1);
    TextOfMarked(kv.0, false);
    TextOfMarked(kv.1, !AllSafe(kv.1));
  }

  /** An argument that the shell would take for an assignment if it came first. */
  predicate LooksLikeAssignment(s: string) {
    IsAssignment(QuotedWord(s))
  }

  /** The assignments come first, and what the rest is read as comes after them. */
  lemma {:induction false} SimpleOfEnv(env: seq<(string, string)>, ts: seq<Token>, c: Command)
    requires GoodNames(env) && ReadsTo(ts, c)
    ensures ReadsTo(EnvTokens(env) + ts, Command(env + c.env, c.words))
  {
    if env == [] {
      EnvTokensNil(env, ts, c);
    } else {
      var all, rest, c1 := EnvTokens(env) + ts, EnvTokens(env[1..]) + ts, Command(env[1..] + c.env, c.words);
      assert rest == EnvTokens(env[1..]) + ts && ReadsTo(rest, c1) by { SimpleOfEnv(env[1..], ts, c); }
      assert all == [Word(EnvWord(env[0]))] + rest by { EnvTokensCons(env, ts); }
      assert ReadsTo(all, Command([env[0]] + c1.env, c1.words)) by { SimpleOfAssignment(env[0], rest); }
      EnvCons(env, c.env);
    }
  }

  ghost predicate ReadsTo(ts: seq<Token>, c: Command) { Simple(ts) == Some(c) }

  lemma EnvTokensNil(env: seq<(string, string)>, ts: seq<Token>, c: Command)
    requires env == []
    ensures EnvTokens(env) + ts == ts && Command(env + c.env, c.words) == c
  {}

  lemma EnvCons(env: seq<(string, string)>, more: seq<(string, string)>)
    requires env != []
    ensures [env[0]] + (env[1..] + more) == env + more
  {}

  lemma EnvTokensCons(env: seq<(string, string)>, ts: seq<Token>)
    requires env != []
    ensures EnvTokens(env) + ts == [Word(EnvWord(env[0]))] + (EnvTokens(env[1..]) + ts)
  {}

  lemma SimpleOfAssignment(kv: (string, string), ts: seq<Token>)
    requires IsName(kv.0) && Simple(ts).Some?
    ensures Simple([Word(EnvWord(kv))] + ts) == Some(Command([kv] + Simple(ts).value.env, Simple(ts).value.words))
  {
    EnvWordIsAssignment(kv);
    assert ([Word(EnvWord(kv))] + ts)[1..] == ts;
  }

  lemma SimpleOfCmd(cmd: seq<string>)
    ensures Simple(CmdTokens(cmd)).Some?
    ensures var c := Simple(CmdTokens(cmd)).value;
            if cmd == [] || !LooksLikeAssignment(cmd[0]) then c == Command([], cmd) else c.env != []
  {
    if cmd != [] && LooksLikeAssignment(cmd[0]) {
      SimpleOfWords(cmd[1..]);
      assert CmdTokens(cmd)[1..] == CmdTokens(cmd[1..]);
    } else {
      CmdWords(cmd);
    }
  }

  lemma {:induction false} SimpleOfWords(cmd: seq<string>)
    ensures Simple(CmdTokens(cmd)).Some?
  {
    CmdWords(cmd);
    if cmd != [] {
      assert CmdTokens(cmd)[1..] == CmdTokens(cmd[1..]);
      SimpleOfWords(cmd[1..]);
    }
  }

  /** A command name that the shell would take for a reserved word where a command begins. */
  predicate LooksReserved(s: string) {
    IsReserved(QuotedWord(s))
  }

  /** What can go wrong with the first argument: it looks like an assignment, or like a reserved word
      with no assignment before it. */
  predicate IsMisread(env: seq<(string, string)>, cmd: seq<string>) {
    cmd != [] && (LooksLikeAssignment(cmd[0]) || (env == [] && LooksReserved(cmd[0])))
  }

  /** An unquoted equals sign is in no reserved word. */
  lemma EqualsSignIsNotReserved(w: seq<Ch>, i: nat)
    requires i < |w| && w[i] == Ch('=', false)
    ensures !IsReserved(w)
  {
    var n, text := |w| - 1, Text(w);
    assert text[i] == '=';
    if i < n {
      assert text[..n][i] == '=' && '=' in text[..n] && !IsNameChar('=');
      assert !IsName(text[..n]);
    }
    if text in RESERVED_WORDS { NoEqualsSign(text); }
  }

  lemma NoEqualsSign(s: string)
    requires s in RESERVED_WORDS
    ensures '=' !in s
  {}

  lemma StartsReservedIff(env: seq<(string, string)>, cmd: seq<string>)
    requires GoodNames(env)
    ensures StartsReserved(FlatTokens(env, cmd)) <==> env == [] && cmd != [] && LooksReserved(cmd[0])
  {
    if env != [] {
      EqualsSignIsNotReserved(EnvWord(env[0]), |env[0].0|);
    }
  }

  /** The shell reads the flat string as exactly these assignments and this command if and only
      if the names are names and the first argument is not misread. */
  lemma FlatParsesBack(env: seq<(string, string)>, cmd: seq<string>)
    ensures Parse(Flat(env, cmd)) == Some(Command(env, cmd)) <==> GoodNames(env) && !IsMisread(env, cmd)
  {
    if GoodNames(env) {
      FlatTokenises(env, cmd);
      SimpleOfCmd(cmd);
      var c := Simple(CmdTokens(cmd)).value;
      SimpleOfEnv(env, CmdTokens(cmd), c);
      StartsReservedIff(env, cmd);
      assert c.env == [] ==> env + c.env == env;
      assert |env + c.env| == |env| + |c.env|;
    } else if Tokenise(Flat(env, cmd)).Some? {
      ParsedNamesAreNames(Tokenise(Flat(env, cmd)).value);
    }
  }

  lemma {:induction false} ParsedNamesAreNames(ts: seq<Token>)
    ensures Simple(ts).Some? ==> GoodNames(Simple(ts).value.env)
  {
    if ts != [] && ts[0].Word? && IsAssignment(ts[0].chars) {
      ParsedNamesAreNames(ts[1..]);
      NamePrefix(ts[0].chars);
    }
  }

  lemma {:induction false} NamePrefix(w: seq<Ch>)
    ensures NameLength(w) <= |w| && forall i :: 0 <= i < NameLength(w) ==> IsNameChar(w[i].c)
  {
    if NameLength(w) > 0 {
      NamePrefix(w[1..]);
      assert forall i :: 0 < i < NameLength(w) ==> w[i] == w[1..][i - 1];
    }
  }

  lemma WordEnds(rest: string, w: seq<Ch>)
    ensures Lex(" " + rest, InWord, w) == Prepend(Word(w), Lex(rest, Between, []))
    ensures Lex(";" + rest, InWord, w) ==
            Prepend(Word(w), Prepend(Operator(';'), Lex(rest, Between, [])))
  {
    assert (" " + rest)[1..] == rest && (";" + rest)[1..] == rest;
  }

  /** With a working directory: `cd`, the directory, a semicolon, and then the same command. */
  lemma WorkingDirReads(dir: string, env: seq<(string, string)>, cmd: seq<string>)
    requires GoodNames(env)
    ensures Tokenise("cd " + Quote(dir) + ";" + Flat(env, cmd)) ==
            Some([Word(QuotedWord("cd")), Word(QuotedWord(dir)), Operator(';')] + FlatTokens(env, cmd))
  {
    var cd, d, ts, flat := QuotedWord("cd"), QuotedWord(dir), FlatTokens(env, cmd), Flat(env, cmd);
    FlatTokenises(env, cmd);
    assert "cd " + Quote(dir) + ";" + flat == "cd" + (" " + (Quote(dir) + (";" + flat)));
    LexSafe("cd", " " + (Quote(dir) + (";" + flat)), Between, []);
    assert [] + Marked("cd", false) == cd;
    WordEnds(Quote(dir) + (";" + flat), cd);
    LexQuote(dir, ";" + flat, Between, []);
    assert [] + d == d;
    WordEnds(flat, d);
    assert [Word(cd)] + ([Word(d)] + ([Operator(';')] + ts)) == [Word(cd), Word(d), Operator(';')] + ts;
  }

  /** `root` with environment variables wraps twice, and two rounds of reading unwrap it: the
      outer string always gives sudo and the inner one, the inner one the original command
      exactly if its name does not look like an assignment. */
  lemma RootUnwraps(env: seq<(string, string)>, cmd: seq<string>)
    requires env != [] && GoodNames(env)
    ensures var argv := RootArgv(env, cmd);
            && |argv| == 3 && argv[..2] == ["sh", "-c"]
            && Parse(argv[2]).Some?
            && var outer := Parse(argv[2]).value;
               && outer.env == env && |outer.words| == 4 && outer.words[..3] == ["sudo", "sh", "-c"]
               && (Parse(outer.words[3]) == Some(Command(env, cmd)) <==> cmd == [] || !LooksLikeAssignment(cmd[0]))
  {
    var inner := ["sudo", "sh", "-c", Flat(env, cmd)];
    assert ["sudo"] + UserArgv(env, cmd) == inner;
    assert RootArgv(env, cmd) == ["sh", "-c", Flat(env, inner)];
    SudoIsNoAssignment();
    StartsReservedIff(env, inner);
    StartsReservedIff(env, cmd);
    FlatParsesBack(env, inner);
    FlatParsesBack(env, cmd);
  }

  // ----- what the process ends up running -----

  /** An argument list runs itself, with nothing added to the environment; and `sh -c` runs what the
      shell reads. */
  ghost predicate Executes(argv: seq<string>, c: Command) {
    || (c.env == [] && argv == c.words)
    || (|argv| == 3 && argv[0] == "sh" && argv[1] == "-c" && Parse(argv[2]) == Some(c))
  }

  /** `user` passes a command without an environment on as it is, argument by argument; with one, the
      command runs in it exactly under the condition of FlatParsesBack. */
  lemma UserRuns(env: seq<(string, string)>, cmd: seq<string>)
    ensures Executes(UserArgv(env, cmd), Command(env, cmd)) <==>
            env == [] || (GoodNames(env) && !IsMisread(env, cmd))
    ensures env == [] ==>
              var argv := UserArgv(env, cmd);
              |argv| == |cmd| && forall i :: 0 <= i < |cmd| ==> argv[i] == cmd[i]
  {
    FlatParsesBack(env, cmd);
  }

  /** sudo runs in the environment and is given what runs the command. */
  ghost predicate RunsBySudo(argv: seq<string>, c: Command) {
    exists inner :: Executes(argv, Command(c.env, ["sudo"] + inner)) && Executes(inner, c)
  }

  /** `root` only puts sudo before a command without an environment; with one, sudo and the command both
      run in it exactly under that condition. */
  lemma RootRuns(env: seq<(string, string)>, cmd: seq<string>)
    ensures RunsBySudo(RootArgv(env, cmd), Command(env, cmd)) <==>
            env == [] || (GoodNames(env) && !IsMisread(env, cmd))
    ensures env == [] ==>
              var argv := RootArgv(env, cmd);
              |argv| == |cmd| + 1 && argv[0] == "sudo" && forall i :: 0 <= i < |cmd| ==> argv[i + 1] == cmd[i]
  {
    var argv, inner := RootArgv(env, cmd), UserArgv(env, cmd);
    UserRuns(env, cmd);
    if env == [] {
      assert argv == ["sudo"] + inner;
      assert Executes(argv, Command(env, ["sudo"] + inner));
    } else {
      OnlySudo(env, inner);
      assert argv == ["sh", "-c", Flat(env, ["sudo"] + inner)];
      if i :| Executes(argv, Command(env, ["sudo"] + i)) && Executes(i, Command(env, cmd)) {
        assert i == (["sudo"] + i)[1..] == (["sudo"] + inner)[1..] == inner;
      }
    }
  }

  /** sudo is read back whatever it is given, if the names are names. */
  lemma OnlySudo(env: seq<(string, string)>, inner: seq<string>)
    requires env != []
    ensures GoodNames(env) ==> Parse(Flat(env, ["sudo"] + inner)) == Some(Command(env, ["sudo"] + inner))
    ensures forall c :: Parse(Flat(env, ["sudo"] + inner)) == Some(c) && c.env == env ==> GoodNames(env)
  {
    SudoIsNoAssignment();
    FlatParsesBack(env, ["sudo"] + inner);
    if Tokenise(Flat(env, ["sudo"] + inner)).Some? {
      ParsedNamesAreNames(Tokenise(Flat(env, ["sudo"] + inner)).value);
    }
  }

  /** An argument is passed on unquoted exactly if it is not empty and has only letters, digits and
      the characters that shlex calls safe; any other comes in single quotes, in which each apostrophe
      is spelled out. */
  lemma QuoteLeavesAlone(s: string)
    ensures Quote(s) == s <==>
            s != "" && forall c :: c in s ==>
              'a' <= c <= 'z' || 'A' <= c <= 'Z' || '0' <= c <= '9' || c in "_@%+=:,./-"
    ensures Quote(s) != s ==> Quote(s) == "'" + Escape(s) + "'"
  {
    if s != "" && !AllSafe(s) {
      EscapeIsLonger(s);
    }
    assert Escape("") == "";
  }

  lemma {:induction false} EscapeIsLonger(s: string)
    ensures |Escape(s)| >= |s|
  {
    if s != [] { EscapeIsLonger(s[1..]); }
  }

  lemma SudoIsNoAssignment()
    ensures !LooksLikeAssignment("sudo")
  {
    NameLengthOfMarked("sudo", false, []);
    assert Marked("sudo", false) + [] == Marked("sudo", false);
    assert AllSafe("sudo");
  }

  /** The condition is needed: this command is read back as an assignment with no command. */
  lemma AssignmentShapedCommandIsLost()
    ensures Parse(Flat([], ["A=b"])) != Some(Command([], ["A=b"]))
  {
    NameLengthOfMarked("A", false, Marked("=b", false));
    assert Marked("A", false) + Marked("=b", false) == Marked("A=b", false);
    assert AllSafe("A=b");
    assert NameLength(Marked("=b", false)) == 0;
    FlatParsesBack([], ["A=b"]);
  }

  /** ... and this one begins a compound command, unless an assignment comes before it. */
  lemma ReservedCommandIsLost(env: seq<(string, string)>)
    requires GoodNames(env)
    ensures Parse(Flat(env, ["if", "x"])) == Some(Command(env, ["if", "x"])) <==> env != []
  {
    assert AllSafe("if");
    TextOfMarked("if", false);
    assert RESERVED_WORDS[11] == "if";
    NameLengthOfMarked("if", false, []);
    assert Marked("if", false) + [] == Marked("if", false);
    FlatParsesBack(env, ["if", "x"]);
  }
}
