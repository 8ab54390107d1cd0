/** openssl commands as shell lines (`opensslcmd`), read back by a shell lexer. */
module ShellQuoting {
  import opened CertTypes

  datatype Command = Command(tool: string, args: seq<string>, notes: seq<string>)

  // ---------------------------------------------------------------------------------------------
  // The renderer
  // ---------------------------------------------------------------------------------------------

  predicate Safe(c: char) {
    'a' <= c <= 'z' || 'A' <= c <= 'Z' || '0' <= c <= '9' || c == '@' || c == '%' || c == '+' || c == '='
    || c == ':' || c == ',' || c == '.' || c == '/' || c == '-' || c == '_'
  }

  predicate AllSafe(s: string) {
    forall i :: 0 <= i < |s| ==> Safe(s[i])
  }

  const QUOTED_QUOTE := ['\'', '\\', '\'', '\'']

  /** `strings.ReplaceAll` of every quote by close, escaped quote, open. */
  function Escape(s: string): string {
    if s == "" then "" else (if s[0] == '\'' then QUOTED_QUOTE else [s[0]]) + Escape(s[1..])
  }

  function ShellQuote(s: string): string {
    if s == "" then "''" else if AllSafe(s) then s else "'" + Escape(s) + "'"
  }

  /** The words after the tool, each behind a space. */
  function Tail(args: seq<string>): string {
    if args == [] then "" else Tail(args[..|args| - 1]) + " " + ShellQuote(args[|args| - 1])
  }

  function Line(c: Command): string {
    c.tool + Tail(c.args)
  }

  function Join(parts: seq<string>): string {
    if parts == [] then ""
    else if |parts| == 1 then parts[0]
    else Join(parts[..|parts| - 1]) + " " + parts[|parts| - 1]
  }

  lemma JoinStep(parts: seq<string>, word: string)
    requires parts != []
    ensures Join(parts + [word]) == Join(parts) + " " + word
  {
    assert (parts + [word])[..|parts|] == parts;
  }

  lemma TailStep(tool: string, args: seq<string>, i: nat)
    requires i < |args|
    ensures tool + Tail(args[..i + 1]) == tool + Tail(args[..i]) + " " + ShellQuote(args[i])
  {
    assert args[..i + 1][..i] == args[..i];
    assert tool + (Tail(args[..i]) + " " + ShellQuote(args[i])) == tool + Tail(args[..i]) + " " + ShellQuote(args[i]);
  }

  /** `Command.String`: collects the quoted words and joins them with spaces. */
  method CommandString(c: Command) returns (line: string)
    ensures line == Line(c)
  {
    var parts := [c.tool];
    for i := 0 to |c.args|
      invariant |parts| == i + 1 && Join(parts) == c.tool + Tail(c.args[..i])
    {
      var word := ShellQuote(c.args[i]);
      JoinStep(parts, word);
      TailStep(c.tool, c.args, i);
      parts := parts + [word];
    }
    assert c.args[..|c.args|] == c.args;
    line := Join(parts);
  }

  /** The first line, a comment. */
  const EQUIVALENCE_HEADER := "# openssl equivalent (behaviour, not byte-identical output)"

  /** The header in two halves: looking for a character in one literal of this length is too much for the solver. */
  lemma HeaderHalves()
    ensures EQUIVALENCE_HEADER == "# openssl equivalent (behaviour" + ", not byte-identical output)"
  {}

  lemma HeaderIsOneLine()
    ensures '\n' !in EQUIVALENCE_HEADER && EQUIVALENCE_HEADER[0] == '#'
  {
    HeaderHalves();
    assert '\n' !in "# openssl equivalent (behaviour";
    assert '\n' !in ", not byte-identical output)";
  }

  function Lines(cmds: seq<Command>): string {
    if cmds == [] then ""
    else
      var last := cmds[|cmds| - 1];
      var before := Lines(cmds[..|cmds| - 1]);
      if last.tool == "" then before else before + "\n" + Line(last)
  }

  const NOTE_PREFIX := "\n# note: "

  function NoteLines(notes: seq<string>): string {
    if notes == [] then "" else NoteLines(notes[..|notes| - 1]) + NOTE_PREFIX + notes[|notes| - 1]
  }

  function AllNotes(cmds: seq<Command>): seq<string> {
    if cmds == [] then [] else AllNotes(cmds[..|cmds| - 1]) + cmds[|cmds| - 1].notes
  }

  /** The first occurrence of each note, in order. */
  function Dedupe(notes: seq<string>): seq<string> {
    if notes == [] then []
    else
      var n := |notes| - 1;
      if notes[n] in notes[..n] then Dedupe(notes[..n]) else Dedupe(notes[..n]) + [notes[n]]
  }

  lemma {:induction false} DedupeExact(notes: seq<string>)
    ensures forall n :: n in Dedupe(notes) <==> n in notes
    ensures forall i, j :: 0 <= i < j < |Dedupe(notes)| ==> Dedupe(notes)[i] != Dedupe(notes)[j]
  {
    if notes != [] {
      var n := |notes| - 1;
      DedupeExact(notes[..n]);
      assert notes == notes[..n] + [notes[n]];
    }
  }

  /** `done` are the notes met so far, `seen` the same as a set, `out` their first occurrences. */
  ghost predicate Deduping(done: seq<string>, seen: set<string>, out: seq<string>) {
    out == Dedupe(done) && forall n :: n in seen <==> n in done
  }

  lemma DedupeStep(start: seq<string>, notes: seq<string>, k: nat, seen: set<string>, out: seq<string>)
    requires k < |notes| && Deduping(start + notes[..k], seen, out)
    ensures if notes[k] in seen then Deduping(start + notes[..k + 1], seen, out)
            else Deduping(start + notes[..k + 1], seen + {notes[k]}, out + [notes[k]])
  {
    var done := start + notes[..k];
    assert start + notes[..k + 1] == done + [notes[k]];
    assert (done + [notes[k]])[..|done|] == done;
  }

  lemma AllNotesStep(cmds: seq<Command>, i: nat)
    requires i < |cmds|
    ensures var notes := cmds[i].notes;
            var start := AllNotes(cmds[..i]);
            start + notes[..0] == start && AllNotes(cmds[..i + 1]) == start + notes[..|notes|]
  {
    assert cmds[..i + 1][..i] == cmds[..i];
    assert cmds[i].notes[..|cmds[i].notes|] == cmds[i].notes;
  }

  method DedupeNotes(cmds: seq<Command>) returns (out: seq<string>)
    ensures out == Dedupe(AllNotes(cmds))
  {
    var seen: set<string> := {};
    out := [];
    for i := 0 to |cmds|
      invariant Deduping(AllNotes(cmds[..i]), seen, out)
    {
      ghost var start := AllNotes(cmds[..i]);
      var notes := cmds[i].notes;
      AllNotesStep(cmds, i);
      for k := 0 to |notes|
        invariant Deduping(start + notes[..k], seen, out)
      {
        DedupeStep(start, notes, k, seen, out);
        if notes[k] in seen {
          continue;
        }
        seen := seen + {notes[k]};
        out := out + [notes[k]];
      }
    }
    assert cmds[..|cmds|] == cmds;
  }

  lemma LinesStep(cmds: seq<Command>, i: nat)
    requires i < |cmds|
    ensures Lines(cmds[..i + 1])
         == if cmds[i].tool == "" then Lines(cmds[..i]) else Lines(cmds[..i]) + "\n" + Line(cmds[i])
  {
    assert cmds[..i + 1][..i] == cmds[..i];
  }

  lemma NoteLinesStep(notes: seq<string>, i: nat)
    requires i < |notes|
    ensures NoteLines(notes[..i + 1]) == NoteLines(notes[..i]) + NOTE_PREFIX + notes[i]
  {
    assert notes[..i + 1][..i] == notes[..i];
  }

  function Script(cmds: seq<Command>): string {
    EQUIVALENCE_HEADER + Lines(cmds) + NoteLines(Dedupe(AllNotes(cmds)))
  }

  method Render(cmds: seq<Command>) returns (text: string)
    ensures text == Script(cmds)
  {
    var lines := "";
    for i := 0 to |cmds|
      invariant lines == Lines(cmds[..i])
    {
      LinesStep(cmds, i);
      if cmds[i].tool == "" {
        continue;
      }
      var line := CommandString(cmds[i]);
      lines := lines + "\n" + line;
    }
    assert cmds[..|cmds|] == cmds;
    var notes := DedupeNotes(cmds);
    var comments := "";
    for i := 0 to |notes|
      invariant comments == NoteLines(notes[..i])
    {
      NoteLinesStep(notes, i);
      comments := comments + NOTE_PREFIX + notes[i];
    }
    assert notes[..|notes|] == notes;
    text := EQUIVALENCE_HEADER + lines + comments;
  }

  // ---------------------------------------------------------------------------------------------
  // The shell: section 2.2 (Quoting) and 2.3 (Token Recognition) of the POSIX Shell Command Language
  // ---------------------------------------------------------------------------------------------

  datatype Mode = Plain | Escaped | Single | Double | DoubleEscaped | Comment | Special

  /** The lexer: quoting mode, the word being built, the words of the current command, the commands
      read. `Special` absorbs anything that would make the shell do more than collect words. */
  datatype Lexer = Lexer(mode: Mode, word: string, inWord: bool, words: seq<string>, commands: seq<seq<string>>)

  const START := Lexer(Plain, "", false, [], [])

  function EndWord(l: Lexer): Lexer {
    if l.inWord then l.(word := "", inWord := false, words := l.words + [l.word]) else l
  }

  function EndCommand(l: Lexer): Lexer {
    var e := EndWord(l);
    if e.words == [] then e else e.(words := [], commands := e.commands + [e.words])
  }

  function Add(l: Lexer, c: char): Lexer {
    l.(word := l.word + [c], inWord := true)
  }

  /** Characters that mean something to the shell when unquoted. */
  predicate Meta(c: char) {
    c == '|' || c == '&' || c == ';' || c == '<' || c == '>' || c == '(' || c == ')' || c == '$' || c == '`' || c == '*'
    || c == '?' || c == '[' || c == ']' || c == '~' || c == '!' || c == '{' || c == '}'
  }

  /** One character. An unquoted `=` in command position could be an assignment, so only later words
      may hold one. */
  function Feed(l: Lexer, c: char): Lexer {
    match l.mode
    case Plain =>
      if c == '\n' then EndCommand(l)
      else if c == ' ' || c == '\t' then EndWord(l)
      else if c == '\'' then l.(mode := Single, inWord := true)
      else if c == '"' then l.(mode := Double, inWord := true)
      else if c == '\\' then l.(mode := Escaped)
      else if c == '#' && !l.inWord then l.(mode := Comment)
      else if Meta(c) || (c == '=' && l.words == []) then l.(mode := Special)
      else Add(l, c)
    case Escaped => if c == '\n' then l.(mode := Plain) else Add(l, c).(mode := Plain)
    case Single => if c == '\'' then l.(mode := Plain) else Add(l, c)
    case Double =>
      if c == '"' then l.(mode := Plain)
      else if c == '\\' then l.(mode := DoubleEscaped)
      else if c == '$' || c == '`' then l.(mode := Special)
      else Add(l, c)
    case DoubleEscaped =>
      if c == '\n' then l.(mode := Double)
      else if c == '$' || c == '`' || c == '"' || c == '\\' then Add(l, c).(mode := Double)
      else Add(Add(l, '\\'), c).(mode := Double)
    case Comment => if c == '\n' then EndCommand(l.(mode := Plain)) else l
    case Special => l
  }

  function Run(l: Lexer, s: string): Lexer
    decreases |s|
  {
    if s == "" then l else Run(Feed(l, s[0]), s[1..])
  }

  /** The commands of a text, `None` when it ends inside a quote or uses a shell feature. */
  function Parse(text: string): Option<seq<seq<string>>> {
    var l := Run(START, text);
    if l.mode == Plain || l.mode == Comment then Some(EndCommand(l).commands) else None
  }

  lemma {:induction false} RunAppend(l: Lexer, a: string, b: string)
    ensures Run(l, a + b) == Run(Run(l, a), b)
    decreases |a|
  {
    if a == "" {
      assert a + b == b;
    } else {
      assert (a + b)[1..] == a[1..] + b;
      RunAppend(Feed(l, a[0]), a[1..], b);
    }
  }

  // ---------------------------------------------------------------------------------------------
  // Round trips
  // ---------------------------------------------------------------------------------------------

  /** Between words, with the command word already read. */
  predicate ArgumentPosition(l: Lexer) {
    l.mode == Plain && !l.inWord && l.word == "" && l.words != []
  }

  lemma {:induction false} SafeIsLiteral(l: Lexer, s: string)
    requires l.mode == Plain && l.words != [] && AllSafe(s)
    ensures Run(l, s) == if s == "" then l else l.(word := l.word + s, inWord := true)
    decreases |s|
  {
    if s != "" {
      assert Feed(l, s[0]) == Add(l, s[0]);
      assert AllSafe(s[1..]);
      SafeIsLiteral(Add(l, s[0]), s[1..]);
      assert l.word + [s[0]] + s[1..] == l.word + s;
    }
  }

  /** Inside single quotes the escaped text reads back as the text. */
  lemma {:induction false} EscapeIsLiteral(l: Lexer, s: string)
    requires l.mode == Single && l.inWord
    ensures Run(l, Escape(s)) == l.(word := l.word + s)
    decreases |s|
  {
    if s != "" {
      var l' := Add(l, s[0]);
      if s[0] == '\'' {
        QuoteInQuotes(l);
        RunAppend(l, QUOTED_QUOTE, Escape(s[1..]));
      } else {
        assert ([s[0]] + Escape(s[1..]))[1..] == Escape(s[1..]);
      }
      EscapeIsLiteral(l', s[1..]);
      assert l.word + [s[0]] + s[1..] == l.word + s;
    }
  }

  lemma QuoteInQuotes(l: Lexer)
    requires l.mode == Single && l.inWord
    ensures Run(l, QUOTED_QUOTE) == Add(l, '\'')
  {
    var l1 := Feed(l, '\'');
    var l2 := Feed(l1, '\\');
    var l3 := Feed(l2, '\'');
    var l4 := Feed(l3, '\'');
    assert l4 == Add(l, '\'');
    assert QUOTED_QUOTE[1..] == ['\\', '\'', '\''] && QUOTED_QUOTE[1..][1..] == ['\'', '\'']
        && QUOTED_QUOTE[1..][1..][1..] == ['\''];
    assert Run(l4, "") == l4;
    assert Run(l3, ['\'']) == l4;
    assert Run(l2, ['\'', '\'']) == l4;
    assert Run(l1, ['\\', '\'', '\'']) == l4;
  }

  /** Any argument at all, empty or full of quotes, spaces and newlines, reads back as one word. */
  lemma QuoteIsLiteral(l: Lexer, s: string)
    requires ArgumentPosition(l)
    ensures Run(l, ShellQuote(s)) == l.(word := s, inWord := true)
  {
    if s != "" && AllSafe(s) {
      SafeIsLiteral(l, s);
    } else {
      var open := l.(mode := Single, inWord := true);
      assert ShellQuote(s) == "'" + Escape(s) + "'";
      assert Run(l, "'") == open by {
        assert Feed(l, '\'') == open;
      }
      RunAppend(l, "'" + Escape(s), "'");
      RunAppend(l, "'", Escape(s));
      EscapeIsLiteral(open, s);
      assert open.word + s == s;
    }
  }

  /** A tool name the shell reads as itself: the renderer does not quote the tool. */
  predicate PlainTool(tool: string) {
    tool != "" && AllSafe(tool) && '=' !in tool
  }

  /** Both tools certdiag renders are such names. */
  lemma KnownToolsArePlain()
    ensures PlainTool("openssl") && PlainTool("keytool")
  {}

  lemma {:induction false} ToolIsLiteral(l: Lexer, tool: string)
    requires l.mode == Plain && AllSafe(tool) && '=' !in tool
    ensures Run(l, tool) == if tool == "" then l else l.(word := l.word + tool, inWord := true)
    decreases |tool|
  {
    if tool != "" {
      assert tool[0] in tool;
      assert forall c <- tool[1..] :: c in tool;
      assert AllSafe(tool[1..]);
      assert Feed(l, tool[0]) == Add(l, tool[0]);
      ToolIsLiteral(Add(l, tool[0]), tool[1..]);
      assert l.word + [tool[0]] + tool[1..] == l.word + tool;
    }
  }

  /** At the start of a line. */
  predicate LineStart(l: Lexer) {
    l.mode == Plain && !l.inWord && l.word == "" && l.words == []
  }

  /** A word is being read and belongs to the current command, after `done`. */
  predicate Reading(l: Lexer, done: seq<string>, commands: seq<seq<string>>) {
    l.mode == Plain && l.inWord && l.words + [l.word] == done && l.commands == commands
  }

  /** One more argument. */
  lemma ArgumentReads(l: Lexer, done: seq<string>, commands: seq<seq<string>>, arg: string)
    requires Reading(l, done, commands)
    ensures Reading(Run(l, " " + ShellQuote(arg)), done + [arg], commands)
  {
    assert (" " + ShellQuote(arg))[1..] == ShellQuote(arg);
    assert Feed(l, ' ') == EndWord(l);
    QuoteIsLiteral(EndWord(l), arg);
  }

  lemma {:induction false} TailReads(l: Lexer, done: seq<string>, commands: seq<seq<string>>, args: seq<string>)
    requires Reading(l, done, commands)
    ensures Reading(Run(l, Tail(args)), done + args, commands)
  {
    if args == [] {
      assert done + args == done;
    } else {
      var n := |args| - 1;
      TailReads(l, done, commands, args[..n]);
      TailSplits(l, args);
      WithLast(done, args);
      ArgumentReads(Run(l, Tail(args[..n])), done + args[..n], commands, args[n]);
    }
  }

  lemma WithLast(done: seq<string>, args: seq<string>)
    requires args != []
    ensures done + args[..|args| - 1] + [args[|args| - 1]] == done + args
  {}

  lemma TailSplits(l: Lexer, args: seq<string>)
    requires args != []
    ensures Run(l, Tail(args)) == Run(Run(l, Tail(args[..|args| - 1])), " " + ShellQuote(args[|args| - 1]))
  {
    var before, word := Tail(args[..|args| - 1]), ShellQuote(args[|args| - 1]);
    assert before + " " + word == before + (" " + word);
    RunAppend(l, before, " " + word);
  }

  /** After a command line, before its end, all its words are read. */
  lemma LineReads(l: Lexer, c: Command)
    requires LineStart(l) && PlainTool(c.tool)
    ensures Reading(Run(l, Line(c)), [c.tool] + c.args, l.commands)
  {
    RunAppend(l, c.tool, Tail(c.args));
    ToolIsLiteral(l, c.tool);
    assert l.word + c.tool == c.tool;
    TailReads(Run(l, c.tool), [c.tool], l.commands, c.args);
  }

  /** Tokenizing a rendered command gives back the tool and exactly its arguments. */
  lemma CommandRoundTrip(c: Command)
    requires PlainTool(c.tool)
    ensures Parse(Line(c)) == Some([[c.tool] + c.args])
  {
    var words: seq<string> := [c.tool] + c.args;
    var done: seq<seq<string>> := [];
    LineReads(START, c);
    CommandEnds(Run(START, Line(c)), words, done);
    assert done + [words] == [words];
    assert EndCommand(Run(START, Line(c))).commands == [words];
  }

  lemma CommandEnds(l: Lexer, words: seq<string>, commands: seq<seq<string>>)
    requires Reading(l, words, commands)
    ensures EndCommand(l) == START.(commands := commands + [words])
    ensures AtLineEnd(l, commands + [words])
  {
    assert EndWord(l) == Lexer(Plain, "", false, words, commands);
    assert |words| == |l.words| + 1;
    assert EndCommand(l) == Lexer(Plain, "", false, [], commands + [words]);
    assert l.(mode := Plain) == l;
  }

  /** So two commands that render alike are the same command. */
  lemma RenderingIsInjective(a: Command, b: Command)
    requires PlainTool(a.tool) && PlainTool(b.tool) && Line(a) == Line(b)
    ensures a.tool == b.tool && a.args == b.args
  {
    CommandRoundTrip(a);
    CommandRoundTrip(b);
    var wa, wb := [a.tool] + a.args, [b.tool] + b.args;
    assert (Parse(Line(a)).value)[0] == wa && (Parse(Line(b)).value)[0] == wb;
    assert wa[0] == wb[0] && wa[1..] == a.args && wb[1..] == b.args;
  }

  /** The words of the commands that have a tool. */
  function Words(cmds: seq<Command>): seq<seq<string>> {
    if cmds == [] then []
    else
      var last := cmds[|cmds| - 1];
      var before := Words(cmds[..|cmds| - 1]);
      if last.tool == "" then before else before + [[last.tool] + last.args]
  }

  predicate ToolsArePlain(cmds: seq<Command>) {
    forall c <- cmds :: c.tool == "" || PlainTool(c.tool)
  }

  lemma {:induction false} CommentIsSkipped(l: Lexer, s: string)
    requires l.mode == Comment && '\n' !in s
    ensures Run(l, s) == l
    decreases |s|
  {
    if s != "" {
      assert s[0] in s && forall c <- s[1..] :: c in s;
      CommentIsSkipped(l, s[1..]);
    }
  }

  /** Everything read so far is `commands`, and a newline would start a new line. */
  predicate AtLineEnd(l: Lexer, commands: seq<seq<string>>) {
    (l.mode == Plain || l.mode == Comment) && EndCommand(l.(mode := Plain)) == START.(commands := commands)
  }

  lemma {:induction false} LinesRead(l: Lexer, cmds: seq<Command>)
    requires AtLineEnd(l, []) && ToolsArePlain(cmds)
    ensures AtLineEnd(Run(l, Lines(cmds)), Words(cmds))
  {
    if cmds != [] {
      var n := |cmds| - 1;
      var c := cmds[n];
      assert c in cmds && forall d <- cmds[..n] :: d in cmds;
      LinesRead(l, cmds[..n]);
      if c.tool != "" {
        LinesSplit(l, cmds);
        NextLineRead(Run(l, Lines(cmds[..n])), Words(cmds[..n]), c);
      }
    }
  }

  lemma LinesSplit(l: Lexer, cmds: seq<Command>)
    requires cmds != [] && cmds[|cmds| - 1].tool != ""
    ensures Run(l, Lines(cmds)) == Run(Run(l, Lines(cmds[..|cmds| - 1])), "\n" + Line(cmds[|cmds| - 1]))
  {
    var before, line := Lines(cmds[..|cmds| - 1]), Line(cmds[|cmds| - 1]);
    assert before + "\n" + line == before + ("\n" + line);
    RunAppend(l, before, "\n" + line);
  }

  lemma NextLineRead(l: Lexer, done: seq<seq<string>>, c: Command)
    requires AtLineEnd(l, done) && PlainTool(c.tool)
    ensures AtLineEnd(Run(l, "\n" + Line(c)), done + [[c.tool] + c.args])
  {
    var next := START.(commands := done);
    NewlineRead(l, done, Line(c));
    LineReads(next, c);
    CommandEnds(Run(next, Line(c)), [c.tool] + c.args, done);
  }

  /** After the header the shell is at the end of an empty line. */
  lemma HeaderRead()
    ensures AtLineEnd(Run(START, EQUIVALENCE_HEADER), [])
  {
    var l, rest := START.(mode := Comment), EQUIVALENCE_HEADER[1..];
    HeaderIsOneLine();
    assert forall c <- rest :: c in EQUIVALENCE_HEADER;
    assert Feed(START, '#') == l;
    CommentIsSkipped(l, rest);
  }

  lemma ScriptReads(cmds: seq<Command>)
    requires ToolsArePlain(cmds)
    ensures var l := Run(Run(START, EQUIVALENCE_HEADER), Lines(cmds));
            AtLineEnd(l, Words(cmds)) && Run(START, Script(cmds)) == Run(l, NoteLines(Dedupe(AllNotes(cmds))))
  {
    var notes := NoteLines(Dedupe(AllNotes(cmds)));
    HeaderRead();
    RunAppend(START, EQUIVALENCE_HEADER + Lines(cmds), notes);
    RunAppend(START, EQUIVALENCE_HEADER, Lines(cmds));
    LinesRead(Run(START, EQUIVALENCE_HEADER), cmds);
  }

  // ---------------------------------------------------------------------------------------------
  // Notes
  // ---------------------------------------------------------------------------------------------

  /** How far the shell is from running something: before a word, in a comment, behind a backslash that may yet
      continue the line, or past the point where a command has begun. */
  datatype Stage = Blank | InComment | Backslash | Begun

  function NextStage(s: Stage, c: char): Stage {
    match s
    case Blank =>
      if c == '\n' || c == ' ' || c == '\t' then Blank
      else if c == '#' then InComment
      else if c == '\\' then Backslash
      else Begun
    case InComment => if c == '\n' then Blank else InComment
    case Backslash => if c == '\n' then Blank else Begun
    case Begun => Begun
  }

  function StageAfter(s: Stage, text: string): Stage
    decreases |text|
  {
    if text == "" then s else StageAfter(NextStage(s, text[0]), text[1..])
  }

  /** Nothing in the note runs: every line of it after the first is blank or a comment, where a backslash at the
      end of a blank line continues it. */
  predicate Inert(note: string) {
    StageAfter(InComment, note) != Begun
  }

  /** The text leaves a backslash behind that nothing follows. */
  predicate EndsInBackslash(notes: seq<string>) {
    notes != [] && StageAfter(InComment, notes[|notes| - 1]) == Backslash
  }

  /** Where the notes leave the shell. */
  function StageOfNotes(notes: seq<string>): Stage {
    if notes == [] then Blank
    else if StageOfNotes(notes[..|notes| - 1]) == Begun then Begun
    else StageAfter(InComment, notes[|notes| - 1])
  }

  lemma {:induction false} BegunWhenNotInert(notes: seq<string>)
    ensures StageOfNotes(notes) == Begun <==> exists n <- notes :: !Inert(n)
    ensures (forall n <- notes :: Inert(n)) ==> (StageOfNotes(notes) == Backslash <==> EndsInBackslash(notes))
  {
    if notes != [] {
      var front, last := notes[..|notes| - 1], notes[|notes| - 1];
      BegunWhenNotInert(front);
      assert notes == front + [last];
      assert forall n :: n in notes <==> n in front || n == last;
      assert (exists n <- notes :: !Inert(n)) <==> (exists n <- front :: !Inert(n)) || !Inert(last);
    }
  }

  /** A command has begun beyond `commands` that no later text can take back. */
  predicate Beyond(l: Lexer, commands: seq<seq<string>>) {
    |l.commands| >= |commands|
    && (l.mode == Special || |l.commands| > |commands| || l.inWord || l.words != [])
  }

  /** The lexer is at this stage, having read exactly `commands` before. */
  predicate At(l: Lexer, s: Stage, commands: seq<seq<string>>) {
    match s
    case Blank => l == START.(commands := commands)
    case InComment => l == START.(commands := commands, mode := Comment)
    case Backslash => l == START.(commands := commands, mode := Escaped)
    case Begun => Beyond(l, commands)
  }

  lemma BeyondStays(l: Lexer, c: char, commands: seq<seq<string>>)
    requires Beyond(l, commands)
    ensures Beyond(Feed(l, c), commands)
  {}

  lemma CharRead(l: Lexer, s: Stage, c: char, commands: seq<seq<string>>)
    requires At(l, s, commands)
    ensures At(Feed(l, c), NextStage(s, c), commands)
  {
    if s == Begun {
      BeyondStays(l, c, commands);
    }
  }

  lemma {:induction false} TextRead(l: Lexer, s: Stage, text: string, commands: seq<seq<string>>)
    requires At(l, s, commands)
    ensures At(Run(l, text), StageAfter(s, text), commands)
    decreases |text|
  {
    if text != "" {
      CharRead(l, s, text[0], commands);
      TextRead(Feed(l, text[0]), NextStage(s, text[0]), text[1..], commands);
    }
  }

  lemma {:induction false} StageAppend(s: Stage, a: string, b: string)
    ensures StageAfter(s, a + b) == StageAfter(StageAfter(s, a), b)
    decreases |a|
  {
    if a == "" {
      assert a + b == b;
    } else {
      assert (a + b)[1..] == a[1..] + b;
      StageAppend(NextStage(s, a[0]), a[1..], b);
    }
  }

  lemma {:induction false} CommentGoesOn(text: string)
    requires '\n' !in text
    ensures StageAfter(InComment, text) == InComment
    decreases |text|
  {
    if text != "" {
      assert text[0] in text && forall c <- text[1..] :: c in text;
      CommentGoesOn(text[1..]);
    }
  }

  lemma {:induction false} BegunGoesOn(text: string)
    ensures StageAfter(Begun, text) == Begun
    decreases |text|
  {
    if text != "" {
      BegunGoesOn(text[1..]);
    }
  }

  /** Whatever came before, a note starts in a comment, unless a command has begun. */
  lemma PrefixStage(s: Stage)
    ensures StageAfter(s, NOTE_PREFIX) == if s == Begun then Begun else InComment
  {
    if s == Begun {
      BegunGoesOn(NOTE_PREFIX);
    } else {
      var tail := " note: ";
      assert NOTE_PREFIX[1..][1..] == tail;
      assert NextStage(NextStage(s, '\n'), '#') == InComment;
      CommentGoesOn(tail);
    }
  }

  lemma OneNoteRead(l: Lexer, s: Stage, note: string, commands: seq<seq<string>>)
    requires At(l, s, commands)
    ensures At(Run(l, NOTE_PREFIX + note), if s == Begun then Begun else StageAfter(InComment, note), commands)
  {
    TextRead(l, s, NOTE_PREFIX + note, commands);
    StageAppend(s, NOTE_PREFIX, note);
    PrefixStage(s);
    BegunGoesOn(note);
  }

  /** The first note behind a command line. */
  lemma FirstNoteRead(l: Lexer, note: string, commands: seq<seq<string>>)
    requires AtLineEnd(l, commands)
    ensures At(Run(l, NOTE_PREFIX + note), StageAfter(InComment, note), commands)
  {
    var rest, next := "# note: " + note, START.(commands := commands);
    assert NOTE_PREFIX + note == "\n" + rest;
    NewlineRead(l, commands, rest);
    NewlineRead(next, commands, rest);
    OneNoteRead(next, Blank, note, commands);
  }

  /** The shell reads the notes exactly as their stages say. */
  lemma {:induction false} NotesRead(l: Lexer, notes: seq<string>, commands: seq<seq<string>>)
    requires AtLineEnd(l, commands) && notes != []
    ensures At(Run(l, NoteLines(notes)), StageOfNotes(notes), commands)
  {
    var n := |notes| - 1;
    NotesSplit(l, notes);
    if n == 0 {
      assert notes[..n] == [] && NoteLines([]) == "" && StageOfNotes([]) == Blank;
      assert Run(l, "") == l;
      FirstNoteRead(l, notes[n], commands);
    } else {
      NotesRead(l, notes[..n], commands);
      OneNoteRead(Run(l, NoteLines(notes[..n])), StageOfNotes(notes[..n]), notes[n], commands);
    }
  }

  lemma NotesSplit(l: Lexer, notes: seq<string>)
    requires notes != []
    ensures Run(l, NoteLines(notes)) == Run(Run(l, NoteLines(notes[..|notes| - 1])), NOTE_PREFIX + notes[|notes| - 1])
  {
    var before, last := NoteLines(notes[..|notes| - 1]), notes[|notes| - 1];
    assert before + NOTE_PREFIX + last == before + (NOTE_PREFIX + last);
    RunAppend(l, before, NOTE_PREFIX + last);
  }

  function Ended(l: Lexer): Option<seq<seq<string>>> {
    if l.mode == Plain || l.mode == Comment then Some(EndCommand(l).commands) else None
  }

  lemma StageDecides(l: Lexer, s: Stage, commands: seq<seq<string>>)
    requires At(l, s, commands)
    ensures Ended(l) == Some(commands) <==> s == Blank || s == InComment
  {
    if s == Begun && Ended(l).Some? {
      assert |EndCommand(l).commands| > |commands|;
    }
  }

  /** The whole block pastes into a shell and runs exactly the commands that have a tool, in order, if and only
      if every note is inert and the last one does not end in a backslash. */
  lemma ScriptRoundTrip(cmds: seq<Command>)
    requires ToolsArePlain(cmds)
    ensures Parse(Script(cmds)) == Some(Words(cmds)) <==>
              (forall n <- AllNotes(cmds) :: Inert(n)) && !EndsInBackslash(Dedupe(AllNotes(cmds)))
  {
    var notes := Dedupe(AllNotes(cmds));
    var l := Run(Run(START, EQUIVALENCE_HEADER), Lines(cmds));
    ScriptReads(cmds);
    DedupeExact(AllNotes(cmds));
    BegunWhenNotInert(notes);
    assert Parse(Script(cmds)) == Ended(Run(l, NoteLines(notes)));
    if notes != [] {
      NotesRead(l, notes, Words(cmds));
      StageDecides(Run(l, NoteLines(notes)), StageOfNotes(notes), Words(cmds));
    } else {
      LineEndRead(l, Words(cmds));
    }
  }

  lemma LineEndRead(l: Lexer, commands: seq<seq<string>>)
    requires AtLineEnd(l, commands)
    ensures Ended(l) == Some(commands)
  {}

  /** Notes of one line each, which is what most of them are, are inert. */
  lemma OneLineNotesAreInert(notes: seq<string>)
    requires forall n <- notes :: '\n' !in n
    ensures (forall n <- notes :: Inert(n)) && !EndsInBackslash(notes)
  {
    forall n | n in notes ensures StageAfter(InComment, n) == InComment {
      CommentGoesOn(n);
    }
  }

  /** A note with a line break would not stay a comment: its second line is run as a command. */
  lemma NoteWithLineBreakRuns(c: Command, first: string, second: string)
    requires c.tool == "" && c.notes == [first + "\n" + second] && '\n' !in first && PlainTool(second)
    ensures Parse(Script([c])) == Some([[second]]) && Words([c]) == []
  {
    NotesOfOne(c, first + "\n" + second);
    ScriptReads([c]);
    BrokenNoteRuns(Run(Run(START, EQUIVALENCE_HEADER), Lines([c])), first, second);
  }

  lemma BrokenNoteRuns(l: Lexer, first: string, second: string)
    requires AtLineEnd(l, []) && '\n' !in first && PlainTool(second)
    ensures var r := Run(l, NoteLines([first + "\n" + second]));
            r.mode == Plain && EndCommand(r).commands == [[second]]
  {
    NoteLinesOfOne(first + "\n" + second);
    assert NoteLines([first + "\n" + second]) == (NOTE_PREFIX + first) + ("\n" + second);
    RunAppend(l, NOTE_PREFIX + first, "\n" + second);
    FirstNoteRead(l, first, []);
    CommentGoesOn(first);
    SecondLineRuns(Run(l, NOTE_PREFIX + first), second);
  }

  lemma SecondLineRuns(l: Lexer, second: string)
    requires AtLineEnd(l, []) && PlainTool(second)
    ensures var r := Run(l, "\n" + second);
            r.mode == Plain && EndCommand(r).commands == [[second]]
  {
    NewlineRead(l, [], second);
    assert START.(commands := []) == START;
    ToolIsLiteral(START, second);
    assert START.word + second == second;
    CommandEnds(Run(START, second), [second], []);
  }

  lemma NotesOfOne(c: Command, note: string)
    requires c.tool == "" && c.notes == [note]
    ensures Dedupe(AllNotes([c])) == [note] && Words([c]) == [] && Lines([c]) == ""
  {
    assert [c][..0] == [] && [note][..0] == [];
    assert AllNotes([c]) == [] + [note] == [note];
  }

  lemma NoteLinesOfOne(note: string)
    ensures NoteLines([note]) == NOTE_PREFIX + note
  {
    assert [note][..0] == [];
  }

  /** A newline at the end of a line starts a fresh one. */
  lemma NewlineRead(l: Lexer, commands: seq<seq<string>>, rest: string)
    requires AtLineEnd(l, commands)
    ensures Run(l, "\n" + rest) == Run(START.(commands := commands), rest)
  {
    assert ("\n" + rest)[1..] == rest;
    assert Feed(l, '\n') == START.(commands := commands);
  }
}
