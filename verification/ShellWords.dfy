/** The quoting rules of sections 2.2.1 to 2.2.3 of the POSIX.1-2017 Shell Command Language, as a word splitter of
    its own: a shell reads back what `shell_quote` writes, and the browser splitter reads as a shell does exactly
    where no rule is met that it does not have. Expansions, operators and comments are ordinary text here. */
module ShellWords {
  import opened Common
  import opened BrowserWords

  const NEWLINE: char := '\n'

  /** What separates words for a shell: blanks, and the newline that ends a command. */
  predicate ShellBlank(c: char) {
    c == ' ' || c == '\t' || c == NEWLINE
  }

  /** The characters that a backslash escapes inside double quotes. */
  predicate EscapedInDouble(c: char) {
    c == '$' || c == '`' || c == DOUBLE || c == BACKSLASH || c == NEWLINE
  }

  // The state after a prefix of the input

  datatype State = State(words: seq<string>, word: string, started: bool, mode: Mode)

  const START := State([], "", false, Plain)

  function Add(st: State, c: char, mode: Mode): State {
    State(st.words, st.word + [c], true, mode)
  }

  function EndWord(st: State): State {
    if st.started then State(st.words + [st.word], "", false, Plain) else st.(mode := Plain)
  }

  /** The words, unless the input ends inside a quote or after a backslash. */
  function Finish(st: State): Option<seq<string>> {
    if st.mode != Plain then None
    else Some(if st.started then st.words + [st.word] else st.words)
  }

  // The browser splitter, one character at a time

  function BrowserStep(st: State, c: char): State {
    match st.mode
    case Quoted(mark) => if c == mark then st.(mode := Plain) else Add(st, c, st.mode)
    case AfterBackslash => Add(st, c, Plain)
    case Plain =>
      if c == SINGLE || c == DOUBLE then st.(started := true, mode := Quoted(c))
      else if c == BACKSLASH then st.(mode := AfterBackslash)
      else if Blank(c) then EndWord(st)
      else Add(st, c, Plain)
  }

  function BrowserRun(st: State, s: string): State
    decreases |s|
  {
    if s == "" then st else BrowserRun(BrowserStep(st, s[0]), s[1..])
  }

  function ModeOf(quote: Option<char>): Mode {
    if quote.Some? then Quoted(quote.value) else Plain
  }

  lemma {:induction false} ScanIsRun(words: seq<string>, word: string, started: bool, quote: Option<char>, s: string)
    ensures Scan(words, word, started, quote, s) == Finish(BrowserRun(State(words, word, started, ModeOf(quote)), s))
    decreases |s|
  {
    if s == "" {
    } else if quote.Some? {
      if s[0] == quote.value {
        ScanIsRun(words, word, started, None, s[1..]);
      } else {
        ScanIsRun(words, word + [s[0]], true, quote, s[1..]);
      }
    } else if s[0] == SINGLE || s[0] == DOUBLE {
      ScanIsRun(words, word, true, Some(s[0]), s[1..]);
    } else if s[0] == BACKSLASH {
      if |s| > 1 {
        assert s[1..][1..] == s[2..];
        ScanIsRun(words, word + [s[1]], true, None, s[2..]);
      } else {
        assert s[1..] == "";
      }
    } else if Blank(s[0]) {
      if started {
        ScanIsRun(words + [word], "", false, None, s[1..]);
      } else {
        ScanIsRun(words, word, false, None, s[1..]);
      }
    } else {
      ScanIsRun(words, word + [s[0]], true, None, s[1..]);
    }
  }

  // A shell, one character at a time

  /** `undo` is the state before a backslash inside double quotes, while it is open whether that stays. */
  datatype Shell = Shell(st: State, undo: Option<State>)

  function ShellStep(sh: Shell, c: char): Shell {
    match sh.st.mode
    case AfterBackslash =>
      // 2.2.1: the character is literal, but a newline is removed together with the backslash
      if c == NEWLINE then Shell(sh.st.(mode := Plain), None) else Shell(Add(sh.st, c, Plain), None)
    case Plain =>
      if c == SINGLE || c == DOUBLE then Shell(sh.st.(started := true, mode := Quoted(c)), None)
      else if c == BACKSLASH then Shell(sh.st.(mode := AfterBackslash), None)
      else if ShellBlank(c) then Shell(EndWord(sh.st), None)
      else Shell(Add(sh.st, c, Plain), None)
    case Quoted(mark) =>
      if mark == DOUBLE then ShellStepInDouble(sh, c)
      // 2.2.2: everything up to the next single quote is literal
      else if c == mark then Shell(sh.st.(mode := Plain), None)
      else Shell(Add(sh.st, c, sh.st.mode), None)
  }

  /** 2.2.3: a backslash stays unless it escapes the next character; with a newline both are removed. */
  function ShellStepInDouble(sh: Shell, c: char): Shell {
    if sh.undo.Some? then
      if c == NEWLINE then Shell(sh.undo.value, None)
      else if EscapedInDouble(c) then Shell(Add(sh.undo.value, c, Quoted(DOUBLE)), None)
      else Shell(Add(sh.st, c, Quoted(DOUBLE)), None)
    else if c == DOUBLE then Shell(sh.st.(mode := Plain), None)
    else if c == BACKSLASH then Shell(Add(sh.st, c, Quoted(DOUBLE)), Some(sh.st))
    else Shell(Add(sh.st, c, Quoted(DOUBLE)), None)
  }

  function ShellRun(sh: Shell, s: string): Shell
    decreases |s|
  {
    if s == "" then sh else ShellRun(ShellStep(sh, s[0]), s[1..])
  }

  function PosixSplit(s: string): Option<seq<string>> {
    Finish(ShellRun(Shell(START, None), s).st)
  }

  // Where the two read alike

  /** No rule is met that only one of them has: no backslash before a newline outside quotes, none in double
      quotes before a character it escapes there, and no blank outside quotes that is none for a shell.
      `pending` is after a backslash in double quotes. */
  predicate SameQuotingFrom(mode: Mode, pending: bool, s: string)
    decreases |s|
  {
    s == "" ||
    (&& SameRule(mode, pending, s[0])
     && SameQuotingFrom(NextMode(mode, s[0]), IsPending(mode, pending, s[0]), s[1..]))
  }

  predicate SameRule(mode: Mode, pending: bool, c: char) {
    match mode
    case Plain => Blank(c) ==> ShellBlank(c)
    case AfterBackslash => c != NEWLINE
    case Quoted(_) => pending ==> !EscapedInDouble(c)
  }

  predicate IsPending(mode: Mode, pending: bool, c: char) {
    mode == Quoted(DOUBLE) && c == BACKSLASH && !pending
  }

  predicate SameQuoting(s: string) {
    SameQuotingFrom(Plain, false, s)
  }

  /** The shell can only be waiting in double quotes, with the backslash as the last character added. */
  predicate Waiting(sh: Shell) {
    sh.undo.Some? ==>
      && sh.st.mode == Quoted(DOUBLE)
      && sh.undo.value.mode == Quoted(DOUBLE)
      && sh.st == Add(sh.undo.value, BACKSLASH, Quoted(DOUBLE))
  }

  /** From one state, a character leads both to one state exactly when it meets no differing rule. */
  lemma StepsAgreeExactly(sh: Shell, c: char)
    requires Waiting(sh)
    ensures ShellStep(sh, c).st == BrowserStep(sh.st, c) <==> SameRule(sh.st.mode, sh.undo.Some?, c)
    ensures Waiting(ShellStep(sh, c))
  {
    var st := sh.st;
    assert |st.word + [c]| == |st.word| + 1;
    if sh.undo.Some? {
      assert |st.word| == |sh.undo.value.word| + 1;
    } else if st.mode == Plain && Blank(c) && !ShellBlank(c) {
      assert Add(st, c, Plain).started && !EndWord(st).started;
    }
  }

  lemma StepTracksMode(sh: Shell, c: char)
    requires Waiting(sh) && SameRule(sh.st.mode, sh.undo.Some?, c)
    ensures BrowserStep(sh.st, c).mode == NextMode(sh.st.mode, c)
    ensures ShellStep(sh, c).undo.Some? <==> IsPending(sh.st.mode, sh.undo.Some?, c)
  {
  }

  /** After every prefix both are in the same state. */
  ghost predicate InStep(sh: Shell, st: State, s: string) {
    forall n | 0 <= n <= |s| :: ShellRun(sh, s[..n]).st == BrowserRun(st, s[..n])
  }

  lemma InStepPeels(sh: Shell, st: State, s: string)
    requires s != ""
    ensures InStep(sh, st, s) <==> sh.st == st && InStep(ShellStep(sh, s[0]), BrowserStep(st, s[0]), s[1..])
  {
    var sh1, st1 := ShellStep(sh, s[0]), BrowserStep(st, s[0]);
    forall n | 1 <= n <= |s|
      ensures ShellRun(sh, s[..n]) == ShellRun(sh1, s[1..][..n - 1])
      ensures BrowserRun(st, s[..n]) == BrowserRun(st1, s[1..][..n - 1])
    {
      assert s[..n][1..] == s[1..][..n - 1] && s[..n][0] == s[0];
    }
    assert s[..0] == "";
    if sh.st == st && InStep(sh1, st1, s[1..]) {
      forall n | 0 <= n <= |s|
        ensures ShellRun(sh, s[..n]).st == BrowserRun(st, s[..n])
      {
        if n > 0 {
          assert ShellRun(sh1, s[1..][..n - 1]).st == BrowserRun(st1, s[1..][..n - 1]);
        }
      }
    } else if InStep(sh, st, s) {
      assert ShellRun(sh, s[..0]).st == BrowserRun(st, s[..0]);
      forall n | 0 <= n <= |s[1..]|
        ensures ShellRun(sh1, s[1..][..n]).st == BrowserRun(st1, s[1..][..n])
      {
        assert ShellRun(sh, s[..n + 1]).st == BrowserRun(st, s[..n + 1]);
      }
    }
  }

  lemma InStepStarts(sh: Shell, st: State, s: string)
    ensures InStep(sh, st, s) ==> sh.st == st
  {
    assert s[..0] == "" && 0 <= |s|;
    assert InStep(sh, st, s) ==> ShellRun(sh, s[..0]).st == BrowserRun(st, s[..0]);
  }

  lemma {:induction false} InStepExactly(sh: Shell, s: string)
    requires Waiting(sh)
    ensures InStep(sh, sh.st, s) <==> SameQuotingFrom(sh.st.mode, sh.undo.Some?, s)
    decreases |s|
  {
    if s == "" {
      assert forall n | 0 <= n <= |s| :: s[..n] == "";
    } else {
      InStepPeels(sh, sh.st, s);
      StepsAgreeExactly(sh, s[0]);
      var sh1, st1 := ShellStep(sh, s[0]), BrowserStep(sh.st, s[0]);
      if SameRule(sh.st.mode, sh.undo.Some?, s[0]) {
        StepTracksMode(sh, s[0]);
        InStepExactly(sh1, s[1..]);
      } else {
        InStepStarts(sh1, st1, s[1..]);
      }
    }
  }

  // Main results

  /** The browser splitter and a shell are in the same state after every prefix exactly when no differing rule is
      met. */
  lemma ReadsAsAShellExactly(s: string)
    ensures SameQuoting(s) <==> InStep(Shell(START, None), START, s)
  {
    InStepExactly(Shell(START, None), s);
  }

  /** Then they give the same words, or both give up. */
  lemma SameQuotingSplitsAlike(s: string)
    requires SameQuoting(s)
    ensures Split(s) == PosixSplit(s)
  {
    ReadsAsAShellExactly(s);
    assert s[..|s|] == s;
    assert ShellRun(Shell(START, None), s[..|s|]).st == BrowserRun(START, s[..|s|]);
    ScanIsRun([], "", false, None, s);
  }

  /** Single quotes never make a difference, whatever they enclose. */
  lemma {:induction false} SingleQuotesAreAlike(text: string, rest: string)
    requires SINGLE !in text
    ensures SameQuotingFrom(Quoted(SINGLE), false, text + [SINGLE] + rest) <==> SameQuotingFrom(Plain, false, rest)
    decreases |text|
  {
    var s := text + [SINGLE] + rest;
    if text == "" {
      assert s[0] == SINGLE && s[1..] == rest;
    } else {
      assert s[0] == text[0] && s[1..] == text[1..] + [SINGLE] + rest;
      SingleQuotesAreAlike(text[1..], rest);
    }
  }

  lemma {:induction false} QuotedInsideIsAlike(value: string, rest: string)
    ensures SameQuotingFrom(Quoted(SINGLE), false, QuoteInside(value) + [SINGLE] + rest)
      <==> SameQuotingFrom(Plain, false, rest)
    decreases |value|
  {
    if value == "" {
      assert QuoteInside(value) + [SINGLE] + rest == "" + [SINGLE] + rest;
      SingleQuotesAreAlike("", rest);
    } else {
      var after := QuoteInside(value[1..]) + [SINGLE] + rest;
      QuotedInsideIsAlike(value[1..], rest);
      if value[0] == SINGLE {
        assert QuoteInside(value) + [SINGLE] + rest == [SINGLE, BACKSLASH, SINGLE, SINGLE] + after;
        EscapedQuoteIsAlike(after);
      } else {
        assert QuoteInside(value) + [SINGLE] + rest == [value[0]] + after;
        assert ([value[0]] + after)[1..] == after;
      }
    }
  }

  lemma EscapedQuoteIsAlike(after: string)
    ensures SameQuotingFrom(Quoted(SINGLE), false, [SINGLE, BACKSLASH, SINGLE, SINGLE] + after)
      <==> SameQuotingFrom(Quoted(SINGLE), false, after)
  {
    var s := [SINGLE, BACKSLASH, SINGLE, SINGLE] + after;
    assert s[1..] == [BACKSLASH, SINGLE, SINGLE] + after;
    assert s[1..][1..] == [SINGLE, SINGLE] + after;
    assert s[1..][1..][1..] == [SINGLE] + after;
    assert s[1..][1..][1..][1..] == after;
    assert SameQuotingFrom(AfterBackslash, false, s[1..][1..]) <==> SameQuotingFrom(Plain, false, s[1..][1..][1..]);
  }

  lemma QuotedValueIsAlike(value: string, rest: string)
    ensures SameQuotingFrom(Plain, false, ShellQuote(value) + rest) <==> SameQuotingFrom(Plain, false, rest)
  {
    var s := ShellQuote(value) + rest;
    assert s[0] == SINGLE && s[1..] == QuoteInside(value) + [SINGLE] + rest;
    QuotedInsideIsAlike(value, rest);
  }

  lemma {:induction false} JoinQuotedIsAlike(values: seq<string>)
    ensures SameQuoting(JoinQuoted(values))
  {
    if values == [] {
    } else if |values| == 1 {
      Units(ShellQuote(values[0]));
      QuotedValueIsAlike(values[0], "");
    } else {
      var rest := JoinQuoted(values[1..]);
      JoinQuotedIsAlike(values[1..]);
      Assoc(ShellQuote(values[0]), " ", rest);
      QuotedValueIsAlike(values[0], " " + rest);
      assert (" " + rest)[1..] == rest;
    }
  }

  /** A shell reads the quoted strings, separated by spaces, back as the strings, for every list of strings. */
  lemma ShellUndoesQuoting(values: seq<string>)
    ensures PosixSplit(JoinQuoted(values)) == Some(values)
  {
    JoinQuotedIsAlike(values);
    SameQuotingSplitsAlike(JoinQuoted(values));
    SplittingUndoesQuoting(values);
  }

  // One input for each rule that the browser splitter does not have

  lemma ShellRunsOn(sh: Shell, c: char, rest: string)
    ensures ShellRun(sh, [c] + rest) == ShellRun(ShellStep(sh, c), rest)
  {
    assert ([c] + rest)[1..] == rest;
  }

  lemma InDoubleQuotesTheyDiffer()
    ensures Split([DOUBLE, 'a', BACKSLASH, DOUBLE]) == Some(["a\\"])
    ensures PosixSplit([DOUBLE, 'a', BACKSLASH, DOUBLE]) == None
  {
    BackslashIsLiteralInDoubleQuotes();
    var sh0 := Shell(START, None);
    var sh1 := ShellStep(sh0, DOUBLE);
    var sh2 := ShellStep(sh1, 'a');
    var sh3 := ShellStep(sh2, BACKSLASH);
    ShellRunsOn(sh0, DOUBLE, ['a', BACKSLASH, DOUBLE]);
    ShellRunsOn(sh1, 'a', [BACKSLASH, DOUBLE]);
    ShellRunsOn(sh2, BACKSLASH, [DOUBLE]);
    ShellRunsOn(sh3, DOUBLE, []);
    assert [DOUBLE] + ['a', BACKSLASH, DOUBLE] == [DOUBLE, 'a', BACKSLASH, DOUBLE];
    assert ['a'] + [BACKSLASH, DOUBLE] == ['a', BACKSLASH, DOUBLE];
    assert [BACKSLASH] + [DOUBLE] == [BACKSLASH, DOUBLE] && [DOUBLE] + [] == [DOUBLE];
  }

  lemma AtEscapedNewlinesTheyDiffer()
    ensures Split(['a', BACKSLASH, NEWLINE, 'b']) == Some(["a\nb"])
    ensures PosixSplit(['a', BACKSLASH, NEWLINE, 'b']) == Some(["ab"])
  {
    EscapedNewlineIsKept();
    var sh0 := Shell(START, None);
    var sh1 := ShellStep(sh0, 'a');
    var sh2 := ShellStep(sh1, BACKSLASH);
    var sh3 := ShellStep(sh2, NEWLINE);
    ShellRunsOn(sh0, 'a', [BACKSLASH, NEWLINE, 'b']);
    ShellRunsOn(sh1, BACKSLASH, [NEWLINE, 'b']);
    ShellRunsOn(sh2, NEWLINE, ['b']);
    ShellRunsOn(sh3, 'b', []);
    assert ['a'] + [BACKSLASH, NEWLINE, 'b'] == ['a', BACKSLASH, NEWLINE, 'b'];
    assert [BACKSLASH] + [NEWLINE, 'b'] == [BACKSLASH, NEWLINE, 'b'];
    assert [NEWLINE] + ['b'] == [NEWLINE, 'b'] && ['b'] + [] == ['b'];
    assert "" + ['a'] == "a" && "a" + ['b'] == "ab" && [] + ["ab"] == ["ab"];
  }

  /** Any blank that is none for a shell separates words in the browser splitter alone. */
  lemma AtOtherBlanksTheyDiffer(c: char)
    requires Blank(c) && !ShellBlank(c)
    ensures Split(['a', c, 'b']) == Some(["a", "b"]) && PosixSplit(['a', c, 'b']) == Some([['a', c, 'b']])
  {
    var s := ['a', c, 'b'];
    assert s[1..] == [c, 'b'] && s[1..][1..] == ['b'] && s[1..][1..][1..] == [];
    assert "" + ['a'] == "a" && "" + ['b'] == "b" && [] + ["a"] == ["a"] && ["a"] + ["b"] == ["a", "b"];
    assert Scan(["a"], "", false, None, s[1..][1..]) == Some(["a", "b"]);
    assert Scan([], "a", true, None, s[1..]) == Some(["a", "b"]);
    var a, ac := State([], "a", true, Plain), State([], ['a', c], true, Plain);
    assert "a" + [c] == ['a', c] && ['a', c] + ['b'] == s && [] + [s] == [s];
    assert ShellStep(Shell(START, None), 'a') == Shell(a, None) && ShellStep(Shell(a, None), c) == Shell(ac, None);
    assert ShellRun(Shell(a, None), s[1..]) == ShellRun(Shell(ac, None), s[1..][1..]);
  }
}
