/** `split_browser_words` and `shell_quote`: a word splitter for shell-like quoting, the quoter it undoes, and
    `browser_commands` on top of the splitter. */
module BrowserWords {
  import opened Common

  const SINGLE: char := '\''
  const DOUBLE: char := '"'
  const BACKSLASH: char := '\\'

  /** The Unicode White_Space property. */
  predicate Blank(c: char) {
    var n := c as int;
    9 <= n <= 13 || n == 0x20 || n == 0x85 || n == 0xA0 || n == 0x1680 || 0x2000 <= n <= 0x200A
    || n == 0x2028 || n == 0x2029 || n == 0x202F || n == 0x205F || n == 0x3000
  }

  // The splitter

  /** The rest of the scan, from a state of the loop. */
  function Scan(words: seq<string>, word: string, started: bool, quote: Option<char>, s: string): Option<seq<string>>
    decreases |s|
  {
    if s == "" then
      if quote.Some? then None else Some(if started then words + [word] else words)
    else if quote.Some? then
      if s[0] == quote.value then Scan(words, word, started, None, s[1..])
      else Scan(words, word + [s[0]], true, quote, s[1..])
    else if s[0] == SINGLE || s[0] == DOUBLE then Scan(words, word, true, Some(s[0]), s[1..])
    else if s[0] == BACKSLASH then
      if |s| == 1 then None else Scan(words, word + [s[1]], true, None, s[2..])
    else if Blank(s[0]) then
      if started then Scan(words + [word], "", false, None, s[1..]) else Scan(words, word, false, None, s[1..])
    else Scan(words, word + [s[0]], true, None, s[1..])
  }

  function Split(s: string): Option<seq<string>> {
    Scan([], "", false, None, s)
  }

  method SplitBrowserWords(entry: string) returns (r: Option<seq<string>>)
    ensures r == Split(entry)
  {
    var words: seq<string>, word: string, started := [], "", false;
    var quote: Option<char> := None;
    var i := 0;
    assert entry[0..] == entry;
    while i < |entry|
      invariant i <= |entry|
      invariant Split(entry) == Scan(words, word, started, quote, entry[i..])
    {
      var ch := entry[i];
      i := i + 1;
      assert entry[i - 1..][1..] == entry[i..];
      if quote.Some? {
        if ch == quote.value {
          quote := None;
        } else {
          word, started := word + [ch], true;
        }
      } else if ch == SINGLE || ch == DOUBLE {
        quote, started := Some(ch), true;
      } else if ch == BACKSLASH {
        if i == |entry| {
          return None;
        }
        assert entry[i - 1..][2..] == entry[i + 1..];
        word, started := word + [entry[i]], true;
        i := i + 1;
      } else if Blank(ch) {
        if started {
          words, word, started := words + [word], "", false;
        }
      } else {
        word, started := word + [ch], true;
      }
    }
    if quote.Some? {
      return None;
    }
    r := Some(if started then words + [word] else words);
  }

  // When the splitter gives up

  datatype Mode = Plain | Quoted(mark: char) | AfterBackslash

  function NextMode(mode: Mode, c: char): Mode {
    match mode
    case Quoted(mark) => if c == mark then Plain else mode
    case AfterBackslash => Plain
    case Plain =>
      if c == SINGLE || c == DOUBLE then Quoted(c)
      else if c == BACKSLASH then AfterBackslash
      else Plain
  }

  /** Where the input ends: an automaton that knows nothing of words. */
  function EndMode(mode: Mode, s: string): Mode
    decreases |s|
  {
    if s == "" then mode else EndMode(NextMode(mode, s[0]), s[1..])
  }

  lemma {:induction false} ScanFailsExactly(words: seq<string>, word: string, started: bool, quote: Option<char>,
                                            s: string)
    ensures Scan(words, word, started, quote, s).None? <==>
      EndMode(if quote.Some? then Quoted(quote.value) else Plain, s) != Plain
    decreases |s|
  {
    if s == "" {
    } else {
      if quote.Some? {
        if s[0] == quote.value {
          ScanFailsExactly(words, word, started, None, s[1..]);
        } else {
          ScanFailsExactly(words, word + [s[0]], true, quote, s[1..]);
        }
      } else if s[0] == SINGLE || s[0] == DOUBLE {
        ScanFailsExactly(words, word, true, Some(s[0]), s[1..]);
      } else if s[0] == BACKSLASH {
        if |s| > 1 {
          assert s[1..][1..] == s[2..];
          ScanFailsExactly(words, word + [s[1]], true, None, s[2..]);
        }
      } else if Blank(s[0]) {
        if started {
          ScanFailsExactly(words + [word], "", false, None, s[1..]);
        } else {
          ScanFailsExactly(words, word, false, None, s[1..]);
        }
      } else {
        ScanFailsExactly(words, word + [s[0]], true, None, s[1..]);
      }
    }
  }

  /** The splitter gives up exactly when the input ends inside a quote or right after an unquoted backslash. */
  lemma FailsExactlyOnOpenInput(s: string)
    ensures Split(s).None? <==> EndMode(Plain, s) != Plain
  {
    ScanFailsExactly([], "", false, None, s);
  }

  // The grammar the splitter reads

  datatype Piece = Bare(c: char) | Escaped(c: char) | InSingle(text: string) | InDouble(text: string)

  predicate PieceOk(p: Piece) {
    match p
    case Bare(c) => !Blank(c) && c != SINGLE && c != DOUBLE && c != BACKSLASH
    case Escaped(_) => true
    case InSingle(text) => SINGLE !in text
    case InDouble(text) => DOUBLE !in text
  }

  function PieceText(p: Piece): string {
    match p
    case Bare(c) => [c]
    case Escaped(c) => [BACKSLASH, c]
    case InSingle(text) => [SINGLE] + text + [SINGLE]
    case InDouble(text) => [DOUBLE] + text + [DOUBLE]
  }

  function PieceMeaning(p: Piece): string {
    match p
    case Bare(c) => [c]
    case Escaped(c) => [c]
    case InSingle(text) => text
    case InDouble(text) => text
  }

  predicate PiecesOk(ps: seq<Piece>) {
    ps == [] || (PieceOk(ps[0]) && PiecesOk(ps[1..]))
  }

  function Text(ps: seq<Piece>): string {
    if ps == [] then "" else PieceText(ps[0]) + Text(ps[1..])
  }

  function Meaning(ps: seq<Piece>): string {
    if ps == [] then "" else PieceMeaning(ps[0]) + Meaning(ps[1..])
  }

  predicate Gap(s: string) {
    forall c | c in s :: Blank(c)
  }

  /** A word after a gap of blanks. */
  datatype Item = Item(gap: string, word: seq<Piece>)

  datatype Line = Line(items: seq<Item>, trailing: string)

  function ItemsText(items: seq<Item>): string {
    if items == [] then "" else items[0].gap + Text(items[0].word) + ItemsText(items[1..])
  }

  function LineText(line: Line): string {
    ItemsText(line.items) + line.trailing
  }

  function Meanings(items: seq<Item>): seq<string> {
    if items == [] then [] else [Meaning(items[0].word)] + Meanings(items[1..])
  }

  /** Words are not empty, and every word is set off by a blank, except that the first word of a line need
      not be when no word is pending before it. */
  predicate ItemsOk(items: seq<Item>, pending: bool) {
    items == [] ||
    (&& Gap(items[0].gap) && (pending ==> items[0].gap != "")
     && items[0].word != [] && PiecesOk(items[0].word)
     && ItemsOk(items[1..], true))
  }

  predicate LineOk(line: Line, pending: bool) {
    ItemsOk(line.items, pending) && Gap(line.trailing)
  }

  // Concatenation

  lemma Assoc(a: string, b: string, c: string)
    ensures (a + b) + c == a + (b + c)
  {
  }

  lemma Units(a: string)
    ensures "" + a == a && a + "" == a
  {
  }

  lemma FirstPieceOf(p: Piece, ps: seq<Piece>)
    ensures Text([p] + ps) == PieceText(p) + Text(ps) && Meaning([p] + ps) == PieceMeaning(p) + Meaning(ps)
    ensures PiecesOk([p] + ps) <==> PieceOk(p) && PiecesOk(ps)
  {
    assert ([p] + ps)[1..] == ps;
  }

  lemma FirstItemOf(item: Item, items: seq<Item>)
    ensures ItemsText([item] + items) == item.gap + Text(item.word) + ItemsText(items)
    ensures Meanings([item] + items) == [Meaning(item.word)] + Meanings(items)
    ensures forall pending :: ItemsOk([item] + items, pending) <==>
      Gap(item.gap) && (pending ==> item.gap != "") && item.word != [] && PiecesOk(item.word) && ItemsOk(items, true)
  {
    assert ([item] + items)[1..] == items;
  }

  // Rendered lines are split into their words

  lemma {:induction false} QuotedTextScans(words: seq<string>, word: string, mark: char, text: string, rest: string)
    requires mark !in text
    ensures Scan(words, word, true, Some(mark), text + [mark] + rest) == Scan(words, word + text, true, None, rest)
    decreases |text|
  {
    var s := text + [mark] + rest;
    if text == "" {
      assert s[0] == mark && s[1..] == rest && word + text == word;
    } else {
      assert s[0] == text[0] && s[1..] == text[1..] + [mark] + rest;
      QuotedTextScans(words, word + [text[0]], mark, text[1..], rest);
      assert word + [text[0]] + text[1..] == word + text;
    }
  }

  lemma PieceScans(words: seq<string>, word: string, started: bool, p: Piece, rest: string)
    requires PieceOk(p)
    ensures Scan(words, word, started, None, PieceText(p) + rest) ==
      Scan(words, word + PieceMeaning(p), true, None, rest)
  {
    var s := PieceText(p) + rest;
    match p
    case Bare(c) =>
      assert s[0] == c && s[1..] == rest;
    case Escaped(c) =>
      assert s[0] == BACKSLASH && s[1] == c && s[2..] == rest;
    case InSingle(text) =>
      assert s[0] == SINGLE && s[1..] == text + [SINGLE] + rest;
      QuotedTextScans(words, word, SINGLE, text, rest);
    case InDouble(text) =>
      assert s[0] == DOUBLE && s[1..] == text + [DOUBLE] + rest;
      QuotedTextScans(words, word, DOUBLE, text, rest);
  }

  lemma {:induction false} PiecesScan(words: seq<string>, word: string, started: bool, ps: seq<Piece>, rest: string)
    requires PiecesOk(ps)
    ensures Scan(words, word, started, None, Text(ps) + rest)
      == Scan(words, word + Meaning(ps), started || ps != [], None, rest)
    decreases |ps|
  {
    if ps == [] {
      assert Text(ps) + rest == rest && word + Meaning(ps) == word;
    } else {
      assert Text(ps) + rest == PieceText(ps[0]) + (Text(ps[1..]) + rest);
      PieceScans(words, word, started, ps[0], Text(ps[1..]) + rest);
      PiecesScan(words, word + PieceMeaning(ps[0]), true, ps[1..], rest);
      assert word + PieceMeaning(ps[0]) + Meaning(ps[1..]) == word + Meaning(ps);
    }
  }

  lemma {:induction false} GapScans(words: seq<string>, gap: string, rest: string)
    requires Gap(gap)
    ensures Scan(words, "", false, None, gap + rest) == Scan(words, "", false, None, rest)
    decreases |gap|
  {
    var s := gap + rest;
    if gap == "" {
      assert s == rest;
    } else {
      assert s[0] == gap[0] && gap[0] in gap && s[1..] == gap[1..] + rest;
      assert forall c | c in gap[1..] :: c in gap;
      GapScans(words, gap[1..], rest);
    }
  }

  lemma GapEndsWord(words: seq<string>, word: string, gap: string, rest: string)
    requires Gap(gap) && gap != ""
    ensures Scan(words, word, true, None, gap + rest) == Scan(words + [word], "", false, None, rest)
  {
    var s := gap + rest;
    assert s[0] == gap[0] && gap[0] in gap && s[1..] == gap[1..] + rest;
    assert forall c | c in gap[1..] :: c in gap;
    GapScans(words + [word], gap[1..], rest);
  }

  /** One item, from between words. */
  lemma ItemScans(words: seq<string>, item: Item, after: string)
    requires Gap(item.gap) && item.word != [] && PiecesOk(item.word)
    ensures Scan(words, "", false, None, item.gap + Text(item.word) + after) ==
      Scan(words, Meaning(item.word), true, None, after)
  {
    assert item.gap + Text(item.word) + after == item.gap + (Text(item.word) + after);
    GapScans(words, item.gap, Text(item.word) + after);
    PiecesScan(words, "", false, item.word, after);
    assert "" + Meaning(item.word) == Meaning(item.word);
  }

  /** One item, with a word pending that its gap completes. */
  lemma NextItemScans(words: seq<string>, word: string, item: Item, after: string)
    requires Gap(item.gap) && item.gap != "" && item.word != [] && PiecesOk(item.word)
    ensures Scan(words, word, true, None, item.gap + Text(item.word) + after)
      == Scan(words + [word], Meaning(item.word), true, None, after)
  {
    assert item.gap + Text(item.word) + after == item.gap + (Text(item.word) + after);
    GapEndsWord(words, word, item.gap, Text(item.word) + after);
    PiecesScan(words + [word], "", false, item.word, after);
    assert "" + Meaning(item.word) == Meaning(item.word);
  }

  /** With a word pending, the next gap or the end completes it. */
  lemma {:induction false} PendingWordScans(words: seq<string>, word: string, items: seq<Item>, trailing: string)
    requires LineOk(Line(items, trailing), true)
    ensures Scan(words, word, true, None, ItemsText(items) + trailing) == Some(words + [word] + Meanings(items))
    decreases |items|
  {
    if items == [] {
      assert ItemsText(items) + trailing == trailing && words + [word] + Meanings(items) == words + [word];
      if trailing != "" {
        GapEndsWord(words, word, trailing, "");
        assert trailing + "" == trailing;
      }
    } else {
      var first, after := items[0], ItemsText(items[1..]) + trailing;
      assert ItemsText(items) + trailing == first.gap + Text(first.word) + after;
      NextItemScans(words, word, first, after);
      PendingWordScans(words + [word], Meaning(first.word), items[1..], trailing);
      assert words + [word] + [Meaning(first.word)] + Meanings(items[1..]) == words + [word] + Meanings(items);
    }
  }

  /** Every line of the grammar is split into the meanings of its words. */
  lemma LinesSplit(line: Line)
    requires LineOk(line, false)
    ensures Split(LineText(line)) == Some(Meanings(line.items))
  {
    if line.items == [] {
      GapScans([], line.trailing, "");
      Units(line.trailing);
    } else {
      var first, after := line.items[0], ItemsText(line.items[1..]) + line.trailing;
      Assoc(first.gap + Text(first.word), ItemsText(line.items[1..]), line.trailing);
      ItemScans([], first, after);
      PendingWordScans([], Meaning(first.word), line.items[1..], line.trailing);
      assert [] + [Meaning(first.word)] == [Meaning(first.word)];
    }
  }

  // Whatever is split is a rendered line

  /** The closing mark of an open quote. */
  lemma {:induction false} QuoteCloses(words: seq<string>, word: string, mark: char, s: string)
    returns (text: string, rest: string)
    requires Scan(words, word, true, Some(mark), s).Some?
    ensures s == text + [mark] + rest && mark !in text
    decreases |s|
  {
    if s[0] == mark {
      text, rest := "", s[1..];
    } else {
      text, rest := QuoteCloses(words, word + [s[0]], mark, s[1..]);
      assert s == [s[0]] + (text + [mark] + rest);
      text := [s[0]] + text;
    }
  }

  /** The rest of the input, with the pieces `cur` of a word already read: the remaining pieces of that word,
      and a line after it. */
  ghost predicate Recovered(cur: seq<Piece>, s: string, pieces: seq<Piece>, line: Line) {
    && PiecesOk(pieces) && LineOk(line, cur + pieces != [])
    && s == Text(pieces) + LineText(line)
  }

  function WithBlank(c: char, line: Line): Line {
    if line.items == [] then Line([], [c] + line.trailing)
    else Line([Item([c] + line.items[0].gap, line.items[0].word)] + line.items[1..], line.trailing)
  }

  lemma WithBlankOk(c: char, line: Line)
    requires Blank(c) && LineOk(line, false)
    ensures LineOk(WithBlank(c, line), true) && LineText(WithBlank(c, line)) == [c] + LineText(line)
  {
    if line.items == [] {
      assert "" + ([c] + line.trailing) == [c] + ("" + line.trailing);
    } else {
      assert WithBlank(c, line).items[1..] == line.items[1..];
      Regroup([c], line.items[0].gap, Text(line.items[0].word), ItemsText(line.items[1..]), line.trailing);
    }
  }

  lemma Regroup(c: string, gap: string, text: string, rest: string, trailing: string)
    ensures (c + gap) + text + rest + trailing == c + (gap + text + rest + trailing)
  {
  }

  /** A word moved behind a gap becomes the first item of the line. */
  lemma WordJoinsLine(gap: string, pieces: seq<Piece>, line: Line, pending: bool)
    requires Gap(gap) && (pending ==> gap != "") && PiecesOk(pieces) && pieces != [] && LineOk(line, true)
    ensures var joined := Line([Item(gap, pieces)] + line.items, line.trailing);
      LineOk(joined, pending) && LineText(joined) == gap + Text(pieces) + LineText(line)
  {
    FirstItemOf(Item(gap, pieces), line.items);
    Assoc(gap + Text(pieces), ItemsText(line.items), line.trailing);
  }

  lemma PieceThenRest(cur: seq<Piece>, p: Piece, s: string, pieces: seq<Piece>, line: Line, rest: string)
    requires PieceOk(p) && s == PieceText(p) + rest && Recovered(cur + [p], rest, pieces, line)
    ensures Recovered(cur, s, [p] + pieces, line)
  {
    FirstPieceOf(p, pieces);
    assert cur + [p] + pieces != [] && cur + ([p] + pieces) != [];
    Assoc(PieceText(p), Text(pieces), LineText(line));
  }

  /** The line that a blank starts: the blank, the pieces after it as a word, and the line after them. */
  function AfterBlank(c: char, pieces: seq<Piece>, line: Line): Line {
    if pieces == [] then WithBlank(c, line) else Line([Item([c], pieces)] + line.items, line.trailing)
  }

  lemma BlankThenRest(cur: seq<Piece>, s: string, pieces: seq<Piece>, line: Line)
    requires s != "" && Blank(s[0]) && Recovered([], s[1..], pieces, line)
    ensures Recovered(cur, s, [], AfterBlank(s[0], pieces, line))
  {
    assert s == [s[0]] + s[1..];
    var next := AfterBlank(s[0], pieces, line);
    if pieces == [] {
      assert Text(pieces) + LineText(line) == LineText(line);
      WithBlankOk(s[0], line);
    } else {
      assert [] + pieces == pieces;
      WordJoinsLine([s[0]], pieces, line, true);
      assert [s[0]] + Text(pieces) + LineText(line) == [s[0]] + (Text(pieces) + LineText(line));
    }
    assert Text([]) + LineText(next) == LineText(next);
  }

  lemma {:induction false} Recover(words: seq<string>, word: string, cur: seq<Piece>, s: string)
    returns (pieces: seq<Piece>, line: Line)
    requires Scan(words, word, cur != [], None, s).Some?
    ensures Recovered(cur, s, pieces, line)
    decreases |s|
  {
    if s == "" {
      pieces, line := [], Line([], "");
    } else if Blank(s[0]) {
      if cur != [] {
        pieces, line := Recover(words + [word], "", [], s[1..]);
      } else {
        pieces, line := Recover(words, word, [], s[1..]);
      }
      BlankThenRest(cur, s, pieces, line);
      pieces, line := [], AfterBlank(s[0], pieces, line);
    } else {
      var p, rest, next := FirstPiece(words, word, cur != [], s);
      pieces, line := Recover(words, next, cur + [p], rest);
      PieceThenRest(cur, p, s, pieces, line, rest);
      pieces := [p] + pieces;
    }
  }

  /** Input that does not start with a blank starts with a piece. */
  lemma FirstPiece(words: seq<string>, word: string, started: bool, s: string)
    returns (p: Piece, rest: string, next: string)
    requires s != "" && !Blank(s[0]) && Scan(words, word, started, None, s).Some?
    ensures PieceOk(p) && s == PieceText(p) + rest && |rest| < |s|
    ensures Scan(words, next, true, None, rest).Some?
  {
    if s[0] == SINGLE || s[0] == DOUBLE {
      var text;
      text, rest := QuoteCloses(words, word, s[0], s[1..]);
      p, next := if s[0] == SINGLE then InSingle(text) else InDouble(text), word + text;
      QuotedTextScans(words, word, s[0], text, rest);
      assert s == [s[0]] + s[1..] == [s[0]] + (text + [s[0]] + rest) == PieceText(p) + rest;
    } else if s[0] == BACKSLASH {
      p, rest, next := Escaped(s[1]), s[2..], word + [s[1]];
    } else {
      p, rest, next := Bare(s[0]), s[1..], word + [s[0]];
    }
  }

  /** Any input that is split is a line of the grammar, and the words are the meanings of its words. */
  lemma SplitInputsAreLines(s: string) returns (line: Line)
    requires Split(s).Some?
    ensures LineOk(line, false) && LineText(line) == s && Split(s) == Some(Meanings(line.items))
  {
    var pieces, rest := Recover([], "", [], s);
    line := WholeLine(pieces, rest);
    WholeLineOk(pieces, rest, s);
    LinesSplit(line);
  }

  /** A line whose first word is already cut off before it. */
  function WholeLine(pieces: seq<Piece>, rest: Line): Line {
    if pieces == [] then rest else Line([Item("", pieces)] + rest.items, rest.trailing)
  }

  lemma WholeLineOk(pieces: seq<Piece>, rest: Line, s: string)
    requires Recovered([], s, pieces, rest)
    ensures LineOk(WholeLine(pieces, rest), false) && LineText(WholeLine(pieces, rest)) == s
  {
    assert [] + pieces == pieces;
    if pieces == [] {
      assert Text(pieces) + LineText(rest) == LineText(rest);
    } else {
      WordJoinsLine("", pieces, rest, false);
      assert "" + Text(pieces) == Text(pieces);
    }
  }

  // The quoter

  /** Every apostrophe is written as close, escaped apostrophe, open. */
  function QuoteInside(value: string): string {
    if value == "" then ""
    else (if value[0] == SINGLE then [SINGLE, BACKSLASH, SINGLE, SINGLE] else [value[0]]) + QuoteInside(value[1..])
  }

  function ShellQuote(value: string): string {
    [SINGLE] + QuoteInside(value) + [SINGLE]
  }

  /** The quoted value as one word: apostrophes escaped, everything else in single quotes. `open` is the text
      of the quote that is open. */
  function QuotedPieces(open: string, value: string): seq<Piece>
    decreases |value|
  {
    if value == "" then [InSingle(open)]
    else if value[0] == SINGLE then [InSingle(open), Escaped(SINGLE)] + QuotedPieces("", value[1..])
    else QuotedPieces(open + [value[0]], value[1..])
  }

  lemma EscapeThenRest(open: string, rest: seq<Piece>, inside: string, value: string)
    requires SINGLE !in open && PiecesOk(rest) && rest != []
    requires Text(rest) == [SINGLE] + inside + [SINGLE] && Meaning(rest) == value
    ensures var ps := [InSingle(open), Escaped(SINGLE)] + rest;
      && PiecesOk(ps)
      && Text(ps) == [SINGLE] + open + ([SINGLE, BACKSLASH, SINGLE, SINGLE] + inside) + [SINGLE]
      && Meaning(ps) == open + ([SINGLE] + value)
  {
    var ps := [InSingle(open), Escaped(SINGLE)] + rest;
    assert ps[1..] == [Escaped(SINGLE)] + rest && ps[1..][1..] == rest;
    assert Text(ps[1..]) == [BACKSLASH, SINGLE] + Text(rest);
    RegroupEscape([SINGLE], [BACKSLASH, SINGLE], open, inside);
    assert [SINGLE] + [BACKSLASH, SINGLE] + [SINGLE] == [SINGLE, BACKSLASH, SINGLE, SINGLE];
  }

  lemma RegroupEscape(mark: string, escape: string, open: string, inside: string)
    ensures (mark + open + mark) + (escape + (mark + inside + mark)) ==
      mark + open + ((mark + escape + mark) + inside) + mark
  {
  }

  lemma {:induction false} QuotedPiecesRender(open: string, value: string)
    requires SINGLE !in open
    ensures PiecesOk(QuotedPieces(open, value)) && QuotedPieces(open, value) != []
    ensures Text(QuotedPieces(open, value)) == [SINGLE] + open + QuoteInside(value) + [SINGLE]
    ensures Meaning(QuotedPieces(open, value)) == open + value
    decreases |value|
  {
    if value == "" {
      FirstPieceOf(InSingle(open), []);
      assert [InSingle(open)] + [] == [InSingle(open)];
      Units(open);
      Units(PieceText(InSingle(open)));
      Assoc([SINGLE], open, "");
    } else if value[0] == SINGLE {
      QuotedPiecesRender("", value[1..]);
      Units(value[1..]);
      Units([SINGLE]);
      EscapeThenRest(open, QuotedPieces("", value[1..]), QuoteInside(value[1..]), value[1..]);
      assert value == [SINGLE] + value[1..];
    } else {
      QuotedPiecesRender(open + [value[0]], value[1..]);
      MoveIntoOpen([SINGLE], open, [value[0]], QuoteInside(value[1..]));
      Assoc(open, [value[0]], value[1..]);
      assert value == [value[0]] + value[1..];
    }
  }

  lemma MoveIntoOpen(mark: string, open: string, c: string, inside: string)
    ensures mark + (open + c) + inside + mark == mark + open + (c + inside) + mark
  {
  }

  /** The quoted values, separated by single spaces. */
  function JoinQuoted(values: seq<string>): string {
    if values == [] then ""
    else if |values| == 1 then ShellQuote(values[0])
    else ShellQuote(values[0]) + " " + JoinQuoted(values[1..])
  }

  function QuotedItems(gap: string, values: seq<string>): seq<Item>
    decreases |values|
  {
    if values == [] then [] else [Item(gap, QuotedPieces("", values[0]))] + QuotedItems(" ", values[1..])
  }

  lemma QuotedWord(value: string)
    ensures PiecesOk(QuotedPieces("", value)) && QuotedPieces("", value) != []
    ensures Text(QuotedPieces("", value)) == ShellQuote(value) && Meaning(QuotedPieces("", value)) == value
  {
    QuotedPiecesRender("", value);
    Units([SINGLE]);
    Units(value);
  }

  lemma QuotedItemLeads(gap: string, value: string, rest: seq<Item>, pending: bool)
    requires Gap(gap) && (pending ==> gap != "") && ItemsOk(rest, true)
    ensures var items := [Item(gap, QuotedPieces("", value))] + rest;
      ItemsOk(items, pending) && Meanings(items) == [value] + Meanings(rest)
      && ItemsText(items) == gap + ShellQuote(value) + ItemsText(rest)
  {
    QuotedWord(value);
    FirstItemOf(Item(gap, QuotedPieces("", value)), rest);
  }

  lemma {:induction false} QuotedItemsMean(gap: string, values: seq<string>, pending: bool)
    requires Gap(gap) && (pending ==> gap != "")
    ensures ItemsOk(QuotedItems(gap, values), pending) && Meanings(QuotedItems(gap, values)) == values
    decreases |values|
  {
    if values == [] {
    } else {
      QuotedItemsMean(" ", values[1..], true);
      QuotedItemLeads(gap, values[0], QuotedItems(" ", values[1..]), pending);
    }
  }

  lemma {:induction false} QuotedItemsRender(gap: string, values: seq<string>)
    requires Gap(gap) && values != []
    ensures ItemsText(QuotedItems(gap, values)) == gap + JoinQuoted(values)
    decreases |values|
  {
    var rest := QuotedItems(" ", values[1..]);
    QuotedItemsMean(" ", values[1..], true);
    QuotedItemLeads(gap, values[0], rest, false);
    if |values| == 1 {
      Units(gap + ShellQuote(values[0]));
    } else {
      QuotedItemsRender(" ", values[1..]);
      RegroupJoin(gap, ShellQuote(values[0]), " ", JoinQuoted(values[1..]));
    }
  }

  lemma RegroupJoin(gap: string, first: string, space: string, rest: string)
    ensures gap + first + (space + rest) == gap + (first + space + rest)
  {
  }

  /** Splitting undoes quoting, for every list of strings. */
  lemma SplittingUndoesQuoting(values: seq<string>)
    ensures Split(JoinQuoted(values)) == Some(values)
  {
    var line := Line(QuotedItems("", values), "");
    QuotedItemsMean("", values, false);
    LinesSplit(line);
    assert LineText(line) == ItemsText(line.items);
    if values != [] {
      QuotedItemsRender("", values);
      assert "" + JoinQuoted(values) == JoinQuoted(values);
    }
  }

  /** Inside double quotes a backslash is an ordinary character here, unlike in section 2.2.3 of the POSIX.1-2017
      Shell Command Language: the mark after it closes the quote. */
  lemma BackslashIsLiteralInDoubleQuotes()
    ensures Split([DOUBLE, 'a', BACKSLASH, DOUBLE]) == Some(["a\\"])
  {
    var p := InDouble("a\\");
    assert [DOUBLE, 'a', BACKSLASH, DOUBLE] == PieceText(p) + "";
    PieceScans([], "", false, p, "");
    assert "" + PieceMeaning(p) == "a\\";
    assert [] + ["a\\"] == ["a\\"];
  }

  /** An escaped newline is kept, where section 2.2.1 removes it together with the backslash. */
  lemma EscapedNewlineIsKept()
    ensures Split(['a', BACKSLASH, '\n', 'b']) == Some(["a\nb"])
  {
    var last, middle := [Bare('b')], [Escaped('\n'), Bare('b')];
    FirstPieceOf(Bare('b'), []);
    FirstPieceOf(Escaped('\n'), last);
    FirstPieceOf(Bare('a'), middle);
    var ps := [Bare('a')] + middle;
    assert [Bare('b')] + [] == last && [Escaped('\n')] + last == middle;
    PiecesScan([], "", false, ps, "");
    assert Text(ps) + "" == ['a', BACKSLASH, '\n', 'b'] && "" + Meaning(ps) == "a\nb";
    assert [] + ["a\nb"] == ["a\nb"];
  }

  // Commands

  function SplitColons(piece: string, s: string): seq<string>
    decreases |s|
  {
    if s == "" then [piece]
    else if s[0] == ':' then [piece] + SplitColons("", s[1..])
    else SplitColons(piece + [s[0]], s[1..])
  }

  function Join(parts: seq<string>, glue: string): string {
    if parts == [] then ""
    else if |parts| == 1 then parts[0]
    else parts[0] + glue + Join(parts[1..], glue)
  }

  /** The entries hold no colon and, joined with colons, are the input again, from any state of the split. */
  lemma {:induction false} SplitColonsExact(piece: string, s: string)
    requires ':' !in piece
    ensures SplitColons(piece, s) != [] && Join(SplitColons(piece, s), ":") == piece + s
    ensures forall p | p in SplitColons(piece, s) :: ':' !in p
    decreases |s|
  {
    if s == "" {
      Units(piece);
    } else if s[0] == ':' {
      SplitColonsExact("", s[1..]);
      var rest := SplitColons("", s[1..]);
      assert ([piece] + rest)[1..] == rest;
      Units(s[1..]);
      assert s == ":" + s[1..];
      Assoc(piece, ":", s[1..]);
    } else {
      SplitColonsExact(piece + [s[0]], s[1..]);
      assert s == [s[0]] + s[1..];
      Assoc(piece, [s[0]], s[1..]);
    }
  }

  predicate HasMarker(word: string) {
    exists i | 0 <= i < |word| - 1 :: word[i] == '%' && word[i + 1] == 's'
  }

  /** Every `%s` replaced by the URL, from left to right. */
  function Replace(word: string, url: string): string {
    if |word| < 2 then word
    else if word[0] == '%' && word[1] == 's' then url + Replace(word[2..], url)
    else [word[0]] + Replace(word[1..], url)
  }

  lemma {:induction false} NoMarkerNoChange(word: string, url: string)
    requires !HasMarker(word)
    ensures Replace(word, url) == word
  {
    if |word| >= 2 {
      assert !HasMarker(word[1..]) by {
        assert forall i | 0 <= i < |word| - 1 :: word[1..][i] == word[i + 1];
      }
      assert !(word[0] == '%' && word[0 + 1] == 's');
      NoMarkerNoChange(word[1..], url);
    }
  }

  lemma ReplaceMarker(rest: string, url: string)
    ensures Replace("%s" + rest, url) == url + Replace(rest, url)
  {
    assert ("%s" + rest)[2..] == rest;
  }

  lemma ReplaceOther(c: char, rest: string, url: string)
    requires rest != "" && !(c == '%' && rest[0] == 's')
    ensures Replace([c] + rest, url) == [c] + Replace(rest, url)
  {
    assert ([c] + rest)[1..] == rest;
  }

  lemma TailHasNoMarker(part: string)
    requires !HasMarker(part) && part != ""
    ensures !HasMarker(part[1..]) && (|part| > 1 ==> !(part[0] == '%' && part[1] == 's'))
  {
    assert forall i | 0 <= i < |part| - 1 :: part[1..][i] == part[i + 1];
    assert |part| > 1 ==> !(part[0] == '%' && part[0 + 1] == 's');
  }

  lemma {:induction false} ReplaceFirst(part: string, rest: string, url: string)
    requires !HasMarker(part)
    ensures Replace(part + ("%s" + rest), url) == part + (url + Replace(rest, url))
    decreases |part|
  {
    if part == "" {
      ReplaceMarker(rest, url);
      Units("%s" + rest);
      Units(url + Replace(rest, url));
    } else {
      var tail := part[1..];
      TailHasNoMarker(part);
      ReplaceFirst(tail, rest, url);
      assert part == [part[0]] + tail;
      Assoc([part[0]], tail, "%s" + rest);
      Assoc([part[0]], tail, url + Replace(rest, url));
      ReplaceOther(part[0], tail + ("%s" + rest), url);
    }
  }

  /** Every marker is replaced, and nothing else: parts without markers that were joined by markers are joined
      by the URL. */
  lemma {:induction false} ReplaceJoins(parts: seq<string>, url: string)
    requires parts != [] && forall p | p in parts :: !HasMarker(p)
    ensures Replace(Join(parts, "%s"), url) == Join(parts, url)
  {
    assert parts[0] in parts;
    if |parts| == 1 {
      NoMarkerNoChange(parts[0], url);
    } else {
      ReplaceJoins(parts[1..], url);
      ReplaceFirst(parts[0], Join(parts[1..], "%s"), url);
      Assoc(parts[0], "%s", Join(parts[1..], "%s"));
      Assoc(parts[0], url, Join(parts[1..], url));
    }
  }

  /** Every word is such a join. */
  lemma {:induction false} WordIsJoined(word: string) returns (parts: seq<string>)
    ensures parts != [] && Join(parts, "%s") == word && forall p | p in parts :: !HasMarker(p)
    decreases |word|
  {
    if i :| 0 <= i < |word| - 1 && word[i] == '%' && word[i + 1] == 's' {
      var before := WordIsJoined(word[..i]);
      var after := WordIsJoined(word[i + 2..]);
      parts := before + after;
      JoinAppends(before, after, "%s");
      assert word == word[..i] + "%s" + word[i + 2..];
    } else {
      parts := [word];
    }
  }

  lemma {:induction false} JoinAppends(a: seq<string>, b: seq<string>, glue: string)
    requires a != [] && b != []
    ensures Join(a + b, glue) == Join(a, glue) + glue + Join(b, glue)
  {
    assert (a + b)[1..] == a[1..] + b;
    if |a| > 1 {
      JoinAppends(a[1..], b, glue);
      assert a[0] + glue + (Join(a[1..], glue) + glue + Join(b, glue)) ==
        (a[0] + glue + Join(a[1..], glue)) + glue + Join(b, glue);
    } else {
      assert a[1..] + b == b;
    }
  }

  function ReplaceAll(words: seq<string>, url: string): (argv: seq<string>)
    ensures |argv| == |words| && forall i | 0 <= i < |words| :: argv[i] == Replace(words[i], url)
  {
    if words == [] then [] else [Replace(words[0], url)] + ReplaceAll(words[1..], url)
  }

  predicate AnyMarker(words: seq<string>) {
    words != [] && (AnyMarker(words[..|words| - 1]) || HasMarker(words[|words| - 1]))
  }

  function Argv(words: seq<string>, url: string): seq<string> {
    ReplaceAll(words, url) + if AnyMarker(words) then [] else [url]
  }

  function Commands(entries: seq<string>, url: string): seq<seq<string>> {
    if entries == [] then []
    else
      (match Split(entries[0])
       case None => []
       case Some(words) => if words == [] then [] else [Argv(words, url)]) + Commands(entries[1..], url)
  }

  /** The words with every marker replaced; without any, the URL is appended. */
  method Substitute(words: seq<string>, url: string) returns (argv: seq<string>)
    ensures argv == Argv(words, url)
  {
    var substituted := false;
    argv := [];
    for k := 0 to |words|
      invariant |argv| == k && forall j | 0 <= j < k :: argv[j] == Replace(words[j], url)
      invariant substituted == AnyMarker(words[..k])
    {
      assert words[..k + 1][..k] == words[..k];
      if HasMarker(words[k]) {
        substituted := true;
        argv := argv + [Replace(words[k], url)];
      } else {
        NoMarkerNoChange(words[k], url);
        argv := argv + [words[k]];
      }
    }
    assert words[..|words|] == words;
    assert argv == ReplaceAll(words, url) && argv + [] == argv;
    if !substituted {
      argv := argv + [url];
    }
  }

  method BrowserCommands(spec: string, url: string) returns (commands: seq<seq<string>>)
    ensures commands == Commands(SplitColons("", spec), url)
  {
    var entries := SplitColons("", spec);
    commands := [];
    assert entries[0..] == entries;
    for e := 0 to |entries|
      invariant Commands(entries, url) == commands + Commands(entries[e..], url)
    {
      OneMoreEntry(entries, e, url, commands);
      var words := SplitBrowserWords(entries[e]);
      if words.None? || words.value == [] {
        continue;
      }
      var argv := Substitute(words.value, url);
      commands := commands + [argv];
    }
    assert entries[|entries|..] == [] && commands + [] == commands;
  }

  lemma OneMoreEntry(entries: seq<string>, e: nat, url: string, commands: seq<seq<string>>)
    requires e < |entries|
    ensures commands + Commands(entries[e..], url) ==
      if Split(entries[e]).None? || Split(entries[e]).value == [] then commands + Commands(entries[e + 1..], url)
      else commands + [Argv(Split(entries[e]).value, url)] + Commands(entries[e + 1..], url)
  {
    var rest := Commands(entries[e + 1..], url);
    assert entries[e..][0] == entries[e] && entries[e..][1..] == entries[e + 1..];
    assert [] + rest == rest;
  }

  /** Commands with as many arguments each, and none without any. */
  ghost predicate SameShape(a: seq<seq<string>>, b: seq<seq<string>>) {
    |a| == |b| && forall i | 0 <= i < |a| :: a[i] != [] && |a[i]| == |b[i]|
  }

  lemma ShapesJoin(a: seq<seq<string>>, b: seq<seq<string>>, c: seq<seq<string>>, d: seq<seq<string>>)
    requires SameShape(a, b) && SameShape(c, d)
    ensures SameShape(a + c, b + d)
  {
  }

  /** Whatever the URL contains it stays within one argument: how many commands there are, and how many
      arguments each has, does not depend on it. */
  lemma {:induction false} UrlIsNeverSplit(entries: seq<string>, url: string, other: string)
    ensures SameShape(Commands(entries, url), Commands(entries, other))
  {
    if entries == [] {
    } else {
      UrlIsNeverSplit(entries[1..], url, other);
      var rest, others := Commands(entries[1..], url), Commands(entries[1..], other);
      match Split(entries[0])
      case None =>
        ShapesJoin([], [], rest, others);
      case Some(words) =>
        if words == [] {
          ShapesJoin([], [], rest, others);
        } else {
          ShapesJoin([Argv(words, url)], [Argv(words, other)], rest, others);
        }
    }
  }
}
