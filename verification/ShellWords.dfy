/** Shell words spelled out as a grammar: what splitting a command line makes of quotes and backslashes. */
module ShellWords {
  import opened Basics
  import opened MongodOptions
  import opened OptionsRoundTrip

  // ---- The grammar ----------------------------------------------------------------------------------------

  /** A character between double quotes: itself, escaped, or behind a backslash that is no escape there. */
  datatype InDouble = Same(c: char) | Escape(c: char) | Backslashed(c: char)

  /** A part of a word: bare text, a text in single or double quotes, or an escaped character. */
  datatype Part = Bare(text: string) | Single(text: string) | Double(items: seq<InDouble>) | AfterBackslash(c: char)

  type Phrase = seq<Part>

  predicate IsProperItem(x: InDouble) {
    match x
    case Same(c) => c != '"' && c != '\\'
    case Escape(c) => c == '"' || c == '\\'
    case Backslashed(c) => c != '"' && c != '\\'
  }

  ghost predicate IsProper(p: Part) {
    match p
    case Bare(text) => forall c :: c in text ==> c !in " \t\r\n\'\"\\"
    case Single(text) => '\'' !in text
    case Double(items) => forall x :: x in items ==> IsProperItem(x)
    case AfterBackslash(_) => true
  }

  ghost predicate IsProperPhrase(w: Phrase) {
    Counts(w) && forall p :: p in w ==> IsProper(p)
  }

  function TypedItems(items: seq<InDouble>): string {
    if items == [] then ""
    else (match items[0]
          case Same(c) => [c]
          case Escape(c) => ['\\', c]
          case Backslashed(c) => ['\\', c]) + TypedItems(items[1..])
  }

  function MeantItems(items: seq<InDouble>): string {
    if items == [] then ""
    else (match items[0]
          case Same(c) => [c]
          case Escape(c) => [c]
          case Backslashed(c) => ['\\', c]) + MeantItems(items[1..])
  }

  function TypedPart(p: Part): string {
    match p
    case Bare(text) => text
    case Single(text) => "'" + text + "'"
    case Double(items) => "\"" + TypedItems(items) + "\""
    case AfterBackslash(c) => ['\\', c]
  }

  function MeantPart(p: Part): string {
    match p
    case Bare(text) => text
    case Single(text) => text
    case Double(items) => MeantItems(items)
    case AfterBackslash(c) => [c]
  }

  function Typed(w: Phrase): string {
    if w == [] then "" else TypedPart(w[0]) + Typed(w[1..])
  }

  function Meant(w: Phrase): string {
    if w == [] then "" else MeantPart(w[0]) + Meant(w[1..])
  }

  /** Words with a gap of blanks between them. */
  function TypedLine(ws: seq<Phrase>, gap: string): string {
    if ws == [] then ""
    else if |ws| == 1 then Typed(ws[0])
    else Typed(ws[0]) + gap + TypedLine(ws[1..], gap)
  }

  function MeantLine(ws: seq<Phrase>): seq<string> {
    if ws == [] then [] else [Meant(ws[0])] + MeantLine(ws[1..])
  }

  // ---- One part -------------------------------------------------------------------------------------------

  /** Inside a word, or about to begin one. */
  ghost predicate Ready(lx: Lexer) {
    lx.mode == Word || (lx.mode == Between && lx.word == [] && !lx.quoted)
  }

  /** A word has begun, and would count even if it stays empty. */
  ghost predicate Begun(lx: Lexer) {
    lx.mode == Word && (lx.word != [] || lx.quoted)
  }

  lemma FeedTwo(lx: Lexer, a: char, b: char)
    ensures FeedAll(lx, [a, b]) == Feed(Feed(lx, a), b)
  {
    assert [a, b][1..] == [b] && [b][1..] == [];
    assert FeedAll(Feed(lx, a), [b]) == FeedAll(Feed(Feed(lx, a), b), []);
  }

  lemma FeedOne(lx: Lexer, a: char)
    ensures FeedAll(lx, [a]) == Feed(lx, a)
  {
    assert [a][1..] == [];
  }

  lemma FeedItem(lx: Lexer, x: InDouble)
    requires lx.mode == Quoted('"') && IsProperItem(x)
    ensures FeedAll(lx, TypedItems([x])) == lx.(word := lx.word + MeantItems([x]))
  {
    assert [x][1..] == [];
    var kept := lx.word + ['\\'];
    match x
    case Same(c) =>
      assert TypedItems([x]) == [c] && MeantItems([x]) == [c];
      FeedOne(lx, c);
    case Escape(c) =>
      assert TypedItems([x]) == ['\\', c] && MeantItems([x]) == [c];
      FeedTwo(lx, '\\', c);
      assert lx.word + [] + [c] == lx.word + [c];
    case Backslashed(c) =>
      assert TypedItems([x]) == ['\\', c] && MeantItems([x]) == ['\\', c];
      FeedTwo(lx, '\\', c);
      assert kept + [c] == lx.word + ['\\', c];
  }

  lemma ItemsFront(items: seq<InDouble>)
    requires items != []
    ensures TypedItems(items) == TypedItems([items[0]]) + TypedItems(items[1..])
    ensures MeantItems(items) == MeantItems([items[0]]) + MeantItems(items[1..])
  {
    var one := [items[0]];
    assert one[1..] == [];
    assert forall s: string :: s + "" == s;
  }

  lemma {:induction false} FeedItems(lx: Lexer, items: seq<InDouble>, typed: string, meant: string)
    requires lx.mode == Quoted('"') && forall x :: x in items ==> IsProperItem(x)
    requires typed == TypedItems(items) && meant == MeantItems(items)
    ensures FeedAll(lx, typed) == lx.(word := lx.word + meant)
    decreases |items|
  {
    if items == [] {
      assert lx.word + "" == lx.word;
    } else {
      var x, rest := items[0], items[1..];
      var typed1, meant1 := TypedItems([x]), MeantItems([x]);
      ItemsFront(items);
      FeedItem(lx, x);
      FeedAllAppends(lx, typed1, TypedItems(rest));
      FeedItems(lx.(word := lx.word + meant1), rest, TypedItems(rest), MeantItems(rest));
      Reassociate(lx.word, meant1, MeantItems(rest));
    }
  }

  lemma Reassociate<T>(a: seq<T>, b: seq<T>, c: seq<T>)
    ensures a + b + c == a + (b + c)
  {}

  /** A quoted part: the quote, what stands inside, the quote again. */
  lemma FeedEnclosed(lx: Lexer, q: char, typed: string, meant: string)
    requires Ready(lx) && IsQuote(q)
    requires var open := lx.(mode := Quoted(q), quoted := true);
             FeedAll(open, typed) == open.(word := lx.word + meant)
    ensures FeedAll(lx, [q] + typed + [q]) == lx.(mode := Word, quoted := true, word := lx.word + meant)
  {
    var open := lx.(mode := Quoted(q), quoted := true);
    FeedAllAppends(lx, [q] + typed, [q]);
    FeedAllAppends(lx, [q], typed);
    FeedOne(lx, q);
    FeedOne(open.(word := lx.word + meant), q);
  }

  lemma FeedBare(lx: Lexer, text: string)
    requires Ready(lx) && IsProper(Bare(text)) && text != ""
    ensures FeedAll(lx, text) == lx.(mode := Word, word := lx.word + text)
  {
    assert text[0] in text && forall c :: c in text[1..] ==> c in text;
    var lx1 := lx.(mode := Word, word := lx.word + [text[0]]);
    assert lx.mode == Between ==> [] + [text[0]] == [text[0]];
    assert Feed(lx, text[0]) == lx1;
    FeedPlain(lx1, text[1..]);
    AppendFirst(lx.word, text);
  }

  lemma FeedEscaped(lx: Lexer, c: char)
    requires Ready(lx)
    ensures FeedAll(lx, ['\\', c]) == lx.(mode := Word, word := lx.word + [c])
  {
    FeedTwo(lx, '\\', c);
    assert lx.word + [] + [c] == lx.word + [c];
  }

  /** What a part adds to the word that is being read. */
  ghost predicate Adds(lx: Lexer, r: Lexer, meant: string) {
    && Ready(r) && r.words == lx.words && r.word == lx.word + meant
    && (Begun(lx) ==> Begun(r))
  }

  lemma FeedPart(lx: Lexer, p: Part)
    requires Ready(lx) && IsProper(p)
    ensures Adds(lx, FeedAll(lx, TypedPart(p)), MeantPart(p))
    ensures p != Bare("") ==> Begun(FeedAll(lx, TypedPart(p)))
  {
    match p
    case Bare(text) =>
      if text != "" {
        FeedBare(lx, text);
      } else {
        assert lx.word + "" == lx.word;
      }
    case Single(text) =>
      FeedQuoted(lx.(mode := Quoted('\''), quoted := true), text);
      FeedEnclosed(lx, '\'', text, text);
    case Double(items) =>
      FeedItems(lx.(mode := Quoted('"'), quoted := true), items, TypedItems(items), MeantItems(items));
      FeedEnclosed(lx, '"', TypedItems(items), MeantItems(items));
    case AfterBackslash(c) =>
      FeedEscaped(lx, c);
  }

  // ---- Words and lines ------------------------------------------------------------------------------------

  lemma AddsTwice(lx: Lexer, lx1: Lexer, r: Lexer, a: string, b: string)
    requires Adds(lx, lx1, a) && Adds(lx1, r, b)
    ensures Adds(lx, r, a + b)
  {
    Reassociate(lx.word, a, b);
  }

  ghost predicate Counts(w: Phrase) {
    exists p :: p in w && p != Bare("")
  }

  lemma {:induction false} FeedPhrase(lx: Lexer, w: Phrase)
    requires Ready(lx) && forall p :: p in w ==> IsProper(p)
    ensures Adds(lx, FeedAll(lx, Typed(w)), Meant(w))
    ensures Counts(w) ==> Begun(FeedAll(lx, Typed(w)))
    decreases |w|
  {
    if w == [] {
      assert lx.word + "" == lx.word;
    } else {
      var p, rest := w[0], w[1..];
      var lx1 := FeedAll(lx, TypedPart(p));
      assert p in w && w == [p] + rest;
      FeedPart(lx, p);
      FeedAllAppends(lx, TypedPart(p), Typed(rest));
      FeedPhrase(lx1, rest);
      AddsTwice(lx, lx1, FeedAll(lx1, Typed(rest)), MeantPart(p), Meant(rest));
      assert Counts(w) ==> p != Bare("") || Counts(rest);
    }
  }

  lemma {:induction false} FeedBlanks(lx: Lexer, gap: string)
    requires lx.mode == Between && forall c :: c in gap ==> c in " \t\r\n"
    ensures FeedAll(lx, gap) == lx
    decreases |gap|
  {
    if gap != [] {
      assert gap[0] in gap && forall c :: c in gap[1..] ==> c in gap;
      FeedBlanks(lx, gap[1..]);
    }
  }

  ghost predicate IsGap(gap: string) {
    gap != "" && forall c :: c in gap ==> c in " \t\r\n"
  }

  lemma FeedGap(lx: Lexer, gap: string)
    requires Begun(lx) && IsGap(gap)
    ensures FeedAll(lx, gap) == Lexer(Between, [], false, lx.words + [lx.word])
  {
    assert gap[0] in gap && forall c :: c in gap[1..] ==> c in gap;
    FeedBlanks(Lexer(Between, [], false, lx.words + [lx.word]), gap[1..]);
  }

  lemma FeedWhole(done: seq<string>, w: Phrase)
    requires IsProperPhrase(w)
    ensures var r := FeedAll(Lexer(Between, [], false, done), Typed(w));
            Begun(r) && r.words == done && r.word == Meant(w)
  {
    FeedPhrase(Lexer(Between, [], false, done), w);
    assert [] + Meant(w) == Meant(w);
  }

  lemma FeedWholeAndGap(done: seq<string>, w: Phrase, gap: string, rest: string)
    requires IsProperPhrase(w) && IsGap(gap)
    ensures FeedAll(Lexer(Between, [], false, done), Typed(w) + gap + rest) ==
            FeedAll(Lexer(Between, [], false, done + [Meant(w)]), rest)
  {
    var lx := Lexer(Between, [], false, done);
    FeedWhole(done, w);
    FeedGap(FeedAll(lx, Typed(w)), gap);
    FeedAllAppends(lx, Typed(w) + gap, rest);
    FeedAllAppends(lx, Typed(w), gap);
  }

  ghost predicate EndsWith(r: Lexer, words: seq<string>) {
    Begun(r) && r.words + [r.word] == words
  }

  lemma Regroup<T>(a: seq<T>, x: T, b: seq<T>)
    ensures a + [x] + b == a + ([x] + b)
  {}

  lemma {:induction false} FeedLine(done: seq<string>, ws: seq<Phrase>, gap: string, line: string, words: seq<string>)
    requires ws != [] && IsGap(gap) && forall w :: w in ws ==> IsProperPhrase(w)
    requires line == TypedLine(ws, gap) && words == done + MeantLine(ws)
    ensures EndsWith(FeedAll(Lexer(Between, [], false, done), line), words)
    decreases |ws|
  {
    var w, rest := ws[0], ws[1..];
    assert w in ws;
    Regroup(done, Meant(w), MeantLine(rest));
    if |ws| == 1 {
      FeedWhole(done, w);
      assert done + [Meant(w)] + [] == done + [Meant(w)];
    } else {
      FeedWholeAndGap(done, w, gap, TypedLine(rest, gap));
      FeedLine(done + [Meant(w)], rest, gap, TypedLine(rest, gap), words);
    }
  }

  /** A line of well-formed words splits into what the words mean. */
  lemma LinesSplitIntoMeanings(ws: seq<Phrase>, gap: string)
    requires IsGap(gap) && forall w :: w in ws ==> IsProperPhrase(w)
    ensures Split(TypedLine(ws, gap)) == Some(MeantLine(ws))
  {
    if ws != [] {
      FeedLine([], ws, gap, TypedLine(ws, gap), [] + MeantLine(ws));
      assert [] + MeantLine(ws) == MeantLine(ws);
    }
  }

  /** Quotes in the middle of a word keep what stands before and behind them. */
  lemma QuoteInsideWord(u: string, w: string, v: string)
    requires '\'' !in w
    requires forall c :: c in u || c in v ==> c !in " \t\r\n\'\"\\"
    ensures Split(u + "'" + w + "'" + v) == Some([u + w + v])
  {
    var phrase := [Bare(u), Single(w), Bare(v)];
    assert IsProper(Bare(u)) && IsProper(Bare(v)) && Single(w) in phrase;
    QuotedPhrase(u, w, v);
    var ws := [phrase];
    assert ws[1..] == [];
    LinesSplitIntoMeanings(ws, " ");
    assert MeantLine(ws) == [Meant(phrase)] + [] == [Meant(phrase)];
  }

  lemma QuotedPhrase(u: string, w: string, v: string)
    ensures var phrase := [Bare(u), Single(w), Bare(v)];
            Typed(phrase) == u + "'" + w + "'" + v && Meant(phrase) == u + w + v
  {
    var phrase, two, one := [Bare(u), Single(w), Bare(v)], [Single(w), Bare(v)], [Bare(v)];
    assert phrase[1..] == two && two[1..] == one && one[1..] == [];
    assert Typed(one) == v + "" == v && Meant(one) == v + "" == v;
    assert Typed(two) == "'" + w + "'" + v && Meant(two) == w + v;
    assert u + ("'" + w + "'" + v) == u + "'" + w + "'" + v && u + (w + v) == u + w + v;
  }

  // ---- Errors ---------------------------------------------------------------------------------------------

  lemma FeedBehind(w: Phrase, q: char, rest: string) returns (lx: Lexer)
    requires forall p :: p in w ==> IsProper(p)
    ensures Ready(lx) && FeedAll(Lexer(Between, [], false, []), Typed(w) + ([q] + rest)) == FeedAll(Feed(lx, q), rest)
  {
    var start := Lexer(Between, [], false, []);
    FeedPhrase(start, w);
    lx := FeedAll(start, Typed(w));
    FeedAllAppends(start, Typed(w), [q] + rest);
    FeedAllAppends(lx, [q], rest);
    FeedOne(lx, q);
  }

  /** A quotation that is not closed is an error wherever it stands. */
  lemma UnclosedSingleFails(w: Phrase, text: string)
    requires (forall p :: p in w ==> IsProper(p)) && '\'' !in text
    ensures Split(Typed(w) + ("'" + text)) == None
  {
    var lx := FeedBehind(w, '\'', text);
    FeedQuoted(Feed(lx, '\''), text);
  }

  lemma UnclosedDoubleFails(w: Phrase, items: seq<InDouble>)
    requires (forall p :: p in w ==> IsProper(p)) && forall x :: x in items ==> IsProperItem(x)
    ensures Split(Typed(w) + ("\"" + TypedItems(items))) == None
  {
    var lx := FeedBehind(w, '"', TypedItems(items));
    FeedItems(Feed(lx, '"'), items, TypedItems(items), MeantItems(items));
  }

  /** So is a backslash at the end. */
  lemma TrailingBackslashFails(w: Phrase)
    requires forall p :: p in w ==> IsProper(p)
    ensures Split(Typed(w) + "\\") == None
  {
    var lx := FeedBehind(w, '\\', "");
    assert ['\\'] + "" == "\\";
  }

  /** The parser raises exactly on a lone dash and on a value before any option. */
  lemma ParserRaisesExactly(p: Parser, t: string)
    ensures ParseToken(p, t) == None <==> t == "-" || (p.name.None? && (t == "" || t[0] != '-'))
  {
    assert |t| == 1 && t[0] == '-' ==> t == "-";
  }
}
