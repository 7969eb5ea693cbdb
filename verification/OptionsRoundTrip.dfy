/** Which options survive being printed and parsed again, and other ways to write an option. */
module OptionsRoundTrip {
  import opened Basics
  import opened MongodOptions

  // ---- Printed options parse back -------------------------------------------------------------------------

  /** A word that splitting leaves alone. */
  ghost predicate IsPlain(w: string) {
    w != [] && forall c :: c in w ==> !IsBlank(c) && !IsQuote(c) && c != '\\'
  }

  /** The form and the name can be read off the word that joins them. */
  ghost predicate IsNamed(e: Entry) {
    && '=' !in e.name
    && (e.form == "--" || (e.form == "-" && e.name != [] && e.name[0] != '-'))
  }

  /** A value is a word of its own, which no option looks like and an unnamed option would not take. */
  ghost predicate HasReadableValue(e: Entry) {
    e.value.Some? ==> e.name != [] && e.value.value != [] && e.value.value[0] != '-'
  }

  ghost predicate IsPrintable(e: Entry) {
    && IsNamed(e) && HasReadableValue(e)
    && IsPlain(e.form + e.name)
    && (e.value.Some? ==> IsPlain(e.value.value))
  }

  lemma {:induction false} FeedAllAppends(lx: Lexer, a: string, b: string)
    ensures FeedAll(lx, a + b) == FeedAll(FeedAll(lx, a), b)
    decreases |a|
  {
    if a == [] {
      assert a + b == b;
    } else {
      assert (a + b)[1..] == a[1..] + b;
      FeedAllAppends(Feed(lx, a[0]), a[1..], b);
    }
  }

  lemma {:induction false} FeedPlain(lx: Lexer, w: string)
    requires lx.mode == Word && forall c :: c in w ==> !IsBlank(c) && !IsQuote(c) && c != '\\'
    ensures FeedAll(lx, w) == lx.(word := lx.word + w)
    decreases |w|
  {
    if w == [] {
      assert lx.word + w == lx.word;
    } else {
      assert w[0] in w && forall c :: c in w[1..] ==> c in w;
      FeedPlain(Feed(lx, w[0]), w[1..]);
      assert lx.word + [w[0]] + w[1..] == lx.word + w;
    }
  }

  /** The state of the splitter after reading `words`, the last of them still open. */
  ghost function Reading(words: seq<string>): Lexer {
    if words == [] then Lexer(Between, [], false, [])
    else Lexer(Word, words[|words| - 1], false, words[..|words| - 1])
  }

  lemma FeedWord(words: seq<string>, w: string)
    requires (forall v :: v in words ==> IsPlain(v)) && IsPlain(w)
    ensures FeedAll(Reading(words), " " + w) == Reading(words + [w])
  {
    var lx := Reading(words);
    assert words != [] ==> words[|words| - 1] in words && words == words[..|words| - 1] + [words[|words| - 1]];
    var between := Lexer(Between, [], false, words);
    assert Feed(lx, ' ') == between;
    assert (" " + w)[0] == ' ' && (" " + w)[1..] == w;
    assert w[0] in w;
    var begun := Lexer(Word, [w[0]], false, words);
    assert Feed(between, w[0]) == begun;
    assert forall c :: c in w[1..] ==> c in w;
    FeedPlain(begun, w[1..]);
    assert [w[0]] + w[1..] == w;
    assert (words + [w])[..|words|] == words;
  }

  /** Splitting spaced plain words gives back the words. */
  lemma {:induction false} FeedSpaced(words: seq<string>)
    requires forall w :: w in words ==> IsPlain(w)
    ensures FeedAll(Reading([]), Spaced(words)) == Reading(words)
    decreases |words|
  {
    if words != [] {
      var n := |words| - 1;
      FeedSpaced(words[..n]);
      FeedAllAppends(Reading([]), Spaced(words[..n]), " " + words[n]);
      assert Spaced(words[..n]) + " " + words[n] == Spaced(words[..n]) + (" " + words[n]);
      FeedWord(words[..n], words[n]);
      assert words[..n] + [words[n]] == words;
    }
  }

  lemma SplitSpaced(words: seq<string>)
    requires forall w :: w in words ==> IsPlain(w)
    ensures Split(Spaced(words)) == Some(words)
  {
    FeedSpaced(words);
    if words == [] {
      assert Reading([]).words + [] == [];
    } else {
      assert words[|words| - 1] in words;
      assert words == words[..|words| - 1] + [words[|words| - 1]];
    }
  }

  lemma {:induction false} WordsArePlain(options: Options)
    requires forall e :: e in options ==> IsPrintable(e)
    ensures forall w :: w in AllWords(options) ==> IsPlain(w)
    decreases |options|
  {
    if options != [] {
      var n := |options| - 1;
      assert options[n] in options;
      WordsArePlain(options[..n]);
    }
  }

  lemma {:induction false} PutNew(options: Options, e: Entry)
    requires forall i :: 0 <= i < |options| ==> options[i].name != e.name
    ensures Put(options, e) == options + [e]
  {
    if options != [] {
      PutNew(options[1..], e);
    }
  }

  lemma {:induction false} PutLast(options: Options, old': Entry, e: Entry)
    requires old'.name == e.name && forall i :: 0 <= i < |options| ==> options[i].name != e.name
    ensures Put(options + [old'], e) == options + [e]
  {
    var all := options + [old'];
    if options == [] {
      assert all[1..] == [];
    } else {
      assert all[1..] == options[1..] + [old'];
      PutLast(options[1..], old', e);
    }
  }

  /** The parser after it has read the words of `options`. */
  ghost predicate HasRead(p: Parser, options: Options) {
    && p.options == options
    && (options != [] ==> p.name == Some(options[|options| - 1].name) && p.form == options[|options| - 1].form)
  }

  lemma ParseFlag(p: Parser, e: Entry)
    requires IsNamed(e)
    ensures ParseToken(p, e.form + e.name) ==
            Some(Parser(Put(p.options, Entry(e.name, None, e.form)), Some(e.name), e.form))
  {
    var opt := e.form + e.name;
    assert '=' !in opt;
    assert opt[..|e.form|] == e.form && opt[|e.form|..] == e.name;
  }

  lemma ParseEntry(p: Parser, options: Options, e: Entry)
    requires HasRead(p, options) && IsPrintable(e)
    requires forall i :: 0 <= i < |options| ==> options[i].name != e.name
    ensures var q := ParseTokens(p, Words(e)); q.Some? && HasRead(q.value, options + [e])
  {
    var flag := Entry(e.name, None, e.form);
    ParseFlag(p, e);
    PutNew(options, flag);
    var q := Parser(options + [flag], Some(e.name), e.form);
    assert Words(e)[0] == e.form + e.name;
    if e.value.Some? {
      assert Words(e)[1..] == [e.value.value];
      PutLast(options, flag, e);
      var r := Parser(options + [e], Some(e.name), e.form);
      assert ParseToken(q, e.value.value) == Some(r);
      assert [e.value.value][1..] == [];
      assert ParseTokens(q, [e.value.value]) == ParseTokens(r, []) == Some(r);
    } else {
      assert Words(e)[1..] == [];
    }
  }

  lemma {:induction false} ParseTokensAppends(p: Parser, a: seq<string>, b: seq<string>)
    ensures ParseTokens(p, a + b) ==
            match ParseTokens(p, a)
            case None => None
            case Some(q) => ParseTokens(q, b)
    decreases |a|
  {
    if a == [] {
      assert a + b == b;
    } else {
      assert (a + b)[1..] == a[1..] + b;
      var q := ParseToken(p, a[0]);
      if q.Some? {
        ParseTokensAppends(q.value, a[1..], b);
      }
    }
  }

  lemma {:induction false} ParseWords(options: Options)
    requires NamesDistinct(options) && forall e :: e in options ==> IsPrintable(e)
    ensures var p := ParseTokens(START, AllWords(options)); p.Some? && HasRead(p.value, options)
    decreases |options|
  {
    if options != [] {
      var n := |options| - 1;
      var init, last := options[..n], options[n];
      assert last in options;
      ParseWords(init);
      var p := ParseTokens(START, AllWords(init)).value;
      ParseTokensAppends(START, AllWords(init), Words(last));
      ParseEntry(p, init, last);
      assert init + [last] == options;
    }
  }

  lemma PrintableOptionsParseBack(options: Options)
    requires NamesDistinct(options) && forall e :: e in options ==> IsPrintable(e)
    ensures Parsed(Spaced(AllWords(options))) == Some(options)
  {
    WordsArePlain(options);
    SplitSpaced(AllWords(options));
    ParseWords(options);
  }

  // ---- What splitting and parsing can lose ----------------------------------------------------------------

  /** A measure of text in which `=` weighs more than the blank that replaces it in print. */
  ghost function CharCost(c: char): nat {
    if c == '=' then 2 else 1
  }

  ghost function Cost(s: string): nat {
    if s == [] then 0 else Cost(s[..|s| - 1]) + CharCost(s[|s| - 1])
  }

  lemma {:induction false} CostAppends(a: string, b: string)
    ensures Cost(a + b) == Cost(a) + Cost(b)
    decreases |b|
  {
    if b == [] {
      assert a + b == a;
    } else {
      var n := |b| - 1;
      CostAppends(a, b[..n]);
      assert (a + b)[..|a + b| - 1] == a + b[..n];
    }
  }

  lemma CostOfOne(c: char)
    ensures Cost([c]) == CharCost(c)
  {
    assert [c][..0] == [];
  }

  /** Each word with the blank in front of it. */
  ghost function WordsCost(words: seq<string>): nat {
    if words == [] then 0 else WordsCost(words[..|words| - 1]) + Cost(words[|words| - 1]) + 1
  }

  lemma WordsCostGrows(words: seq<string>, w: string)
    ensures WordsCost(words + [w]) == WordsCost(words) + Cost(w) + 1
  {
    assert (words + [w])[..|words|] == words;
  }

  lemma {:induction false} WordsCostAppends(a: seq<string>, b: seq<string>)
    ensures WordsCost(a + b) == WordsCost(a) + WordsCost(b)
    decreases |b|
  {
    if b == [] {
      assert a + b == a;
    } else {
      var n := |b| - 1;
      WordsCostAppends(a, b[..n]);
      WordsCostGrows(a + b[..n], b[n]);
      assert a + b == a + b[..n] + [b[n]];
    }
  }

  lemma {:induction false} CostOfSpaced(words: seq<string>)
    ensures Cost(Spaced(words)) == WordsCost(words)
  {
    if words != [] {
      var n := |words| - 1;
      CostOfSpaced(words[..n]);
      CostAppends(Spaced(words[..n]) + " ", words[n]);
      CostAppends(Spaced(words[..n]), " ");
      CostOfOne(' ');
    }
  }

  lemma {:induction false} SpacedStartsBlank(words: seq<string>)
    requires words != []
    ensures Spaced(words) != [] && Spaced(words)[0] == ' '
  {
    var n := |words| - 1;
    if n == 0 {
      assert Spaced(words[..0]) == [];
    } else {
      SpacedStartsBlank(words[..n]);
    }
  }

  /** What the splitter has made of the text so far; a backslash inside quotes may still be kept. */
  ghost function Weight(lx: Lexer): nat {
    WordsCost(lx.words) + Cost(lx.word) + if lx.mode.Escaped? && lx.mode.back.Quoted? then 1 else 0
  }

  ghost predicate Sound(lx: Lexer) {
    lx.mode.Escaped? ==> !lx.mode.back.Escaped?
  }

  lemma CostGrows(s: string, c: char)
    ensures Cost(s + [c]) == Cost(s) + CharCost(c)
  {
    assert (s + [c])[..|s|] == s;
  }

  lemma WordCost(lx: Lexer, c: char)
    requires lx.mode == Word
    ensures Weight(Feed(lx, c)) <= Weight(lx) + CharCost(c)
  {
    if IsBlank(c) {
      WordsCostGrows(lx.words, lx.word);
      assert Cost([]) == 0;
    } else if c != '\\' && !IsQuote(c) {
      CostGrows(lx.word, c);
      assert Feed(lx, c) == lx.(word := lx.word + [c]);
    }
  }

  lemma BetweenCost(lx: Lexer, c: char)
    requires lx.mode == Between
    ensures Weight(Feed(lx, c)) <= Weight(lx) + CharCost(c)
  {
    CostOfOne(c);
  }

  lemma QuotedCost(lx: Lexer, c: char)
    requires lx.mode.Quoted?
    ensures Weight(Feed(lx, c)) <= Weight(lx) + CharCost(c)
  {
    CostGrows(lx.word, c);
  }

  lemma FeedCost(lx: Lexer, c: char)
    requires Sound(lx)
    ensures Sound(Feed(lx, c)) && Weight(Feed(lx, c)) <= Weight(lx) + CharCost(c)
  {
    match lx.mode
    case Between =>
      BetweenCost(lx, c);
    case Word =>
      WordCost(lx, c);
    case Quoted(_) =>
      QuotedCost(lx, c);
    case Escaped(_) =>
      EscapedCost(lx, c);
  }

  lemma EscapedCost(lx: Lexer, c: char)
    requires lx.mode.Escaped? && Sound(lx)
    ensures Weight(Feed(lx, c)) <= Weight(lx) + CharCost(c)
  {
    var kept := lx.word + ['\\'];
    CostGrows(lx.word, '\\');
    CostGrows(kept, c);
    CostGrows(lx.word, c);
    assert lx.word + [] + [c] == lx.word + [c];
  }

  /** Nothing but plain words so far. */
  ghost predicate IsPlainLexer(lx: Lexer) {
    && ((lx.mode == Between && lx.word == []) || (lx.mode == Word && IsPlain(lx.word)))
    && !lx.quoted
    && forall w :: w in lx.words ==> IsPlain(w)
  }

  lemma LosslessBetween(lx: Lexer, c: char)
    requires IsPlainLexer(lx) && lx.mode == Between && Weight(Feed(lx, c)) == Weight(lx) + CharCost(c)
    ensures IsPlainLexer(Feed(lx, c))
  {
    assert !IsBlank(c) && !IsQuote(c) && c != '\\';
    assert Feed(lx, c) == lx.(mode := Word, word := [c]);
  }

  lemma LosslessWord(lx: Lexer, c: char)
    requires IsPlainLexer(lx) && lx.mode == Word && Weight(Feed(lx, c)) == Weight(lx) + CharCost(c)
    ensures IsPlainLexer(Feed(lx, c))
  {
    assert !IsQuote(c) && c != '\\';
    if !IsBlank(c) {
      assert Feed(lx, c) == lx.(word := lx.word + [c]);
    }
  }

  /** A step that loses nothing keeps to plain words: quotes, escapes and further blanks are lost. */
  lemma LosslessFeed(lx: Lexer, c: char)
    requires IsPlainLexer(lx) && Weight(Feed(lx, c)) == Weight(lx) + CharCost(c)
    ensures IsPlainLexer(Feed(lx, c))
  {
    if lx.mode == Between {
      LosslessBetween(lx, c);
    } else {
      LosslessWord(lx, c);
    }
  }

  lemma {:induction false} FeedAllCost(lx: Lexer, s: string)
    requires Sound(lx)
    ensures Weight(FeedAll(lx, s)) <= Weight(lx) + Cost(s)
    ensures IsPlainLexer(lx) && Weight(FeedAll(lx, s)) == Weight(lx) + Cost(s) ==> IsPlainLexer(FeedAll(lx, s))
    decreases |s|
  {
    if s != [] {
      FeedCost(lx, s[0]);
      FeedAllCost(Feed(lx, s[0]), s[1..]);
      CostOfOne(s[0]);
      CostAppends([s[0]], s[1..]);
      assert s == [s[0]] + s[1..];
      if IsPlainLexer(lx) && Weight(Feed(lx, s[0])) == Weight(lx) + CharCost(s[0]) {
        LosslessFeed(lx, s[0]);
      }
    }
  }

  lemma CostBehindBlank(s: string)
    requires s != [] && s[0] == ' '
    ensures Cost(s) == 1 + Cost(s[1..])
  {
    CostOfOne(' ');
    CostAppends([' '], s[1..]);
    assert s == [' '] + s[1..];
  }

  ghost function WordsAtEnd(lx: Lexer): seq<string> {
    lx.words + if lx.word != [] || lx.quoted then [lx.word] else []
  }

  lemma EndCost(lx: Lexer)
    requires !lx.mode.Escaped?
    ensures WordsCost(WordsAtEnd(lx)) <= Weight(lx) + 1
    ensures IsPlainLexer(lx) ==> forall w :: w in WordsAtEnd(lx) ==> IsPlain(w)
  {
    WordsCostGrows(lx.words, lx.word);
    assert lx.words + [] == lx.words;
  }

  /** The words of a text that starts with a blank cost no more than the text, and as much only if all are plain. */
  lemma SplitCost(s: string)
    requires s != [] && s[0] == ' ' && Split(s).Some?
    ensures WordsCost(Split(s).value) <= Cost(s)
    ensures WordsCost(Split(s).value) == Cost(s) ==> forall w :: w in Split(s).value ==> IsPlain(w)
  {
    var start := Lexer(Between, [], false, []);
    var end := FeedAll(start, s);
    assert end == FeedAll(start, s[1..]) && Split(s) == Some(WordsAtEnd(end));
    CostBehindBlank(s);
    FeedAllCost(start, s[1..]);
    EndCost(end);
  }

  /** Spaced words split back if and only if all of them are plain. */
  lemma SplitSpacedExactly(words: seq<string>)
    ensures Split(Spaced(words)) == Some(words) <==> forall w :: w in words ==> IsPlain(w)
  {
    if forall w :: w in words ==> IsPlain(w) {
      SplitSpaced(words);
    } else if Split(Spaced(words)) == Some(words) {
      CostOfSpaced(words);
      SpacedStartsBlank(words);
      SplitCost(Spaced(words));
    }
  }

  // ---- Options that do not parse back ---------------------------------------------------------------------

  ghost function EntryCost(e: Entry): nat {
    WordsCost(Words(e))
  }

  ghost function ValueCost(value: Option<string>): nat {
    if value.Some? && value.value != [] then Cost(value.value) + 1 else 0
  }

  lemma EntryCostParts(e: Entry)
    ensures EntryCost(e) == Cost(e.form + e.name) + 1 + ValueCost(e.value)
  {
    var flag := e.form + e.name;
    WordsCostGrows([], flag);
    assert [] + [flag] == [flag];
    if e.value.Some? && e.value.value != [] {
      WordsCostGrows([flag], e.value.value);
    } else {
      assert Words(e) == [flag];
    }
  }

  ghost function OptionsCost(options: Options): nat {
    if options == [] then 0 else EntryCost(options[0]) + OptionsCost(options[1..])
  }

  lemma {:induction false} OptionsCostGrows(options: Options, e: Entry)
    ensures OptionsCost(options + [e]) == OptionsCost(options) + EntryCost(e)
  {
    if options == [] {
      assert [e][1..] == [];
      assert options + [e] == [e];
    } else {
      OptionsCostGrows(options[1..], e);
      assert (options + [e])[1..] == options[1..] + [e];
    }
  }

  lemma {:induction false} OptionsCostOfWords(options: Options)
    ensures WordsCost(AllWords(options)) == OptionsCost(options)
    decreases |options|
  {
    if options != [] {
      var n := |options| - 1;
      OptionsCostOfWords(options[..n]);
      WordsCostAppends(AllWords(options[..n]), Words(options[n]));
      OptionsCostGrows(options[..n], options[n]);
      assert options[..n] + [options[n]] == options;
    }
  }

  lemma {:induction false} PutCost(options: Options, e: Entry)
    ensures var old' := Lookup(options, e.name);
            OptionsCost(Put(options, e)) + (if old'.Some? then EntryCost(old'.value) else 0) ==
            OptionsCost(options) + EntryCost(e)
  {
    if options == [] {
      assert [e][1..] == [];
    } else {
      var put := Put(options, e);
      if options[0].name == e.name {
        assert put[1..] == options[1..];
      } else {
        PutCost(options[1..], e);
        assert put[1..] == Put(options[1..], e);
      }
    }
  }

  /** The option that a bare word would set is there, in the form it was given. */
  ghost predicate Current(p: Parser) {
    p.name.Some? && p.name.value != [] ==>
      var e := Lookup(p.options, p.name.value); e.Some? && e.value.form == p.form && e.value.name == p.name.value
  }

  ghost predicate IsBare(t: string) {
    t == [] || t[0] != '-'
  }

  lemma FlagCost(p: Parser, t: string)
    requires !IsBare(t) && '=' !in t && |t| > 1
    ensures var idx := if t[1] == '-' then 2 else 1;
            var e := Entry(t[idx..], None, t[..idx]);
            && ParseToken(p, t) == Some(Parser(Put(p.options, e), Some(e.name), e.form))
            && e.form + e.name == t && EntryCost(e) == Cost(t) + 1
  {
    var idx := if t[1] == '-' then 2 else 1;
    assert t[..idx] + t[idx..] == t;
    assert Find(t, '=').None?;
    EntryCostParts(Entry(t[idx..], None, t[..idx]));
  }

  lemma AssignmentParses(p: Parser, t: string) returns (idx: nat, eq: nat)
    requires !IsBare(t) && '=' in t && |t| > 1
    ensures idx <= eq < |t| && t[eq] == '='
    ensures ParseToken(p, t) ==
            Some(Parser(Put(p.options, Entry(t[idx..eq], Some(t[eq + 1..]), t[..idx])), Some([]), t[..idx]))
  {
    idx := if t[1] == '-' then 2 else 1;
    eq := Find(t, '=').value;
    assert t[eq] == '=';
  }

  lemma AssignmentCost(p: Parser, t: string)
    requires !IsBare(t) && '=' in t && |t| > 1
    ensures var q := ParseToken(p, t);
            q.Some? && q.value.name == Some([]) && OptionsCost(q.value.options) < OptionsCost(p.options) + Cost(t) + 1
  {
    var idx, eq := AssignmentParses(p, t);
    AssignmentEntryCost(t, idx, eq);
    PutCost(p.options, Entry(t[idx..eq], Some(t[eq + 1..]), t[..idx]));
  }

  lemma AssignmentEntryCost(t: string, idx: nat, eq: nat)
    requires idx <= eq < |t| && t[eq] == '='
    ensures EntryCost(Entry(t[idx..eq], Some(t[eq + 1..]), t[..idx])) <= Cost(t)
  {
    EntryCostParts(Entry(t[idx..eq], Some(t[eq + 1..]), t[..idx]));
    assert t[..idx] + t[idx..eq] == t[..eq];
    CostAround(t, eq);
  }

  lemma CostAround(t: string, eq: nat)
    requires eq < |t|
    ensures Cost(t) == Cost(t[..eq]) + CharCost(t[eq]) + Cost(t[eq + 1..])
  {
    CostGrows(t[..eq], t[eq]);
    CostAppends(t[..eq] + [t[eq]], t[eq + 1..]);
    SplitAround(t, eq);
  }

  /** A word adds at most its own cost to the options. */
  lemma ParseTokenCost(p: Parser, t: string)
    requires Current(p) && ParseToken(p, t).Some?
    ensures var q := ParseToken(p, t).value;
            Current(q) && OptionsCost(q.options) <= OptionsCost(p.options) + Cost(t) + 1
  {
    if IsBare(t) {
      if p.name.value != [] {
        var e := Entry(p.name.value, Some(t), p.form);
        PutSets(p.options, e);
        PutCost(p.options, e);
        EntryCostParts(e);
        EntryCostParts(Lookup(p.options, e.name).value);
      }
    } else if '=' in t {
      AssignmentCost(p, t);
    } else {
      FlagCost(p, t);
      var e := Entry(ParseToken(p, t).value.name.value, None, ParseToken(p, t).value.form);
      PutCost(p.options, e);
      PutSets(p.options, e);
    }
  }

  /** The parser has read exactly the words that its options print as. */
  ghost predicate HasReadAll(p: Parser, words: seq<string>) {
    && HasRead(p, p.options) && (p.options == [] ==> p.name.None?)
    && NamesDistinct(p.options) && AllWords(p.options) == words
    && forall e :: e in p.options ==> IsNamed(e) && HasReadableValue(e)
  }

  lemma ReadsFlag(p: Parser, words: seq<string>, e: Entry, t: string)
    requires HasReadAll(p, words) && IsNamed(e) && e.value.None? && e.form + e.name == t
    requires Lookup(p.options, e.name).None?
    ensures HasReadAll(Parser(p.options + [e], Some(e.name), e.form), words + [t])
  {
    var after := p.options + [e];
    LookupFinds(p.options, e.name);
    assert after[..|p.options|] == p.options;
    assert Words(e) == [t];
    assert AllWords(after) == words + [t];
  }

  lemma LosslessFlag(p: Parser, words: seq<string>, t: string)
    requires HasReadAll(p, words) && !IsBare(t) && '=' !in t && |t| > 1
    requires ParseToken(p, t).Some?
    requires OptionsCost(ParseToken(p, t).value.options) == OptionsCost(p.options) + Cost(t) + 1
    ensures HasReadAll(ParseToken(p, t).value, words + [t])
  {
    var idx := if t[1] == '-' then 2 else 1;
    var e := Entry(t[idx..], None, t[..idx]);
    FlagCost(p, t);
    PutCost(p.options, e);
    var old' := Lookup(p.options, e.name);
    assert old'.None? by {
      if old'.Some? {
        EntryCostParts(old'.value);
      }
    }
    LookupFinds(p.options, e.name);
    PutNew(p.options, e);
    ReadsFlag(p, words, e, t);
  }

  lemma {:induction false} LookupLast(options: Options)
    requires options != [] && NamesDistinct(options)
    ensures Lookup(options, options[|options| - 1].name) == Some(options[|options| - 1])
  {
    if |options| > 1 {
      LookupLast(options[1..]);
      assert options[1..][|options| - 2] == options[|options| - 1];
    }
  }

  lemma ReadsValue(p: Parser, words: seq<string>, init: Options, last: Entry, t: string)
    requires HasReadAll(p, words) && p.options == init + [last]
    requires last.value.None? && last.name != [] && t != [] && IsBare(t)
    ensures HasReadAll(p.(options := init + [last.(value := Some(t))]), words + [t])
  {
    var e := last.(value := Some(t));
    var after := init + [e];
    assert after[..|init|] == init && p.options[..|init|] == init && last in p.options;
    assert Words(e) == Words(last) + [t];
    assert AllWords(init) + (Words(last) + [t]) == AllWords(init) + Words(last) + [t];
  }

  /** Only a first, non-empty value adds its whole cost. */
  lemma ValueIsFirst(options: Options, last: Entry, t: string)
    requires Lookup(options, last.name) == Some(last)
    requires OptionsCost(Put(options, last.(value := Some(t)))) == OptionsCost(options) + Cost(t) + 1
    ensures t != [] && ValueCost(last.value) == 0
  {
    PutCost(options, last.(value := Some(t)));
    EntryCostParts(last.(value := Some(t)));
    EntryCostParts(last);
  }

  lemma LastRead(p: Parser, words: seq<string>)
    requires HasReadAll(p, words) && p.name.Some?
    ensures p.options != []
    ensures var last := p.options[|p.options| - 1];
            && p.name == Some(last.name) && p.form == last.form && HasReadableValue(last)
            && Lookup(p.options, last.name) == Some(last)
  {
    LookupLast(p.options);
    assert p.options[|p.options| - 1] in p.options;
  }

  lemma PutAtLast(options: Options, e: Entry)
    requires options != [] && NamesDistinct(options) && options[|options| - 1].name == e.name
    ensures Put(options, e) == options[..|options| - 1] + [e]
  {
    var n := |options| - 1;
    assert options == options[..n] + [options[n]];
    PutLast(options[..n], options[n], e);
  }

  lemma LosslessValue(p: Parser, words: seq<string>, t: string)
    requires HasReadAll(p, words) && IsBare(t) && p.name.Some? && p.name.value != []
    requires OptionsCost(ParseToken(p, t).value.options) == OptionsCost(p.options) + Cost(t) + 1
    ensures HasReadAll(ParseToken(p, t).value, words + [t])
  {
    var n := |p.options| - 1;
    LastRead(p, words);
    var init, last := p.options[..n], p.options[n];
    var e := last.(value := Some(t));
    assert ParseToken(p, t) == Some(p.(options := Put(p.options, e)));
    ValueIsFirst(p.options, last, t);
    PutAtLast(p.options, e);
    assert p.options == init + [last];
    ReadsValue(p, words, init, last, t);
  }

  lemma LosslessToken(p: Parser, words: seq<string>, t: string)
    requires HasReadAll(p, words) && ParseToken(p, t).Some?
    requires OptionsCost(ParseToken(p, t).value.options) == OptionsCost(p.options) + Cost(t) + 1
    ensures HasReadAll(ParseToken(p, t).value, words + [t])
  {
    if IsBare(t) {
      LosslessValue(p, words, t);
    } else if '=' in t {
      AssignmentCost(p, t);
    } else {
      LosslessFlag(p, words, t);
    }
  }

  lemma AppendFirst<T>(a: seq<T>, b: seq<T>)
    requires b != []
    ensures a + [b[0]] + b[1..] == a + b
  {}

  lemma WordsCostFront(ts: seq<string>)
    requires ts != []
    ensures WordsCost(ts) == Cost(ts[0]) + 1 + WordsCost(ts[1..])
  {
    WordsCostGrows([], ts[0]);
    WordsCostAppends([ts[0]], ts[1..]);
    assert [] + [ts[0]] == [ts[0]] && [ts[0]] + ts[1..] == ts;
  }

  lemma {:induction false} ParseTokensCost(p: Parser, ts: seq<string>)
    requires Current(p) && ParseTokens(p, ts).Some?
    ensures OptionsCost(ParseTokens(p, ts).value.options) <= OptionsCost(p.options) + WordsCost(ts)
    decreases |ts|
  {
    if ts != [] {
      WordsCostFront(ts);
      ParseTokenCost(p, ts[0]);
      ParseTokensCost(ParseToken(p, ts[0]).value, ts[1..]);
    }
  }

  /** If all words together add their whole cost, so do the first one and the others. */
  lemma WholeCostSplits(p: Parser, ts: seq<string>)
    requires ts != [] && Current(p) && ParseTokens(p, ts).Some?
    requires OptionsCost(ParseTokens(p, ts).value.options) == OptionsCost(p.options) + WordsCost(ts)
    ensures var q := ParseToken(p, ts[0]);
            && q.Some? && Current(q.value) && ParseTokens(p, ts) == ParseTokens(q.value, ts[1..])
            && OptionsCost(q.value.options) == OptionsCost(p.options) + Cost(ts[0]) + 1
            && OptionsCost(ParseTokens(p, ts).value.options) == OptionsCost(q.value.options) + WordsCost(ts[1..])
  {
    WordsCostFront(ts);
    ParseTokenCost(p, ts[0]);
    ParseTokensCost(ParseToken(p, ts[0]).value, ts[1..]);
  }

  /** Words that add their whole cost are read as the words their options print as. */
  lemma {:induction false} LosslessTokens(p: Parser, words: seq<string>, ts: seq<string>)
    requires Current(p) && HasReadAll(p, words) && ParseTokens(p, ts).Some?
    requires OptionsCost(ParseTokens(p, ts).value.options) == OptionsCost(p.options) + WordsCost(ts)
    ensures HasReadAll(ParseTokens(p, ts).value, words + ts)
    decreases |ts|
  {
    if ts == [] {
      assert words + ts == words;
    } else {
      WholeCostSplits(p, ts);
      LosslessToken(p, words, ts[0]);
      LosslessTokens(ParseToken(p, ts[0]).value, words + [ts[0]], ts[1..]);
      AppendFirst(words, ts);
    }
  }

  lemma {:induction false} EntryWordsArePrinted(options: Options, e: Entry)
    requires e in options
    ensures forall w :: w in Words(e) ==> w in AllWords(options)
    decreases |options|
  {
    var n := |options| - 1;
    if e != options[n] {
      assert options == options[..n] + [options[n]];
      EntryWordsArePrinted(options[..n], e);
    }
  }

  lemma StartHasReadNothing()
    ensures Current(START) && HasReadAll(START, []) && OptionsCost(START.options) == 0
  {}

  /** If printed options parse back, splitting and parsing have lost nothing. */
  lemma ParsedBackReadsAll(options: Options, read: seq<string>, q: Parser)
    requires options != [] && Split(Spaced(AllWords(options))) == Some(read)
    requires ParseTokens(START, read) == Some(q) && q.options == options
    ensures read == AllWords(options) && HasReadAll(q, read)
  {
    var words := AllWords(options);
    assert WordsCost(read) <= OptionsCost(options) by {
      CostOfSpaced(words);
      OptionsCostOfWords(options);
      SpacedStartsBlank(words);
      SplitCost(Spaced(words));
    }
    StartHasReadNothing();
    ParseTokensCost(START, read);
    LosslessTokens(START, [], read);
    assert [] + read == read;
  }

  lemma ParsedBackIsPrintable(options: Options)
    requires Parsed(Spaced(AllWords(options))) == Some(options)
    ensures NamesDistinct(options) && forall e :: e in options ==> IsPrintable(e)
  {
    if options != [] {
      var read := Split(Spaced(AllWords(options))).value;
      ParsedBackReadsAll(options, read, ParseTokens(START, read).value);
      SplitSpacedExactly(AllWords(options));
      forall e | e in options ensures IsPrintable(e) {
        EntryWordsArePrinted(options, e);
        assert Words(e)[0] == e.form + e.name && Words(e)[0] in Words(e);
        assert e.value.Some? ==> Words(e)[1] == e.value.value && Words(e)[1] in Words(e);
      }
    }
  }

  /** Parsing what was printed gives the same options in the same order if and only if names are distinct and every
      entry is printable. */
  lemma PrintedOptionsParseBack(options: Options)
    ensures Parsed(Spaced(AllWords(options))) == Some(options) <==>
            NamesDistinct(options) && forall e :: e in options ==> IsPrintable(e)
  {
    if Parsed(Spaced(AllWords(options))) == Some(options) {
      ParsedBackIsPrintable(options);
    } else if NamesDistinct(options) && forall e :: e in options ==> IsPrintable(e) {
      PrintableOptionsParseBack(options);
    }
  }

  // ---- Other ways to write an option ----------------------------------------------------------------------

  lemma {:induction false} FindFirst(before: string, c: char, after: string)
    requires c !in before
    ensures Find(before + [c] + after, c) == Some(|before|)
    decreases |before|
  {
    var s := before + [c] + after;
    if before == [] {
      assert s[0] == c;
    } else {
      assert s[0] == before[0] && s[0] in before;
      FindFirst(before[1..], c, after);
      assert s[1..] == before[1..] + [c] + after;
    }
  }

  lemma ParseAssignment(p: Parser, e: Entry, value: string)
    requires IsNamed(e)
    ensures ParseToken(p, e.form + e.name + "=" + value) ==
            Some(Parser(Put(p.options, Entry(e.name, Some(value), e.form)), Some([]), e.form))
  {
    var opt := e.form + e.name + "=" + value;
    var flag := e.form + e.name;
    FindFirst(flag, '=', value);
    assert opt == flag + ['='] + value;
    assert opt[..|flag|] == flag && opt[|flag| + 1..] == value;
    assert opt[..|e.form|] == flag[..|e.form|] == e.form;
    assert opt[|e.form|..|flag|] == flag[|e.form|..] == e.name;
  }

  /** A later entry of the same name replaces the earlier one where it stands. */
  lemma {:induction false} PutReplaces(options: Options, first: Entry, second: Entry)
    requires first.name == second.name
    ensures Put(Put(options, first), second) == Put(options, second)
    decreases |options|
  {
    if options != [] && options[0].name != first.name {
      PutReplaces(options[1..], first, second);
      assert Put(options, first)[1..] == Put(options[1..], first);
    }
  }

  /** `--name=value` sets what `--name value` sets, but a further bare word is then ignored, not taken as the value. */
  lemma AssignmentIsTwoWords(p: Parser, e: Entry, value: string, more: string)
    requires IsNamed(e) && e.name != []
    requires (value == [] || value[0] != '-') && (more == [] || more[0] != '-')
    ensures var q := ParseToken(p, e.form + e.name + "=" + value);
            var r := ParseTokens(p, [e.form + e.name, value]);
            && q.Some? && r.Some? && q.value.options == r.value.options
            && q.value.options == Put(p.options, Entry(e.name, Some(value), e.form))
            && ParseToken(q.value, more) == q
            && ParseToken(r.value, more) ==
               Some(r.value.(options := Put(p.options, Entry(e.name, Some(more), e.form))))
  {
    var flag, set' := Entry(e.name, None, e.form), Entry(e.name, Some(value), e.form);
    ParseAssignment(p, e, value);
    ParseFlag(p, e);
    PutReplaces(p.options, flag, set');
    PutReplaces(p.options, set', Entry(e.name, Some(more), e.form));
    var words := [e.form + e.name, value];
    assert words[1..] == [value] && words[1..][1..] == [];
    var r := Parser(Put(p.options, set'), Some(e.name), e.form);
    assert ParseTokens(p, words) == ParseTokens(r, []) == Some(r);
  }

  lemma {:induction false} FeedQuoted(lx: Lexer, w: string)
    requires lx.mode == Quoted('\'') && '\'' !in w
    ensures FeedAll(lx, w) == lx.(word := lx.word + w)
    decreases |w|
  {
    if w == [] {
      assert lx.word + w == lx.word;
    } else {
      assert w[0] in w && forall c :: c in w[1..] ==> c in w;
      FeedQuoted(Feed(lx, w[0]), w[1..]);
      assert lx.word + [w[0]] + w[1..] == lx.word + w;
    }
  }

  /** Single quotes keep any text together as one word, blanks and backslashes included. */
  lemma QuotesKeepWords(w: string)
    requires '\'' !in w
    ensures Split("'" + w + "'") == Some([w])
  {
    var s := "'" + w + "'";
    var start := Lexer(Between, [], false, []);
    var open := Lexer(Quoted('\''), [], true, []);
    assert s[0] == '\'' && s[1..] == w + "'";
    assert FeedAll(start, s) == FeedAll(open, w + "'");
    FeedAllAppends(open, w, "'");
    FeedQuoted(open, w);
    assert [] + w == w;
    var closing := "'";
    assert closing[0] == '\'' && closing[1..] == [];
    var closed := Lexer(Word, w, true, []);
    assert Feed(open.(word := w), '\'') == closed;
    assert FeedAll(open.(word := w), closing) == FeedAll(closed, []) == closed;
    assert closed.words + [w] == [w];
  }
}
