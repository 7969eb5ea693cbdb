/** powertest's option parser and printer, with the shell-like splitting in between. */
module MongodOptions {
  import opened Basics

  // ---- shlex.split in POSIX mode -------------------------------------------------------------------------

  predicate IsBlank(c: char) {
    c == ' ' || c == '\t' || c == '\r' || c == '\n'
  }

  predicate IsQuote(c: char) {
    c == '\'' || c == '"'
  }

  /** Between words, inside a word, inside quotes, or just after a backslash. */
  datatype Mode = Between | Word | Quoted(quote: char) | Escaped(back: Mode)

  /** `word` is the word being read; `quoted` says that it has had a quoted part. */
  datatype Lexer = Lexer(mode: Mode, word: string, quoted: bool, words: seq<string>)

  function Feed(lx: Lexer, c: char): Lexer {
    match lx.mode
    case Between =>
      if IsBlank(c) then lx
      else if c == '\\' then lx.(mode := Escaped(Word))
      else if IsQuote(c) then lx.(mode := Quoted(c), quoted := true)
      else lx.(mode := Word, word := [c])
    case Word =>
      if IsBlank(c) then
        if lx.word != [] || lx.quoted then Lexer(Between, [], false, lx.words + [lx.word]) else lx.(mode := Between)
      else if c == '\\' then lx.(mode := Escaped(Word))
      else if IsQuote(c) then lx.(mode := Quoted(c), quoted := true)
      else lx.(word := lx.word + [c])
    case Quoted(q) =>
      if c == q then lx.(mode := Word)
      else if c == '\\' && q == '"' then lx.(mode := Escaped(Quoted(q)))
      else lx.(word := lx.word + [c])
    case Escaped(back) =>
      var kept := if back.Quoted? && c != '\\' && c != back.quote then ['\\'] else [];
      lx.(mode := back, word := lx.word + kept + [c])
  }

  function FeedAll(lx: Lexer, s: string): Lexer
    decreases |s|
  {
    if s == [] then lx else FeedAll(Feed(lx, s[0]), s[1..])
  }

  /** None for an unclosed quotation or a trailing backslash. */
  function Split(s: string): Option<seq<string>> {
    var lx := FeedAll(Lexer(Between, [], false, []), s);
    if lx.mode.Quoted? || lx.mode.Escaped? then None
    else Some(lx.words + if lx.word != [] || lx.quoted then [lx.word] else [])
  }

  // ---- Options --------------------------------------------------------------------------------------------

  /** A dictionary entry: option name, value (if any) and the form "-" or "--". */
  datatype Entry = Entry(name: string, value: Option<string>, form: string)

  /** A Python dictionary: entries with distinct names, in order of insertion. */
  type Options = seq<Entry>

  function Put(options: Options, e: Entry): Options {
    if options == [] then [e]
    else if options[0].name == e.name then [e] + options[1..]
    else [options[0]] + Put(options[1..], e)
  }

  function Lookup(options: Options, name: string): Option<Entry> {
    if options == [] then None
    else if options[0].name == name then Some(options[0])
    else Lookup(options[1..], name)
  }

  function Names(options: Options): seq<string> {
    if options == [] then [] else [options[0].name] + Names(options[1..])
  }

  ghost predicate NamesDistinct(options: Options) {
    forall i, j :: 0 <= i < j < |options| ==> options[i].name != options[j].name
  }

  /** Putting an entry sets its name, leaves the other names alone and keeps the order, a new name coming last. */
  lemma {:induction false} PutSets(options: Options, e: Entry)
    ensures Lookup(Put(options, e), e.name) == Some(e)
    ensures forall name :: name != e.name ==> Lookup(Put(options, e), name) == Lookup(options, name)
    ensures Names(Put(options, e)) == Names(options) + if Lookup(options, e.name).None? then [e.name] else []
  {
    if options != [] {
      var put := Put(options, e);
      if options[0].name == e.name {
        assert put[1..] == options[1..];
      } else {
        PutSets(options[1..], e);
        assert put[1..] == Put(options[1..], e);
      }
    }
  }

  lemma {:induction false} LookupFinds(options: Options, name: string)
    ensures Lookup(options, name).None? <==> forall i :: 0 <= i < |options| ==> options[i].name != name
  {
    if options != [] {
      LookupFinds(options[1..], name);
      assert forall i :: 0 < i < |options| ==> options[i] == options[1..][i - 1];
    }
  }

  lemma {:induction false} PutKeepsDistinct(options: Options, e: Entry)
    requires NamesDistinct(options)
    ensures NamesDistinct(Put(options, e))
  {
    if options != [] && options[0].name != e.name {
      var first, rest := options[0], Put(options[1..], e);
      PutKeepsDistinct(options[1..], e);
      LookupFinds(options[1..], first.name);
      PutSets(options[1..], e);
      LookupFinds(rest, first.name);
    }
  }

  /** `s.find(c)`, with None for -1. */
  function Find(s: string, c: char): (r: Option<nat>)
    ensures r.None? ==> c !in s
    ensures r.Some? ==> r.value < |s| && s[r.value] == c && c !in s[..r.value]
  {
    if s == [] then None
    else if s[0] == c then Some(0)
    else
      var r := Find(s[1..], c);
      assert s == [s[0]] + s[1..];
      if r.None? then None
      else
        assert s[..r.value + 1] == [s[0]] + s[1..][..r.value];
        Some(r.value + 1)
  }

  /** The loop variables of the parser; `name` is None while unbound, and "" stands for a cleared name. */
  datatype Parser = Parser(options: Options, name: Option<string>, form: string)

  /** None when the program raises: on a lone "-", or on a value before any option. */
  function ParseToken(p: Parser, opt: string): Option<Parser> {
    if opt != [] && opt[0] == '-' then
      if |opt| == 1 then None
      else
        var idx := if opt[1] == '-' then 2 else 1;
        var form := opt[..idx];
        match Find(opt, '=')
        case None => Some(Parser(Put(p.options, Entry(opt[idx..], None, form)), Some(opt[idx..]), form))
        case Some(eq) =>
          assert opt[eq] == '=';
          Some(Parser(Put(p.options, Entry(opt[idx..eq], Some(opt[eq + 1..]), form)), Some([]), form))
    else if p.name.None? then None
    else if p.name.value == [] then Some(p)
    else Some(p.(options := Put(p.options, Entry(p.name.value, Some(opt), p.form))))
  }

  function ParseTokens(p: Parser, opts: seq<string>): Option<Parser>
    decreases |opts|
  {
    if opts == [] then Some(p)
    else
      match ParseToken(p, opts[0])
      case None => None
      case Some(q) => ParseTokens(q, opts[1..])
  }

  const START := Parser([], None, [])

  /** The options of a command line; None for any error on the way. */
  function Parsed(line: string): Option<Options> {
    match Split(line)
    case None => None
    case Some(opts) =>
      match ParseTokens(START, opts)
      case None => None
      case Some(p) => Some(p.options)
  }

  lemma {:induction false} ParseTokensKeepDistinct(p: Parser, opts: seq<string>)
    requires NamesDistinct(p.options)
    ensures var q := ParseTokens(p, opts); q.Some? ==> NamesDistinct(q.value.options)
    decreases |opts|
  {
    if opts != [] {
      var q := ParseToken(p, opts[0]);
      if q.Some? {
        ParseTokenPuts(p, opts[0]);
        ParseTokensKeepDistinct(q.value, opts[1..]);
      }
    }
  }

  lemma ParseTokenPuts(p: Parser, opt: string)
    requires NamesDistinct(p.options) && ParseToken(p, opt).Some?
    ensures NamesDistinct(ParseToken(p, opt).value.options)
  {
    var options := ParseToken(p, opt).value.options;
    if options != p.options {
      var e :| options == Put(p.options, e);
      PutKeepsDistinct(p.options, e);
    }
  }

  /** Parsed options are a dictionary: no name occurs twice. */
  lemma ParsedNamesDistinct(line: string)
    ensures Parsed(line).Some? ==> NamesDistinct(Parsed(line).value)
  {
    var opts := Split(line);
    if opts.Some? {
      ParseTokensKeepDistinct(START, opts.value);
    }
  }

  method ParseOptions(line: string) returns (r: Option<Options>)
    ensures r == Parsed(line)
  {
    var opts := Split(line);
    if opts.None? {
      return None;
    }
    var p := START;
    for i := 0 to |opts.value|
      invariant ParseTokens(START, opts.value) == ParseTokens(p, opts.value[i..])
    {
      var q := ParseToken(p, opts.value[i]);
      assert opts.value[i..][1..] == opts.value[i + 1..];
      if q.None? {
        return None;
      }
      p := q.value;
    }
    return Some(p.options);
  }

  // ---- Printing -------------------------------------------------------------------------------------------

  /** The words an entry is printed as; a missing or empty value is not printed. */
  function Words(e: Entry): seq<string> {
    [e.form + e.name] + if e.value.Some? && e.value.value != [] then [e.value.value] else []
  }

  function AllWords(options: Options): seq<string> {
    if options == [] then [] else AllWords(options[..|options| - 1]) + Words(options[|options| - 1])
  }

  /** Each word after a blank. */
  function Spaced(words: seq<string>): string {
    if words == [] then [] else Spaced(words[..|words| - 1]) + " " + words[|words| - 1]
  }

  class MongodControl {
    var options: Options

    /** A dictionary has every name once. */
    ghost predicate Valid()
      reads this
    {
      NamesDistinct(options)
    }

    /** The options of the command line, with the ones that every server gets. */
    constructor (parsed: Options, dbPath: Option<string>, logPath: Option<string>, port: Option<string>, windows: bool)
      requires NamesDistinct(parsed)
      ensures Valid()
      ensures Lookup(options, "dbpath") == Some(Entry("dbpath", dbPath, "--"))
      ensures Lookup(options, "logpath") == Some(Entry("logpath", logPath, "--"))
      ensures Lookup(options, "logappend") == Some(Entry("logappend", None, "--"))
      ensures Lookup(options, "port") == Some(Entry("port", port, "--"))
      ensures Lookup(options, "bind_ip") == Some(Entry("bind_ip", Some("0.0.0.0"), "--"))
      ensures var last := if windows then "service" else "fork"; Lookup(options, last) == Some(Entry(last, None, "--"))
      ensures forall name :: name !in ["dbpath", "logpath", "logappend", "port", "bind_ip",
                                       if windows then "service" else "fork"] ==>
                               Lookup(options, name) == Lookup(parsed, name)
    {
      options := parsed;
      new;
      SetMongodOption("dbpath", dbPath, "--");
      SetMongodOption("logpath", logPath, "--");
      SetMongodOption("logappend", None, "--");
      SetMongodOption("port", port, "--");
      SetMongodOption("bind_ip", Some("0.0.0.0"), "--");
      SetMongodOption(if windows then "service" else "fork", None, "--");
    }

    method SetMongodOption(option: string, value: Option<string>, form: string)
      requires Valid()
      modifies this
      ensures Valid()
      ensures Lookup(options, option) == Some(Entry(option, value, form))
      ensures forall name :: name != option ==> Lookup(options, name) == old(Lookup(options, name))
      ensures Names(options) == old(Names(options)) + if old(Lookup(options, option)).None? then [option] else []
    {
      var e := Entry(option, value, form);
      PutSets(options, e);
      PutKeepsDistinct(options, e);
      options := Put(options, e);
    }

    method MongodOptions() returns (line: string)
      ensures line == Spaced(AllWords(options))
    {
      line := "";
      for i := 0 to |options|
        invariant line == Spaced(AllWords(options[..i]))
      {
        var e := options[i];
        AllWordsGrow(options, i);
        ghost var before := AllWords(options[..i]);
        SpacedFlag(before, e);
        SpacedValue(before, e);
        line := line + " " + e.form + e.name;
        if e.value.Some? && e.value.value != [] {
          line := line + " " + e.value.value;
        }
      }
      assert options[..|options|] == options;
    }
  }

  lemma AllWordsGrow(options: Options, i: nat)
    requires i < |options|
    ensures AllWords(options[..i + 1]) == AllWords(options[..i]) + Words(options[i])
  {
    assert options[..i + 1][..i] == options[..i];
  }

  lemma SpacedFlag(words: seq<string>, e: Entry)
    ensures Spaced(words + [e.form + e.name]) == Spaced(words) + " " + e.form + e.name
  {
    var line := Spaced(words) + " ";
    SpacedGrows(words, e.form + e.name);
    assert line + (e.form + e.name) == line + e.form + e.name;
  }

  lemma SpacedValue(words: seq<string>, e: Entry)
    ensures Spaced(words + Words(e)) ==
            if e.value.Some? && e.value.value != []
            then Spaced(words + [e.form + e.name]) + " " + e.value.value
            else Spaced(words + [e.form + e.name])
  {
    var flag := [e.form + e.name];
    if e.value.Some? && e.value.value != [] {
      SpacedGrows(words + flag, e.value.value);
      assert words + (flag + [e.value.value]) == words + flag + [e.value.value];
    } else {
      assert flag + [] == flag;
    }
  }

  lemma SpacedGrows(words: seq<string>, w: string)
    ensures Spaced(words + [w]) == Spaced(words) + " " + w
  {
    assert (words + [w])[..|words|] == words;
  }
}
