/** Single-quote shell quoting (`shQuote`, `shJoin`, `encodeRequest`) against a
    reader written from sections 2.2.1, 2.2.2, 2.3 and 2.6 of POSIX.1-2017 Shell
    Command Language, with bash's brace expansion; and command substitution (section
    2.6.3). */
module ShellWords {
  import opened Results
  import opened ByteStrings
  import opened ShellExpansion

  // ----- the writer ------------------------------------------------------

  /** `strings.ReplaceAll(s, "'", `'\''`)`. */
  function EscapeQuotes(s: string): string {
    if s == "" then ""
    else (if s[0] == '\'' then "'\\''" else [s[0]]) + EscapeQuotes(s[1..])
  }

  function Quote(s: string): string { "'" + EscapeQuotes(s) + "'" }

  function QuoteAll(argv: seq<string>): (q: seq<string>)
    ensures |q| == |argv|
    ensures forall i :: 0 <= i < |argv| ==> q[i] == Quote(argv[i])
  {
    if argv == [] then [] else [Quote(argv[0])] + QuoteAll(argv[1..])
  }

  /** The request line for `argv`. */
  function CommandLine(argv: seq<string>): string { Join(QuoteAll(argv), " ") }

  /** `encodeRequest` and `shJoin`: fill a slice by index, then join it. */
  method EncodeRequest(argv: seq<string>) returns (line: string)
    ensures line == CommandLine(argv)
  {
    var q := new string[|argv|](_ => "");
    for i := 0 to |argv|
      invariant forall k :: 0 <= k < i ==> q[k] == Quote(argv[k])
    {
      q[i] := Quote(argv[i]);
    }
    assert q[..] == QuoteAll(argv);
    line := Join(q[..], " ");
  }

  // ----- the reader ------------------------------------------------------

  /** A word as it is split off: its text, and its unquoted characters with a NUL for each
      quoted part. */
  datatype Field = Field(text: string, shape: string)

  /** Where the reader stands: between words, in the unquoted part of a word, or
      inside single quotes. `text` and `shape` are what the current word holds so far. */
  datatype Mode = Between | Bare(text: string, shape: string) | Quoted(text: string, shape: string)

  function HeldText(mode: Mode): string { if mode.Between? then "" else mode.text }

  function HeldShape(mode: Mode): string { if mode.Between? then "" else mode.shape }

  function Marked(shape: string): string {
    if shape != "" && shape[|shape| - 1] == NUL then shape else shape + [NUL]
  }

  /** Characters that end a word or begin something else than a literal, unquoted. */
  predicate Operator(c: char) {
    || c == '|' || c == '&' || c == ';' || c == '<' || c == '>' || c == '(' || c == ')'
    || c == '`' || c == '"' || c == '\n' || c == NUL
  }

  /** A dollar sign before `c` begins an expansion; otherwise it stands for itself. */
  predicate Parameter(c: char) {
    || Letter(c) || '0' <= c <= '9' || c == '_' || c == '@' || c == '*' || c == '#' || c == '?' || c == '-'
    || c == '$' || c == '!' || c == '(' || c == '{' || c == '[' || c == '\'' || c == '"'
  }

  predicate Dollar(c: char, rest: string) { c == '$' && rest != "" && Parameter(rest[0]) }

  function Prepend(word: Field, rest: Option<seq<Field>>): Option<seq<Field>> {
    match rest
    case None => None
    case Some(words) => Some([word] + words)
  }

  /** Splits the arguments of a command into words. `None` means that the line holds
      something else: an operator, an expansion with a dollar sign, double quotes, a quote
      left open, or a backslash at the end. */
  function Read(s: string, mode: Mode): Option<seq<Field>>
    decreases |s|
  {
    if s == "" then
      match mode
      case Between => Some([])
      case Bare(w, h) => Some([Field(w, h)])
      case Quoted(_, _) => None
    else
      var c, rest := s[0], s[1..];
      var w, h := HeldText(mode), HeldShape(mode);
      if mode.Quoted? then Read(rest, if c == '\'' then Bare(w, h) else Quoted(w + [c], h))
      else if c == ' ' || c == '\t' then
        (if mode.Bare? then Prepend(Field(w, h), Read(rest, Between)) else Read(rest, Between))
      else if c == '\'' then Read(rest, Quoted(w, Marked(h)))
      else if c == '\\' then
        if rest == "" then None
        else if rest[0] == '\n' then Read(rest[1..], mode)
        else Read(rest[1..], Bare(w + [rest[0]], Marked(h)))
      else if Operator(c) || Dollar(c, rest) then None
      else Read(rest, Bare(w + [c], h + [c]))
  }

  function Texts(fields: seq<Field>): (r: seq<string>)
    ensures |r| == |fields| && forall i :: 0 <= i < |r| ==> r[i] == fields[i].text
  {
    seq(|fields|, i requires 0 <= i < |fields| => fields[i].text)
  }

  predicate AllSettled(fields: seq<Field>) { forall i :: 0 <= i < |fields| ==> Settled(fields[i].shape) }

  /** The words of a line, if they are the same whatever files and users there are. */
  function Words(line: string): Option<seq<string>> {
    match Read(line, Between)
    case None => None
    case Some(fields) => if AllSettled(fields) then Some(Texts(fields)) else None
  }

  // ----- words that depend on the files ----------------------------------

  /** What pathname and tilde expansion make of an open word in some state of files and
      users; nothing if they leave it alone. */
  type Files = Field -> seq<string>

  function Spread(fields: seq<Field>, files: Files): seq<string> {
    if fields == [] then []
    else
      (if Open(fields[0].shape) && files(fields[0]) != [] then files(fields[0]) else [fields[0].text])
      + Spread(fields[1..], files)
  }

  /** The words of a line in some state of files and users. */
  function WordsIn(line: string, files: Files): Option<seq<string>> {
    match Read(line, Between)
    case None => None
    case Some(fields) =>
      if exists i :: 0 <= i < |fields| && Broken(fields[i].shape) then None else Some(Spread(fields, files))
  }

  lemma {:induction false} SpreadSettled(fields: seq<Field>, files: Files)
    requires AllSettled(fields)
    ensures Spread(fields, files) == Texts(fields)
  {
    if fields != [] {
      assert Settled(fields[0].shape);
      SpreadSettled(fields[1..], files);
    }
  }

  lemma {:induction false} SpreadNothing(fields: seq<Field>)
    ensures Spread(fields, f => []) == Texts(fields)
  {
    hide Open;
    if fields != [] { SpreadNothing(fields[1..]); }
  }

  lemma {:induction false} SpreadTwice(fields: seq<Field>)
    ensures |Spread(fields, (f: Field) => [f.text, f.text])| >= |fields|
    ensures (exists i :: 0 <= i < |fields| && Open(fields[i].shape)) ==>
              |Spread(fields, (f: Field) => [f.text, f.text])| > |fields|
  {
    hide Open;
    if fields != [] {
      SpreadTwice(fields[1..]);
      forall i | 0 <= i < |fields| && Open(fields[i].shape)
        ensures |Spread(fields, (f: Field) => [f.text, f.text])| > |fields|
      {
        if i > 0 { assert Open(fields[1..][i - 1].shape); }
      }
    }
  }

  lemma SettledIsStable(line: string, files: Files)
    requires Words(line).Some?
    ensures WordsIn(line, files) == Words(line)
  {
    hide Broken, Open, Read;
    var fields := Read(line, Between).value;
    SpreadSettled(fields, files);
    forall i | 0 <= i < |fields| ensures !Broken(fields[i].shape) { assert Settled(fields[i].shape); }
  }

  lemma StableIsSettled(line: string, words: seq<string>)
    requires forall files: Files :: WordsIn(line, files) == Some(words)
    ensures Words(line) == Some(words)
  {
    hide Broken, Open, Read;
    var none: Files := f => [];
    var twice: Files := (f: Field) => [f.text, f.text];
    assert WordsIn(line, none) == Some(words) && WordsIn(line, twice) == Some(words);
    var fields := Read(line, Between).value;
    SpreadNothing(fields);
    SpreadTwice(fields);
    forall i | 0 <= i < |fields| ensures Settled(fields[i].shape) {
      assert !Broken(fields[i].shape) && !Open(fields[i].shape);
    }
  }

  /** A line has settled words if and only if every state of files and users gives it
      these words. */
  lemma SettledIff(line: string, words: seq<string>)
    ensures Words(line) == Some(words) <==> forall files: Files :: WordsIn(line, files) == Some(words)
  {
    hide Words, WordsIn;
    if Words(line) == Some(words) {
      forall files: Files ensures WordsIn(line, files) == Some(words) { SettledIsStable(line, files); }
    }
    if forall files: Files :: WordsIn(line, files) == Some(words) { StableIsSettled(line, words); }
  }

  // ----- reading what is quoted ------------------------------------------

  /** The four characters that stand for one quote. */
  lemma ReadEscapedQuote(w: string, tail: string)
    ensures Read("'\\''" + tail, Quoted(w, [NUL])) == Read(tail, Quoted(w + ['\''], [NUL]))
  {
    var line := "'\\''" + tail;
    assert line[1..] == "\\''" + tail;
    assert line[1..][1..][1..] == "'" + tail;
    assert ("'" + tail)[1..] == tail;
    assert Read(line, Quoted(w, [NUL])) == Read(line[1..], Bare(w, [NUL]));
    assert Read(line[1..], Bare(w, [NUL])) == Read("'" + tail, Bare(w + ['\''], [NUL]));
  }

  lemma ReadPlain(c: char, w: string, tail: string)
    requires c != '\''
    ensures Read([c] + tail, Quoted(w, [NUL])) == Read(tail, Quoted(w + [c], [NUL]))
  {
    assert ([c] + tail)[1..] == tail;
  }

  lemma ReadClosing(w: string, rest: string)
    ensures Read("'" + rest, Quoted(w, [NUL])) == Read(rest, Bare(w, [NUL]))
  {
    assert ("'" + rest)[1..] == rest;
  }

  lemma {:induction false} ReadEscaped(s: string, w: string, rest: string)
    ensures Read(EscapeQuotes(s) + "'" + rest, Quoted(w, [NUL])) == Read(rest, Bare(w + s, [NUL]))
  {
    hide Read;
    var line := EscapeQuotes(s) + "'" + rest;
    if s == "" {
      assert line == "'" + rest && w + s == w;
      ReadClosing(w, rest);
    } else {
      var c := s[0];
      var tail := EscapeQuotes(s[1..]) + "'" + rest;
      ReadEscaped(s[1..], w + [c], rest);
      assert w + s == (w + [c]) + s[1..];
      if c == '\'' {
        assert line == "'\\''" + tail;
        ReadEscapedQuote(w, tail);
      } else {
        assert line == [c] + tail;
        ReadPlain(c, w, tail);
      }
    }
  }

  lemma ReadOpening(line: string)
    ensures Read("'" + line, Between) == Read(line, Quoted("", [NUL]))
  {
    assert ("'" + line)[1..] == line;
    assert Marked("") == [NUL];
  }

  lemma ReadQuoted(s: string, rest: string)
    ensures Read(Quote(s) + rest, Between) == Read(rest, Bare(s, [NUL]))
  {
    hide Read;
    ReadEscaped(s, "", rest);
    assert Quote(s) + rest == "'" + (EscapeQuotes(s) + "'" + rest);
    ReadOpening(EscapeQuotes(s) + "'" + rest);
    assert "" + s == s;
  }

  function QuotedFields(argv: seq<string>): (r: seq<Field>)
    ensures |r| == |argv| && forall i :: 0 <= i < |r| ==> r[i] == Field(argv[i], [NUL])
  {
    seq(|argv|, i requires 0 <= i < |argv| => Field(argv[i], [NUL]))
  }

  lemma {:induction false} FieldsOfCommandLine(argv: seq<string>)
    ensures Read(CommandLine(argv), Between) == Some(QuotedFields(argv))
  {
    if argv == [] {
    } else if |argv| == 1 {
      ReadQuoted(argv[0], "");
      assert CommandLine(argv) == Quote(argv[0]) + "";
      assert QuotedFields(argv) == [Field(argv[0], [NUL])];
    } else {
      var tail := CommandLine(argv[1..]);
      assert QuoteAll(argv)[1..] == QuoteAll(argv[1..]);
      assert CommandLine(argv) == Quote(argv[0]) + (" " + tail);
      ReadQuoted(argv[0], " " + tail);
      ReadBlank(argv[0], tail);
      FieldsOfCommandLine(argv[1..]);
      assert QuotedFields(argv) == [Field(argv[0], [NUL])] + QuotedFields(argv[1..]);
    }
  }

  lemma ReadBlank(w: string, tail: string)
    ensures Read(" " + tail, Bare(w, [NUL])) == Prepend(Field(w, [NUL]), Read(tail, Between))
  {
    assert (" " + tail)[1..] == tail;
  }

  /** Every argument vector survives quoting and shell reading: empty words,
      quotes, blanks, newlines, `$` and patterns included. */
  lemma WordsOfCommandLine(argv: seq<string>)
    ensures Words(CommandLine(argv)) == Some(argv)
  {
    hide Read, CommandLine, Settled;
    FieldsOfCommandLine(argv);
    QuotedIsSettled();
    assert Texts(QuotedFields(argv)) == argv;
  }

  // ----- command substitution --------------------------------------------

  function DropNul(s: string): (r: string)
    ensures NUL !in r
  {
    if s == "" then ""
    else if s[0] == NUL then DropNul(s[1..])
    else [s[0]] + DropNul(s[1..])
  }

  /** Section 2.6.3: trailing newlines are removed. */
  function StripNewlines(s: string): (r: string)
    ensures r <= s && (r == "" || r[|r| - 1] != '\n')
    ensures forall i :: |r| <= i < |s| ==> s[i] == '\n'
  {
    if s != "" && s[|s| - 1] == '\n' then StripNewlines(s[..|s| - 1]) else s
  }

  /** What `$(...)` yields for a command that wrote `s`; a shell variable holds no
      NUL. */
  function Substituted(s: string): string { StripNewlines(DropNul(s)) }

  /** `kept` are the bytes of `s` at the places `at`, which are those of all its bytes but
      the NUL ones, in order. */
  predicate KeptAt(s: string, kept: string, at: seq<int>) {
    && |at| == |kept|
    && (forall k :: 0 <= k < |at| ==> 0 <= at[k] < |s| && s[at[k]] == kept[k] && s[at[k]] != NUL)
    && (forall k, l :: 0 <= k < l < |at| ==> at[k] < at[l])
    && (forall i :: 0 <= i < |s| && s[i] != NUL ==> i in at)
  }

  /** What is left of `s` without its NUL bytes. */
  ghost predicate NulsDropped(s: string, kept: string) { exists at :: KeptAt(s, kept, at) }

  lemma {:induction false} DropNulDrops(s: string) returns (at: seq<int>)
    ensures KeptAt(s, DropNul(s), at)
    decreases |s|
  {
    if s == "" {
      at := [];
    } else {
      var c, front := s[|s| - 1], s[..|s| - 1];
      at := DropNulDrops(front);
      assert s == front + [c];
      DropNulConcat(front, [c]);
      DropNulIdentity([c]);
      if c == NUL { assert DropNul([c]) == ""; } else { at := at + [|front|]; }
      assert forall i :: 0 <= i < |front| ==> s[i] == front[i];
    }
  }

  /** `out` is `s` up to its last byte that is no newline. */
  predicate NewlinesStripped(s: string, out: string) {
    && out <= s && (forall i :: |out| <= i < |s| ==> s[i] == '\n')
    && (out != "" ==> out[|out| - 1] != '\n')
  }

  /** What a caller is shown of what a command wrote: all of it but NUL bytes and the
      newlines at the end. */
  ghost predicate Captured(raw: string, out: string) {
    && (exists kept :: NulsDropped(raw, kept) && NewlinesStripped(kept, out))
    && (NUL !in raw ==> NewlinesStripped(raw, out))
  }

  lemma StrippedIs(s: string)
    ensures NewlinesStripped(s, StripNewlines(s))
  {
  }

  lemma SubstitutedIsCaptured(raw: string)
    ensures Captured(raw, Substituted(raw))
  {
    hide DropNul, StripNewlines, KeptAt;
    var kept := DropNul(raw);
    var at := DropNulDrops(raw);
    assert NulsDropped(raw, kept);
    StrippedIs(kept);
    DropNulIdentity(raw);
  }

  function DropNuls(argv: seq<string>): (r: seq<string>)
    ensures |r| == |argv|
    ensures forall i :: 0 <= i < |argv| ==> r[i] == DropNul(argv[i])
  {
    if argv == [] then [] else [DropNul(argv[0])] + DropNuls(argv[1..])
  }

  lemma {:induction false} DropNulConcat(a: string, b: string)
    ensures DropNul(a + b) == DropNul(a) + DropNul(b)
  {
    if a == "" {
      assert a + b == b;
    } else {
      assert (a + b)[1..] == a[1..] + b && (a + b)[0] == a[0];
      DropNulConcat(a[1..], b);
      if a[0] != NUL {
        var x, y := DropNul(a[1..]), DropNul(b);
        assert DropNul(a + b) == [a[0]] + (x + y);
        assert [a[0]] + (x + y) == ([a[0]] + x) + y;
      }
    }
  }

  lemma {:induction false} DropNulIdentity(s: string)
    ensures DropNul(s) == s <==> NUL !in s
  {
    if s != "" {
      DropNulIdentity(s[1..]);
      if s[0] != NUL {
        assert s == [s[0]] + s[1..];
        assert DropNul(s)[1..] == DropNul(s[1..]);
      }
    }
  }

  lemma {:induction false} DropNulEscape(s: string)
    ensures DropNul(EscapeQuotes(s)) == EscapeQuotes(DropNul(s))
  {
    if s != "" {
      var c := s[0];
      var piece := if c == '\'' then "'\\''" else [c];
      DropNulConcat(piece, EscapeQuotes(s[1..]));
      DropNulIdentity(piece);
      DropNulEscape(s[1..]);
      if c == NUL {
        assert DropNul(piece) == "";
        assert DropNul(s) == DropNul(s[1..]);
      } else {
        assert DropNul(s) == [c] + DropNul(s[1..]);
        assert ([c] + DropNul(s[1..]))[1..] == DropNul(s[1..]);
      }
    }
  }

  lemma DropNulQuote(s: string)
    ensures DropNul(Quote(s)) == Quote(DropNul(s))
  {
    DropNulEscape(s);
    DropNulConcat("'", EscapeQuotes(s));
    DropNulConcat("'" + EscapeQuotes(s), "'");
    DropNulIdentity("'");
  }

  lemma {:induction false} DropNulCommandLine(argv: seq<string>)
    ensures DropNul(CommandLine(argv)) == CommandLine(DropNuls(argv))
  {
    if argv != [] {
      DropNulQuote(argv[0]);
      if |argv| > 1 {
        var tail := CommandLine(argv[1..]);
        assert QuoteAll(argv)[1..] == QuoteAll(argv[1..]);
        assert DropNuls(argv)[1..] == DropNuls(argv[1..]);
        assert QuoteAll(DropNuls(argv))[1..] == QuoteAll(DropNuls(argv[1..]));
        DropNulConcat(Quote(argv[0]) + " ", tail);
        DropNulConcat(Quote(argv[0]), " ");
        DropNulIdentity(" ");
        DropNulCommandLine(argv[1..]);
      }
    }
  }

  lemma {:induction false} CommandLineEnd(argv: seq<string>)
    requires argv != []
    ensures CommandLine(argv) != ""
    ensures CommandLine(argv)[|CommandLine(argv)| - 1] == '\''
  {
    if |argv| > 1 {
      assert QuoteAll(argv)[1..] == QuoteAll(argv[1..]);
      CommandLineEnd(argv[1..]);
    }
  }

  /** The guest's `cmd=$(cat req)` followed by `sh -c "$cmd"` runs `argv` with its
      NUL bytes removed; newline stripping loses nothing. */
  lemma GuestReadsArgv(argv: seq<string>)
    ensures Substituted(CommandLine(argv)) == CommandLine(DropNuls(argv))
    ensures Words(Substituted(CommandLine(argv))) == Some(DropNuls(argv))
  {
    DropNulCommandLine(argv);
    if argv != [] { CommandLineEnd(DropNuls(argv)); }
    WordsOfCommandLine(DropNuls(argv));
  }

  /** The command runs `argv`: as many words, each the argument without its NUL bytes. */
  ghost predicate RunsArgv(cmd: string, argv: seq<string>) {
    && Words(cmd).Some? && |Words(cmd).value| == |argv|
    && (forall i :: 0 <= i < |argv| ==> NulsDropped(argv[i], Words(cmd).value[i]))
    && (NulFree(argv) ==> Words(cmd).value == argv)
  }

  lemma GuestRunsArgv(argv: seq<string>)
    ensures RunsArgv(Substituted(CommandLine(argv)), argv)
  {
    hide Words, CommandLine, Substituted, KeptAt;
    GuestReadsArgv(argv);
    GuestReadsArgvIff(argv);
    forall i | 0 <= i < |argv| ensures NulsDropped(argv[i], DropNuls(argv)[i]) {
      var at := DropNulDrops(argv[i]);
    }
  }

  predicate NulFree(argv: seq<string>) { forall a :: a in argv ==> NUL !in a }

  /** The guest runs exactly `argv` if and only if no argument has a NUL byte. */
  lemma GuestReadsArgvIff(argv: seq<string>)
    ensures Words(Substituted(CommandLine(argv))) == Some(argv) <==> NulFree(argv)
    ensures NulFree(argv) ==> Substituted(CommandLine(argv)) == CommandLine(argv)
  {
    GuestReadsArgv(argv);
    forall i | 0 <= i < |argv| ensures DropNuls(argv)[i] == argv[i] <==> NUL !in argv[i] {
      DropNulIdentity(argv[i]);
    }
    if NulFree(argv) {
      assert DropNuls(argv) == argv;
    } else {
      var i :| 0 <= i < |argv| && NUL in argv[i];
      assert DropNuls(argv)[i] != argv[i];
    }
  }
}
