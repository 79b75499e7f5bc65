/** `MergeConfig`: kconfig directives from a base and fragments, last one wins,
    printed in a canonical form. */
module KernelConfig {
  import opened Results
  import opened ByteStrings

  type Config = map<string, string>

  datatype Directive = Directive(sym: string, val: string)

  // ----- reading one line ------------------------------------------------

  predicate SymbolChar(c: char) {
    'A' <= c <= 'Z' || 'a' <= c <= 'z' || '0' <= c <= '9' || c == '_'
  }

  predicate IsSymbol(s: string) { s != "" && forall c :: c in s ==> SymbolChar(c) }

  function SetLine(sym: string, val: string): string { "CONFIG_" + sym + "=" + val }

  function OffLine(sym: string): string { "# CONFIG_" + sym + " is not set" }

  /** Length of the longest prefix of symbol characters: the greedy `+`. */
  function SymbolLength(s: string): (n: nat)
    ensures n <= |s|
    ensures forall i :: 0 <= i < n ==> SymbolChar(s[i])
    ensures n < |s| ==> !SymbolChar(s[n])
  {
    if s == "" || !SymbolChar(s[0]) then 0 else 1 + SymbolLength(s[1..])
  }

  /** `^CONFIG_([A-Za-z0-9_]+)=(.*)$`. */
  function MatchSet(line: string): Option<Directive> {
    if !HasPrefix(line, "CONFIG_") then None
    else
      var rest := line[7..];
      var n := SymbolLength(rest);
      if n == 0 || n == |rest| || rest[n] != '=' || '\n' in rest[n + 1..] then None
      else Some(Directive(rest[..n], rest[n + 1..]))
  }

  /** `^# CONFIG_([A-Za-z0-9_]+) is not set$`. */
  function MatchOff(line: string): Option<Directive> {
    if !HasPrefix(line, "# CONFIG_") then None
    else
      var rest := line[9..];
      var n := SymbolLength(rest);
      if n == 0 || rest[n..] != " is not set" then None
      else Some(Directive(rest[..n], "n"))
  }

  function ParseLine(raw: string): Option<Directive> {
    var line := TrimSpace(raw);
    if MatchSet(line).Some? then MatchSet(line) else MatchOff(line)
  }

  lemma SymbolLengthOf(sym: string, rest: string)
    requires IsSymbol(sym) && (rest == "" || !SymbolChar(rest[0]))
    ensures SymbolLength(sym + rest) == |sym|
  {
    var s := sym + rest;
    var n := SymbolLength(s);
    assert forall i :: 0 <= i < |sym| ==> s[i] == sym[i] && SymbolChar(s[i]);
    assert rest == "" || s[|sym|] == rest[0];
  }

  lemma MatchSetOf(sym: string, val: string)
    requires IsSymbol(sym) && '\n' !in val
    ensures MatchSet(SetLine(sym, val)) == Some(Directive(sym, val))
  {
    var line := SetLine(sym, val);
    assert line[7..] == sym + ("=" + val);
    SymbolLengthOf(sym, "=" + val);
    assert line[7..][..|sym|] == sym && line[7..][|sym| + 1..] == val;
  }

  lemma MatchOffOf(sym: string)
    requires IsSymbol(sym)
    ensures MatchSet(OffLine(sym)) == None
    ensures MatchOff(OffLine(sym)) == Some(Directive(sym, "n"))
  {
    var line := OffLine(sym);
    assert line[9..] == sym + " is not set";
    SymbolLengthOf(sym, " is not set");
    assert line[9..][..|sym|] == sym && line[9..][|sym|..] == " is not set";
    assert line[0] == '#' && "CONFIG_"[0] == 'C';
  }

  /** A symbol and a value that a trimmed line can carry. */
  predicate Writable(sym: string, val: string) {
    IsSymbol(sym) && '\n' !in val && TrimSpace(SetLine(sym, val)) == SetLine(sym, val)
  }

  lemma MatchSetInverse(line: string)
    requires MatchSet(line).Some?
    ensures var d := MatchSet(line).value;
            IsSymbol(d.sym) && '\n' !in d.val && line == SetLine(d.sym, d.val)
  {
    var rest := line[7..];
    var n := SymbolLength(rest);
    assert line == "CONFIG_" + rest;
    assert rest == rest[..n] + "=" + rest[n + 1..];
  }

  lemma MatchOffInverse(line: string)
    requires MatchOff(line).Some?
    ensures IsSymbol(MatchOff(line).value.sym) && MatchOff(line).value.val == "n"
    ensures line == OffLine(MatchOff(line).value.sym)
  {
    var rest := line[9..];
    var n := SymbolLength(rest);
    assert line == "# CONFIG_" + rest;
    assert rest == rest[..n] + rest[n..];
  }

  lemma OffIsWritable(sym: string)
    requires IsSymbol(sym)
    ensures Writable(sym, "n") && TrimSpace(OffLine(sym)) == OffLine(sym)
  {
    var a, b := SetLine(sym, "n"), OffLine(sym);
    assert a[0] == 'C' && a[|a| - 1] == 'n';
    assert b[0] == '#' && b[|b| - 1] == 't';
    TrimPlain(a);
    TrimPlain(b);
  }

  /** What is read from a line can be written as a line. */
  lemma ParseLineWritable(raw: string)
    ensures ParseLine(raw).Some? ==> Writable(ParseLine(raw).value.sym, ParseLine(raw).value.val)
  {
    var line := TrimSpace(raw);
    TrimIdempotent(raw);
    if MatchSet(line).Some? {
      MatchSetInverse(line);
    } else if MatchOff(line).Some? {
      MatchOffInverse(line);
      OffIsWritable(MatchOff(line).value.sym);
    }
  }

  /** The only lines that are directives, and what they say: after trimming, a symbol with
      a value, or a symbol switched off. Every other line is ignored. */
  lemma ParseLineIff(raw: string, sym: string, val: string)
    ensures ParseLine(raw) == Some(Directive(sym, val)) <==>
            && IsSymbol(sym) && '\n' !in val
            && (|| TrimSpace(raw) == "CONFIG_" + sym + "=" + val
                || (val == "n" && TrimSpace(raw) == "# CONFIG_" + sym + " is not set"))
  {
    hide TrimSpace, IsSymbol;
    var line := TrimSpace(raw);
    if MatchSet(line).Some? { MatchSetInverse(line); } else if MatchOff(line).Some? { MatchOffInverse(line); }
    if IsSymbol(sym) && '\n' !in val && line == SetLine(sym, val) { MatchSetOf(sym, val); }
    if IsSymbol(sym) && line == OffLine(sym) { MatchOffOf(sym); }
    NoNewlineInN();
  }

  lemma NoNewlineInN()
    ensures '\n' !in "n"
  {
  }

  // ----- reading texts ---------------------------------------------------

  function Apply(vals: Config, d: Option<Directive>): Config {
    match d
    case None => vals
    case Some(Directive(sym, val)) => vals[sym := val]
  }

  function ApplyLines(vals: Config, lines: seq<string>): Config
    decreases |lines|
  {
    if lines == [] then vals else ApplyLines(Apply(vals, ParseLine(lines[0])), lines[1..])
  }

  function ApplyText(vals: Config, text: string): Config { ApplyLines(vals, Lines(text)) }

  function ApplyTexts(vals: Config, texts: seq<string>): Config
    decreases |texts|
  {
    if texts == [] then vals else ApplyTexts(ApplyText(vals, texts[0]), texts[1..])
  }

  function Parse(text: string): Config { ApplyText(map[], text) }

  /** The last directive for `sym`, looked for from the end. */
  function LastValue(lines: seq<string>, sym: string): Option<string> {
    if lines == [] then None
    else
      var d := ParseLine(lines[|lines| - 1]);
      if d.Some? && d.value.sym == sym then Some(d.value.val)
      else LastValue(lines[..|lines| - 1], sym)
  }

  /** Line `i` is the last directive for `sym`, and says `val`. */
  predicate LastAt(lines: seq<string>, i: int, sym: string, val: string) {
    && 0 <= i < |lines| && ParseLine(lines[i]) == Some(Directive(sym, val))
    && forall j :: i < j < |lines| ==> ParseLine(lines[j]) == None || ParseLine(lines[j]).value.sym != sym
  }

  lemma {:induction false} LastValueIff(lines: seq<string>, sym: string, val: string)
    ensures LastValue(lines, sym) == Some(val) <==> exists i :: LastAt(lines, i, sym, val)
  {
    hide ParseLine;
    if lines != [] {
      var n := |lines| - 1;
      var front, d := lines[..n], ParseLine(lines[n]);
      LastValueIff(front, sym, val);
      if d.Some? && d.value.sym == sym {
        if d.value.val == val { assert LastAt(lines, n, sym, val); }
      } else {
        forall i | LastAt(front, i, sym, val) ensures LastAt(lines, i, sym, val) {
          assert forall j :: i < j < n ==> lines[j] == front[j];
        }
        forall i | LastAt(lines, i, sym, val) ensures LastAt(front, i, sym, val) {
          assert forall j :: i < j < n ==> lines[j] == front[j];
        }
      }
    }
  }

  function Get(m: Config, sym: string): Option<string> {
    if sym in m then Some(m[sym]) else None
  }

  lemma {:induction false} ApplySnoc(vals: Config, lines: seq<string>, line: string)
    ensures ApplyLines(vals, lines + [line]) == Apply(ApplyLines(vals, lines), ParseLine(line))
    decreases |lines|
  {
    hide ParseLine;
    if lines == [] {
      assert [] + [line] == [line];
      assert ApplyLines(Apply(vals, ParseLine(line)), []) == Apply(vals, ParseLine(line));
    } else {
      assert (lines + [line])[1..] == lines[1..] + [line];
      ApplySnoc(Apply(vals, ParseLine(lines[0])), lines[1..], line);
    }
  }

  lemma {:induction false} ApplyConcat(vals: Config, a: seq<string>, b: seq<string>)
    ensures ApplyLines(vals, a + b) == ApplyLines(ApplyLines(vals, a), b)
    decreases |a|
  {
    hide ParseLine;
    if a == [] {
      assert a + b == b;
    } else {
      assert (a + b)[1..] == a[1..] + b;
      ApplyConcat(Apply(vals, ParseLine(a[0])), a[1..], b);
    }
  }

  function AllLines(texts: seq<string>): seq<string> {
    if texts == [] then [] else Lines(texts[0]) + AllLines(texts[1..])
  }

  lemma {:induction false} ApplyTextsIsAllLines(vals: Config, texts: seq<string>)
    ensures ApplyTexts(vals, texts) == ApplyLines(vals, AllLines(texts))
    decreases |texts|
  {
    hide Lines, ParseLine;
    if texts != [] {
      ApplyConcat(vals, Lines(texts[0]), AllLines(texts[1..]));
      ApplyTextsIsAllLines(ApplyText(vals, texts[0]), texts[1..]);
    }
  }

  /** The folded map is the last-wins reading of the lines. */
  lemma {:induction false} LastWins(lines: seq<string>, sym: string)
    ensures Get(ApplyLines(map[], lines), sym) == LastValue(lines, sym)
  {
    hide ParseLine;
    if lines != [] {
      var front, last := lines[..|lines| - 1], lines[|lines| - 1];
      assert lines == front + [last];
      ApplySnoc(map[], front, last);
      LastWins(front, sym);
    }
  }

  // ----- printing --------------------------------------------------------

  function PrintLine(sym: string, val: string): string {
    if val == "n" then OffLine(sym) else SetLine(sym, val)
  }

  /** The text for the symbols `syms`, one line each. */
  function PrintSyms(m: Config, syms: seq<string>): string
    requires forall s :: s in syms ==> s in m
  {
    if syms == [] then ""
    else PrintLine(syms[0], m[syms[0]]) + "\n" + PrintSyms(m, syms[1..])
  }

  ghost function Print(m: Config): string { PrintSyms(m, SortedSet(m.Keys)) }

  /** A map some texts can yield. */
  ghost predicate Reachable(m: Config) { forall s :: s in m ==> Writable(s, m[s]) }

  lemma {:induction false} ApplyLinesReachable(vals: Config, lines: seq<string>)
    requires Reachable(vals)
    ensures Reachable(ApplyLines(vals, lines))
    decreases |lines|
  {
    if lines != [] {
      ParseLineWritable(lines[0]);
      ApplyLinesReachable(Apply(vals, ParseLine(lines[0])), lines[1..]);
    }
  }

  lemma ParsePrintedLine(sym: string, val: string)
    requires Writable(sym, val)
    ensures ParseLine(PrintLine(sym, val)) == Some(Directive(sym, val))
    ensures '\n' !in PrintLine(sym, val)
  {
    PrintedLineHasNoNewline(sym, val);
    if val == "n" {
      OffIsWritable(sym);
      MatchOffOf(sym);
    } else {
      MatchSetOf(sym, val);
    }
  }

  lemma PrintedLineHasNoNewline(sym: string, val: string)
    requires IsSymbol(sym) && '\n' !in val
    ensures '\n' !in PrintLine(sym, val)
  {
    assert '\n' !in sym;
    assert '\n' !in "CONFIG_" && '\n' !in "=";
    assert '\n' !in "# CONFIG_" && '\n' !in " is not set";
  }

  /** Reading a printed text adds exactly its symbols, with their values. */
  lemma {:induction false} ReadPrinted(vals: Config, m: Config, syms: seq<string>)
    requires Reachable(m) && forall s :: s in syms ==> s in m
    ensures ApplyText(vals, PrintSyms(m, syms)) == vals + (map s | s in syms :: m[s])
    decreases |syms|
  {
    hide ParseLine, PrintLine, Lines;
    if syms == [] {
      ReadNothing(vals);
    } else {
      var sym := syms[0];
      assert sym in syms;
      ReadFirst(vals, sym, m[sym], PrintSyms(m, syms[1..]));
      ReadPrinted(vals[sym := m[sym]], m, syms[1..]);
      MergeFirst(vals, m, syms);
    }
  }

  lemma ReadNothing(vals: Config)
    ensures ApplyText(vals, "") == vals
  {
    assert Lines("") == [""];
    assert ParseLine("") == None;
    assert ApplyLines(vals, [""][1..]) == vals;
  }

  lemma ReadFirst(vals: Config, sym: string, val: string, rest: string)
    requires Writable(sym, val)
    ensures ApplyText(vals, PrintLine(sym, val) + "\n" + rest) == ApplyText(vals[sym := val], rest)
  {
    var line := PrintLine(sym, val);
    ParsePrintedLine(sym, val);
    LinesCons(line, rest);
    assert ([line] + Lines(rest))[1..] == Lines(rest);
  }

  lemma MergeFirst(vals: Config, m: Config, syms: seq<string>)
    requires syms != [] && forall s :: s in syms ==> s in m
    ensures vals[syms[0] := m[syms[0]]] + (map s | s in syms[1..] :: m[s]) ==
            vals + (map s | s in syms :: m[s])
  {
    assert forall s :: s in syms <==> s == syms[0] || s in syms[1..];
  }

  /** Reading a printed map over another one merges them. */
  lemma ReadPrint(vals: Config, m: Config)
    requires Reachable(m)
    ensures ApplyText(vals, Print(m)) == vals + m
  {
    hide ParseLine, PrintLine, Lines;
    ReadPrinted(vals, m, SortedSet(m.Keys));
    assert (map s | s in SortedSet(m.Keys) :: m[s]) == m;
  }

  // ----- the merge -------------------------------------------------------

  function MergedMap(base: string, fragments: seq<string>): Config {
    ApplyTexts(ApplyText(map[], base), fragments)
  }

  ghost function Merge(base: string, fragments: seq<string>): string {
    Print(MergedMap(base, fragments))
  }

  method ApplyLoop(vals: Config, text: string) returns (r: Config)
    ensures r == ApplyText(vals, text)
  {
    hide TrimSpace;
    var lines := Lines(text);
    r := vals;
    for i := 0 to |lines|
      invariant r == ApplyLines(vals, lines[..i])
    {
      assert lines[..i + 1] == lines[..i] + [lines[i]];
      ApplySnoc(vals, lines[..i], lines[i]);
      var line := TrimSpace(lines[i]);
      var m := MatchSet(line);
      if m.Some? {
        r := r[m.value.sym := m.value.val];
        continue;
      }
      m := MatchOff(line);
      if m.Some? {
        r := r[m.value.sym := "n"];
      }
    }
    assert lines[..|lines|] == lines;
  }

  lemma {:induction false} ApplyTextsSnoc(vals: Config, texts: seq<string>, text: string)
    ensures ApplyTexts(vals, texts + [text]) == ApplyText(ApplyTexts(vals, texts), text)
    decreases |texts|
  {
    if texts == [] {
      assert [] + [text] == [text];
      assert ApplyTexts(ApplyText(vals, text), []) == ApplyText(vals, text);
    } else {
      assert (texts + [text])[1..] == texts[1..] + [text];
      ApplyTextsSnoc(ApplyText(vals, texts[0]), texts[1..], text);
    }
  }

  lemma {:induction false} PrintSymsSnoc(m: Config, syms: seq<string>, s: string)
    requires s in m && forall x :: x in syms ==> x in m
    ensures PrintSyms(m, syms + [s]) == PrintSyms(m, syms) + PrintLine(s, m[s]) + "\n"
  {
    hide PrintLine;
    if syms == [] {
      assert [] + [s] == [s];
      assert PrintSyms(m, [s]) == PrintLine(s, m[s]) + "\n" + PrintSyms(m, []);
    } else {
      assert (syms + [s])[1..] == syms[1..] + [s];
      PrintSymsSnoc(m, syms[1..], s);
    }
  }

  method PrintLoop(vals: Config, syms: seq<string>) returns (b: string)
    requires forall s :: s in syms ==> s in vals
    ensures b == PrintSyms(vals, syms)
  {
    b := "";
    for i := 0 to |syms|
      invariant b == PrintSyms(vals, syms[..i])
    {
      var s := syms[i];
      assert syms[..i + 1] == syms[..i] + [s];
      PrintSymsSnoc(vals, syms[..i], s);
      var line: string;
      if vals[s] == "n" {
        line := "# CONFIG_" + s + " is not set";
      } else {
        line := "CONFIG_" + s + "=" + vals[s];
      }
      assert line == PrintLine(s, vals[s]);
      b := b + line + "\n";
    }
    assert syms[..|syms|] == syms;
  }

  /** The merge of the source, whatever order the map is ranged over. */
  method MergeConfig(base: string, fragments: seq<string>) returns (r: string)
    ensures r == Merge(base, fragments)
  {
    var vals := ApplyLoop(map[], base);
    for i := 0 to |fragments|
      invariant vals == ApplyTexts(ApplyText(map[], base), fragments[..i])
    {
      assert fragments[..i + 1] == fragments[..i] + [fragments[i]];
      ApplyTextsSnoc(ApplyText(map[], base), fragments[..i], fragments[i]);
      vals := ApplyLoop(vals, fragments[i]);
    }
    assert fragments[..|fragments|] == fragments;
    var syms := KeysOf(vals);
    syms := Sort(syms);
    IncreasingUnique(syms, SortedSet(vals.Keys));
    r := PrintLoop(vals, syms);
  }
}
