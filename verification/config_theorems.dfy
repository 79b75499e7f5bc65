/** Laws of the config merge. */
module ConfigTheorems {
  import opened Results
  import opened ByteStrings
  import opened KernelConfig

  lemma ParseReachable(text: string)
    ensures Reachable(Parse(text))
  {
    ApplyLinesReachable(map[], Lines(text));
  }

  lemma MergedReachable(base: string, fragments: seq<string>)
    ensures Reachable(MergedMap(base, fragments))
  {
    ApplyTextsIsAllLines(Parse(base), fragments);
    ParseReachable(base);
    ApplyLinesReachable(Parse(base), AllLines(fragments));
  }

  // ----- what the output says --------------------------------------------

  /** The lines of a printed map: one for each symbol, then an empty piece. */
  function PrintedLines(m: Config, syms: seq<string>): (r: seq<string>)
    requires forall s :: s in syms ==> s in m
    ensures |r| == |syms| + 1 && r[|syms|] == ""
    ensures forall i :: 0 <= i < |syms| ==> r[i] == PrintLine(syms[i], m[syms[i]])
  {
    if syms == [] then [""]
    else
      assert syms[0] in syms;
      [PrintLine(syms[0], m[syms[0]])] + PrintedLines(m, syms[1..])
  }

  lemma {:induction false} LinesOfPrinted(m: Config, syms: seq<string>)
    requires Reachable(m) && forall s :: s in syms ==> s in m
    ensures Lines(PrintSyms(m, syms)) == PrintedLines(m, syms)
    decreases |syms|
  {
    hide PrintLine, ParseLine;
    if syms == [] {
      assert Lines("") == [""];
    } else {
      assert syms[0] in syms;
      ParsePrintedLine(syms[0], m[syms[0]]);
      LinesCons(PrintLine(syms[0], m[syms[0]]), PrintSyms(m, syms[1..]));
      LinesOfPrinted(m, syms[1..]);
    }
  }

  /** The lines of all texts are those of the texts put under one another. */
  lemma {:induction false} AllLinesJoined(texts: seq<string>)
    requires texts != []
    ensures AllLines(texts) == Lines(Join(texts, "\n"))
  {
    hide Lines;
    if |texts| == 1 {
      assert AllLines(texts[1..]) == [];
    } else {
      AllLinesJoined(texts[1..]);
      LinesConcat(texts[0], Join(texts[1..], "\n"));
    }
  }

  lemma MergedMapLastWins(base: string, fragments: seq<string>, s: string)
    ensures Get(MergedMap(base, fragments), s) == LastValue(AllLines([base] + fragments), s)
  {
    hide ParseLine, Lines;
    assert ([base] + fragments)[1..] == fragments;
    ApplyTextsIsAllLines(map[], [base] + fragments);
    LastWins(AllLines([base] + fragments), s);
  }

  /** The line that gives `sym` the value `val`. */
  predicate Says(line: string, sym: string, val: string) {
    line == if val == "n" then "# CONFIG_" + sym + " is not set" else "CONFIG_" + sym + "=" + val
  }

  /** The line says what the last directive for its symbol says. */
  ghost predicate SaysLast(input: seq<string>, line: string, sym: string) {
    exists i, val :: LastAt(input, i, sym, val) && Says(line, sym, val)
  }

  /** The output has one line for each symbol that some directive of the base or of a
      fragment names, in increasing order of symbols, and the line carries the value
      of the last such directive, with the base and the fragments put under one another. */
  lemma MergeMeansLastWins(base: string, fragments: seq<string>) returns (syms: seq<string>)
    ensures StrictlyIncreasing(syms)
    ensures var input := Lines(Join([base] + fragments, "\n"));
            var output := Lines(Merge(base, fragments));
            && (forall s :: s in syms <==> exists i, val :: LastAt(input, i, s, val))
            && |output| == |syms| + 1 && output[|syms|] == ""
            && forall k :: 0 <= k < |syms| ==> SaysLast(input, output[k], syms[k])
  {
    hide ParseLine, Lines, AllLines, LastValue, LastAt, SaysLast, Merge, Join;
    AllLinesJoined([base] + fragments);
    var input := AllLines([base] + fragments);
    var output := Lines(Merge(base, fragments));
    syms := MergeLines(base, fragments);
    forall s ensures s in syms <==> exists i, val :: LastAt(input, i, s, val) {
      if s in syms { LastValueIff(input, s, LastValue(input, s).value); }
      if i, val :| LastAt(input, i, s, val) { LastValueIff(input, s, val); }
    }
    forall k | 0 <= k < |syms| ensures SaysLast(input, output[k], syms[k]) {
      assert syms[k] in syms;
      LastLine(input, output[k], syms[k]);
    }
  }

  lemma LastLine(input: seq<string>, line: string, sym: string)
    requires LastValue(input, sym).Some? && line == PrintLine(sym, LastValue(input, sym).value)
    ensures SaysLast(input, line, sym)
  {
    hide LastAt, LastValue;
    var val := LastValue(input, sym).value;
    LastValueIff(input, sym, val);
    assert Says(line, sym, val);
  }

  lemma MergeLines(base: string, fragments: seq<string>) returns (syms: seq<string>)
    ensures StrictlyIncreasing(syms)
    ensures var input := AllLines([base] + fragments);
            var output := Lines(Merge(base, fragments));
            && (forall s :: s in syms <==> LastValue(input, s).Some?)
            && |output| == |syms| + 1 && output[|syms|] == ""
            && (forall i :: 0 <= i < |syms| ==>
                  output[i] == PrintLine(syms[i], LastValue(input, syms[i]).value))
  {
    hide PrintLine, ParseLine, Lines, MergedMap, AllLines, LastValue;
    var m := MergedMap(base, fragments);
    var input := AllLines([base] + fragments);
    syms := SortedSet(m.Keys);
    MergedReachable(base, fragments);
    LinesOfPrinted(m, syms);
    forall s ensures Get(m, s) == LastValue(input, s) { MergedMapLastWins(base, fragments, s); }
    assert forall s :: s in syms ==> Get(m, s) == Some(m[s]);
  }

  /** `CONFIG_X=n` and `# CONFIG_X is not set` are the same directive. */
  lemma OffIsN(sym: string)
    requires IsSymbol(sym)
    ensures ParseLine(SetLine(sym, "n")) == ParseLine(OffLine(sym)) == Some(Directive(sym, "n"))
  {
    OffIsWritable(sym);
    MatchSetOf(sym, "n");
    MatchOffOf(sym);
  }

  // ----- printing and reading --------------------------------------------

  /** Printing and reading again is the identity on every map a text can yield. */
  lemma ParseOfPrint(m: Config)
    requires Reachable(m)
    ensures Parse(Print(m)) == m
  {
    ReadPrint(map[], m);
    assert map[] + m == m;
  }

  /** Two merges print the same text exactly when they agree on every symbol. */
  lemma SameTextIffSameMap(b: string, f: seq<string>, c: string, g: seq<string>)
    ensures Merge(b, f) == Merge(c, g) <==> MergedMap(b, f) == MergedMap(c, g)
  {
    MergedReachable(b, f);
    MergedReachable(c, g);
    ParseOfPrint(MergedMap(b, f));
    ParseOfPrint(MergedMap(c, g));
  }

  lemma {:induction false} ApplyTextsConcat(vals: Config, a: seq<string>, b: seq<string>)
    ensures ApplyTexts(vals, a + b) == ApplyTexts(ApplyTexts(vals, a), b)
    decreases |a|
  {
    if a == [] {
      assert a + b == b;
    } else {
      assert (a + b)[1..] == a[1..] + b;
      ApplyTextsConcat(ApplyText(vals, a[0]), a[1..], b);
    }
  }

  /** Merging in stages equals merging at once. */
  lemma MergeInStages(base: string, first: seq<string>, second: seq<string>)
    ensures Merge(Merge(base, first), second) == Merge(base, first + second)
  {
    MergedReachable(base, first);
    ParseOfPrint(MergedMap(base, first));
    ApplyTextsConcat(Parse(base), first, second);
  }

  /** Merging a merged config again changes nothing. */
  lemma MergeIdempotent(base: string, fragments: seq<string>)
    ensures Merge(Merge(base, fragments), []) == Merge(base, fragments)
    ensures Merge(Merge(base, fragments), [Merge(base, fragments)]) == Merge(base, fragments)
  {
    hide Lines, ParseLine, PrintLine;
    MergeInStages(base, fragments, []);
    assert fragments + [] == fragments;
    var m := MergedMap(base, fragments);
    MergedReachable(base, fragments);
    ParseOfPrint(m);
    ReadPrint(m, m);
    assert m + m == m;
    assert ApplyTexts(m, [Print(m)]) == ApplyTexts(ApplyText(m, Print(m)), []);
  }

  // ----- order of fragments ----------------------------------------------

  lemma {:induction false} ApplyLinesIsUpdate(vals: Config, lines: seq<string>)
    ensures ApplyLines(vals, lines) == vals + ApplyLines(map[], lines)
    decreases |lines|
  {
    hide ParseLine;
    if lines != [] {
      var front, last := lines[..|lines| - 1], lines[|lines| - 1];
      assert lines == front + [last];
      ApplySnoc(vals, front, last);
      ApplySnoc(map[], front, last);
      ApplyLinesIsUpdate(vals, front);
    }
  }

  ghost predicate Agree(a: Config, b: Config) {
    forall s :: s in a && s in b ==> a[s] == b[s]
  }

  ghost predicate PairwiseAgree(fragments: seq<string>) {
    forall f, g :: f in fragments && g in fragments ==> Agree(Parse(f), Parse(g))
  }

  /** What fragments that agree on shared symbols add to a map. */
  lemma {:induction false} AgreeingValue(vals: Config, fragments: seq<string>, s: string)
    requires PairwiseAgree(fragments)
    ensures forall f :: f in fragments && s in Parse(f) ==>
              Get(ApplyTexts(vals, fragments), s) == Some(Parse(f)[s])
    ensures (forall f :: f in fragments ==> s !in Parse(f)) ==>
              Get(ApplyTexts(vals, fragments), s) == Get(vals, s)
    decreases |fragments|
  {
    hide Lines, ParseLine;
    if fragments != [] {
      var g, rest := fragments[0], fragments[1..];
      assert forall f :: f in rest ==> f in fragments;
      var vals' := ApplyText(vals, g);
      ApplyLinesIsUpdate(vals, Lines(g));
      AgreeingValue(vals', rest, s);
      assert g in fragments;
      assert forall f :: f in fragments ==> f == g || f in rest;
      if s in Parse(g) && exists f :: f in rest && s in Parse(f) {
        var f :| f in rest && s in Parse(f);
        assert Agree(Parse(f), Parse(g));
      }
    }
  }

  /** Fragments that pairwise agree on shared symbols may be listed in any order, and
      any number of times, over every base: the text is the same. */
  lemma OrderOfAgreeingFragments(base: string, fs: seq<string>, gs: seq<string>)
    requires forall f :: f in fs <==> f in gs
    requires PairwiseAgree(fs)
    ensures Merge(base, fs) == Merge(base, gs)
  {
    assert PairwiseAgree(gs);
    var a, b := MergedMap(base, fs), MergedMap(base, gs);
    forall s ensures Get(a, s) == Get(b, s) {
      AgreeingValue(Parse(base), fs, s);
      AgreeingValue(Parse(base), gs, s);
    }
    SameMap(a, b);
  }

  lemma SameMap(a: Config, b: Config)
    requires forall s :: Get(a, s) == Get(b, s)
    ensures a == b
  {
    forall s ensures s in a <==> s in b {
      assert Get(a, s) == Get(b, s);
    }
    forall s | s in a ensures a[s] == b[s] {
      assert Get(a, s) == Get(b, s);
    }
  }

  /** The agreement is needed: swapping the last two fragments keeps the text if and
      only if the two agree on the symbols they share. */
  lemma SwapKeepsTextIff(base: string, rest: seq<string>, f: string, g: string)
    ensures Merge(base, rest + [f, g]) == Merge(base, rest + [g, f]) <==> Agree(Parse(f), Parse(g))
  {
    hide Merge, Lines, ParseLine;
    var m := MergedMap(base, rest);
    TwoMore(base, rest, f, g);
    TwoMore(base, rest, g, f);
    SameTextIffSameMap(base, rest + [f, g], base, rest + [g, f]);
    var a, b := m + Parse(f) + Parse(g), m + Parse(g) + Parse(f);
    if a == b {
      forall s | s in Parse(f) && s in Parse(g) ensures Parse(f)[s] == Parse(g)[s] {
        assert a[s] == Parse(g)[s] && b[s] == Parse(f)[s];
      }
    }
    assert Agree(Parse(f), Parse(g)) ==> a == b;
  }

  lemma TwoMore(base: string, rest: seq<string>, f: string, g: string)
    ensures MergedMap(base, rest + [f, g]) == MergedMap(base, rest) + Parse(f) + Parse(g)
  {
    hide Lines, ParseLine;
    var m := MergedMap(base, rest);
    ApplyTextsConcat(Parse(base), rest, [f, g]);
    ApplyLinesIsUpdate(m, Lines(f));
    ApplyLinesIsUpdate(m + Parse(f), Lines(g));
    assert [f, g][1..] == [g];
    assert ApplyTexts(m, [f, g]) == ApplyTexts(ApplyText(m, f), [g]);
    assert ApplyTexts(ApplyText(m, f), [g]) == ApplyTexts(ApplyText(ApplyText(m, f), g), []);
  }
}
