/** Names that scripts mention without quotes: when does the shell read a list of names
    as these names? */
module ScriptWords {
  import opened Results
  import opened ByteStrings
  import opened ShellExpansion
  import opened ShellWords

  /** A character that can stand for itself outside quotes. */
  predicate LiteralChar(c: char) { c != ' ' && c != '\t' && c != '\'' && c != '\\' && !Operator(c) }

  /** Every character stands for itself as far as splitting goes. */
  predicate Literal(s: string) {
    s == "" || (LiteralChar(s[0]) && !Dollar(s[0], s[1..]) && Literal(s[1..]))
  }

  /** The shell reads the name as itself, whatever files and users there are. */
  predicate PlainWord(s: string) { s != "" && Literal(s) && Settled(s) }

  predicate PlainWords(names: seq<string>) { forall i :: 0 <= i < |names| ==> PlainWord(names[i]) }

  // ----- plain names are read as they are --------------------------------

  /** Nothing that can follow a word makes its last character special. */
  predicate Ends(rest: string) { rest == "" || rest[0] == ' ' }

  lemma LiteralHead(w: string, rest: string)
    requires w != "" && Literal(w) && Ends(rest)
    ensures LiteralChar(w[0]) && !Dollar(w[0], w[1..] + rest) && Literal(w[1..])
    ensures w + rest == [w[0]] + (w[1..] + rest)
  {
    hide LiteralChar, Dollar, Ends;
    DollarAfter(w[0], w[1..], rest);
  }

  lemma DollarAfter(c: char, tail: string, rest: string)
    requires !Dollar(c, tail) && Ends(rest)
    ensures !Dollar(c, tail + rest)
  {
    hide Parameter;
    if tail == "" {
      assert tail + rest == rest;
      BlankIsNoParameter();
    } else {
      assert (tail + rest)[0] == tail[0];
    }
  }

  lemma BlankIsNoParameter()
    ensures !Parameter(' ')
  {
  }

  lemma ReadOne(c: char, rest: string, mode: Mode)
    requires LiteralChar(c) && !Dollar(c, rest) && !mode.Quoted?
    ensures Read([c] + rest, mode) == Read(rest, Bare(HeldText(mode) + [c], HeldShape(mode) + [c]))
  {
    hide Dollar, Operator;
    assert ([c] + rest)[0] == c && ([c] + rest)[1..] == rest;
  }

  lemma {:induction false} ReadLiteral(w: string, text: string, shape: string, rest: string)
    requires Literal(w) && Ends(rest)
    ensures Read(w + rest, Bare(text, shape)) == Read(rest, Bare(text + w, shape + w))
  {
    hide Read, Literal, LiteralChar, Dollar, Ends;
    if w == "" {
      assert w + rest == rest && text + w == text && shape + w == shape;
    } else {
      LiteralHead(w, rest);
      ReadOne(w[0], w[1..] + rest, Bare(text, shape));
      ReadLiteral(w[1..], text + [w[0]], shape + [w[0]], rest);
      assert (text + [w[0]]) + w[1..] == text + w && (shape + [w[0]]) + w[1..] == shape + w;
    }
  }

  lemma ReadWord(w: string, rest: string)
    requires w != "" && Literal(w) && Ends(rest)
    ensures Read(w + rest, Between) == Read(rest, Bare(w, w))
  {
    hide Read, Literal, LiteralChar, Dollar, Ends;
    LiteralHead(w, rest);
    ReadOne(w[0], w[1..] + rest, Between);
    ReadLiteral(w[1..], "" + [w[0]], "" + [w[0]], rest);
    assert ("" + [w[0]]) + w[1..] == w;
  }

  function OwnFields(names: seq<string>): (r: seq<Field>)
    ensures |r| == |names| && forall i :: 0 <= i < |r| ==> r[i] == Field(names[i], names[i])
  {
    seq(|names|, i requires 0 <= i < |names| => Field(names[i], names[i]))
  }

  lemma JoinFirst(names: seq<string>)
    requires names != []
    ensures Join(names, " ") == names[0] + (if |names| == 1 then "" else " " + Join(names[1..], " "))
  {
    if |names| > 1 {
      assert Join(names, " ") == names[0] + " " + Join(names[1..], " ");
      assert names[0] + " " + Join(names[1..], " ") == names[0] + (" " + Join(names[1..], " "));
    }
  }

  lemma ReadBlank(rest: string, text: string, shape: string)
    ensures Read(" " + rest, Bare(text, shape)) == Prepend(Field(text, shape), Read(rest, Between))
    ensures Read("", Bare(text, shape)) == Some([Field(text, shape)])
  {
    assert (" " + rest)[0] == ' ' && (" " + rest)[1..] == rest;
  }

  lemma {:induction false} FieldsOfNames(names: seq<string>)
    requires forall i :: 0 <= i < |names| ==> names[i] != "" && Literal(names[i])
    ensures Read(Join(names, " "), Between) == Some(OwnFields(names))
  {
    hide Literal, Read, Join;
    if names == [] {
      NoNames();
    } else {
      var rest := Join(names[1..], " ");
      JoinFirst(names);
      ReadWord(names[0], if |names| == 1 then "" else " " + rest);
      ReadBlank(rest, names[0], names[0]);
      if |names| == 1 {
        assert OwnFields(names) == [Field(names[0], names[0])];
      } else {
        FieldsOfNames(names[1..]);
        assert OwnFields(names) == [Field(names[0], names[0])] + OwnFields(names[1..]);
      }
    }
  }

  lemma NoNames()
    ensures Read(Join([], " "), Between) == Some([])
  {
  }

  lemma WordsOfPlain(names: seq<string>)
    requires PlainWords(names)
    ensures Words(Join(names, " ")) == Some(names)
  {
    hide Read, Join, Literal, Settled;
    forall i | 0 <= i < |names| ensures names[i] != "" && Literal(names[i]) && Settled(names[i]) {
      assert PlainWord(names[i]);
    }
    FieldsOfNames(names);
    assert Texts(OwnFields(names)) == names;
  }

  // ----- other names are not ---------------------------------------------

  /** The length of a list of words, one separator each. */
  function Cost(fields: seq<Field>): nat {
    if fields == [] then 0 else |fields[0].text| + 1 + Cost(fields[1..])
  }

  lemma {:induction false} CostOfJoin(names: seq<string>, fields: seq<Field>)
    requires names != [] && names == Texts(fields)
    ensures Cost(fields) == |Join(names, " ")| + 1
  {
    if |names| > 1 {
      assert names[1..] == Texts(fields[1..]);
      CostOfJoin(names[1..], fields[1..]);
    }
  }

  /** What a line of `n` more characters can yield with `mode` held. */
  function Room(n: nat, mode: Mode): nat {
    match mode
    case Between => n + 1
    case Bare(w, _) => n + |w| + 1
    case Quoted(w, _) => n + |w|
  }

  predicate OwnField(f: Field) { f.text != "" && f.shape == f.text && Literal(f.text) }

  predicate AllOwn(fields: seq<Field>) { forall i :: 0 <= i < |fields| ==> OwnField(fields[i]) }

  /** The fields hold what was held and then a beginning of the line, literally. */
  predicate Grew(s: string, mode: Mode, fields: seq<Field>)
    requires !mode.Quoted?
  {
    match mode
    case Between => AllOwn(fields)
    case Bare(w, h) =>
      && fields != [] && w <= fields[0].text && h <= fields[0].shape
      && fields[0].text[|w|..] == fields[0].shape[|h|..] && fields[0].text[|w|..] <= s
      && Literal(fields[0].text[|w|..]) && AllOwn(fields[1..])
  }

  lemma BlankCosts(s: string, mode: Mode, fields: seq<Field>)
    requires s != "" && (s[0] == ' ' || s[0] == '\t') && !mode.Quoted?
    requires Read(s, mode) == Some(fields)
    requires forall fs :: Read(s[1..], Between) == Some(fs) ==> fs == [] || Cost(fs) <= |s|
    requires forall fs :: Read(s[1..], Between) == Some(fs) && Cost(fs) == |s| ==> AllOwn(fs)
    ensures fields == [] || Cost(fields) <= Room(|s|, mode)
    ensures fields != [] && Cost(fields) == Room(|s|, mode) ==> Grew(s, mode, fields)
  {
    hide AllOwn, Literal;
    if mode.Bare? {
      var fs := Read(s[1..], Between).value;
      assert fields == [Field(mode.text, mode.shape)] + fs && fields[1..] == fs;
      assert Literal("") by { EmptyIsLiteral(); }
      assert AllOwn([]) by { NothingOwn(); }
    }
  }

  lemma EmptyIsLiteral()
    ensures Literal("")
  {
  }

  lemma NothingOwn()
    ensures AllOwn([])
  {
  }

  /** Reading never lengthens a line, and keeps its length only if every character
      stands for itself. */
  lemma {:induction false} ReadingCosts(s: string, mode: Mode, fields: seq<Field>)
    requires Read(s, mode) == Some(fields)
    ensures fields == [] || Cost(fields) <= Room(|s|, mode)
    ensures fields != [] && !mode.Quoted? && Cost(fields) == Room(|s|, mode) ==> Grew(s, mode, fields)
    ensures !mode.Between? ==> fields != []
    decreases |s|
  {
    hide Literal, AllOwn, Operator, Parameter;
    if s == "" {
      EmptyIsLiteral();
      NothingOwn();
      if mode.Bare? { assert fields == [Field(mode.text, mode.shape)] && fields[1..] == []; }
    } else {
      var c, rest, w, h := s[0], s[1..], HeldText(mode), HeldShape(mode);
      if mode.Quoted? {
        ReadingCosts(rest, if c == '\'' then Bare(w, h) else Quoted(w + [c], h), fields);
      } else if c == ' ' || c == '\t' {
        forall fs | Read(rest, Between) == Some(fs)
          ensures fs == [] || Cost(fs) <= |s|
          ensures Cost(fs) == |s| ==> AllOwn(fs)
        {
          ReadingCosts(rest, Between, fs);
          NothingOwn();
        }
        BlankCosts(s, mode, fields);
      } else if c == '\'' {
        ReadingCosts(rest, Quoted(w, Marked(h)), fields);
      } else if c == '\\' {
        if rest[0] == '\n' {
          ReadingCosts(rest[1..], mode, fields);
        } else {
          ReadingCosts(rest[1..], Bare(w + [rest[0]], Marked(h)), fields);
        }
      } else {
        ReadingCosts(rest, Bare(w + [c], h + [c]), fields);
        if Cost(fields) == Room(|s|, mode) { GrowsByOne(s, mode, fields); }
      }
    }
  }

  lemma GrowsByOne(s: string, mode: Mode, fields: seq<Field>)
    requires s != "" && !mode.Quoted? && LiteralChar(s[0]) && !Dollar(s[0], s[1..])
    requires Grew(s[1..], Bare(HeldText(mode) + [s[0]], HeldShape(mode) + [s[0]]), fields)
    ensures Grew(s, mode, fields)
  {
    hide AllOwn, Operator, Parameter;
    var w, h, c := HeldText(mode), HeldShape(mode), s[0];
    var text, shape := fields[0].text, fields[0].shape;
    var after := text[|w| + 1..];
    assert text[|w|] == (w + [c])[|w|] == c && shape[|h|] == (h + [c])[|h|] == c;
    var grown := text[|w|..];
    assert grown == [c] + after && shape[|h|..] == [c] + shape[|h| + 1..];
    assert grown[1..] == after && s == [c] + s[1..];
    assert after != "" ==> after[0] == s[1..][0];
    if mode.Between? {
      assert text == grown && shape == grown;
      FirstOwn(fields);
    }
  }

  lemma FirstOwn(fields: seq<Field>)
    requires fields != [] && OwnField(fields[0]) && AllOwn(fields[1..])
    ensures AllOwn(fields)
  {
    forall i | 0 <= i < |fields| ensures OwnField(fields[i]) {
      if i > 0 { assert fields[i] == fields[1..][i - 1]; }
    }
  }

  lemma NamesArePlain(names: seq<string>)
    requires Words(Join(names, " ")) == Some(names)
    ensures PlainWords(names)
  {
    hide Read, Join, Literal, Settled, Cost;
    var fields := Read(Join(names, " "), Between).value;
    if names != [] {
      CostOfJoin(names, fields);
      ReadingCosts(Join(names, " "), Between, fields);
      forall i | 0 <= i < |names| ensures PlainWord(names[i]) {
        assert OwnField(fields[i]) && Settled(fields[i].shape);
      }
    }
  }

  /** The shell reads names joined by blanks as these names, whatever files and users
      there are, if and only if each of them is a plain word. */
  lemma WordsOfNamesIff(names: seq<string>)
    ensures Words(Join(names, " ")) == Some(names) <==> PlainWords(names)
  {
    hide Words, Join, PlainWords;
    if PlainWords(names) { WordsOfPlain(names); }
    if Words(Join(names, " ")) == Some(names) { NamesArePlain(names); }
  }

  /** A name that is open to pathname or tilde expansion: its reading stays as long as the
      files leave it alone, and there is a state in which they do not. */
  lemma OpenNames(name: string, files: Files)
    requires name != "" && Literal(name) && !Broken(name) && Open(name)
    ensures (files(Field(name, name)) == [] || files(Field(name, name)) == [name]) ==>
              WordsIn(name, files) == Some([name])
    ensures exists other: Files :: WordsIn(name, other) != Some([name])
  {
    hide Literal, Broken, Open, Read;
    FieldsOfNames([name]);
    assert Join([name], " ") == name;
    var f := Field(name, name);
    assert OwnFields([name]) == [f] && [f][1..] == [];
    assert Spread([f], files) == (if files(f) != [] then files(f) else [name]) + Spread([], files);
    assert [name] + Spread([], files) == [name];
    var twice: Files := (f: Field) => [f.text, f.text];
    assert Spread([f], twice) == [name, name] + Spread([], twice);
    assert |Spread([f], twice)| == 2;
    assert WordsIn(name, twice) != Some([name]);
  }

  // ----- putting names together ------------------------------------------

  /** A character that splitting and expansion do not look at, nor QEMU's options. */
  predicate OrdinaryChar(c: char) { LiteralChar(c) && Inert(c) && c != '$' && c != ',' && c != '=' }

  predicate Ordinary(s: string) { forall c :: c in s ==> OrdinaryChar(c) }

  /** After an ordinary beginning the name is read as itself. */
  predicate PlainTail(s: string) {
    && Literal(s) && !Expands(s, false) && '*' !in s && '?' !in s
    && forall i, j :: 0 <= i < |s| && 0 <= j < |s| ==> !Bracket(s, i, j)
  }

  lemma OrdinaryConcat(a: string, b: string)
    ensures Ordinary(a + b) <==> Ordinary(a) && Ordinary(b)
  {
    hide OrdinaryChar;
    if Ordinary(a + b) {
      forall c | c in a ensures OrdinaryChar(c) { assert c in a + b; }
      forall c | c in b ensures OrdinaryChar(c) { assert c in a + b; }
    }
  }

  lemma {:induction false} LiteralAfter(p: string, s: string)
    requires Ordinary(p)
    ensures Literal(p + s) <==> Literal(s)
    decreases |p|
  {
    if p == "" {
      assert p + s == s;
    } else {
      assert OrdinaryChar(p[0]) && Ordinary(p[1..]) by { OrdinaryConcat([p[0]], p[1..]); assert [p[0]] + p[1..] == p; }
      assert (p + s)[0] == p[0] && (p + s)[1..] == p[1..] + s;
      LiteralAfter(p[1..], s);
    }
  }

  lemma BracketAfter(p: string, s: string)
    requires Ordinary(p)
    ensures (exists i, j :: 0 <= i < |p + s| && 0 <= j < |p + s| && Bracket(p + s, i, j)) <==>
            exists i, j :: 0 <= i < |s| && 0 <= j < |s| && Bracket(s, i, j)
  {
    var w := p + s;
    assert forall k :: 0 <= k < |p| ==> w[k] in p;
    assert '[' !in p;
    forall i, j | 0 <= i < |w| && 0 <= j < |w| && Bracket(w, i, j)
      ensures exists i, j :: 0 <= i < |s| && 0 <= j < |s| && Bracket(s, i, j)
    {
      assert forall k :: |p| <= k < |w| ==> w[k] == s[k - |p|];
      assert Bracket(s, i - |p|, j - |p|) by {
        forall k | i - |p| < k < j - |p| ensures s[k] != '/' { assert w[k + |p|] == s[k]; }
      }
    }
    forall i, j | 0 <= i < |s| && 0 <= j < |s| && Bracket(s, i, j)
      ensures exists i, j :: 0 <= i < |w| && 0 <= j < |w| && Bracket(w, i, j)
    {
      assert forall k :: |p| <= k < |w| ==> w[k] == s[k - |p|];
      assert Bracket(w, i + |p|, j + |p|) by {
        forall k | i + |p| < k < j + |p| ensures w[k] != '/' { assert w[k] == s[k - |p|]; }
      }
    }
  }

  /** An ordinary beginning takes no part in what the shell makes of a name; with a dash or
      a slash in it the name is no assignment either. */
  lemma WordAfterIff(p: string, s: string)
    requires p != "" && Ordinary(p) && (s == "" || '-' in p || '/' in p)
    ensures PlainWord(p + s) <==> PlainTail(s)
  {
    hide Literal, Expands, Bracket;
    LiteralAfter(p, s);
    BracketAfter(p, s);
    assert forall c :: c in p ==> Inert(c);
    InertPrefix(p, s);
    NoAssignment(p, s);
    assert (p + s)[0] == p[0] && p[0] in p;
    assert forall c :: c in p + s <==> c in p || c in s;
  }

  lemma OrdinaryWord(s: string)
    requires s != "" && Ordinary(s)
    ensures PlainWord(s)
  {
    hide PlainWord, Ordinary;
    WordAfterIff(s, "");
    assert s + "" == s;
    EmptyTail();
  }

  lemma EmptyTail()
    ensures PlainTail("")
  {
  }

  lemma {:induction false} LiteralBefore(s: string, t: string)
    requires Literal(s) && Ordinary(t) && t != "" && t[0] == '/'
    ensures Literal(s + t)
    decreases |s|
  {
    if s == "" {
      assert s + t == t;
      LiteralAfter(t, "");
      assert t + "" == t;
    } else {
      assert (s + t)[0] == s[0] && (s + t)[1..] == s[1..] + t;
      assert s[1..] == "" ==> s[1..] + t == t;
      assert s[1..] != "" ==> (s[1..] + t)[0] == s[1];
      LiteralBefore(s[1..], t);
    }
  }

  /** A path below a plain word is one. */
  lemma PathBelow(s: string, t: string)
    requires PlainWord(s) && Ordinary(t) && t != "" && t[0] == '/'
    ensures PlainWord(s + t)
  {
    hide Literal, Expands;
    LiteralBefore(s, t);
    assert '}' !in t && ']' !in t && '*' !in t && '?' !in t;
    ExpandsWithSuffix(s, t, true);
    HomeBefore(s, t);
    var w := s + t;
    assert w[0] == s[0] && forall c :: c in w <==> c in s || c in t;
    assert forall k :: |s| <= k < |w| ==> w[k] in t;
    forall i, j | 0 <= i < |w| && 0 <= j < |w| && Bracket(w, i, j) ensures Bracket(s, i, j) {
      assert forall k :: 0 <= k < |s| ==> w[k] == s[k];
      forall k | i < k < j ensures s[k] != '/' { assert w[k] == s[k]; }
    }
  }
}
