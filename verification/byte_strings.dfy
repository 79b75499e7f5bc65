/** Go strings are byte strings.  Here a `string` holds one `char` per byte; no
    definition or proof relies on an upper bound for a `char`, so every byte
    string is covered.  The module has the library operations the repository
    uses: byte order and sorting, splitting and cutting at newlines, trimming. */
module ByteStrings {

  // ----- byte order ------------------------------------------------------

  /** The order of Go's `<` on strings and of `sort.Strings`. */
  predicate LexLess(a: string, b: string) {
    b != [] && (a == [] || a[0] < b[0] || (a[0] == b[0] && LexLess(a[1..], b[1..])))
  }

  lemma {:induction false} LexIrreflexive(a: string)
    ensures !LexLess(a, a)
  {
    if a != [] { LexIrreflexive(a[1..]); }
  }

  lemma {:induction false} LexTransitive(a: string, b: string, c: string)
    requires LexLess(a, b) && LexLess(b, c)
    ensures LexLess(a, c)
  {
    if a != [] && a[0] == b[0] == c[0] { LexTransitive(a[1..], b[1..], c[1..]); }
  }

  lemma {:induction false} LexTotal(a: string, b: string)
    ensures LexLess(a, b) || a == b || LexLess(b, a)
  {
    if a != [] && b != [] && a[0] == b[0] {
      LexTotal(a[1..], b[1..]);
      assert a == [a[0]] + a[1..] && b == [b[0]] + b[1..];
    }
  }

  /** On strings of equal length the last byte only breaks ties. */
  lemma {:induction false} LexSnoc(a: string, b: string, x: char, y: char)
    requires |a| == |b|
    ensures LexLess(a + [x], b + [y]) <==> LexLess(a, b) || (a == b && x < y)
  {
    if a == [] {
      assert a + [x] == [x] && b + [y] == [y];
    } else {
      assert (a + [x])[1..] == a[1..] + [x] && (b + [y])[1..] == b[1..] + [y];
      LexSnoc(a[1..], b[1..], x, y);
      assert a == [a[0]] + a[1..] && b == [b[0]] + b[1..];
    }
  }

  // ----- sorting ---------------------------------------------------------

  predicate StrictlyIncreasing(s: seq<string>) {
    forall i, j :: 0 <= i < j < |s| ==> LexLess(s[i], s[j])
  }

  function Insert(x: string, s: seq<string>): (r: seq<string>)
    requires StrictlyIncreasing(s) && x !in s
    ensures StrictlyIncreasing(r) && |r| == |s| + 1
    ensures forall y :: y in r <==> y == x || y in s
  {
    if s == [] then [x]
    else if LexLess(s[0], x) then
      var tail := Insert(x, s[1..]);
      assert forall y :: y in tail ==> LexLess(s[0], y);
      [s[0]] + tail
    else
      LexTotal(x, s[0]);
      assert LexLess(x, s[0]);
      assert forall y | y in s :: LexLess(x, y) by {
        forall y | y in s ensures LexLess(x, y) {
          if y != s[0] { LexTransitive(x, s[0], y); }
        }
      }
      [x] + s
  }

  predicate NoDuplicates<T(==)>(s: seq<T>) {
    forall i, j :: 0 <= i < j < |s| ==> s[i] != s[j]
  }

  /** `sort.Strings` on a slice without repeated elements. */
  function Sort(s: seq<string>): (r: seq<string>)
    requires NoDuplicates(s)
    ensures StrictlyIncreasing(r) && |r| == |s|
    ensures forall y :: y in r <==> y in s
  {
    if s == [] then [] else Insert(s[0], Sort(s[1..]))
  }

  /** The elements of a set in increasing order. */
  ghost function SortedSet(s: set<string>): (r: seq<string>)
    ensures StrictlyIncreasing(r)
    ensures forall y :: y in r <==> y in s
  {
    if s == {} then []
    else
      var x :| x in s;
      Insert(x, SortedSet(s - {x}))
  }

  /** A set has only one increasing enumeration. */
  lemma {:induction false} IncreasingUnique(a: seq<string>, b: seq<string>)
    requires StrictlyIncreasing(a) && StrictlyIncreasing(b)
    requires forall y :: y in a <==> y in b
    ensures a == b
  {
    assert a != [] ==> a[0] in b;
    assert b != [] ==> b[0] in a;
    if a != [] {
      if a[0] != b[0] {
        assert LexLess(b[0], a[0]) && LexLess(a[0], b[0]);
        LexTransitive(a[0], b[0], a[0]);
        LexIrreflexive(a[0]);
        assert false;
      }
      LexIrreflexive(a[0]);
      forall y ensures y in a[1..] <==> y in b[1..] {
        if y in a[1..] { assert y in b && LexLess(a[0], y); }
        if y in b[1..] { assert y in a && LexLess(b[0], y); }
      }
      IncreasingUnique(a[1..], b[1..]);
      assert a == [a[0]] + a[1..] && b == [b[0]] + b[1..];
    }
  }

  /** The keys of a map, in the arbitrary order in which Go ranges over it. */
  method KeysOf<V>(m: map<string, V>) returns (keys: seq<string>)
    ensures NoDuplicates(keys) && forall k :: k in keys <==> k in m
  {
    keys := [];
    var rest := m.Keys;
    while rest != {}
      invariant rest <= m.Keys && NoDuplicates(keys)
      invariant forall k :: k in keys <==> k in m && k !in rest
      decreases |rest|
    {
      var k :| k in rest;
      keys := keys + [k];
      rest := rest - {k};
    }
  }

  // ----- concatenation, splitting, cutting -------------------------------

  /** `strings.Join`. */
  function Join(parts: seq<string>, sep: string): string {
    if parts == [] then ""
    else if |parts| == 1 then parts[0]
    else parts[0] + sep + Join(parts[1..], sep)
  }

  predicate HasPrefix(s: string, p: string) {
    |p| <= |s| && s[..|p|] == p
  }

  predicate HasSuffix(s: string, p: string) {
    |p| <= |s| && s[|s| - |p|..] == p
  }

  /** Position of the first `c`, or `|s|`. */
  function IndexOf(s: string, c: char): (i: nat)
    ensures i <= |s|
    ensures forall k :: 0 <= k < i ==> s[k] != c
    ensures i < |s| ==> s[i] == c
  {
    if s == [] || s[0] == c then 0 else 1 + IndexOf(s[1..], c)
  }

  lemma IndexOfPrefix(p: string, c: char, rest: string)
    requires c !in p
    ensures IndexOf(p + [c] + rest, c) == |p|
  {
    var s := p + [c] + rest;
    assert s[|p|] == c;
    assert forall k :: 0 <= k < |p| ==> s[k] == p[k];
  }

  /** `strings.Split(s, "\n")`: the pieces between newlines, never empty. */
  function Lines(s: string): (r: seq<string>)
    ensures |r| > 0
    ensures forall l :: l in r ==> '\n' !in l
    decreases |s|
  {
    var i := IndexOf(s, '\n');
    if i == |s| then [s] else [s[..i]] + Lines(s[i + 1..])
  }

  /** The pieces are the whole text, cut at its newlines. */
  lemma {:induction false} LinesJoin(s: string)
    ensures Join(Lines(s), "\n") == s
    decreases |s|
  {
    var i := IndexOf(s, '\n');
    if i < |s| {
      LinesJoin(s[i + 1..]);
      assert Lines(s)[1..] == Lines(s[i + 1..]);
      assert s == s[..i] + "\n" + s[i + 1..];
    }
  }

  lemma {:induction false} LinesConcat(a: string, b: string)
    ensures Lines(a + "\n" + b) == Lines(a) + Lines(b)
    decreases |a|
  {
    var s, i := a + "\n" + b, IndexOf(a, '\n');
    if i == |a| {
      LinesCons(a, b);
    } else {
      var rest := a[i + 1..];
      assert a == a[..i] + "\n" + rest;
      assert s == a[..i] + "\n" + (rest + "\n" + b);
      LinesCons(a[..i], rest + "\n" + b);
      LinesConcat(rest, b);
      assert [a[..i]] + (Lines(rest) + Lines(b)) == ([a[..i]] + Lines(rest)) + Lines(b);
    }
  }

  lemma LinesCons(line: string, rest: string)
    requires '\n' !in line
    ensures Lines(line + "\n" + rest) == [line] + Lines(rest)
  {
    var s := line + "\n" + rest;
    IndexOfPrefix(line, '\n', rest);
    assert s == line + ['\n'] + rest;
    assert s[..|line|] == line && s[|line| + 1..] == rest;
  }

  // ----- trimming --------------------------------------------------------

  predicate AsciiSpace(c: char) {
    c == ' ' || c == '\t' || c == '\n' || c == '\r' || c == '\U{B}' || c == '\U{C}'
  }

  /** Two-byte UTF-8 encodings of white space: U+0085 and U+00A0. */
  predicate Space2(a: char, b: char) {
    a == '\U{C2}' && (b == '\U{85}' || b == '\U{A0}')
  }

  /** Three-byte UTF-8 encodings of white space: U+1680, U+2000 to U+200A,
      U+2028, U+2029, U+202F, U+205F, U+3000. */
  predicate Space3(a: char, b: char, c: char) {
    || (a == '\U{E1}' && b == '\U{9A}' && c == '\U{80}')
    || (a == '\U{E2}' && b == '\U{80}' &&
        ('\U{80}' <= c <= '\U{8A}' || c == '\U{A8}' || c == '\U{A9}' || c == '\U{AF}'))
    || (a == '\U{E2}' && b == '\U{81}' && c == '\U{9F}')
    || (a == '\U{E3}' && b == '\U{80}' && c == '\U{80}')
  }

  /** Number of bytes of a white-space rune at the start of `s`; 0 for none. */
  function LeadingSpace(s: string): (n: nat)
    ensures n <= |s|
  {
    if |s| >= 1 && AsciiSpace(s[0]) then 1
    else if |s| >= 2 && Space2(s[0], s[1]) then 2
    else if |s| >= 3 && Space3(s[0], s[1], s[2]) then 3
    else 0
  }

  /** Number of bytes of a white-space rune at the end of `s`; 0 for none. */
  function TrailingSpace(s: string): (n: nat)
    ensures n <= |s|
  {
    var k := |s|;
    if k >= 1 && AsciiSpace(s[k - 1]) then 1
    else if k >= 2 && Space2(s[k - 2], s[k - 1]) then 2
    else if k >= 3 && Space3(s[k - 3], s[k - 2], s[k - 1]) then 3
    else 0
  }

  function TrimLeft(s: string): (r: string)
    ensures LeadingSpace(r) == 0
    ensures forall c :: c in r ==> c in s
  {
    if LeadingSpace(s) == 0 then s else TrimLeft(s[LeadingSpace(s)..])
  }

  function TrimRight(s: string): (r: string)
    ensures TrailingSpace(r) == 0 && r <= s
  {
    if TrailingSpace(s) == 0 then s else TrimRight(s[..|s| - TrailingSpace(s)])
  }

  /** `strings.TrimSpace`. */
  function TrimSpace(s: string): (r: string)
    ensures LeadingSpace(r) == 0 && TrailingSpace(r) == 0
    ensures forall c :: c in r ==> c in s
  {
    var l := TrimLeft(s);
    var r := TrimRight(l);
    assert forall i :: 0 <= i < |r| ==> r[i] == l[i];
    r
  }

  /** White space only. */
  predicate White(s: string) {
    s == "" || (LeadingSpace(s) > 0 && White(s[LeadingSpace(s)..]))
  }

  lemma {:induction false} WhiteConcat(a: string, b: string)
    requires White(a) && White(b)
    ensures White(a + b)
    decreases |a|
  {
    if a == "" {
      assert a + b == b;
    } else {
      var k := LeadingSpace(a);
      assert LeadingSpace(a + b) == k && (a + b)[k..] == a[k..] + b;
      WhiteConcat(a[k..], b);
    }
  }

  lemma {:induction false} TrimLeftTakesWhite(s: string) returns (a: string)
    ensures s == a + TrimLeft(s) && White(a)
    decreases |s|
  {
    hide LeadingSpace, White;
    var k := LeadingSpace(s);
    if k == 0 {
      a := "";
      NothingIsWhite();
    } else {
      var rest := TrimLeftTakesWhite(s[k..]);
      a := s[..k] + rest;
      FirstIsWhite(s);
      WhiteConcat(s[..k], rest);
      assert s == s[..k] + s[k..];
    }
  }

  lemma FirstIsWhite(s: string)
    requires LeadingSpace(s) > 0
    ensures White(s[..LeadingSpace(s)])
  {
    var k := LeadingSpace(s);
    assert LeadingSpace(s[..k]) == k && s[..k][k..] == "";
  }

  lemma {:induction false} TrimRightTakesWhite(s: string)
    ensures White(s[|TrimRight(s)|..])
    decreases |s|
  {
    hide TrailingSpace, LeadingSpace, White;
    var k, r := TrailingSpace(s), TrimRight(s);
    if k == 0 {
      assert s[|r|..] == "" && White("") by { NothingIsWhite(); }
    } else {
      var front, last := s[..|s| - k], s[|s| - k..];
      TrimRightTakesWhite(front);
      LastIsWhite(s);
      WhiteConcat(front[|r|..], last);
      assert front[|r|..] + last == s[|r|..];
    }
  }

  lemma NothingIsWhite()
    ensures White("")
  {
  }

  lemma LastIsWhite(s: string)
    requires TrailingSpace(s) > 0
    ensures White(s[|s| - TrailingSpace(s)..])
  {
    var k := TrailingSpace(s);
    var last := s[|s| - k..];
    assert LeadingSpace(last) == k && last[k..] == "";
  }

  /** Trimming takes white space from both ends and nothing else. */
  lemma TrimTakesWhite(s: string) returns (a: string, b: string)
    ensures s == a + TrimSpace(s) + b && White(a) && White(b)
  {
    hide White, TrimLeft, TrimRight, LeadingSpace, TrailingSpace;
    var l := TrimLeft(s);
    var r := TrimRight(l);
    a := TrimLeftTakesWhite(s);
    b := l[|r|..];
    TrimRightTakesWhite(l);
    assert l == r + b && s == a + l;
  }

  /** Trimming leaves a string alone exactly when it has no space at either end. */
  lemma TrimStable(s: string)
    ensures TrimSpace(s) == s <==> LeadingSpace(s) == 0 && TrailingSpace(s) == 0
  {
    if LeadingSpace(s) == 0 && TrailingSpace(s) == 0 {
      assert TrimLeft(s) == s;
    }
  }

  lemma TrimIdempotent(s: string)
    ensures TrimSpace(TrimSpace(s)) == TrimSpace(s)
  {
    TrimStable(TrimSpace(s));
  }

  /** A string with printable ASCII at both ends is not changed by trimming. */
  lemma TrimPlain(s: string)
    requires s != "" && '!' <= s[0] <= '~' && '!' <= s[|s| - 1] <= '~'
    ensures TrimSpace(s) == s
  {
    TrimStable(s);
  }
}
