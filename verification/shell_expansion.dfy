/** What the shell makes of a word after splitting: comments, brace expansion, and the
    expansions whose outcome depends on files and users. A word is looked at in its
    unquoted characters; a quoted part shows as one NUL. */
module ShellExpansion {
  import opened Results
  import opened Decimal

  /** A quoted part of a word. */
  const NUL: char := '\U{0}'

  predicate Letter(c: char) { 'a' <= c <= 'z' || 'A' <= c <= 'Z' }

  // ----- brace expansion (bash) ------------------------------------------

  /** Two dots that can stand in a sequence: not before the closing brace. */
  predicate TwoDots(s: string) { |s| >= 2 && s[0] == '.' && s[1] == '.' && !(|s| > 2 && s[2] == '}') }

  /** The length up to the brace that closes one opened just before `s`, 0 for none. It
      closes after a comma or two dots outside inner braces. */
  function Closing(s: string, level: nat, parted: bool): (k: nat)
    ensures k <= |s|
    decreases |s|
  {
    if s == "" then 0
    else if s[0] == '}' && level == 0 && parted then 1
    else
      var inner := if s[0] == '{' then level + 1 else if s[0] == '}' && level > 0 then level - 1 else level;
      var k := Closing(s[1..], inner, parted || (level == 0 && (s[0] == ',' || TwoDots(s))));
      if k == 0 then 0 else k + 1
  }

  /** Position of the first two dots, or the length. */
  function DotsAt(s: string): (i: nat)
    ensures i <= |s|
  {
    if s == "" then 0
    else if |s| >= 2 && s[0] == '.' && s[1] == '.' then 0
    else 1 + DotsAt(s[1..])
  }

  function Number(s: string): Option<int> { Atoi(s) }

  predicate OneLetter(s: string) { |s| == 1 && Letter(s[0]) }

  function Abs(x: int): nat { if x < 0 then -x else x }

  /** How many terms a sequence of numbers has, at most, to be expanded. */
  const MaxTerms: int := 0x7fff_fffd

  /** `x..y` or `x..y..step`, of numbers or of letters. */
  predicate Sequence(s: string) {
    var i := DotsAt(s);
    i < |s| &&
    var x, after := s[..i], if i + 2 <= |s| then s[i + 2..] else "";
    var j := DotsAt(after);
    var y := after[..j];
    var step := if j + 2 <= |after| then Number(after[j + 2..]) else Some(1);
    && step.Some?
    && (|| (OneLetter(x) && OneLetter(y))
        || (Number(x).Some? && Number(y).Some?
            && Abs(Number(y).value - Number(x).value) / (if step.value == 0 then 1 else Abs(step.value)) < MaxTerms))
  }

  /** Some brace in the word opens an expansion. An opening brace at the start with its
      closing one right after it is passed over, and so is one without a partner; a
      sequence that is none is left as it is. */
  predicate Expands(s: string, start: bool)
    decreases |s|
  {
    if s == "" then false
    else if s[0] == '{' && !(start && |s| > 1 && s[1] == '}') then
      var k := Closing(s[1..], 0, false);
      if k == 0 then Expands(s[1..], false)
      else
        var inside := s[1..k];
        ',' in inside || Sequence(inside) || Expands(s[k + 1..], true)
    else Expands(s[1..], false)
  }

  // ----- the other expansions --------------------------------------------

  /** A bracket expression within one path component. */
  predicate Bracket(s: string, i: int, j: int) {
    && 0 <= i && i + 2 <= j < |s| && s[i] == '[' && s[j] == ']' && (j == i + 2 ==> s[i + 1] != '!' && s[i + 1] != '^')
    && forall k :: i < k < j ==> s[k] != '/'
  }

  /** The name that a word could assign to, and the bracket that closes a subscript. */
  predicate NameChar(c: char) { Letter(c) || '0' <= c <= '9' || c == '_' }

  function NameEnd(s: string): (n: nat)
    ensures n <= |s|
    ensures forall i :: 0 <= i < n ==> NameChar(s[i])
    ensures n < |s| ==> !NameChar(s[n])
  {
    if s == "" || !NameChar(s[0]) then 0 else 1 + NameEnd(s[1..])
  }

  function Matched(s: string, level: nat): (k: nat)
    ensures k <= |s|
    decreases |s|
  {
    if s == "" then 0
    else if s[0] == ']' && level == 0 then 1
    else
      var k := Matched(s[1..], if s[0] == '[' then level + 1 else if s[0] == ']' then level - 1 else level);
      if k == 0 then 0 else k + 1
  }

  /** The length of `name=`, `name[subscript]=` and the like at the start of a word, 0 if
      it does not start like an assignment. */
  function LeftSide(s: string): (e: nat)
    ensures e <= |s| && (e > 0 ==> s[e - 1] == '=')
  {
    var n := NameEnd(s);
    if n == 0 || '0' <= s[0] <= '9' then 0
    else
      var subscript := n < |s| && s[n] == '[';
      var k := if subscript then Matched(s[n + 1..], 0) else 0;
      if subscript && k == 0 then 0
      else
        var m := if subscript then n + 1 + k else n;
        var e := if m < |s| && s[m] == '+' then m + 1 else m;
        if e < |s| && s[e] == '=' then e + 1 else 0
  }

  /** bash puts homes for tildes in words that look like assignments, too: after the
      equals sign and after colons. */
  predicate HomeIn(s: string) {
    var e := LeftSide(s);
    e > 0 && exists j :: e <= j < |s| && s[j] == '~' && (j == e || s[j - 1] == ':')
  }

  /** What the word becomes depends on the files present, or on a user's home. */
  predicate Open(shape: string) {
    || (shape != "" && shape[0] == '~') || HomeIn(shape)
    || '*' in shape || '?' in shape
    || exists i, j :: 0 <= i < |shape| && 0 <= j < |shape| && Bracket(shape, i, j)
  }

  /** The word is a comment or expands into other words. */
  predicate Broken(shape: string) { (shape != "" && shape[0] == '#') || Expands(shape, true) }

  /** The word stands for itself whatever files and users there are. */
  predicate Settled(shape: string) { !Broken(shape) && !Open(shape) }

  lemma QuotedIsSettled()
    ensures Settled([NUL])
  {
    assert !Expands([NUL], true);
    assert LeftSide([NUL]) == 0;
  }

  // ----- words without special characters --------------------------------

  /** A character that no expansion looks at. */
  predicate Inert(c: char) {
    && c != '{' && c != '}' && c != '*' && c != '?' && c != '[' && c != ']' && c != '~' && c != '#'
  }

  /** In front of a word, inert characters take part in no expansion. */
  lemma {:induction false} InertPrefix(p: string, s: string)
    requires p != "" && forall c :: c in p ==> Inert(c)
    ensures Expands(p + s, true) <==> Expands(s, false)
    ensures Expands(p + s, false) <==> Expands(s, false)
    decreases |p|
  {
    assert p[0] in p && (p + s)[0] == p[0] && (p + s)[1..] == p[1..] + s;
    if |p| == 1 {
      assert p[1..] + s == s;
    } else {
      assert forall c :: c in p[1..] ==> c in p;
      InertPrefix(p[1..], s);
    }
  }

  /** After a word, text without a closing brace opens no expansion. */
  lemma {:induction false} ClosingWithSuffix(s: string, t: string, level: nat, parted: bool)
    requires '}' !in t && (t != "" ==> t[0] != '.')
    ensures Closing(s + t, level, parted) == Closing(s, level, parted)
    decreases |s|
  {
    if s == "" {
      assert s + t == t;
      NoClosing(t, level, parted);
    } else {
      assert (s + t)[0] == s[0] && (s + t)[1..] == s[1..] + t;
      var inner := if s[0] == '{' then level + 1 else if s[0] == '}' && level > 0 then level - 1 else level;
      assert TwoDots(s + t) == TwoDots(s) by {
        if |s| == 1 && t != "" { assert (s + t)[1] == t[0]; }
        if |s| == 2 && t != "" { assert (s + t)[2] == t[0] && t[0] in t; }
      }
      ClosingWithSuffix(s[1..], t, inner, parted || (level == 0 && (s[0] == ',' || TwoDots(s))));
    }
  }

  lemma {:induction false} NoClosing(t: string, level: nat, parted: bool)
    requires '}' !in t
    ensures Closing(t, level, parted) == 0
    decreases |t|
  {
    if t != "" {
      assert t[0] in t && forall c :: c in t[1..] ==> c in t;
      var inner := if t[0] == '{' then level + 1 else level;
      NoClosing(t[1..], inner, parted || (level == 0 && (t[0] == ',' || TwoDots(t))));
    }
  }

  lemma {:induction false} NoExpansion(t: string, start: bool)
    requires '}' !in t
    ensures !Expands(t, start)
    decreases |t|
  {
    if t != "" {
      assert forall c :: c in t[1..] ==> c in t;
      NoClosing(t[1..], 0, false);
      NoExpansion(t[1..], false);
    }
  }

  lemma {:induction false} ExpandsWithSuffix(s: string, t: string, start: bool)
    requires '}' !in t && (t != "" ==> t[0] != '.')
    ensures Expands(s + t, start) <==> Expands(s, start)
    decreases |s|
  {
    hide Closing, Sequence;
    if s == "" {
      assert s + t == t;
      NoExpansion(t, start);
    } else {
      var w, rest := s + t, s[1..];
      assert w[0] == s[0] && w[1..] == rest + t;
      assert |s| == 1 && t != "" ==> w[1] == t[0] && t[0] in t;
      assert |s| > 1 ==> w[1] == s[1];
      ClosingWithSuffix(rest, t, 0, false);
      var k := Closing(rest, 0, false);
      ExpandsWithSuffix(rest, t, false);
      if k > 0 {
        InsideWithSuffix(s, t, k);
        ExpandsWithSuffix(s[k + 1..], t, true);
      }
    }
  }

  lemma InsideWithSuffix(s: string, t: string, k: nat)
    requires s != "" && 0 < k <= |s| - 1
    ensures (s + t)[1..k] == s[1..k]
    ensures (s + t)[k + 1..] == s[k + 1..] + t
  {
  }

  // ----- assignments -----------------------------------------------------

  /** Characters that no assignment looks at. */
  predicate Unassigned(p: string) { forall c :: c in p ==> c != '=' && c != '[' && c != ']' && c != '~' }

  /** With a dash or slash before any equals sign a word is no assignment. */
  lemma NoAssignment(p: string, s: string)
    requires Unassigned(p) && (s == "" || '-' in p || '/' in p)
    ensures LeftSide(p + s) == 0
  {
    var w := p + s;
    var n := NameEnd(w);
    if s == "" {
      assert w == p;
      assert forall k :: 0 <= k < |p| ==> p[k] in p;
    } else {
      var i :| 0 <= i < |p| && (p[i] == '-' || p[i] == '/');
      assert w[i] == p[i] && n <= i;
      assert forall k :: 0 <= k < |p| ==> w[k] in p;
    }
  }

  lemma {:induction false} NameEndBefore(s: string, t: string)
    requires t != "" ==> !NameChar(t[0])
    ensures NameEnd(s + t) == NameEnd(s)
    decreases |s|
  {
    if s == "" {
      assert s + t == t;
    } else {
      assert (s + t)[0] == s[0] && (s + t)[1..] == s[1..] + t;
      NameEndBefore(s[1..], t);
    }
  }

  lemma {:induction false} MatchedBefore(s: string, t: string, level: nat)
    requires ']' !in t
    ensures Matched(s + t, level) == Matched(s, level)
    decreases |s|
  {
    if s == "" {
      assert s + t == t;
      NoMatch(t, level);
    } else {
      assert (s + t)[0] == s[0] && (s + t)[1..] == s[1..] + t;
      if !(s[0] == ']' && level == 0) {
        MatchedBefore(s[1..], t, if s[0] == '[' then level + 1 else if s[0] == ']' then level - 1 else level);
      }
    }
  }

  lemma {:induction false} NoMatch(t: string, level: nat)
    requires ']' !in t
    ensures Matched(t, level) == 0
    decreases |t|
  {
    if t != "" {
      assert t[0] in t && forall c :: c in t[1..] ==> c in t;
      NoMatch(t[1..], if t[0] == '[' then level + 1 else level);
    }
  }

  /** A path below a word is taken for an assignment with a home only if the word is. */
  lemma HomeBefore(s: string, t: string)
    requires Unassigned(t) && t != "" && t[0] == '/'
    ensures HomeIn(s + t) ==> HomeIn(s)
  {
    hide NameEnd, Matched;
    var w, n := s + t, NameEnd(s);
    assert forall k :: |s| <= k < |w| ==> w[k] in t;
    assert forall k :: 0 <= k < |s| ==> w[k] == s[k];
    NameEndBefore(s, t);
    if n < |s| {
      assert w[n + 1..] == s[n + 1..] + t;
      MatchedBefore(s[n + 1..], t, 0);
    }
    if HomeIn(w) {
      assert LeftSide(s) == LeftSide(w);
    }
  }
}
