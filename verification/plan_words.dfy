/** Which names of a cluster the shell and the kernel take as they are. */
module PlanWords {
  import opened Results
  import opened ByteStrings
  import opened Decimal
  import opened MacAddress
  import opened IPv4
  import opened Topologies
  import opened NetPlans
  import opened PlanTheorems
  import opened ScriptWords
  import opened Paths
  import opened Hosts

  lemma LettersOrdinary(s: string)
    requires forall c :: c in s ==> 'a' <= c <= 'z' || '0' <= c <= '9' || c == '-' || c == '.' || c == '/' || c == ':'
    ensures Ordinary(s)
  {
  }

  // ----- device names ----------------------------------------------------

  /** A bridge name is a device name if and only if the first ten bytes of its link's name
      are characters of one. */
  lemma BridgeDeviceIff(link: string)
    ensures DeviceName(BridgeName(link)) <==> forall c :: c in First10(link) ==> DeviceChar(c)
  {
    hide KernelSpace;
    BridgeText(link);
    var n := BridgeName(link);
    assert forall c :: c in n <==> c in "klbr-" || c in First10(link);
    assert forall c :: c in "klbr-" ==> DeviceChar(c) by { PrefixIsDevice(); }
  }

  lemma PrefixIsDevice()
    ensures forall c :: c in "klbr-" ==> DeviceChar(c)
    ensures forall c :: c in "klabtap" ==> DeviceChar(c)
  {
  }

  /** A tap name is a device name if and only if its number is below 10^8. */
  lemma TapDeviceIff(k: nat)
    ensures DeviceName(TapName(k)) <==> k < 100_000_000
  {
    hide Dec;
    TapNameFits(k);
    PrefixIsDevice();
    var n := TapName(k);
    assert |n| >= 7;
    assert forall c :: c in n ==> c in "klabtap" || c in Dec(k);
    assert forall c :: IsDigit(c) ==> DeviceChar(c);
  }

  // ----- links and addresses ---------------------------------------------

  lemma BridgeText(link: string)
    ensures BridgeName(link) == "klbr-" + First10(link)
  {
    var n := "klbr-" + link;
    if |link| > 10 { assert n[..15] == "klbr-" + link[..10]; }
  }

  /** A bridge name is one word if and only if the first ten bytes of its link's name are
      plain after an ordinary beginning. */
  lemma BridgeWordIff(link: string)
    ensures PlainWord(BridgeName(link)) <==> PlainTail(First10(link))
  {
    hide PlainWord, PlainTail, Ordinary, BridgeName, First10;
    BridgeText(link);
    LettersOrdinary("klbr-");
    WordAfterIff("klbr-", First10(link));
  }

  lemma DigitsOrdinary(s: string)
    requires AllDigits(s)
    ensures Ordinary(s)
  {
    hide Ordinary;
    LettersOrdinary(s);
  }

  /** Tap names, hardware addresses and IP addresses always are, and have no comma. */
  lemma TapsAreOrdinary(k: nat, net: Option<Net>, i: nat)
    ensures Ordinary(TapName(k)) && Ordinary(Mac(k)) && Ordinary(Address(net, i))
    ensures TapName(k) != "" && Mac(k) != "" && '%' !in TapName(k)
  {
    hide Mac, Address, Dec, Ordinary;
    DigitsOrdinary(Dec(k));
    PrefixIsDevice();
    assert '%' !in TapName(k);
    LettersOrdinary("klabtap");
    OrdinaryConcat("klabtap", Dec(k));
    MacPlain(k);
    LettersOrdinary(Mac(k));
    if net == None { NoAddress(i); LettersOrdinary(""); } else { AddressOrdinary(net, i); }
  }

  lemma NoAddress(i: nat)
    ensures Address(None, i) == ""
  {
  }

  lemma AddressOrdinary(net: Option<Net>, i: nat)
    requires net.Some?
    ensures Ordinary(Address(net, i))
  {
    hide Dotted, Dec, MemberAddress, Ordinary;
    LettersOrdinary("/");
    match net.value
    case V4(addr, ones) =>
      var quad := Dotted(MemberAddress(addr, ones, i));
      DottedOrdinary(MemberAddress(addr, ones, i));
      DigitsOrdinary(Dec(ones));
      OrdinaryConcat(quad, "/");
      OrdinaryConcat(quad + "/", Dec(ones));
    case V6(base, ones) =>
      LettersOrdinary(base);
      DigitsOrdinary(Dec(ones));
      OrdinaryConcat(base, "/");
      OrdinaryConcat(base + "/", Dec(ones));
  }

  lemma DottedOrdinary(a: Word32)
    ensures Ordinary(Dotted(a))
  {
    hide Dec, Ordinary;
    var w, x, y, z := a / 0x100_0000, a / 0x1_0000 % 0x100, a / 0x100 % 0x100, a % 0x100;
    LettersOrdinary(".");
    DigitsOrdinary(Dec(w));
    DigitsOrdinary(Dec(x));
    DigitsOrdinary(Dec(y));
    DigitsOrdinary(Dec(z));
    var tail := Dec(y) + "." + Dec(z);
    OrdinaryConcat(Dec(y), ".");
    OrdinaryConcat(Dec(y) + ".", Dec(z));
    OrdinaryConcat(Dec(x), ".");
    OrdinaryConcat(Dec(x) + ".", tail);
    OrdinaryConcat(Dec(w), ".");
    OrdinaryConcat(Dec(w) + ".", Dec(x) + "." + tail);
  }

  // ----- directories -----------------------------------------------------

  lemma {:induction false} PiecesOrdinary(p: string)
    requires Ordinary(p)
    ensures forall x :: x in Pieces(p) ==> Ordinary(x)
    decreases |p|
  {
    hide OrdinaryChar;
    var i := IndexOf(p, '/');
    assert forall c :: c in p[..i] ==> c in p;
    if i < |p| {
      assert forall c :: c in p[i + 1..] ==> c in p;
      PiecesOrdinary(p[i + 1..]);
    }
  }

  lemma {:induction false} WalkOrdinary(rooted: bool, path: seq<string>, pieces: seq<string>)
    requires forall x :: x in path ==> Ordinary(x)
    requires forall x :: x in pieces ==> Ordinary(x)
    ensures forall x :: x in Walk(rooted, path, pieces) ==> Ordinary(x)
    decreases |pieces|
  {
    hide OrdinaryChar;
    if pieces != [] {
      assert pieces[0] in pieces;
      assert forall x :: x in Push(rooted, path, pieces[0]) ==> x in path || x == pieces[0];
      WalkOrdinary(rooted, Push(rooted, path, pieces[0]), pieces[1..]);
    }
  }

  lemma {:induction false} JoinOrdinary(path: seq<string>)
    requires forall x :: x in path ==> Ordinary(x)
    ensures Ordinary(Join(path, "/"))
    decreases |path|
  {
    hide OrdinaryChar;
    if path != [] {
      assert path[0] in path;
      if |path| > 1 {
        JoinOrdinary(path[1..]);
        OrdinaryConcat(path[0], "/");
        OrdinaryConcat(path[0] + "/", Join(path[1..], "/"));
        LettersOrdinary("/");
      }
    }
  }

  /** What comes before a node's name in its run directory, under an ordinary home. */
  lemma LeadOrdinary(home: string)
    requires Ordinary(home)
    ensures Ordinary(RunLead(home)) && '/' in RunLead(home)
  {
    hide Pieces, Walk, Join, Ordinary;
    var base := RunBase(home);
    assert Ordinary(base) by { BaseOrdinary(home); }
    var path := Walk(Rooted(base), [], Pieces(base));
    PiecesOrdinary(base);
    WalkOrdinary(Rooted(base), [], Pieces(base));
    JoinOrdinary(path);
    LettersOrdinary("/");
    OrdinaryConcat(Join(path, "/"), "/");
    OrdinaryConcat("/", Join(path, "/") + "/");
    LeadEndsInRun(home);
    var tail := Join(path, "/") + "/";
    assert RunLead(home) == if Rooted(base) then "/" + tail else tail by { assert "" + tail == tail; }
    assert tail[|tail| - 1] == '/';
  }

  lemma BaseOrdinary(home: string)
    requires Ordinary(home)
    ensures Ordinary(RunBase(home))
  {
    hide Ordinary;
    LettersOrdinary(".cache/klab/run");
    LettersOrdinary("/");
    OrdinaryConcat("/", ".cache/klab/run");
    OrdinaryConcat(home, "/" + ".cache/klab/run");
  }

  lemma LeadEndsInRun(home: string)
    ensures Walk(Rooted(RunBase(home)), [], Pieces(RunBase(home))) != []
  {
    hide Pieces, Walk;
    var base := RunBase(home);
    var front := if home == "" then ".cache/klab" else home + ("/" + ".cache/klab");
    assert ".cache/klab" + ("/" + "run") == ".cache/klab/run";
    assert base == front + ("/" + "run");
    PiecesSnoc(front, "run");
    WalkSnoc(Rooted(base), [], Pieces(front), "run");
    PushPlain(Rooted(base), Walk(Rooted(base), [], Pieces(front)), "run");
  }

  /** Under an ordinary home the run directory of a one-component name is one word if and
      only if the name is plain after an ordinary beginning. */
  lemma RunDirWordIff(home: string, name: string)
    requires Ordinary(home) && PlainName(name)
    ensures PlainWord(RunDir(home, name)) <==> PlainTail(name)
  {
    hide RunDir, RunLead, Ordinary, PlainWord, PlainTail;
    LeadOrdinary(home);
    RunDirPlain(home, name);
    WordAfterIff(RunLead(home), name);
  }

  /** It has a comma if and only if the name has. */
  lemma RunDirCommaIff(home: string, name: string)
    requires Ordinary(home) && PlainName(name)
    ensures ',' in RunDir(home, name) <==> ',' in name
  {
    hide RunDir, RunLead;
    LeadOrdinary(home);
    RunDirPlain(home, name);
    assert forall c :: c in RunDir(home, name) <==> c in RunLead(home) || c in name;
  }
}
