/** What the exec channel guarantees in every reachable state and every run. */
module ExecTheorems {
  import opened Results
  import opened ByteStrings
  import opened Decimal
  import opened ShellWords
  import opened ExecCodec
  import opened ExecChannel

  // ----- results ---------------------------------------------------------

  /** A call that returns a result returns the exit code of its own command and all that
      it wrote but NUL bytes and the newlines at the end: the log of its request is one
      begin of the shell-quoted `argv` and one end with that very code and output.  It is
      never another call's answer, never a truncated one, never a parse error. */
  lemma ResultIsOwn(s: State, n: nat)
    requires Reachable(s) && n in s.calls
    requires s.calls[n].caller.Finished? && s.calls[n].caller.outcome.Returned?
    ensures var log := EventsOf(s.log, Dec(n));
            && |log| == 2
            && log[0] == Began(Dec(n), Substituted(CommandLine(s.calls[n].argv)))
            && log[1].Ended? && log[1].rc <= 255
            && s.calls[n].caller.outcome.result ==
               Ok(ExecResult(log[1].rc, Substituted(log[1].raw)))
    ensures RunsArgv(EventsOf(s.log, Dec(n))[0].cmd, s.calls[n].argv)
    ensures Captured(EventsOf(s.log, Dec(n))[1].raw, s.calls[n].caller.outcome.result.value.stdout)
  {
    hide Name, CommandLine, Words, Captured, Substituted, RunsArgv;
    ReachableInv(s);
    assert Good(ViewOf(s, n), n);
    GuestRunsArgv(s.calls[n].argv);
    SubstitutedIsCaptured(EventsOf(s.log, Dec(n))[1].raw);
  }

  /** Two positions of the log with one id show up, in order, in that id's log. */
  lemma {:induction false} EventsOfPositions(log: seq<Event>, i: nat, j: nat) returns (a: nat, b: nat)
    requires i < j < |log| && log[i].id == log[j].id
    ensures a < b < |EventsOf(log, log[i].id)|
    ensures EventsOf(log, log[i].id)[a] == log[i] && EventsOf(log, log[i].id)[b] == log[j]
  {
    var id := log[i].id;
    var front := log[..|log| - 1];
    if j < |log| - 1 {
      a, b := EventsOfPositions(front, i, j);
    } else {
      a := EventsOfPosition(front, i);
      b := |EventsOf(front, id)|;
    }
  }

  lemma {:induction false} EventsOfPosition(log: seq<Event>, i: nat) returns (a: nat)
    requires i < |log|
    ensures a < |EventsOf(log, log[i].id)| && EventsOf(log, log[i].id)[a] == log[i]
  {
    if i < |log| - 1 { a := EventsOfPosition(log[..|log| - 1], i); }
    else { a := |EventsOf(log[..|log| - 1], log[i].id)|; }
  }

  /** No request is run twice, not even when its caller timed out or took the
      response away before the guest deleted the request. */
  lemma RunAtMostOnce(s: State, n: nat, i: nat, j: nat)
    requires Reachable(s)
    requires i < |s.log| && j < |s.log| && s.log[i].Began? && s.log[j].Began?
    requires s.log[i].id == s.log[j].id == Dec(n)
    ensures i == j
    ensures n in s.calls && s.log[i].cmd == Substituted(CommandLine(s.calls[n].argv))
  {
    hide Name, CommandLine, Substituted, Response, Dec, EventsOf, HostStep, GuestStep;
    ReachableInv(s);
    var v := ViewOf(s, n);
    assert Good(v, n);
    var p := EventsOfPosition(s.log, i);
    assert forall b :: 1 <= b < |v.events| ==> !v.events[b].Began?;
    if i != j {
      var a, b := EventsOfPositions(s.log, if i < j then i else j, if i < j then j else i);
      assert false;
    }
  }

  // ----- phases ----------------------------------------------------------

  predicate Sent(s: State, n: nat) { n in s.calls && s.calls[n].script == Renamed }

  /** Renamed into place and not looked at yet: no history. */
  predicate Pending(v: View) { v.req.Some? && v.guest == Idle && v.events == [] }

  predicate Serving(v: View) {
    v.req.Some? && v.res == None && v.guest != Idle && !v.guest.Answered?
  }

  predicate AnsweredOnly(v: View) {
    v.req.Some? && v.guest.Answered? && |v.events| == 2
  }

  predicate Done(v: View) { v.req == None && v.guest == Idle && |v.events| == 2 }

  function Count(b: bool): nat { if b then 1 else 0 }

  /** Each sent request is in exactly one phase. */
  lemma ExactlyOnePhase(s: State, n: nat)
    requires Inv(s) && Sent(s, n)
    ensures var v := ViewOf(s, n);
            Count(Pending(v)) + Count(Serving(v)) + Count(AnsweredOnly(v)) + Count(Done(v)) == 1
  {
    hide Name, CommandLine, Substituted, Response;
    assert Good(ViewOf(s, n), n);
    assert RequestGood(ViewOf(s, n), n, CommandLine(s.calls[n].argv));
  }

  function Rank(v: View): nat {
    if v.call == None || v.call.value.script != Renamed then 0
    else if Pending(v) then 1
    else if Serving(v) then 2
    else if AnsweredOnly(v) then 3
    else 4
  }

  /** Every way in which a step can change the view of a request. */
  ghost predicate ViewStep(s: State, a: Action, s': State, n: nat) {
    var v, v' := ViewOf(s, n), ViewOf(s', n);
    || v' == v
    || (a.Submit? && v == Blank && v'.call.Some? && v'.call.value.script == Waiting)
    || (!IsGuestAction(a) && !a.Submit? && n in s.calls && a.n == n
        && HostStep(s, a, n, s.calls[n]) == Some(s') && v' == HostView(v, a, s.calls[n]))
    || (a.Test? && v.req.Some? && v.guest == Idle && v' == v.(guest := Picked(Name(n, ReqFile))))
    || (AtRequest(s, n) && GuestEnabled(v.guest, a) && v' == GuestView(v, a, n))
  }

  lemma StepChangesView(s: State, a: Action, s': State, n: nat)
    requires Inv(s) && Step(s, a) == Some(s')
    ensures ViewStep(s, a, s', n)
  {
    if !IsGuestAction(a) {
      HostChangesView(s, a, s', n);
    } else if a.Glob? || a.Test? {
      ScanChangesView(s, a, s', n);
    } else {
      GuestChangesView(s, a, s', n);
    }
  }

  lemma HostChangesView(s: State, a: Action, s': State, n: nat)
    requires Inv(s) && Step(s, a) == Some(s') && !IsGuestAction(a)
    ensures ViewStep(s, a, s', n)
  {
    hide Name, CommandLine, Substituted, Response, HostView, GuestView, RequestGood, GuestStep;
    if a.Submit? {
      assert Good(ViewOf(s, a.n), a.n);
    } else {
      HostStepView(s, a, a.n, s.calls[a.n], s');
    }
  }

  lemma ScanChangesView(s: State, a: Action, s': State, n: nat)
    requires Inv(s) && Step(s, a) == Some(s') && (a.Glob? || a.Test?)
    ensures ViewStep(s, a, s', n)
  {
    hide Name, CommandLine, Substituted, Response, HostView, GuestView, HostStep, Good, IsGlob;
    assert s'.dir == s.dir && s'.log == s.log && s'.calls == s.calls;
  }

  lemma GuestChangesView(s: State, a: Action, s': State, n: nat)
    requires Inv(s) && Step(s, a) == Some(s') && IsGuestAction(a) && !a.Glob? && !a.Test?
    ensures ViewStep(s, a, s', n)
  {
    hide Name, CommandLine, Substituted, Response, HostView, GuestView, HostStep, Good;
    assert IsRequest(s, s.guest.req);
    var m :| m in s.calls && s.guest.req == Name(m, ReqFile);
    GuestStepView(s, a, m, s');
    GuestNewFiles(s, a, m, s');
  }

  lemma GuestViewRank(v: View, a: Action, n: nat)
    requires Good(v, n) && v.call.Some? && GuestEnabled(v.guest, a)
    ensures Rank(v) <= Rank(GuestView(v, a, n)) <= Rank(v) + 1
    ensures Rank(v) == 4 <==> Rank(GuestView(v, a, n)) == 4 && a != DeleteReq
  {
    hide Name, CommandLine, Substituted, Response;
    assert RequestGood(v, n, CommandLine(v.call.value.argv));
  }

  lemma HostViewRank(s: State, a: Action, n: nat, c: Call, s': State)
    requires n in s.calls && c == s.calls[n] && Good(ViewOf(s, n), n)
    requires HostStep(s, a, n, c) == Some(s')
    ensures var v := ViewOf(s, n);
            && Rank(v) <= Rank(HostView(v, a, c)) <= Rank(v) + 1
            && (Rank(v) == 4 <==> Rank(HostView(v, a, c)) == 4)
  {
    hide Name, CommandLine, Substituted, Response, ParseResponse;
    var v := ViewOf(s, n);
    if c.script == Renamed { assert RequestGood(v, n, CommandLine(c.argv)); }
  }

  /** A request never goes back, a step moves it by one phase at most, and only the
      deletion of the request file finishes it. */
  lemma PhaseMovesForward(s: State, a: Action, s': State, n: nat)
    requires Inv(s) && Step(s, a) == Some(s')
    ensures Rank(ViewOf(s, n)) <= Rank(ViewOf(s', n)) <= Rank(ViewOf(s, n)) + 1
    ensures Rank(ViewOf(s, n)) < 4 && Rank(ViewOf(s', n)) == 4 ==> a == DeleteReq && AtRequest(s, n)
  {
    hide Name, CommandLine, Substituted, Response, HostView, GuestView, HostStep;
    StepChangesView(s, a, s', n);
    assert Good(ViewOf(s, n), n);
    var v, v' := ViewOf(s, n), ViewOf(s', n);
    if v' != v {
      if AtRequest(s, n) && GuestEnabled(v.guest, a) && v' == GuestView(v, a, n) {
        GuestViewRank(v, a, n);
      } else if !IsGuestAction(a) && !a.Submit? {
        HostViewRank(s, a, n, s.calls[n], s');
      } else if a.Test? {
        assert v.call.Some?;
      }
    }
  }

  // ----- progress --------------------------------------------------------

  /** The guest action that its program point calls for; at `Running`, the end of
      the command. */
  ghost function NextAction(s: State): Action {
    match s.guest
    case Idle =>
      var names := set f | f in s.dir && MatchesReq(f);
      Glob(if names == {} then ["*.req"] else SortedSet(names))
    case Testing(_, _) => Test
    case Picked(_) => Load
    case Loaded(_, _) => Begin
    case Running(_, _) => End(0, "")
    case Ran(_, _, _) => OpenRes
    case WritingRes(_, rc, out, w) =>
      if w >= |Response(rc, out)| then RenameRes else WriteRes(|Response(rc, out)| - w)
    case Answered(_) => DeleteReq
  }

  lemma BusyFiles(s: State, n: nat)
    requires Inv(s) && AtRequest(s, n) && n in s.calls
    ensures s.guest.Picked? ==> Name(n, ReqFile) in s.dir
    ensures s.guest.WritingRes? ==>
              && Basename(s.guest.req) + ".res.tmp" in s.dir
              && s.guest.written <= |Response(s.guest.rc, s.guest.out)|
  {
    hide Name, CommandLine, Substituted, Response, Basename;
    assert Good(ViewOf(s, n), n);
    assert RequestGood(ViewOf(s, n), n, CommandLine(s.calls[n].argv));
    BasenameOfReq(n);
    assert s.guest.Picked? ==> File(s.dir, n, ReqFile).Some?;
    assert s.guest.WritingRes? ==> File(s.dir, n, ResTmp).Some?;
  }

  lemma NextIsEnabled(s: State)
    requires Inv(s)
    ensures IsGuestAction(NextAction(s)) && (NextAction(s).End? <==> s.guest.Running?)
    ensures Step(s, NextAction(s)).Some?
  {
    hide Name, CommandLine, Substituted, Response, Basename, Good, MatchesReq, HostStep;
    if s.guest.Idle? {
      var names := set f | f in s.dir && MatchesReq(f);
      assert forall f :: f in names <==> f in s.dir && MatchesReq(f);
    } else if !s.guest.Testing? {
      assert IsRequest(s, s.guest.req);
      var n :| n in s.calls && s.guest.req == Name(n, ReqFile);
      BusyFiles(s, n);
    }
  }

  /** The guest never gets stuck: in every reachable state it can take the action
      its program point calls for. */
  lemma GuestNeverStuck(s: State)
    requires Reachable(s)
    ensures IsGuestAction(NextAction(s)) && (NextAction(s).End? <==> s.guest.Running?)
    ensures Step(s, NextAction(s)).Some?
  {
    hide NextAction, Step, Inv;
    ReachableInv(s);
    NextIsEnabled(s);
  }

  lemma AnswerIsThere(s: State, n: nat)
    requires Inv(s) && Sent(s, n) && s.calls[n].caller == Polling
    requires AnsweredOnly(ViewOf(s, n)) || Done(ViewOf(s, n))
    ensures var v := ViewOf(s, n);
            RanOnce(v, n, CommandLine(s.calls[n].argv)) && v.res == Some(AnswerOf(v))
  {
    hide Name, CommandLine, Substituted, Response;
    var v := ViewOf(s, n);
    assert Good(v, n);
    assert RequestGood(v, n, CommandLine(s.calls[n].argv));
  }

  /** A caller that is still polling when its request has been answered gets the
      answer at its next poll. */
  lemma PollAfterAnswer(s: State, n: nat)
    requires Inv(s) && Sent(s, n) && s.calls[n].caller == Polling
    requires AnsweredOnly(ViewOf(s, n)) || Done(ViewOf(s, n))
    ensures var log := EventsOf(s.log, Dec(n));
            var r := Run(s, [Poll(n), ReadRes(n), Return(n)]);
            && |log| == 2 && log[1].Ended? && r.Some? && n in r.value.calls
            && r.value.calls[n].caller ==
               Finished(Returned(Ok(ExecResult(log[1].rc, Substituted(log[1].raw)))))
            && Captured(log[1].raw, Substituted(log[1].raw))
  {
    hide Name, CommandLine, Substituted, Response, Good, ParseResponse, Run, Captured;
    var v := ViewOf(s, n);
    AnswerIsThere(s, n);
    SubstitutedIsCaptured(v.events[1].raw);
    ParseOfResponse(v.events[1].rc, Substituted(v.events[1].raw));
    PollReadReturn(s, n);
  }

  lemma PollReadReturn(s: State, n: nat)
    requires n in s.calls && s.calls[n].caller == Polling && Name(n, ResFile) in s.dir
    ensures Run(s, [Poll(n), ReadRes(n), Return(n)]) ==
            Some(SetCall(s, n, s.calls[n].(caller :=
                 Finished(Returned(ParseResponse(s.dir[Name(n, ResFile)]))))))
  {
    hide Name, ParseResponse;
    var s1 := SetCall(s, n, s.calls[n].(caller := Found));
    var s2 := SetCall(s, n, s.calls[n].(caller := Got(s.dir[Name(n, ResFile)])));
    assert Step(s, Poll(n)) == Some(s1);
    assert Step(s1, ReadRes(n)) == Some(s2) by {
      assert s1.calls[n := s2.calls[n]] == s2.calls;
    }
    var s3 := SetCall(s, n, s.calls[n].(caller :=
                Finished(Returned(ParseResponse(s.dir[Name(n, ResFile)])))));
    assert Step(s2, Return(n)) == Some(s3) by {
      assert s2.calls[n := s3.calls[n]] == s3.calls;
    }
    assert Run(s2, [Return(n)]) == Run(s3, []);
    assert [ReadRes(n), Return(n)][1..] == [Return(n)];
    assert Run(s1, [ReadRes(n), Return(n)]) == Some(s3);
    assert [Poll(n), ReadRes(n), Return(n)][1..] == [ReadRes(n), Return(n)];
  }

  // ----- order of service ------------------------------------------------

  lemma {:induction false} LexParts(a: string, b: string, x: string, y: string)
    requires |a| == |b|
    ensures LexLess(a + x, b + y) <==> LexLess(a, b) || (a == b && LexLess(x, y))
  {
    if a == "" {
      assert a + x == x && b + y == y;
    } else {
      assert (a + x)[1..] == a[1..] + x && (b + y)[1..] == b[1..] + y;
      LexParts(a[1..], b[1..], x, y);
      assert a == [a[0]] + a[1..] && b == [b[0]] + b[1..];
    }
  }

  /** For ids of one width the order of the listing is the order of the ids. */
  lemma RequestOrder(n: nat, m: nat)
    requires |Dec(n)| == |Dec(m)|
    ensures LexLess(Name(n, ReqFile), Name(m, ReqFile)) <==> n < m
  {
    LexParts(Dec(n), Dec(m), ".req", ".req");
    LexIrreflexive(".req");
    LexIsNumeric(Dec(n), Dec(m));
    ValueOfDec(n);
    ValueOfDec(m);
  }

  /** A shorter id is compared with the leading digits of a longer one, and comes first
      on a tie, since `.` is less than a digit. */
  lemma RequestOrderAcrossWidths(n: nat, m: nat)
    requires |Dec(n)| < |Dec(m)|
    ensures var lead := Lead(m, |Dec(m)| - |Dec(n)|);
            && (LexLess(Name(n, ReqFile), Name(m, ReqFile)) <==> n <= lead)
            && (LexLess(Name(m, ReqFile), Name(n, ReqFile)) <==> lead < n)
  {
    hide Dec, Lead;
    var k, d := |Dec(n)|, |Dec(m)| - |Dec(n)|;
    var lead := Lead(m, d);
    DecLead(m, d);
    var low := Dec(m)[k..];
    assert Name(m, ReqFile) == Dec(lead) + (low + ".req");
    assert IsDigit(low[0]) by { assert low[0] in Dec(m); }
    assert LexLess(".req", low + ".req") && !LexLess(low + ".req", ".req");
    LexParts(Dec(n), Dec(lead), ".req", low + ".req");
    LexParts(Dec(lead), Dec(n), low + ".req", ".req");
    LexIsNumeric(Dec(n), Dec(lead));
    LexIsNumeric(Dec(lead), Dec(n));
    ValueOfDec(n);
    ValueOfDec(lead);
  }

  /** For every two ids: the listing has the smaller one first if and only if their
      widths are equal or it does not exceed the leading digits of the larger one. */
  lemma ListedInOrderIff(n: nat, m: nat)
    requires n < m
    ensures LexLess(Name(n, ReqFile), Name(m, ReqFile)) <==>
            |Dec(n)| == |Dec(m)| || (|Dec(n)| < |Dec(m)| && n <= Lead(m, |Dec(m)| - |Dec(n)|))
  {
    hide Name, Lead;
    WidthGrows(n, m);
    if |Dec(n)| == |Dec(m)| { RequestOrder(n, m); } else { RequestOrderAcrossWidths(n, m); }
  }

  lemma WidthGrows(n: nat, m: nat)
    requires n <= m
    ensures |Dec(n)| <= |Dec(m)|
  {
    hide Dec;
    DecWidth(m, |Dec(m)|);
    DecWidth(n, |Dec(m)|);
  }

  /** So 10 is listed before 9. */
  lemma TenBeforeNine()
    ensures LexLess(Name(10, ReqFile), Name(9, ReqFile))
  {
    assert Dec(10) == Dec(1) + [Digit(0)];
    assert Pow10(1) == 10;
    RequestOrderAcrossWidths(9, 10);
  }

  ghost predicate Served(s: State, m: nat) { Sent(s, m) && Done(ViewOf(s, m)) }

  /** The calls with a smaller id than `n` that are not served yet. */
  ghost function Ahead(s: State, n: nat): set<nat> {
    set m | m in s.calls && m < n && !Served(s, m)
  }

  /** The guest is busy with a listing made before `n` was there, or with a request
      picked from such a listing. */
  predicate Stale(s: State, n: nat) {
    match s.guest
    case Idle => false
    case Testing(l, _) => Name(n, ReqFile) !in l
    case g => LexLess(Name(n, ReqFile), g.req)
  }

  /** How many more requests the guest may finish before `n` is finished. */
  ghost function Bound(s: State, n: nat): nat {
    |Ahead(s, n)| + 1 + Count(Stale(s, n))
  }

  ghost predicate OneWidth(s: State, w: nat) { forall m :: m in s.calls ==> |Dec(m)| == w }

  /** New ids are larger than `n` and as wide, as those of a running clock are. */
  predicate LaterIds(a: Action, n: nat, w: nat) {
    a.Submit? ==> a.n > n && |Dec(a.n)| == w
  }

  lemma ServedIsRank4(s: State, m: nat)
    requires Inv(s)
    ensures Served(s, m) <==> Rank(ViewOf(s, m)) == 4
  {
    hide Name, CommandLine, Substituted, Response, Good;
    if Sent(s, m) { ExactlyOnePhase(s, m); }
  }

  lemma ServedByDelete(s: State, a: Action, s': State, m: nat)
    requires Inv(s) && Step(s, a) == Some(s')
    requires Served(s, m) != Served(s', m)
    ensures a == DeleteReq && AtRequest(s, m) && Served(s', m)
  {
    hide Name, CommandLine, Substituted, Response, Good, Step, Served;
    StepKeeps(s, a, s');
    ServedIsRank4(s, m);
    ServedIsRank4(s', m);
    PhaseMovesForward(s, a, s', m);
  }

  lemma AheadShrinks(s: State, a: Action, s': State, n: nat, w: nat)
    requires Inv(s) && Step(s, a) == Some(s') && LaterIds(a, n, w)
    ensures Ahead(s', n) <= Ahead(s, n)
  {
    hide Name, CommandLine, Substituted, Response, Good, Served;
    forall m | m in Ahead(s', n) ensures m in Ahead(s, n) {
      if Served(s, m) { ServedByDelete(s, a, s', m); }
      if a.Submit? { assert m != a.n; }
    }
  }

  lemma SubsetCard<T>(a: set<T>, b: set<T>)
    requires a <= b
    ensures |a| <= |b| && (a != b ==> |a| < |b|)
  {
    assert b == a + (b - a);
    if a != b { assert b - a != {}; }
  }

  /** A request that is sent and unfinished stays in the directory. */
  lemma UnfinishedIsThere(s: State, n: nat)
    requires Inv(s) && Sent(s, n) && !Served(s, n)
    ensures Name(n, ReqFile) in s.dir
  {
    hide Name, CommandLine, Substituted, Response, Good;
    ExactlyOnePhase(s, n);
  }

  /** No step but a new listing could make the guest stale, and a new listing has `n`. */
  lemma StaleFades(s: State, a: Action, s': State, n: nat, w: nat)
    requires Inv(s) && Step(s, a) == Some(s') && OneWidth(s, w)
    requires Sent(s, n) && !Served(s, n)
    ensures Stale(s', n) ==> Stale(s, n) && !a.Glob?
    ensures a == DeleteReq ==> !Stale(s', n)
  {
    hide Name, CommandLine, Substituted, Response, Good, MatchesReq, Served;
    UnfinishedIsThere(s, n);
    OnlyRequestsMatch(n, ReqFile);
    PatternIsNoFile(s);
    if a.Test? && s'.guest.Picked? && !Stale(s, n) {
      var l := s.guest.listing;
      assert Name(n, ReqFile) in l && l != ["*.req"];
      var i :| 0 <= i < |l| && l[i] == Name(n, ReqFile);
      if LexLess(l[i], l[0]) {
        assert LexLess(l[0], l[i]) || i == 0;
        if i > 0 { LexTransitive(l[0], l[i], l[0]); }
        LexIrreflexive(l[0]);
        assert false;
      }
    }
  }

  lemma StillSent(s: State, a: Action, s': State, n: nat, w: nat)
    requires Inv(s) && Step(s, a) == Some(s') && OneWidth(s, w) && LaterIds(a, n, w) && Sent(s, n)
    ensures Sent(s', n) && OneWidth(s', w)
  {
    hide Name, CommandLine, Substituted, Response, Good;
  }

  /** One step lowers the bound by one for each deletion and never raises it. */
  lemma StepLowersBound(s: State, a: Action, s': State, n: nat, w: nat)
    requires Inv(s) && Step(s, a) == Some(s') && OneWidth(s, w) && LaterIds(a, n, w)
    requires Sent(s, n) && !Served(s', n)
    ensures Sent(s', n) && !Served(s, n) && OneWidth(s', w)
    ensures Bound(s', n) + Count(a == DeleteReq) <= Bound(s, n)
  {
    hide Name, CommandLine, Substituted, Response, Inv, Served, Stale, Sent, OneWidth;
    hide Ahead, HostStep, GuestStep, IsGuestAction;
    if Served(s, n) { ServedByDelete(s, a, s', n); }
    StillSent(s, a, s', n, w);
    AheadShrinks(s, a, s', n, w);
    SubsetCard(Ahead(s', n), Ahead(s, n));
    StaleFades(s, a, s', n, w);
    if a == DeleteReq { DeleteLowersBound(s, s', n, w); }
  }

  lemma DeleteServes(s: State, s': State) returns (m: nat)
    requires Inv(s) && Step(s, DeleteReq) == Some(s')
    ensures m in s.calls && AtRequest(s, m) && Served(s', m) && !Served(s, m)
  {
    hide Name, CommandLine, Substituted, Response;
    assert IsRequest(s, s.guest.req);
    m :| m in s.calls && s.guest.req == Name(m, ReqFile);
    GuestStepView(s, DeleteReq, m, s');
    assert Good(ViewOf(s, m), m);
  }

  lemma DeleteLowersBound(s: State, s': State, n: nat, w: nat)
    requires Inv(s) && Step(s, DeleteReq) == Some(s') && OneWidth(s, w)
    requires Sent(s, n) && !Served(s', n) && !Served(s, n)
    ensures Stale(s, n) || Ahead(s', n) != Ahead(s, n)
  {
    hide Name, CommandLine, Substituted, Response, Inv, Step, Served, LexLess;
    var m := DeleteServes(s, s');
    RequestOrder(n, m);
    if m < n { assert m in Ahead(s, n) && m !in Ahead(s', n); }
  }

  function Deletions(acts: seq<Action>): nat {
    if acts == [] then 0 else Count(acts[0] == DeleteReq) + Deletions(acts[1..])
  }

  lemma {:induction false} WaitingFrom(s: State, acts: seq<Action>, s': State, n: nat, w: nat)
    requires Inv(s) && OneWidth(s, w) && Sent(s, n)
    requires Run(s, acts) == Some(s')
    requires forall a :: a in acts ==> LaterIds(a, n, w)
    ensures Served(s', n) || Deletions(acts) < Bound(s, n)
    decreases |acts|
  {
    hide Name, CommandLine, Substituted, Response, Good, Served, Step, Inv;
    if acts != [] {
      var t := Step(s, acts[0]).value;
      StepKeeps(s, acts[0], t);
      assert acts[0] in acts;
      if Served(t, n) {
        ServedStays(t, acts[1..], s', n);
      } else {
        StepLowersBound(s, acts[0], t, n, w);
        WaitingFrom(t, acts[1..], s', n, w);
      }
    }
  }

  /** Bounded waiting.  From any reachable state with ids of one width, in any
      continuation whose new ids are larger, a sent request is served before the
      guest has completed `|Ahead| + 2` requests: those with smaller ids, itself,
      and the one it may be busy with. */
  lemma BoundedWaiting(s: State, acts: seq<Action>, s': State, n: nat, w: nat)
    requires Reachable(s) && OneWidth(s, w) && Sent(s, n)
    requires Run(s, acts) == Some(s')
    requires forall a :: a in acts ==> LaterIds(a, n, w)
    ensures Deletions(acts) >= |Ahead(s, n)| + 2 ==> Served(s', n)
  {
    ReachableInv(s);
    WaitingFrom(s, acts, s', n, w);
  }

  lemma {:induction false} ServedStays(s: State, acts: seq<Action>, s': State, n: nat)
    requires Inv(s) && Run(s, acts) == Some(s') && Served(s, n)
    ensures Served(s', n)
    decreases |acts|
  {
    hide Name, CommandLine, Substituted, Response, Good, Served, Step, Inv;
    if acts != [] {
      var t := Step(s, acts[0]).value;
      StepKeeps(s, acts[0], t);
      if !Served(t, n) { ServedByDelete(s, acts[0], t, n); }
      ServedStays(t, acts[1..], s', n);
    }
  }
}
