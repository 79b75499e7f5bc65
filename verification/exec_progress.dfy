/** Progress of the guest loop: how many steps a request can wait, and in which order
    requests are served. */
module ExecProgress {
  import opened Results
  import opened ByteStrings
  import opened Decimal
  import opened ShellWords
  import opened ExecCodec
  import opened ExecChannel
  import opened ExecTheorems

  // ----- steps -----------------------------------------------------------

  /** How many actions the guest takes from a program point to its next listing, at
      most, besides writing. */
  function Turn(g: Guest): nat {
    match g
    case Idle => 8
    case Testing(_, next) => if next == 0 then 7 else 1
    case Picked(_) => 6
    case Loaded(_, _) => 5
    case Running(_, _) => 4
    case Ran(_, _, _) => 3
    case WritingRes(_, _, _, _) => 2
    case Answered(_) => 1
  }

  /** An action of the guest other than writing a piece of a response. */
  predicate Moves(a: Action) { IsGuestAction(a) && !a.WriteRes? }

  function MovesIn(acts: seq<Action>): nat {
    if acts == [] then 0 else Count(Moves(acts[0])) + MovesIn(acts[1..])
  }

  ghost function Fuel(s: State, n: nat): nat { 8 * Bound(s, n) + Turn(s.guest) }

  /** A real listing is not empty and its first name is there; the pattern itself is
      not, and then no request was there when it was made. */
  lemma TestTurns(s: State, s': State, n: nat, w: nat)
    requires Inv(s) && Step(s, Test) == Some(s') && OneWidth(s, w) && Sent(s, n) && !Served(s, n)
    ensures Turn(s'.guest) < Turn(s.guest) || (Stale(s, n) && !Stale(s', n))
  {
    hide Name, CommandLine, Substituted, Response, Good, Served, MatchesReq;
    PatternIsNoFile(s);
    UnfinishedIsThere(s, n);
  }

  /** Each action of the guest other than writing uses up fuel until `n` is served. */
  lemma StepUsesFuel(s: State, a: Action, s': State, n: nat, w: nat)
    requires Inv(s) && Step(s, a) == Some(s') && OneWidth(s, w) && LaterIds(a, n, w)
    requires Sent(s, n) && !Served(s', n)
    ensures Fuel(s', n) + Count(Moves(a)) <= Fuel(s, n)
  {
    hide Name, CommandLine, Substituted, Response, Inv, Served, Sent, OneWidth, Stale, Ahead, LaterIds;
    StepLowersBound(s, a, s', n, w);
    if a.Test? {
      hide HostStep;
      TestTurns(s, s', n, w);
      AheadShrinks(s, a, s', n, w);
      SubsetCard(Ahead(s', n), Ahead(s, n));
    }
  }

  lemma {:induction false} RunUsesFuel(s: State, acts: seq<Action>, s': State, n: nat, w: nat)
    requires Inv(s) && OneWidth(s, w) && Sent(s, n) && Run(s, acts) == Some(s')
    requires forall a :: a in acts ==> LaterIds(a, n, w)
    ensures Served(s', n) || Fuel(s', n) + MovesIn(acts) <= Fuel(s, n)
    decreases |acts|
  {
    hide Served, Step, Inv, Sent, OneWidth, LaterIds, Moves, Fuel;
    if acts != [] {
      var t := Step(s, acts[0]).value;
      StepKeeps(s, acts[0], t);
      assert acts[0] in acts;
      if Served(t, n) {
        ServedStays(t, acts[1..], s', n);
      } else {
        StepUsesFuel(s, acts[0], t, n, w);
        StillSent(s, acts[0], t, n, w);
        RunUsesFuel(t, acts[1..], s', n, w);
      }
    }
  }

  // ----- writing ---------------------------------------------------------

  /** Bytes of the current response that are not written yet. */
  function Unwritten(g: Guest): nat {
    match g
    case Ran(_, rc, out) => |Response(rc, out)|
    case WritingRes(_, rc, out, w) => if w <= |Response(rc, out)| then |Response(rc, out)| - w else 0
    case _ => 0
  }

  /** Bytes an action writes, and bytes a command ending with it leaves to be written. */
  function Writes(a: Action): nat { if a.WriteRes? then a.k else 0 }

  function Leaves(a: Action): nat { if a.End? then |Response(a.rc, Substituted(a.raw))| else 0 }

  function Written(acts: seq<Action>): nat {
    if acts == [] then 0 else Writes(acts[0]) + Written(acts[1..])
  }

  function Produced(acts: seq<Action>): nat {
    if acts == [] then 0 else Leaves(acts[0]) + Produced(acts[1..])
  }

  /** Writes that write something. */
  function Pieces(acts: seq<Action>): nat {
    if acts == [] then 0 else Count(Writes(acts[0]) > 0) + Pieces(acts[1..])
  }

  lemma StepWrites(s: State, a: Action, s': State)
    requires Step(s, a) == Some(s')
    ensures Unwritten(s'.guest) + Writes(a) <= Unwritten(s.guest) + Leaves(a)
  {
    hide Name, CommandLine, Substituted, Response, Basename, MatchesReq;
  }

  /** In every run the guest writes no more than the responses of the commands that have
      ended, and so no more pieces than they have bytes. */
  lemma {:induction false} WritesAreBounded(s: State, acts: seq<Action>, s': State)
    requires Run(s, acts) == Some(s')
    ensures Pieces(acts) <= Written(acts)
    ensures Unwritten(s'.guest) + Written(acts) <= Unwritten(s.guest) + Produced(acts)
    decreases |acts|
  {
    hide Step, Unwritten, Writes, Leaves;
    if acts != [] {
      var t := Step(s, acts[0]).value;
      StepWrites(s, acts[0], t);
      WritesAreBounded(t, acts[1..], s');
    }
  }

  // ----- every request is answered ---------------------------------------

  /** From any reachable state with ids of one width, in any continuation whose new ids
      are larger: until a sent request is served the guest takes a bounded number of
      actions besides writing, and writes a bounded number of pieces. Since it is never
      stuck, it serves the request unless it stops, a command does not end, or it
      writes empty pieces for ever. */
  lemma ServedInTime(s: State, acts: seq<Action>, s': State, n: nat, w: nat)
    requires Reachable(s) && OneWidth(s, w) && Sent(s, n) && Run(s, acts) == Some(s')
    requires forall a :: a in acts ==> LaterIds(a, n, w)
    ensures MovesIn(acts) >= 8 * (|Ahead(s, n)| + 2) + Turn(s.guest) ==> Served(s', n)
    ensures Pieces(acts) <= Unwritten(s.guest) + Produced(acts)
  {
    hide Served, Run, Inv, Turn, Stale, Ahead;
    ReachableInv(s);
    RunUsesFuel(s, acts, s', n, w);
    WritesAreBounded(s, acts, s');
    assert Turn(s'.guest) >= 1 by { TurnPositive(s'.guest); }
  }

  lemma TurnPositive(g: Guest)
    ensures Turn(g) >= 1
  {
  }

  /** The action the guest takes next is no empty write. */
  lemma NextProduces(s: State)
    requires Inv(s)
    ensures Step(s, NextAction(s)).Some? && IsGuestAction(NextAction(s))
    ensures Moves(NextAction(s)) || (Writes(NextAction(s)) > 0 && Leaves(NextAction(s)) == 0)
  {
    hide Step, Response, Inv, SortedSet;
    NextIsEnabled(s);
  }

  /** The guest on its own, taking action after action while commands end, serves every
      sent request. */
  lemma {:induction false} GuestServes(s: State, n: nat, w: nat) returns (acts: seq<Action>, s': State)
    requires Inv(s) && OneWidth(s, w) && Sent(s, n)
    ensures Run(s, acts) == Some(s') && Served(s', n)
    ensures forall a :: a in acts ==> IsGuestAction(a)
    decreases Fuel(s, n), Unwritten(s.guest)
  {
    hide Step, Inv, Served, Sent, OneWidth, NextAction, Fuel, Moves, Writes, Leaves, Unwritten, IsGuestAction;
    if Served(s, n) {
      acts, s' := [], s;
    } else {
      var a := NextAction(s);
      NextProduces(s);
      var t := Step(s, a).value;
      StepKeeps(s, a, t);
      GuestIsNoSubmit(a, n, w);
      StillSent(s, a, t, n, w);
      if Served(t, n) {
        acts, s' := [a], t;
        assert Run(t, []) == Some(t);
      } else {
        StepUsesFuel(s, a, t, n, w);
        StepWrites(s, a, t);
        var rest;
        rest, s' := GuestServes(t, n, w);
        acts := [a] + rest;
      }
    }
  }

  lemma GuestIsNoSubmit(a: Action, n: nat, w: nat)
    requires IsGuestAction(a)
    ensures LaterIds(a, n, w)
  {
  }

  // ----- order of service ------------------------------------------------

  ghost predicate BegunAt(log: seq<Event>, i: int, n: nat) {
    0 <= i < |log| && log[i].Began? && log[i].id == Dec(n)
  }

  ghost predicate Begun(log: seq<Event>, n: nat) { exists i :: BegunAt(log, i, n) }

  /** `m` begins only after `n` has begun. */
  ghost predicate After(log: seq<Event>, n: nat, m: nat) {
    forall j :: BegunAt(log, j, m) ==> exists i :: i < j && BegunAt(log, i, n)
  }

  /** Both requests are there, `m` has not begun, and the guest does not come to `m`
      before `n`. */
  ghost predicate FirstInLine(s: State, n: nat, m: nat) {
    && Sent(s, n) && Sent(s, m) && !Begun(s.log, m)
    && EventsOf(s.log, Dec(n)) == []
    && match s.guest
       case Idle => true
       case Testing(l, _) => Name(m, ReqFile) in l ==> Name(n, ReqFile) in l
       case g => g.req != Name(m, ReqFile)
  }

  lemma SentStays(s: State, a: Action, s': State, n: nat)
    requires Inv(s) && Step(s, a) == Some(s') && Sent(s, n)
    ensures Sent(s', n)
  {
    hide Name, CommandLine, Substituted, Response, Good;
  }

  /** A step adds at most one event, and a begin is that of the request the guest is at. */
  lemma StepLogs(s: State, a: Action, s': State)
    requires Inv(s) && Step(s, a) == Some(s')
    ensures s'.log == s.log || (|s'.log| == |s.log| + 1 && s'.log[..|s.log|] == s.log)
    ensures s'.log != s.log && s'.log[|s.log|].Began? ==>
              a == Begin && s.guest.Loaded? && s'.log[|s.log|].id == Basename(s.guest.req)
  {
    hide Name, CommandLine, Substituted, Response, Basename, Inv, MatchesReq;
  }

  lemma BegunGrows(log: seq<Event>, log': seq<Event>, n: nat)
    requires log <= log'
    ensures Begun(log, n) ==> Begun(log', n)
    ensures forall i :: i < |log| ==> (BegunAt(log', i, n) <==> BegunAt(log, i, n))
  {
    if Begun(log, n) {
      var i :| BegunAt(log, i, n);
      assert BegunAt(log', i, n);
    }
  }

  /** From the head of the line, `m` cannot begin in the next step. */
  lemma NotYet(s: State, a: Action, s': State, n: nat, m: nat)
    requires Inv(s) && Step(s, a) == Some(s') && FirstInLine(s, n, m)
    ensures !Begun(s'.log, m)
  {
    hide Name, CommandLine, Substituted, Response, Basename, HostStep, GuestStep, Good, EventsOf, Sent;
    StepLogs(s, a, s');
    assert s.log <= s'.log;
    BegunGrows(s.log, s'.log, m);
    if Begun(s'.log, m) {
      var j :| BegunAt(s'.log, j, m);
      assert !BegunAt(s.log, j, m);
      assert j == |s.log|;
      assert IsRequest(s, s.guest.req);
      var k :| k in s.calls && s.guest.req == Name(k, ReqFile);
      BasenameOfReq(k);
      DecInjective(k, m);
      assert false;
    }
  }

  /** The first name of a listing that has `n` is not that of a later request. */
  lemma PicksInOrder(l: seq<string>, n: nat, m: nat)
    requires StrictlyIncreasing(l) && l != [] && Name(n, ReqFile) in l
    requires LexLess(Name(n, ReqFile), Name(m, ReqFile))
    ensures l[0] != Name(m, ReqFile)
  {
    hide Name, LexLess;
    var i :| 0 <= i < |l| && l[i] == Name(n, ReqFile);
    if l[0] == Name(m, ReqFile) {
      if i > 0 { LexTransitive(l[0], l[i], l[0]); }
      LexIrreflexive(l[0]);
      assert false;
    }
  }

  lemma EndedIsOwn(s: State, a: Action, s': State)
    requires Inv(s) && Step(s, a) == Some(s') && s'.log != s.log && s'.log[|s.log|].Ended?
    ensures s.guest.Running? && s'.log[|s.log|].id == Basename(s.guest.req)
  {
    hide Name, CommandLine, Substituted, Response, Basename, Inv, MatchesReq;
  }

  /** Nothing of `n` is logged before it begins. */
  lemma SilentOrBegun(s: State, a: Action, s': State, n: nat)
    requires Inv(s) && Step(s, a) == Some(s') && n in s.calls && EventsOf(s.log, Dec(n)) == []
    ensures Begun(s'.log, n) || EventsOf(s'.log, Dec(n)) == []
  {
    hide Name, CommandLine, Substituted, Response, Basename, HostStep, GuestStep, EventsOf, Dec, Step;
    StepLogs(s, a, s');
    if s'.log != s.log {
      var e := s'.log[|s.log|];
      assert s'.log == s.log + [e];
      EventsOfAppend(s.log, e, Dec(n));
      if e.id == Dec(n) {
        if e.Began? {
          assert BegunAt(s'.log, |s.log|, n);
        } else {
          EndedIsOwn(s, a, s');
          assert IsRequest(s, s.guest.req);
          var k :| k in s.calls && s.guest.req == Name(k, ReqFile);
          BasenameOfReq(k);
          DecInjective(k, n);
          RunningHasBegun(s, n);
          assert false;
        }
      }
    }
  }

  lemma RunningHasBegun(s: State, n: nat)
    requires Inv(s) && n in s.calls && AtRequest(s, n) && s.guest.Running?
    ensures EventsOf(s.log, Dec(n)) != []
  {
    hide Name, CommandLine, Substituted, Response;
    assert Good(ViewOf(s, n), n);
  }

  lemma SilentIsThere(s: State, n: nat)
    requires Inv(s) && Sent(s, n) && EventsOf(s.log, Dec(n)) == []
    ensures Name(n, ReqFile) in s.dir
  {
    hide Name, CommandLine, Substituted, Response;
    assert Good(ViewOf(s, n), n);
  }

  /** Where the guest stands after a step from the head of the line. */
  lemma GuestStaysInLine(s: State, a: Action, s': State, n: nat, m: nat)
    requires Inv(s) && Step(s, a) == Some(s') && FirstInLine(s, n, m)
    requires LexLess(Name(n, ReqFile), Name(m, ReqFile))
    ensures match s'.guest
            case Idle => true
            case Testing(l, _) => Name(m, ReqFile) in l ==> Name(n, ReqFile) in l
            case g => g.req != Name(m, ReqFile)
  {
    hide Name, CommandLine, Substituted, Response, Basename, Good, EventsOf, MatchesReq, Sent, LexLess;
    SilentIsThere(s, n);
    OnlyRequestsMatch(n, ReqFile);
    PatternIsNoFile(s);
    if a.Test? && s'.guest.Picked? { PickedInOrder(s, s', n, m); }
  }

  lemma PickedInOrder(s: State, s': State, n: nat, m: nat)
    requires Inv(s) && Step(s, Test) == Some(s') && s'.guest.Picked? && FirstInLine(s, n, m)
    requires "*.req" !in s.dir && LexLess(Name(n, ReqFile), Name(m, ReqFile))
    ensures s'.guest.req != Name(m, ReqFile)
  {
    hide Name, CommandLine, Substituted, Response, Basename, Good, EventsOf, MatchesReq, Sent, LexLess;
    var l := s.guest.listing;
    assert s'.guest.req == l[0];
    if Name(n, ReqFile) in l { PicksInOrder(l, n, m); } else { assert Name(m, ReqFile) !in l; }
  }

  lemma LineMoves(s: State, a: Action, s': State, n: nat, m: nat)
    requires Inv(s) && Step(s, a) == Some(s') && FirstInLine(s, n, m)
    requires LexLess(Name(n, ReqFile), Name(m, ReqFile))
    ensures !Begun(s'.log, m) && (Begun(s'.log, n) || FirstInLine(s', n, m))
  {
    hide Name, Step, Inv, EventsOf, Sent, LexLess, Begun;
    NotYet(s, a, s', n, m);
    GuestStaysInLine(s, a, s', n, m);
    SentStays(s, a, s', n);
    SentStays(s, a, s', m);
    SentIsCall(s, n);
    SilentOrBegun(s, a, s', n);
  }

  lemma SentIsCall(s: State, n: nat)
    requires Sent(s, n)
    ensures n in s.calls
  {
  }

  ghost predicate InOrder(s: State, n: nat, m: nat) {
    After(s.log, n, m) && (Begun(s.log, n) || FirstInLine(s, n, m))
  }

  lemma OrderKept(s: State, a: Action, s': State, n: nat, m: nat)
    requires Inv(s) && Step(s, a) == Some(s') && InOrder(s, n, m)
    requires LexLess(Name(n, ReqFile), Name(m, ReqFile))
    ensures InOrder(s', n, m)
  {
    hide Name, Step, Inv, FirstInLine, LexLess, BegunAt;
    if Begun(s.log, n) {
      StepLogs(s, a, s');
      assert s.log <= s'.log;
      BegunGrows(s.log, s'.log, n);
      BegunGrows(s.log, s'.log, m);
      var i :| BegunAt(s.log, i, n);
      InLog(s.log, i, n);
      forall j | BegunAt(s'.log, j, m) ensures exists i :: i < j && BegunAt(s'.log, i, n) {
        if j < |s.log| {
          var i' :| i' < j && BegunAt(s.log, i', n);
          assert BegunAt(s'.log, i', n);
        } else {
          assert BegunAt(s'.log, i, n);
        }
      }
    } else {
      LineMoves(s, a, s', n, m);
    }
  }

  lemma InLog(log: seq<Event>, i: int, n: nat)
    requires BegunAt(log, i, n)
    ensures 0 <= i < |log|
  {
  }

  lemma {:induction false} RunInOrder(s: State, acts: seq<Action>, s': State, n: nat, m: nat)
    requires Inv(s) && InOrder(s, n, m) && Run(s, acts) == Some(s')
    requires LexLess(Name(n, ReqFile), Name(m, ReqFile))
    ensures InOrder(s', n, m)
    decreases |acts|
  {
    hide Name, Step, Inv, InOrder, LexLess;
    if acts != [] {
      var t := Step(s, acts[0]).value;
      StepKeeps(s, acts[0], t);
      OrderKept(s, acts[0], t, n, m);
      RunInOrder(t, acts[1..], s', n, m);
    }
  }

  /** Of two requests that are there when the guest is idle, the one listed first begins
      first, whatever else is submitted; by `ListedInOrderIff` that is the one with the
      smaller id if the ids have one width. */
  lemma ServedInOrder(s: State, acts: seq<Action>, s': State, n: nat, m: nat)
    requires Reachable(s) && s.guest.Idle? && Sent(s, n) && Sent(s, m)
    requires EventsOf(s.log, Dec(n)) == [] && EventsOf(s.log, Dec(m)) == []
    requires LexLess(Name(n, ReqFile), Name(m, ReqFile)) && Run(s, acts) == Some(s')
    ensures After(s'.log, n, m)
  {
    hide Name, Step, Run, Inv, LexLess, EventsOf;
    ReachableInv(s);
    if Begun(s.log, m) {
      var i :| BegunAt(s.log, i, m);
      var _ := EventsOfPosition(s.log, i);
      assert false;
    }
    RunInOrder(s, acts, s', n, m);
  }
}
