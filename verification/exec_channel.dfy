/** The exec channel: any number of host `Exec` calls and one guest init loop that
    share a control directory.  Every file operation is one step of a transition
    system, and a file is written in as many steps as the scheduler likes, so all
    interleavings are covered.  A call may time out at any poll; the script that
    submits a request goes on by itself when its caller has failed, or dies. */
module ExecChannel {
  import opened Results
  import opened ByteStrings
  import opened Decimal
  import opened ShellWords
  import opened ExecCodec

  // ----- file names ------------------------------------------------------

  datatype Kind = ReqFile | ReqTmp | ResFile | ResTmp

  function Extension(k: Kind): string {
    match k
    case ReqFile => ".req"
    case ReqTmp => ".req.tmp"
    case ResFile => ".res"
    case ResTmp => ".res.tmp"
  }

  function Name(n: nat, k: Kind): string { Dec(n) + Extension(k) }

  /** No two files of the protocol share a name. */
  lemma NameInjective(n: nat, k: Kind, m: nat, j: Kind)
    requires Name(n, k) == Name(m, j)
    ensures n == m && k == j
  {
    hide Dec;
    assert Name(n, k) == Dec(n) + ['.'] + Extension(k)[1..];
    assert Name(m, j) == Dec(m) + ['.'] + Extension(j)[1..];
    DecThen(n, Extension(k)[1..], m, Extension(j)[1..], '.');
    assert |Extension(k)| == |Extension(j)| && Extension(k)[3] == Extension(j)[3];
  }

  /** `basename "$req" .req`. */
  function Basename(req: string): string {
    if HasSuffix(req, ".req") && req != ".req" then req[..|req| - 4] else req
  }

  lemma BasenameOfReq(n: nat)
    ensures Basename(Name(n, ReqFile)) == Dec(n)
    ensures Basename(Name(n, ReqFile)) + ".res.tmp" == Name(n, ResTmp)
    ensures Basename(Name(n, ReqFile)) + ".res" == Name(n, ResFile)
  {
    assert Name(n, ReqFile)[|Name(n, ReqFile)| - 4..] == ".req";
  }

  /** What the shell pattern `*.req` matches: a leading dot is not matched. */
  predicate MatchesReq(f: string) { HasSuffix(f, ".req") && f[0] != '.' }

  lemma OnlyRequestsMatch(n: nat, k: Kind)
    ensures MatchesReq(Name(n, k)) <==> k == ReqFile
  {
    hide Dec;
    var f, last := Name(n, k), Extension(k)[|Extension(k)| - 1];
    assert Dec(n)[0] in Dec(n) && f[0] == Dec(n)[0];
    assert f[|f| - 1] == last;
    assert HasSuffix(f, ".req") ==> f[|f| - 4..][3] == 'q';
    if k == ReqFile { assert f[|f| - 4..] == ".req"; }
  }

  // ----- state -----------------------------------------------------------

  type Dir = map<string, string>

  /** The submitting script: `printf | base64 -d > tmp && mv tmp req`. */
  datatype Script = Waiting | Writing(written: nat) | Renamed | Dead

  datatype Outcome =
    | Returned(result: Result<ExecResult, ParseError>)
    | TimedOut
    | RunnerFailed

  datatype Caller =
    | Submitting
    | Polling
    | Found                   // `test -e res` succeeded
    | Got(body: string)       // `cat res` returned
    | Finished(outcome: Outcome)

  datatype Call = Call(argv: seq<string>, script: Script, caller: Caller)

  /** The guest loop, by program point. */
  datatype Guest =
    | Idle
    | Testing(listing: seq<string>, next: nat)
    | Picked(req: string)
    | Loaded(req: string, cmd: string)
    | Running(req: string, cmd: string)
    | Ran(req: string, rc: nat, out: string)
    | WritingRes(req: string, rc: nat, out: string, written: nat)
    | Answered(req: string)

  /** History: commands begun and ended in the guest. */
  datatype Event = Began(id: string, cmd: string) | Ended(id: string, rc: nat, raw: string)

  datatype State = State(dir: Dir, calls: map<nat, Call>, guest: Guest, log: seq<Event>)

  const Init: State := State(map[], map[], Idle, [])

  datatype Action =
    | Submit(n: nat, argv: seq<string>)
    | OpenReq(n: nat) | WriteReq(n: nat, k: nat) | RenameReq(n: nat) | ScriptDies(n: nat)
    | ScriptEnds(n: nat) | SubmitFails(n: nat)
    | Poll(n: nat) | TimeOut(n: nat) | ReadRes(n: nat) | ReadFails(n: nat)
    | RemoveRes(n: nat) | Return(n: nat)
    | Glob(listing: seq<string>) | Test | Load | Begin | End(rc: nat, raw: string)
    | OpenRes | WriteRes(k: nat) | RenameRes | DeleteReq

  // ----- steps -----------------------------------------------------------

  function Lookup(dir: Dir, f: string): Option<string> {
    if f in dir then Some(dir[f]) else None
  }

  /** The expansion of `*.req`: the matching names in byte order, or the pattern
      itself when there is none. */
  ghost predicate IsGlob(dir: Dir, listing: seq<string>) {
    if exists f :: f in dir && MatchesReq(f) then
      StrictlyIncreasing(listing) && forall f :: f in listing <==> f in dir && MatchesReq(f)
    else listing == ["*.req"]
  }

  function SetCall(s: State, n: nat, c: Call): State {
    s.(calls := s.calls[n := c])
  }

  /** One step of the submitting script or of the caller `n`. */
  function HostStep(s: State, a: Action, n: nat, c: Call): Option<State> {
    var body := CommandLine(c.argv);
    match a
    case OpenReq(_) =>
      if c.script == Waiting then
        Some(SetCall(s, n, c.(script := Writing(0))).(dir := s.dir[Name(n, ReqTmp) := ""]))
      else None
    case WriteReq(_, k) =>
      if c.script.Writing? && c.script.written + k <= |body| then
        var w := c.script.written + k;
        Some(SetCall(s, n, c.(script := Writing(w))).(dir := s.dir[Name(n, ReqTmp) := body[..w]]))
      else None
    case RenameReq(_) =>
      if c.script == Writing(|body|) then
        Some(SetCall(s, n, c.(script := Renamed)).(
             dir := (s.dir - {Name(n, ReqTmp)})[Name(n, ReqFile) := body]))
      else None
    case ScriptDies(_) =>
      if c.script.Waiting? || c.script.Writing? then
        Some(SetCall(s, n, c.(script := Dead)))
      else None
    case ScriptEnds(_) =>
      if c.caller == Submitting && (c.script == Renamed || c.script == Dead) then
        Some(SetCall(s, n, c.(caller := Polling)))
      else None
    case SubmitFails(_) =>
      if c.caller == Submitting then
        Some(SetCall(s, n, c.(caller := Finished(RunnerFailed))))
      else None
    case Poll(_) =>
      if c.caller == Polling then
        Some(if Name(n, ResFile) in s.dir then SetCall(s, n, c.(caller := Found)) else s)
      else None
    case TimeOut(_) =>
      if c.caller == Polling then
        Some(SetCall(s, n, c.(caller := Finished(TimedOut))))
      else None
    case ReadRes(_) =>
      if c.caller == Found then
        // A vanished file makes `cat` print nothing.
        Some(SetCall(s, n, c.(caller :=
             Got(if Name(n, ResFile) in s.dir then s.dir[Name(n, ResFile)] else ""))))
      else None
    case ReadFails(_) =>
      if c.caller == Found then
        Some(SetCall(s, n, c.(caller := Finished(RunnerFailed))))
      else None
    case RemoveRes(_) =>
      // `rm -f` may come late or never: its result is ignored.
      if c.caller.Got? || (c.caller.Finished? && c.caller.outcome.Returned?) then
        Some(s.(dir := s.dir - {Name(n, ResFile)}))
      else None
    case Return(_) =>
      if c.caller.Got? then
        Some(SetCall(s, n, c.(caller := Finished(Returned(ParseResponse(c.caller.body))))))
      else None
    case _ => None
  }

  /** One step of the guest loop. */
  ghost function GuestStep(s: State, a: Action): Option<State> {
    var g := s.guest;
    match a
    case Glob(listing) =>
      if g.Idle? && IsGlob(s.dir, listing) then Some(s.(guest := Testing(listing, 0))) else None
    case Test =>
      if !g.Testing? then None
      else if g.next >= |g.listing| then Some(s.(guest := Idle))
      else if g.listing[g.next] in s.dir then Some(s.(guest := Picked(g.listing[g.next])))
      else Some(s.(guest := Testing(g.listing, g.next + 1)))
    case Load =>
      if g.Picked? && g.req in s.dir then
        Some(s.(guest := Loaded(g.req, Substituted(s.dir[g.req]))))
      else None
    case Begin =>
      if g.Loaded? then
        Some(s.(guest := Running(g.req, g.cmd), log := s.log + [Began(Basename(g.req), g.cmd)]))
      else None
    case End(rc, raw) =>
      if g.Running? && rc <= 255 then
        Some(s.(guest := Ran(g.req, rc, Substituted(raw)),
                log := s.log + [Ended(Basename(g.req), rc, raw)]))
      else None
    case OpenRes =>
      if g.Ran? then
        Some(s.(guest := WritingRes(g.req, g.rc, g.out, 0),
                dir := s.dir[Basename(g.req) + ".res.tmp" := ""]))
      else None
    case WriteRes(k) =>
      if g.WritingRes? && g.written + k <= |Response(g.rc, g.out)| then
        var w := g.written + k;
        Some(s.(guest := WritingRes(g.req, g.rc, g.out, w),
                dir := s.dir[Basename(g.req) + ".res.tmp" := Response(g.rc, g.out)[..w]]))
      else None
    case RenameRes =>
      if g.WritingRes? && g.written == |Response(g.rc, g.out)| then
        var tmp := Basename(g.req) + ".res.tmp";
        if tmp in s.dir then
          Some(s.(guest := Answered(g.req),
                  dir := (s.dir - {tmp})[Basename(g.req) + ".res" := s.dir[tmp]]))
        else None
      else None
    case DeleteReq =>
      if g.Answered? then Some(s.(guest := Idle, dir := s.dir - {g.req})) else None
    case _ => None
  }

  predicate IsGuestAction(a: Action) {
    a.Glob? || a.Test? || a.Load? || a.Begin? || a.End? || a.OpenRes? || a.WriteRes? ||
    a.RenameRes? || a.DeleteReq?
  }

  ghost function Step(s: State, a: Action): Option<State> {
    if IsGuestAction(a) then GuestStep(s, a)
    else if a.Submit? then
      (if a.n in s.calls then None
       else Some(SetCall(s, a.n, Call(a.argv, Waiting, Submitting))))
    else if a.n in s.calls then HostStep(s, a, a.n, s.calls[a.n])
    else None
  }

  ghost function Run(s: State, acts: seq<Action>): Option<State>
    decreases |acts|
  {
    if acts == [] then Some(s)
    else
      match Step(s, acts[0])
      case None => None
      case Some(s') => Run(s', acts[1..])
  }

  // ----- one request, seen on its own ------------------------------------

  function EventsOf(log: seq<Event>, id: string): (r: seq<Event>)
    ensures forall e :: e in r ==> e.id == id
  {
    if log == [] then []
    else
      var last := log[|log| - 1];
      EventsOf(log[..|log| - 1], id) + (if last.id == id then [last] else [])
  }

  lemma EventsOfAppend(log: seq<Event>, e: Event, id: string)
    ensures EventsOf(log + [e], id) == EventsOf(log, id) + (if e.id == id then [e] else [])
  {
    assert (log + [e])[..|log|] == log;
  }

  /** The guest's program point if it is at request `n`. */
  function GuestAt(g: Guest, n: nat): Guest {
    if g.Idle? || g.Testing? || g.req != Name(n, ReqFile) then Idle else g
  }

  function File(dir: Dir, n: nat, k: Kind): Option<string> { Lookup(dir, Name(n, k)) }

  datatype View = View(call: Option<Call>, reqTmp: Option<string>, req: Option<string>,
                       resTmp: Option<string>, res: Option<string>,
                       guest: Guest, events: seq<Event>)

  function ViewOf(s: State, n: nat): View {
    View(if n in s.calls then Some(s.calls[n]) else None,
         File(s.dir, n, ReqTmp), File(s.dir, n, ReqFile),
         File(s.dir, n, ResTmp), File(s.dir, n, ResFile),
         GuestAt(s.guest, n), EventsOf(s.log, Dec(n)))
  }

  const Blank: View := View(None, None, None, None, None, Idle, [])

  /** The command of `v` has run to its end, once. */
  predicate RanOnce(v: View, n: nat, body: string) {
    && |v.events| == 2
    && v.events[0] == Began(Dec(n), Substituted(body))
    && v.events[1].Ended? && v.events[1].id == Dec(n) && v.events[1].rc <= 255
  }

  function AnswerOf(v: View): string
    requires |v.events| == 2 && v.events[1].Ended?
  {
    Response(v.events[1].rc, Substituted(v.events[1].raw))
  }

  predicate NotRun(v: View) { v.events == [] && v.resTmp == None && v.res == None }

  predicate Over(v: View, n: nat, body: string) {
    RanOnce(v, n, body) && v.resTmp == None && (v.res.Some? ==> v.res.value == AnswerOf(v))
  }

  predicate RequestGood(v: View, n: nat, body: string) {
    match v.guest
    case Idle => if v.req.Some? then v.req.value == body && NotRun(v) else Over(v, n, body)
    case Testing(_, _) => false
    case Picked(_) => v.req == Some(body) && NotRun(v)
    case Loaded(_, cmd) => v.req == Some(body) && NotRun(v) && cmd == Substituted(body)
    case Running(_, cmd) =>
      && v.req == Some(body) && v.resTmp == None && v.res == None
      && v.events == [Began(Dec(n), Substituted(body))]
    case Ran(_, rc, out) =>
      && v.req == Some(body) && RanOnce(v, n, body) && v.resTmp == None && v.res == None
      && rc == v.events[1].rc && out == Substituted(v.events[1].raw)
    case WritingRes(_, rc, out, w) =>
      && v.req == Some(body) && RanOnce(v, n, body) && v.res == None
      && rc == v.events[1].rc && out == Substituted(v.events[1].raw)
      && w <= |AnswerOf(v)| && v.resTmp == Some(AnswerOf(v)[..w])
    case Answered(_) => v.req == Some(body) && Over(v, n, body)
  }

  predicate CallerGood(v: View, n: nat, c: Call) {
    var body := CommandLine(c.argv);
    match c.caller
    case Found => v.res.Some?
    case Got(b) => RanOnce(v, n, body) && b == AnswerOf(v)
    case Finished(Returned(r)) =>
      && RanOnce(v, n, body)
      && r == Ok(ExecResult(v.events[1].rc, Substituted(v.events[1].raw)))
    case _ =>
      |v.events| == 2 && (v.guest.Answered? || v.guest.Idle?) ==> v.res.Some?
  }

  predicate ScriptGood(v: View, c: Call) {
    var body := CommandLine(c.argv);
    match c.script
    case Waiting => v.reqTmp == None
    case Writing(w) => w <= |body| && v.reqTmp == Some(body[..w])
    case Renamed => v.reqTmp == None
    case Dead => true
  }

  predicate Good(v: View, n: nat) {
    match v.call
    case None => v == Blank
    case Some(c) =>
      && ScriptGood(v, c) && CallerGood(v, n, c)
      && (if c.script == Renamed then RequestGood(v, n, CommandLine(c.argv))
          else NotRun(v) && v.req == None && v.guest == Idle)
  }

  ghost predicate Owned(s: State, f: string) {
    exists n, k :: n in s.calls && f == Name(n, k)
  }

  ghost predicate IsRequest(s: State, f: string) {
    exists n :: n in s.calls && f == Name(n, ReqFile)
  }

  ghost predicate GuestGood(s: State) {
    match s.guest
    case Idle => true
    case Testing(l, i) =>
      i <= |l| &&
      (l == ["*.req"] ||
       (i == 0 && l != [] && StrictlyIncreasing(l) &&
        forall f :: f in l ==> f in s.dir && IsRequest(s, f)))
    case g => IsRequest(s, g.req)
  }

  ghost predicate Inv(s: State) {
    && (forall n: nat :: Good(ViewOf(s, n), n))
    && (forall f :: f in s.dir ==> Owned(s, f))
    && GuestGood(s)
  }

  // ----- every step keeps the invariant ----------------------------------

  lemma PutFile(dir: Dir, n: nat, k: Kind, c: string)
    ensures File(dir[Name(n, k) := c], n, k) == Some(c)
    ensures forall m, j :: m != n || j != k ==>
              File(dir[Name(n, k) := c], m, j) == File(dir, m, j)
  {
    forall m, j | m != n || j != k
      ensures File(dir[Name(n, k) := c], m, j) == File(dir, m, j)
    {
      if Name(m, j) == Name(n, k) { NameInjective(m, j, n, k); }
    }
  }

  lemma DropFile(dir: Dir, n: nat, k: Kind)
    ensures File(dir - {Name(n, k)}, n, k) == None
    ensures forall m, j :: m != n || j != k ==>
              File(dir - {Name(n, k)}, m, j) == File(dir, m, j)
  {
    forall m, j | m != n || j != k
      ensures File(dir - {Name(n, k)}, m, j) == File(dir, m, j)
    {
      if Name(m, j) == Name(n, k) { NameInjective(m, j, n, k); }
    }
  }

  /** The frame of a step about request `n`: nothing else is seen to change. */
  lemma KeepsOthers(s: State, s': State, n: nat)
    requires Inv(s)
    requires forall m, k :: m != n ==> File(s'.dir, m, k) == File(s.dir, m, k)
    requires forall m :: m != n ==> (m in s'.calls <==> m in s.calls)
    requires forall m :: m != n && m in s.calls ==> s'.calls[m] == s.calls[m]
    requires forall m :: m != n ==> GuestAt(s'.guest, m) == GuestAt(s.guest, m)
    requires forall m :: m != n ==> EventsOf(s'.log, Dec(m)) == EventsOf(s.log, Dec(m))
    requires Good(ViewOf(s', n), n)
    ensures forall m: nat :: Good(ViewOf(s', m), m)
  {
    hide Name, Good;
    forall m: nat ensures Good(ViewOf(s', m), m) {
      if m != n {
        assert ViewOf(s', m) == ViewOf(s, m);
        assert Good(ViewOf(s, m), m);
      }
    }
  }

  lemma StillOwned(s: State, s': State)
    requires Inv(s)
    requires forall m :: m in s.calls ==> m in s'.calls
    requires forall f :: f in s'.dir && f !in s.dir ==> Owned(s', f)
    ensures forall f :: f in s'.dir ==> Owned(s', f)
  {
    hide Name;
    forall f | f in s'.dir ensures Owned(s', f) {
      if f in s.dir {
        assert Owned(s, f);
        var n, k :| n in s.calls && f == Name(n, k);
        assert n in s'.calls && f == Name(n, k);
      }
    }
  }

  lemma SubmitKeeps(s: State, n: nat, argv: seq<string>)
    requires Inv(s) && n !in s.calls
    ensures Inv(SetCall(s, n, Call(argv, Waiting, Submitting)))
  {
    hide Name, CommandLine;
    var s' := SetCall(s, n, Call(argv, Waiting, Submitting));
    assert Good(ViewOf(s, n), n);
    assert ViewOf(s, n) == Blank;
    assert ViewOf(s', n) == Blank.(call := Some(Call(argv, Waiting, Submitting)));
    KeepsOthers(s, s', n);
    StillOwned(s, s');
    GuestStillGood(s, s');
  }

  lemma GuestStillGood(s: State, s': State)
    requires Inv(s) && s'.guest == s.guest
    requires forall m :: m in s.calls ==> m in s'.calls
    requires forall m :: m in s.calls && Name(m, ReqFile) in s.dir ==> Name(m, ReqFile) in s'.dir
    ensures GuestGood(s')
  {
    hide Name;
    if s.guest.Testing? {
      forall f | f in s.guest.listing && s.guest.listing != ["*.req"]
        ensures f in s'.dir && IsRequest(s', f)
      {
        assert IsRequest(s, f);
        var m :| m in s.calls && f == Name(m, ReqFile);
        assert m in s'.calls;
      }
    } else if !s.guest.Idle? {
      assert IsRequest(s, s.guest.req);
      var m :| m in s.calls && s.guest.req == Name(m, ReqFile);
      assert m in s'.calls;
    }
  }

  /** How a host step changes the view of its own request. */
  function HostView(v: View, a: Action, c: Call): View {
    var body := CommandLine(c.argv);
    match a
    case OpenReq(_) => v.(call := Some(c.(script := Writing(0))), reqTmp := Some(""))
    case WriteReq(_, k) =>
      var w := if c.script.Writing? && c.script.written + k <= |body| then c.script.written + k else 0;
      v.(call := Some(c.(script := Writing(w))), reqTmp := Some(body[..w]))
    case RenameReq(_) =>
      v.(call := Some(c.(script := Renamed)), reqTmp := None, req := Some(body))
    case ScriptDies(_) => v.(call := Some(c.(script := Dead)))
    case ScriptEnds(_) => v.(call := Some(c.(caller := Polling)))
    case Poll(_) => if v.res.Some? then v.(call := Some(c.(caller := Found))) else v
    case TimeOut(_) => v.(call := Some(c.(caller := Finished(TimedOut))))
    case ReadRes(_) =>
      v.(call := Some(c.(caller := Got(if v.res.Some? then v.res.value else ""))))
    case RemoveRes(_) => v.(res := None)
    case Return(_) =>
      v.(call := Some(c.(caller :=
         Finished(Returned(ParseResponse(if c.caller.Got? then c.caller.body else ""))))))
    case _ => v.(call := Some(c.(caller := Finished(RunnerFailed))))
  }

  lemma HostStepView(s: State, a: Action, n: nat, c: Call, s': State)
    requires n in s.calls && c == s.calls[n]
    requires HostStep(s, a, n, c) == Some(s')
    ensures ViewOf(s', n) == HostView(ViewOf(s, n), a, c)
    ensures forall m, k :: m != n ==> File(s'.dir, m, k) == File(s.dir, m, k)
  {
    hide Name, CommandLine, ParseResponse;
    var body := CommandLine(c.argv);
    match a
    case OpenReq(_) => PutFile(s.dir, n, ReqTmp, "");
    case WriteReq(_, k) => PutFile(s.dir, n, ReqTmp, body[..c.script.written + k]);
    case RenameReq(_) =>
      DropFile(s.dir, n, ReqTmp);
      PutFile(s.dir - {Name(n, ReqTmp)}, n, ReqFile, body);
    case RemoveRes(_) => DropFile(s.dir, n, ResFile);
    case _ =>
  }

  /** A host step keeps its own request's view good. */
  lemma HostViewGood(s: State, a: Action, n: nat, c: Call, s': State)
    requires n in s.calls && c == s.calls[n]
    requires HostStep(s, a, n, c) == Some(s')
    requires Good(ViewOf(s, n), n)
    ensures Good(HostView(ViewOf(s, n), a, c), n)
  {
    hide Name, CommandLine, Substituted, Response, ParseResponse, Dec;
    if a.Return? {
      ReturnViewGood(s, n, c);
    } else if a.RenameReq? || a.OpenReq? || a.WriteReq? {
      ScriptViewGood(s, a, n, c, s');
    }
  }

  lemma ReturnViewGood(s: State, n: nat, c: Call)
    requires n in s.calls && c == s.calls[n] && c.caller.Got? && Good(ViewOf(s, n), n)
    ensures Good(HostView(ViewOf(s, n), Return(n), c), n)
  {
    hide Name, CommandLine, Substituted, Response, ParseResponse, Dec, EventsOf;
    var v := ViewOf(s, n);
    ParseOfResponse(v.events[1].rc, Substituted(v.events[1].raw));
  }

  lemma ScriptViewGood(s: State, a: Action, n: nat, c: Call, s': State)
    requires n in s.calls && c == s.calls[n] && (a.RenameReq? || a.OpenReq? || a.WriteReq?)
    requires HostStep(s, a, n, c) == Some(s') && Good(ViewOf(s, n), n)
    ensures Good(HostView(ViewOf(s, n), a, c), n)
  {
    hide Name, CommandLine, Substituted, Response, ParseResponse, Dec, EventsOf;
  }

  lemma HostStepKeeps(s: State, a: Action, n: nat, c: Call, s': State)
    requires Inv(s) && n in s.calls && c == s.calls[n]
    requires HostStep(s, a, n, c) == Some(s')
    ensures Inv(s')
  {
    hide Name, CommandLine, Substituted, Response, ParseResponse, Good;
    HostStepView(s, a, n, c, s');
    HostViewGood(s, a, n, c, s');
    KeepsOthers(s, s', n);
    forall f | f in s'.dir && f !in s.dir ensures Owned(s', f) {
      assert f == Name(n, ReqTmp) || f == Name(n, ReqFile);
    }
    StillOwned(s, s');
    forall m | m in s.calls && Name(m, ReqFile) in s.dir ensures Name(m, ReqFile) in s'.dir {
      if m != n { assert File(s'.dir, m, ReqFile) == File(s.dir, m, ReqFile); }
    }
    GuestStillGood(s, s');
  }

  lemma GlobKeeps(s: State, listing: seq<string>)
    requires Inv(s) && s.guest.Idle? && IsGlob(s.dir, listing)
    ensures Inv(s.(guest := Testing(listing, 0)))
  {
    hide Name, CommandLine, Substituted, Response, Good, MatchesReq;
    var s' := s.(guest := Testing(listing, 0));
    forall m: nat ensures Good(ViewOf(s', m), m) {
      assert ViewOf(s', m) == ViewOf(s, m);
    }
    StillOwned(s, s');
    if exists f :: f in s.dir && MatchesReq(f) {
      var f :| f in s.dir && MatchesReq(f);
      assert f in listing;
      forall g | g in listing ensures g in s'.dir && IsRequest(s', g) {
        assert Owned(s, g);
        var n, k :| n in s.calls && g == Name(n, k);
        OnlyRequestsMatch(n, k);
      }
    }
  }

  lemma NameStartsWithDigit(n: nat, k: Kind)
    ensures Name(n, k) != "" && IsDigit(Name(n, k)[0])
  {
    assert Dec(n)[0] in Dec(n);
  }

  /** The pattern itself never names a file of the protocol. */
  lemma PatternIsNoFile(s: State)
    requires Inv(s)
    ensures "*.req" !in s.dir
  {
    if "*.req" in s.dir {
      assert Owned(s, "*.req");
      var n, k :| n in s.calls && "*.req" == Name(n, k);
      NameStartsWithDigit(n, k);
      assert false;
    }
  }

  lemma TestKeeps(s: State, s': State)
    requires Inv(s) && GuestStep(s, Test) == Some(s')
    ensures Inv(s')
  {
    hide Name, CommandLine, Substituted, Response;
    PatternIsNoFile(s);
    var g := s.guest;
    StillOwned(s, s');
    if g.next < |g.listing| && g.listing[g.next] in s.dir {
      var f := g.listing[g.next];
      assert g.listing != ["*.req"];
      assert IsRequest(s, f);
      var n :| n in s.calls && f == Name(n, ReqFile);
      forall m | m != n ensures GuestAt(s'.guest, m) == GuestAt(s.guest, m) {
        if Name(m, ReqFile) == f { NameInjective(m, ReqFile, n, ReqFile); }
      }
      assert Good(ViewOf(s, n), n);
      assert File(s.dir, n, ReqFile).Some?;
      assert ViewOf(s', n) == ViewOf(s, n).(guest := Picked(f));
      KeepsOthers(s, s', n);
    } else {
      forall m: nat ensures Good(ViewOf(s', m), m) {
        assert ViewOf(s', m) == ViewOf(s, m);
      }
    }
  }

  /** How a guest step at request `n` changes the view of that request. */
  function GuestView(v: View, a: Action, n: nat): View {
    var g := v.guest;
    match a
    case Load =>
      v.(guest := Loaded(Name(n, ReqFile), Substituted(if v.req.Some? then v.req.value else "")))
    case Begin =>
      var cmd := if g.Loaded? then g.cmd else "";
      v.(guest := Running(Name(n, ReqFile), cmd), events := v.events + [Began(Dec(n), cmd)])
    case End(rc, raw) =>
      v.(guest := Ran(Name(n, ReqFile), rc, Substituted(raw)),
         events := v.events + [Ended(Dec(n), rc, raw)])
    case OpenRes =>
      if g.Ran? then v.(guest := WritingRes(g.req, g.rc, g.out, 0), resTmp := Some("")) else v
    case WriteRes(k) =>
      if g.WritingRes? && g.written + k <= |Response(g.rc, g.out)| then
        v.(guest := WritingRes(g.req, g.rc, g.out, g.written + k),
           resTmp := Some(Response(g.rc, g.out)[..g.written + k]))
      else v
    case RenameRes => v.(guest := Answered(Name(n, ReqFile)), resTmp := None, res := v.resTmp)
    case _ => v.(guest := Idle, req := None)
  }

  predicate AtRequest(s: State, n: nat) {
    !s.guest.Idle? && !s.guest.Testing? && s.guest.req == Name(n, ReqFile)
  }

  lemma GuestStepView(s: State, a: Action, n: nat, s': State)
    requires AtRequest(s, n) && GuestStep(s, a) == Some(s')
    ensures ViewOf(s', n) == GuestView(ViewOf(s, n), a, n)
    ensures forall m, k :: m != n ==> File(s'.dir, m, k) == File(s.dir, m, k)
    ensures forall m :: m != n ==> GuestAt(s'.guest, m) == GuestAt(s.guest, m)
    ensures forall m :: m != n ==> EventsOf(s'.log, Dec(m)) == EventsOf(s.log, Dec(m))
    ensures s'.calls == s.calls
  {
    hide Name, CommandLine, Substituted, Response, Basename, EventsOf;
    BasenameOfReq(n);
    var g := s.guest;
    match a {
      case Begin => AppendedToOwn(s.log, Began(Dec(n), g.cmd), n);
      case End(rc, raw) => AppendedToOwn(s.log, Ended(Dec(n), rc, raw), n);
      case OpenRes => PutFile(s.dir, n, ResTmp, "");
      case WriteRes(k) => PutFile(s.dir, n, ResTmp, Response(g.rc, g.out)[..g.written + k]);
      case RenameRes =>
        DropFile(s.dir, n, ResTmp);
        PutFile(s.dir - {Name(n, ResTmp)}, n, ResFile, s.dir[Name(n, ResTmp)]);
      case DeleteReq => DropFile(s.dir, n, ReqFile);
      case _ =>
    }
    forall m | m != n ensures GuestAt(s'.guest, m) == GuestAt(s.guest, m) {
      if Name(m, ReqFile) == Name(n, ReqFile) { NameInjective(m, ReqFile, n, ReqFile); }
    }
  }

  lemma AppendedToOwn(log: seq<Event>, e: Event, n: nat)
    requires e.id == Dec(n)
    ensures EventsOf(log + [e], Dec(n)) == EventsOf(log, Dec(n)) + [e]
    ensures forall m :: m != n ==> EventsOf(log + [e], Dec(m)) == EventsOf(log, Dec(m))
  {
    hide Dec;
    EventsOfAppend(log, e, Dec(n));
    forall m | m != n ensures EventsOf(log + [e], Dec(m)) == EventsOf(log, Dec(m)) {
      EventsOfAppend(log, e, Dec(m));
      if Dec(m) == Dec(n) { DecInjective(m, n); }
    }
  }

  /** The program point at which the guest takes action `a`. */
  predicate GuestEnabled(g: Guest, a: Action) {
    match a
    case Load => g.Picked?
    case Begin => g.Loaded?
    case End(rc, _) => g.Running? && rc <= 255
    case OpenRes => g.Ran?
    case WriteRes(k) => g.WritingRes? && g.written + k <= |Response(g.rc, g.out)|
    case RenameRes => g.WritingRes? && g.written == |Response(g.rc, g.out)|
    case DeleteReq => g.Answered?
    case _ => false
  }

  lemma GuestViewGood(v: View, a: Action, n: nat)
    requires Good(v, n) && v.call.Some? && GuestEnabled(v.guest, a)
    requires v.guest.req == Name(n, ReqFile)
    ensures Good(GuestView(v, a, n), n)
  {
    hide Name, CommandLine, Substituted, Response;
    var body := CommandLine(v.call.value.argv);
    assert v.call.value.script == Renamed && RequestGood(v, n, body);
    var v' := GuestView(v, a, n);
    assert RequestGood(v', n, body);
    assert CallerGood(v', n, v.call.value);
  }

  lemma GuestNewFiles(s: State, a: Action, n: nat, s': State)
    requires AtRequest(s, n) && GuestStep(s, a) == Some(s') && !a.Glob? && !a.Test?
    ensures GuestEnabled(s.guest, a)
    ensures forall f :: f in s'.dir && f !in s.dir ==> f == Name(n, ResTmp) || f == Name(n, ResFile)
    ensures s'.guest == Idle || AtRequest(s', n)
  {
    hide Name, Substituted, Response, Basename;
    BasenameOfReq(n);
  }

  lemma GuestRequestStepKeeps(s: State, a: Action, n: nat, s': State)
    requires Inv(s) && GuestStep(s, a) == Some(s') && !a.Glob? && !a.Test?
    requires AtRequest(s, n) && n in s.calls
    ensures Inv(s')
  {
    hide Name, CommandLine, Substituted, Response, Good, GuestView, Basename;
    assert Good(ViewOf(s, n), n);
    GuestStepView(s, a, n, s');
    GuestNewFiles(s, a, n, s');
    GuestViewGood(ViewOf(s, n), a, n);
    forall m: nat ensures Good(ViewOf(s', m), m) { KeepsOthers(s, s', n); }
    assert forall f :: f in s'.dir ==> Owned(s', f) by { StillOwned(s, s'); }
    assert GuestGood(s') by {
      if s'.guest != Idle { assert s'.guest.req == Name(n, ReqFile) && n in s'.calls; }
    }
  }

  lemma GuestStepKeeps(s: State, a: Action, s': State)
    requires Inv(s) && GuestStep(s, a) == Some(s')
    ensures Inv(s')
  {
    hide Name, CommandLine, Substituted, Response, Good;
    if a.Glob? {
      GlobKeeps(s, a.listing);
    } else if a.Test? {
      TestKeeps(s, s');
    } else {
      assert IsRequest(s, s.guest.req);
      var n :| n in s.calls && s.guest.req == Name(n, ReqFile);
      GuestRequestStepKeeps(s, a, n, s');
    }
  }

  lemma StepKeeps(s: State, a: Action, s': State)
    requires Inv(s) && Step(s, a) == Some(s')
    ensures Inv(s')
  {
    hide Name, CommandLine, Substituted, Response, Good;
    if IsGuestAction(a) { GuestStepKeeps(s, a, s'); }
    else if a.Submit? { SubmitKeeps(s, a.n, a.argv); }
    else { HostStepKeeps(s, a, a.n, s.calls[a.n], s'); }
  }

  lemma {:induction false} RunKeeps(s: State, acts: seq<Action>, s': State)
    requires Inv(s) && Run(s, acts) == Some(s')
    ensures Inv(s')
    decreases |acts|
  {
    hide Name, CommandLine, Substituted, Response, Good, Step;
    if acts != [] {
      var t := Step(s, acts[0]).value;
      StepKeeps(s, acts[0], t);
      RunKeeps(t, acts[1..], s');
    }
  }

  lemma InitGood()
    ensures Inv(Init)
  {
    forall n: nat ensures Good(ViewOf(Init, n), n) {
      assert ViewOf(Init, n) == Blank;
    }
  }

  /** A state some interleaving leads to. */
  ghost predicate Reachable(s: State) { exists acts :: Run(Init, acts) == Some(s) }

  lemma ReachableInv(s: State)
    requires Reachable(s)
    ensures Inv(s)
  {
    var acts :| Run(Init, acts) == Some(s);
    InitGood();
    RunKeeps(Init, acts, s);
  }
}
