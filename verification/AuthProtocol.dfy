/** The locking protocol of the authentication store: any number of callers take the lock,
    read the file, replace or remove it and release the lock, one step at a time, while
    readers look at the file without the lock (services/head_auth.py). */
module AuthProtocol {
  import opened Wrappers
  import opened AuthStore
  import opened AuthSessions

  type Caller = nat

  /** How a call ended: with the reply of the event at `at`, without taking the lock, or by
      an exception at any point. */
  datatype Outcome = Replied(reply: Reply, at: nat) | Early(reply: Reply) | Broken

  datatype Phase =
    | Idle
    | Waiting(request: Request, called: nat)
    | Holding(request: Request, called: nat)
    | Decided(request: Request, called: nat, draw: Draw, next: AuthFile, reply: Reply)
    | Settled(request: Request, called: nat, outcome: Outcome)
  {
    predicate Inside() { Holding? || Decided? || Settled? }
  }

  /** A call that is over; `called` and `answered` say how many operations had been committed when
      it began and when it ended. */
  datatype Answer = Answer(caller: Caller, request: Request, outcome: Outcome, called: nat, answered: nat)

  /** The file an unlocked reader has read, after `seen` commits; it has yet to look at the clock. */
  datatype Glance = Glance(token: string, seen: nat, file: AuthFile)

  /** What an unlocked reader was told. */
  datatype Peek = Peek(token: string, now: int, seen: nat, valid: bool)

  /** `history` records commits, `turns` the lock turn of each; `drawn` the tokens drawn. */
  datatype System = System(
    file: AuthFile,
    holder: Option<Caller>,
    phases: map<Caller, Phase>,
    turn: nat,
    clock: int,
    drawn: set<string>,
    history: History,
    turns: seq<nat>,
    answers: seq<Answer>,
    readers: map<Caller, Glance>,
    peeks: seq<Peek>)
  {
    function PhaseOf(c: Caller): Phase {
      if c in phases then phases[c] else Idle
    }
  }

  datatype Step =
    | Call(caller: Caller, request: Request)
    | Acquire(caller: Caller)
    | Read(caller: Caller, draw: Draw)
    | Commit(caller: Caller)
    | Fail(caller: Caller)
    | Release(caller: Caller)
    | Look(reader: Caller, token: string)
    | Judge(reader: Caller)
    | Tick(clock: int)

  ghost predicate Enabled(sys: System, step: Step) {
    match step
    case Call(c, _) => sys.PhaseOf(c).Idle?
    case Acquire(c) => sys.PhaseOf(c).Waiting? && sys.holder.None?
    case Read(c, d) =>
      && sys.PhaseOf(c).Holding?
      && sys.clock <= d.issued <= d.pruned
      && d.token != "" && d.token !in sys.drawn
    case Commit(c) => sys.PhaseOf(c).Decided?
    case Fail(c) => sys.PhaseOf(c).Inside()
    case Release(c) => sys.PhaseOf(c).Settled?
    case Look(reader, _) => reader !in sys.readers
    case Judge(reader) => reader in sys.readers
    case Tick(clock) => sys.clock <= clock
  }

  ghost function Next(lifetime: int, sys: System, step: Step): System
    requires Enabled(sys, step)
  {
    match step
    case Call(c, r) =>
      var now := |sys.history|;
      if Unlocked(r).Some? then
        sys.(answers := sys.answers + [Answer(c, r, Early(Unlocked(r).value), now, now)])
      else sys.(phases := sys.phases[c := Waiting(r, now)])
    case Acquire(c) =>
      var p := sys.PhaseOf(c);
      sys.(holder := Some(c), turn := sys.turn + 1, phases := sys.phases[c := Holding(p.request, p.called)])
    case Read(c, d) =>
      var p := sys.PhaseOf(c);
      var (next, reply) := Serve(lifetime, sys.file, p.request, d);
      sys.(clock := d.pruned,
           drawn := sys.drawn + {d.token},
           phases := sys.phases[c := Decided(p.request, p.called, d, next, reply)])
    case Commit(c) =>
      var p := sys.PhaseOf(c);
      sys.(file := p.next,
           history := sys.history + [Event(p.request, p.draw, p.reply)],
           turns := sys.turns + [sys.turn],
           phases := sys.phases[c := Settled(p.request, p.called, Replied(p.reply, |sys.history|))])
    case Fail(c) =>
      var p := sys.PhaseOf(c);
      sys.(phases := sys.phases[c := Settled(p.request, p.called, Broken)])
    case Release(c) =>
      var p := sys.PhaseOf(c);
      sys.(holder := None,
           phases := sys.phases[c := Idle],
           answers := sys.answers + [Answer(c, p.request, p.outcome, p.called, |sys.history|)])
    case Look(reader, token) =>
      sys.(readers := sys.readers[reader := Glance(token, |sys.history|, sys.file)])
    case Judge(reader) =>
      var g := sys.readers[reader];
      sys.(readers := sys.readers - {reader},
           peeks := sys.peeks + [Peek(g.token, sys.clock, g.seen, SessionValid(g.file, g.token, sys.clock))])
    case Tick(clock) => sys.(clock := clock)
  }

  const START := System(None, None, map[], 0, 0, {}, [], [], [], map[], [])

  ghost predicate Runs(lifetime: int, sys: System, steps: seq<Step>)
    decreases steps
  {
    steps != [] ==> Enabled(sys, steps[0]) && Runs(lifetime, Next(lifetime, sys, steps[0]), steps[1..])
  }

  ghost function Final(lifetime: int, sys: System, steps: seq<Step>): System
    requires Runs(lifetime, sys, steps)
    decreases steps
  {
    if steps == [] then sys else Final(lifetime, Next(lifetime, sys, steps[0]), steps[1..])
  }

  // ---------------------------------------------------------------- the invariant

  /** Only the holder of the lock is inside. */
  ghost predicate Exclusive(sys: System) {
    && (forall c: Caller :: sys.PhaseOf(c).Inside() ==> sys.holder == Some(c))
    && (sys.holder.Some? ==> sys.PhaseOf(sys.holder.value).Inside())
  }

  /** The committed operations behave as if each ran alone, in this order. */
  ghost predicate Serial(lifetime: int, sys: System) {
    Atomic(lifetime, None, sys.history) && Replay(lifetime, None, sys.history) == sys.file
  }

  /** What a caller has computed fits the file as it is now. */
  ghost predicate Fits(lifetime: int, sys: System, p: Phase) {
    p.Decided? ==>
      && (p.next, p.reply) == Serve(lifetime, sys.file, p.request, p.draw)
      && p.draw.token != "" && p.draw.token in sys.drawn
      && (forall e | e in sys.history :: e.draw.token != p.draw.token)
      && p.draw.issued <= p.draw.pruned <= sys.clock
      && (forall e | e in sys.history :: e.draw.pruned <= p.draw.issued)
  }

  ghost predicate Current(lifetime: int, sys: System) {
    forall c: Caller :: Fits(lifetime, sys, sys.PhaseOf(c))
  }

  /** The order of the history is the order in which the lock was taken. */
  ghost predicate LockOrder(sys: System) {
    && |sys.turns| == |sys.history|
    && (forall i, j | 0 <= i < j < |sys.turns| :: sys.turns[i] < sys.turns[j])
    && (forall i | 0 <= i < |sys.turns| :: sys.turns[i] <= sys.turn)
    && (forall c: Caller :: InTurn(sys, sys.PhaseOf(c)))
  }

  /** A caller that has yet to commit has the latest turn to itself. */
  ghost predicate InTurn(sys: System, p: Phase) {
    p.Holding? || p.Decided? ==> forall i | 0 <= i < |sys.turns| :: sys.turns[i] < sys.turn
  }

  /** Clock readings never go back. */
  ghost predicate Timed(h: History) {
    && (forall i | 0 <= i < |h| :: h[i].draw.issued <= h[i].draw.pruned)
    && (forall i, j | 0 <= i < j < |h| :: h[i].draw.pruned <= h[j].draw.issued)
  }

  /** No token is drawn twice, and none is empty. */
  ghost predicate Fresh(h: History) {
    && (forall i | 0 <= i < |h| :: h[i].draw.token != "")
    && (forall i, j | 0 <= i < j < |h| :: h[i].draw.token != h[j].draw.token)
  }

  ghost predicate Drawn(sys: System) {
    && Fresh(sys.history) && Timed(sys.history)
    && (forall e | e in sys.history :: e.draw.token in sys.drawn && e.draw.pruned <= sys.clock)
  }

  ghost predicate Justified(sys: System, r: Request, outcome: Outcome) {
    match outcome
    case Replied(reply, at) => at < |sys.history| && sys.history[at].request == r && sys.history[at].reply == reply
    case Early(reply) => Unlocked(r) == Some(reply)
    case Broken => true
  }

  /** Every reply given is that of a committed operation, or needs none. */
  ghost predicate Answered(sys: System) {
    && (forall a | a in sys.answers :: Justified(sys, a.request, a.outcome))
    && (forall c: Caller :: Grounded(sys, sys.PhaseOf(c)))
  }

  ghost predicate Grounded(sys: System, p: Phase) {
    p.Settled? ==> Justified(sys, p.request, p.outcome)
  }

  ghost predicate Claims(outcome: Outcome, at: nat) {
    outcome.Replied? && outcome.at == at
  }

  /** No two replies are those of one committed operation. */
  ghost predicate OneReplyEach(sys: System) {
    && (forall i, j | 0 <= i < j < |sys.answers| && sys.answers[i].outcome.Replied? ::
          !Claims(sys.answers[j].outcome, sys.answers[i].outcome.at))
    && (forall c: Caller :: Unclaimed(sys, sys.PhaseOf(c)))
  }

  /** A reply yet to be given is that of no answered call. */
  ghost predicate Unclaimed(sys: System, p: Phase) {
    p.Settled? && p.outcome.Replied? ==>
      p.outcome.at < |sys.history| && forall a | a in sys.answers :: !Claims(a.outcome, p.outcome.at)
  }

  /** Every operation is committed while its call is under way. */
  ghost predicate Timely(sys: System) {
    && (forall a | a in sys.answers ::
          && a.called <= a.answered <= |sys.history|
          && (a.outcome.Replied? ==> a.called <= a.outcome.at < a.answered))
    && (forall c: Caller :: UnderWay(sys, sys.PhaseOf(c)))
  }

  ghost predicate UnderWay(sys: System, p: Phase) {
    && (!p.Idle? ==> p.called <= |sys.history|)
    && (p.Settled? && p.outcome.Replied? ==> p.called <= p.outcome.at < |sys.history|)
  }

  /** Every unlocked reader saw the file some prefix of the history leaves behind. */
  ghost predicate Seen(lifetime: int, sys: System) {
    && (forall r | r in sys.readers ::
          && sys.readers[r].seen <= |sys.history|
          && sys.readers[r].file == Replay(lifetime, None, sys.history[..sys.readers[r].seen]))
    && (forall p | p in sys.peeks ::
          && p.seen <= |sys.history|
          && p.valid == SessionValid(Replay(lifetime, None, sys.history[..p.seen]), p.token, p.now))
  }

  /** A reader looks at the clock after all that its file has seen. */
  ghost predicate Dated(sys: System) {
    forall p | p in sys.peeks ::
      p.seen <= |sys.history| && forall i | 0 <= i < p.seen :: sys.history[i].draw.pruned <= p.now
  }

  ghost predicate Inv(lifetime: int, sys: System) {
    && Exclusive(sys) && Serial(lifetime, sys) && Current(lifetime, sys) && LockOrder(sys)
    && Drawn(sys) && Answered(sys) && OneReplyEach(sys) && Timely(sys) && Seen(lifetime, sys) && Dated(sys)
  }

  // ---------------------------------------------------------------- one step

  lemma ExclusiveStep(lifetime: int, sys: System, step: Step)
    requires Enabled(sys, step) && Exclusive(sys)
    ensures Exclusive(Next(lifetime, sys, step))
  {
  }

  lemma SerialStep(lifetime: int, sys: System, step: Step)
    requires Enabled(sys, step) && Serial(lifetime, sys) && Current(lifetime, sys)
    ensures Serial(lifetime, Next(lifetime, sys, step))
  {
    if step.Commit? {
      var p := sys.PhaseOf(step.caller);
      ReplayAppend(lifetime, None, sys.history, [Event(p.request, p.draw, p.reply)]);
    }
  }

  /** The step of someone who is not inside. */
  ghost predicate IsOutside(step: Step) {
    step.Call? || step.Look? || step.Judge? || step.Tick?
  }

  lemma Elsewhere(lifetime: int, sys: System, step: Step, c: Caller)
    requires Enabled(sys, step) && Exclusive(sys)
    ensures var next := Next(lifetime, sys, step);
            next.PhaseOf(c).Inside() ==>
              || (next.PhaseOf(c) == sys.PhaseOf(c) && IsOutside(step))
              || (!IsOutside(step) && step.caller == c)
  {
  }

  lemma CurrentStep(lifetime: int, sys: System, step: Step)
    requires Enabled(sys, step) && Inv(lifetime, sys)
    ensures Current(lifetime, Next(lifetime, sys, step))
  {
    var next := Next(lifetime, sys, step);
    forall c: Caller ensures Fits(lifetime, next, next.PhaseOf(c)) {
      Elsewhere(lifetime, sys, step, c);
      assert Fits(lifetime, sys, sys.PhaseOf(c));
    }
  }

  lemma LockOrderStep(lifetime: int, sys: System, step: Step)
    requires Enabled(sys, step) && Inv(lifetime, sys)
    ensures LockOrder(Next(lifetime, sys, step))
  {
    var next := Next(lifetime, sys, step);
    forall c: Caller ensures InTurn(next, next.PhaseOf(c)) {
      Elsewhere(lifetime, sys, step, c);
      assert InTurn(sys, sys.PhaseOf(c));
    }
    if step.Commit? {
      assert InTurn(sys, sys.PhaseOf(step.caller));
    }
  }

  lemma DrawnStep(lifetime: int, sys: System, step: Step)
    requires Enabled(sys, step) && Inv(lifetime, sys)
    ensures Drawn(Next(lifetime, sys, step))
  {
    if step.Commit? {
      var p := sys.PhaseOf(step.caller);
      assert Fits(lifetime, sys, p);
      DrawnMore(sys.history, Event(p.request, p.draw, p.reply));
    }
  }

  lemma DrawnMore(h: History, e: Event)
    requires Fresh(h) && Timed(h)
    requires e.draw.token != "" && e.draw.issued <= e.draw.pruned
    requires forall before | before in h :: before.draw.token != e.draw.token && before.draw.pruned <= e.draw.issued
    ensures Fresh(h + [e]) && Timed(h + [e])
  {
  }

  lemma AnsweredStep(lifetime: int, sys: System, step: Step)
    requires Enabled(sys, step) && Inv(lifetime, sys)
    ensures Answered(Next(lifetime, sys, step))
  {
    var next := Next(lifetime, sys, step);
    forall c: Caller ensures Grounded(next, next.PhaseOf(c)) {
      Elsewhere(lifetime, sys, step, c);
      assert Grounded(sys, sys.PhaseOf(c));
    }
    if step.Release? {
      assert Grounded(sys, sys.PhaseOf(step.caller));
    }
  }

  lemma OneReplyEachStep(lifetime: int, sys: System, step: Step)
    requires Enabled(sys, step) && Inv(lifetime, sys)
    ensures OneReplyEach(Next(lifetime, sys, step))
  {
    var next := Next(lifetime, sys, step);
    forall c: Caller ensures Unclaimed(next, next.PhaseOf(c)) {
      Elsewhere(lifetime, sys, step, c);
      assert Unclaimed(sys, sys.PhaseOf(c));
    }
    if step.Release? {
      assert Unclaimed(sys, sys.PhaseOf(step.caller));
    }
  }

  lemma TimelyStep(lifetime: int, sys: System, step: Step)
    requires Enabled(sys, step) && Inv(lifetime, sys)
    ensures Timely(Next(lifetime, sys, step))
  {
    var next := Next(lifetime, sys, step);
    forall c: Caller ensures UnderWay(next, next.PhaseOf(c)) {
      assert UnderWay(sys, sys.PhaseOf(c));
    }
    if step.Release? {
      assert UnderWay(sys, sys.PhaseOf(step.caller));
    }
  }

  lemma SeenStep(lifetime: int, sys: System, step: Step)
    requires Enabled(sys, step) && Inv(lifetime, sys)
    ensures Seen(lifetime, Next(lifetime, sys, step))
  {
    var next := Next(lifetime, sys, step);
    assert sys.history[..|sys.history|] == sys.history;
    forall p | p in sys.peeks ensures next.history[..p.seen] == sys.history[..p.seen] {
    }
    forall r | r in sys.readers ensures next.history[..sys.readers[r].seen] == sys.history[..sys.readers[r].seen] {
    }
  }

  lemma DatedStep(lifetime: int, sys: System, step: Step)
    requires Enabled(sys, step) && Drawn(sys) && Seen(lifetime, sys) && Dated(sys)
    ensures Dated(Next(lifetime, sys, step))
  {
    var next := Next(lifetime, sys, step);
    forall p | p in sys.peeks
      ensures p.seen <= |next.history| && forall i | 0 <= i < p.seen :: next.history[i].draw.pruned <= p.now
    {
      assert forall i | 0 <= i < p.seen :: next.history[i] == sys.history[i];
    }
    if step.Judge? {
      forall i | 0 <= i < |sys.history| ensures sys.history[i].draw.pruned <= sys.clock {
        assert sys.history[i] in sys.history;
      }
    }
  }

  /** In every interleaving, from the unconfigured store on, operations behave as if they
      ran atomically in lock order, and every unlocked reader sees a committed file. */
  lemma {:induction false} EveryRunIsAtomic(lifetime: int, sys: System, steps: seq<Step>)
    requires Inv(lifetime, sys) && Runs(lifetime, sys, steps)
    ensures Inv(lifetime, Final(lifetime, sys, steps))
    decreases steps
  {
    if steps != [] {
      ExclusiveStep(lifetime, sys, steps[0]);
      SerialStep(lifetime, sys, steps[0]);
      CurrentStep(lifetime, sys, steps[0]);
      LockOrderStep(lifetime, sys, steps[0]);
      DrawnStep(lifetime, sys, steps[0]);
      AnsweredStep(lifetime, sys, steps[0]);
      OneReplyEachStep(lifetime, sys, steps[0]);
      TimelyStep(lifetime, sys, steps[0]);
      SeenStep(lifetime, sys, steps[0]);
      DatedStep(lifetime, sys, steps[0]);
      EveryRunIsAtomic(lifetime, Next(lifetime, sys, steps[0]), steps[1..]);
    }
  }

  // ---------------------------------------------------------------- what every run keeps

  lemma Reachable(lifetime: int, steps: seq<Step>) returns (sys: System)
    requires Runs(lifetime, START, steps)
    ensures sys == Final(lifetime, START, steps) && Inv(lifetime, sys)
  {
    EveryRunIsAtomic(lifetime, START, steps);
    sys := Final(lifetime, START, steps);
  }

  /** The history from `at` on is atomic from the file the part before it leaves behind. */
  lemma From(lifetime: int, sys: System, at: nat) returns (before: AuthFile)
    requires Serial(lifetime, sys) && at <= |sys.history|
    ensures Atomic(lifetime, before, sys.history[at..]) && Replay(lifetime, before, sys.history[at..]) == sys.file
    ensures at == 0 ==> before == None
  {
    before := Replay(lifetime, None, sys.history[..at]);
    assert sys.history == sys.history[..at] + sys.history[at..];
    ReplayAppend(lifetime, None, sys.history[..at], sys.history[at..]);
  }

  /** In every interleaving there are at most 32 sessions. */
  lemma AtMost32InEveryRun(lifetime: int, steps: seq<Step>)
    requires Runs(lifetime, START, steps)
    ensures Bounded(Final(lifetime, START, steps).file)
  {
    var sys := Reachable(lifetime, steps);
    AtMost32(lifetime, None, sys.history);
  }

  /** In every interleaving an issued token is valid until it expires unless something ended
      it or 32 logins came after it. */
  lemma TokenLastsInEveryRun(lifetime: int, steps: seq<Step>, at: nat)
    requires Runs(lifetime, START, steps)
    requires var sys := Final(lifetime, START, steps);
             && at < |sys.history| && sys.history[at].reply.Issued?
             && (forall j | at < j < |sys.history| :: !Ends(sys.history[j], sys.history[at].draw.token))
             && Logins(sys.history[at + 1..]) < 32
             && sys.clock < sys.history[at].draw.issued + lifetime
    ensures var sys := Final(lifetime, START, steps);
            SessionValid(sys.file, sys.history[at].draw.token, sys.clock)
  {
    var sys := Reachable(lifetime, steps);
    forall j | at < j < |sys.history| ensures sys.history[j].draw.pruned <= sys.clock {
      assert sys.history[j] in sys.history;
    }
    LastsIn(lifetime, sys.history, at, sys.clock);
  }

  /** In every interleaving a token is never valid again once the password has changed,
      authentication has been disabled or the token has been logged out. */
  lemma RevokedInEveryRun(lifetime: int, steps: seq<Step>, issue: nat, end: nat, now: int)
    requires Runs(lifetime, START, steps)
    requires var sys := Final(lifetime, START, steps);
             issue < end < |sys.history| && Ends(sys.history[end], sys.history[issue].draw.token)
    ensures var sys := Final(lifetime, START, steps);
            !SessionValid(sys.file, sys.history[issue].draw.token, now)
  {
    var sys := Reachable(lifetime, steps);
    EndedIn(lifetime, sys.history, issue, end, now);
  }

  /** In every interleaving a token is invalid from the moment its lifetime has passed. */
  lemma TokenExpiresInEveryRun(lifetime: int, steps: seq<Step>, at: nat, now: int)
    requires Runs(lifetime, START, steps)
    requires var h := Final(lifetime, START, steps).history; at < |h| && now >= h[at].draw.issued + lifetime
    ensures var sys := Final(lifetime, START, steps); !SessionValid(sys.file, sys.history[at].draw.token, now)
  {
    var sys := Reachable(lifetime, steps);
    ExpiresOnTime(lifetime, sys.history, at, now);
  }

  ghost predicate Between(k: int, a: int, b: int) {
    a < k < b || b < k < a
  }

  /** The caller was told that its setup succeeded. */
  ghost predicate ToldSetUp(a: Answer) {
    a.request.Setup? && !a.outcome.Broken? && a.outcome.reply.Issued?
  }

  /** In every interleaving, of two callers told that their setup succeeded, authentication was
      disabled between the one setup and the other. */
  lemma SetupOnceInEveryRun(lifetime: int, steps: seq<Step>, i: nat, j: nat)
    requires Runs(lifetime, START, steps)
    requires var answers := Final(lifetime, START, steps).answers;
             i < j < |answers| && ToldSetUp(answers[i]) && ToldSetUp(answers[j])
    ensures var sys := Final(lifetime, START, steps);
            var a, b := sys.answers[i].outcome, sys.answers[j].outcome;
            && a.Replied? && b.Replied?
            && exists k | 0 <= k < |sys.history| :: Unconfigures(sys.history[k]) && Between(k, a.at, b.at)
  {
    var sys := Reachable(lifetime, steps);
    var a, b := sys.answers[i], sys.answers[j];
    assert Justified(sys, a.request, a.outcome) && Justified(sys, b.request, b.outcome);
    assert !Claims(b.outcome, a.outcome.at);
    if a.outcome.at < b.outcome.at {
      SetupOnceIn(lifetime, sys, a.outcome.at, b.outcome.at);
    } else {
      SetupOnceIn(lifetime, sys, b.outcome.at, a.outcome.at);
    }
  }

  /** In every interleaving a call that ended before another began was committed before it. */
  lemma RealTimeOrderInEveryRun(lifetime: int, steps: seq<Step>, i: nat, j: nat)
    requires Runs(lifetime, START, steps)
    requires var answers := Final(lifetime, START, steps).answers;
             && i < |answers| && j < |answers| && answers[i].answered <= answers[j].called
             && answers[i].outcome.Replied? && answers[j].outcome.Replied?
    ensures var answers := Final(lifetime, START, steps).answers; answers[i].outcome.at < answers[j].outcome.at
  {
    var sys := Reachable(lifetime, steps);
    assert sys.answers[i] in sys.answers && sys.answers[j] in sys.answers;
  }

  /** In every interleaving a caller told that its logout is done, of a token issued before it asked, has
      ended that token for good. */
  lemma LogoutEndsTheToken(lifetime: int, steps: seq<Step>, i: nat, issue: nat, now: int)
    requires Runs(lifetime, START, steps)
    requires var sys := Final(lifetime, START, steps);
             && i < |sys.answers| && issue < |sys.history| && issue < sys.answers[i].called
             && sys.answers[i].request == Logout(sys.history[issue].draw.token)
             && !sys.answers[i].outcome.Broken?
    ensures var sys := Final(lifetime, START, steps);
            !SessionValid(sys.file, sys.history[issue].draw.token, now)
  {
    var sys := Reachable(lifetime, steps);
    var a := sys.answers[i];
    assert Justified(sys, a.request, a.outcome);
    assert a in sys.answers;
    RevokedInEveryRun(lifetime, steps, issue, a.outcome.at, now);
  }

  /** In every interleaving a caller told that its password change succeeded has ended every token issued
      before it asked. */
  lemma ChangeEndsTokens(lifetime: int, steps: seq<Step>, i: nat, issue: nat, now: int)
    requires Runs(lifetime, START, steps)
    requires var sys := Final(lifetime, START, steps);
             && i < |sys.answers| && issue < |sys.history| && issue < sys.answers[i].called
             && sys.answers[i].request.ChangePassword? && !sys.answers[i].outcome.Broken?
             && sys.answers[i].outcome.reply.Issued?
    ensures var sys := Final(lifetime, START, steps);
            !SessionValid(sys.file, sys.history[issue].draw.token, now)
  {
    var sys := Reachable(lifetime, steps);
    var a := sys.answers[i];
    assert Justified(sys, a.request, a.outcome);
    assert a in sys.answers;
    RevokedInEveryRun(lifetime, steps, issue, a.outcome.at, now);
  }

  /** In every interleaving no two callers are issued the same token. */
  lemma TokensDifferInEveryRun(lifetime: int, steps: seq<Step>, i: nat, j: nat)
    requires Runs(lifetime, START, steps)
    requires var answers := Final(lifetime, START, steps).answers;
             && i < j < |answers|
             && answers[i].outcome.Replied? && answers[i].outcome.reply.Issued?
             && answers[j].outcome.Replied? && answers[j].outcome.reply.Issued?
    ensures var answers := Final(lifetime, START, steps).answers;
            answers[i].outcome.reply.token != answers[j].outcome.reply.token
  {
    var sys := Reachable(lifetime, steps);
    var a, b := sys.answers[i], sys.answers[j];
    assert Justified(sys, a.request, a.outcome) && Justified(sys, b.request, b.outcome);
    assert !Claims(b.outcome, a.outcome.at);
    IssuesItsDraw(lifetime, sys, a.outcome.at);
    IssuesItsDraw(lifetime, sys, b.outcome.at);
  }

  lemma IssuesItsDraw(lifetime: int, sys: System, at: nat)
    requires Serial(lifetime, sys) && at < |sys.history| && sys.history[at].reply.Issued?
    ensures sys.history[at].reply.token == sys.history[at].draw.token
  {
    var before := From(lifetime, sys, at);
    assert sys.history[at..][0] == sys.history[at];
  }

  lemma SetupOnceIn(lifetime: int, sys: System, first: nat, second: nat)
    requires Serial(lifetime, sys) && first < second < |sys.history|
    requires Configures(sys.history[first]) && Configures(sys.history[second])
    ensures exists k | first < k < second :: Unconfigures(sys.history[k])
  {
    var before := Slice(lifetime, sys, first, second + 1);
    var h := sys.history[first..second + 1];
    assert h[0] == sys.history[first] && h[|h| - 1] == sys.history[second];
    var k := SetupOnce(lifetime, before, h);
    assert Unconfigures(sys.history[first + k]);
  }

  lemma Slice(lifetime: int, sys: System, from: nat, to: nat) returns (before: AuthFile)
    requires Serial(lifetime, sys) && from <= to <= |sys.history|
    ensures Atomic(lifetime, before, sys.history[from..to])
  {
    before := From(lifetime, sys, from);
    assert sys.history[from..] == sys.history[from..to] + sys.history[to..];
    ReplayAppend(lifetime, before, sys.history[from..to], sys.history[to..]);
  }

  /** In every interleaving each committed operation answers for the password last set before it. */
  lemma AcceptsTheLastSetInEveryRun(lifetime: int, steps: seq<Step>, at: nat)
    requires Runs(lifetime, START, steps)
    requires at < |Final(lifetime, START, steps).history|
    ensures var h := Final(lifetime, START, steps).history; AnswersFor(LastSet(None, h[..at]), h[at])
  {
    var sys := Reachable(lifetime, steps);
    var h := sys.history;
    assert h == (h[..at] + [h[at]]) + h[at + 1..];
    ReplayAppend(lifetime, None, h[..at] + [h[at]], h[at + 1..]);
    AcceptsTheLastSet(lifetime, h[..at], h[at]);
  }

  // ---------------------------------------------------------------- what unlocked readers are told

  lemma UpTo(lifetime: int, sys: System, seen: nat)
    requires Serial(lifetime, sys) && Fresh(sys.history) && seen <= |sys.history|
    ensures Atomic(lifetime, None, sys.history[..seen]) && Fresh(sys.history[..seen])
  {
    assert sys.history == sys.history[..seen] + sys.history[seen..];
    ReplayAppend(lifetime, None, sys.history[..seen], sys.history[seen..]);
  }

  lemma LastsIn(lifetime: int, h: History, at: nat, now: int)
    requires Atomic(lifetime, None, h) && Fresh(h) && at < |h| && h[at].reply.Issued?
    requires forall j | at < j < |h| :: !Ends(h[j], h[at].draw.token) && h[j].draw.pruned <= now
    requires Logins(h[at + 1..]) < 32 && now < h[at].draw.issued + lifetime
    ensures SessionValid(Replay(lifetime, None, h), h[at].draw.token, now)
  {
    var tail := h[at..];
    assert h == h[..at] + tail && tail[1..] == h[at + 1..];
    ReplayAppend(lifetime, None, h[..at], tail);
    forall e | e in tail[1..] ensures !Ends(e, tail[0].draw.token) && e.draw.pruned <= now {
      var j :| at < j < |h| && h[j] == e;
    }
    TokenLasts(lifetime, Replay(lifetime, None, h[..at]), tail, now);
  }

  lemma EndedIn(lifetime: int, h: History, issue: nat, end: nat, now: int)
    requires Atomic(lifetime, None, h) && Fresh(h) && issue < end < |h| && Ends(h[end], h[issue].draw.token)
    ensures !SessionValid(Replay(lifetime, None, h), h[issue].draw.token, now)
  {
    var tail := h[end..];
    assert h == h[..end] + tail;
    ReplayAppend(lifetime, None, h[..end], tail);
    forall e | e in tail ensures e.draw.token != h[issue].draw.token {
      var j :| end <= j < |h| && h[j] == e;
    }
    RevokedForGood(lifetime, Replay(lifetime, None, h[..end]), tail, h[issue].draw.token, now);
  }

  /** In every interleaving a reader whose file has seen the end of a token is told that it is invalid. */
  lemma ReadersSeeTheEnd(lifetime: int, steps: seq<Step>, p: Peek, issue: nat, end: nat)
    requires Runs(lifetime, START, steps)
    requires var sys := Final(lifetime, START, steps);
             && p in sys.peeks && issue < end < p.seen && end < |sys.history|
             && p.token == sys.history[issue].draw.token && Ends(sys.history[end], p.token)
    ensures !p.valid
  {
    var sys := Reachable(lifetime, steps);
    UpTo(lifetime, sys, p.seen);
    EndedIn(lifetime, sys.history[..p.seen], issue, end, p.now);
  }

  /** In every interleaving a reader whose file has seen a token issued, and neither its end nor 32 later
      logins, is told that it is valid, if it looks at the clock before the token expires. */
  lemma ReadersSeeItLast(lifetime: int, steps: seq<Step>, p: Peek, at: nat)
    requires Runs(lifetime, START, steps)
    requires var sys := Final(lifetime, START, steps);
             && p in sys.peeks && at < p.seen <= |sys.history| && sys.history[at].reply.Issued?
             && p.token == sys.history[at].draw.token
             && (forall j | at < j < p.seen :: !Ends(sys.history[j], p.token))
             && Logins(sys.history[..p.seen][at + 1..]) < 32
             && p.now < sys.history[at].draw.issued + lifetime
    ensures p.valid
  {
    var sys := Reachable(lifetime, steps);
    UpTo(lifetime, sys, p.seen);
    LastsIn(lifetime, sys.history[..p.seen], at, p.now);
  }

  /** In every interleaving a reader that looks at the clock once the lifetime of a token has passed is told
      that it is invalid. */
  lemma ReadersSeeItExpire(lifetime: int, steps: seq<Step>, p: Peek, at: nat)
    requires Runs(lifetime, START, steps)
    requires var sys := Final(lifetime, START, steps);
             && p in sys.peeks && at < |sys.history| && p.token == sys.history[at].draw.token
             && p.now >= sys.history[at].draw.issued + lifetime
    ensures !p.valid
  {
    var sys := Reachable(lifetime, steps);
    var seen := sys.history[..p.seen];
    ReplayEndsBy(lifetime, None, seen, p.token, sys.history[at].draw.issued + lifetime);
  }
}
