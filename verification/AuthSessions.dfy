/** What holds of every history of committed operations of the authentication store:
    how many sessions there are, how long a token stays valid, and what ends it. */
module AuthSessions {
  import opened Wrappers
  import opened AuthStore

  /** A committed operation and the reply it computed. */
  datatype Event = Event(request: Request, draw: Draw, reply: Reply)

  type History = seq<Event>

  /** The file a history leaves behind. */
  function Replay(lifetime: int, file: AuthFile, h: History): AuthFile
    decreases h
  {
    if h == [] then file else Replay(lifetime, Serve(lifetime, file, h[0].request, h[0].draw).0, h[1..])
  }

  /** Every reply is the one the operation gives when it runs alone at its place. */
  ghost predicate Atomic(lifetime: int, file: AuthFile, h: History)
    decreases h
  {
    h != [] ==>
      var (next, reply) := Serve(lifetime, file, h[0].request, h[0].draw);
      h[0].reply == reply && Atomic(lifetime, next, h[1..])
  }

  /** A history is atomic when its parts are, one after the other. */
  lemma {:induction false} ReplayAppend(lifetime: int, file: AuthFile, a: History, b: History)
    ensures Replay(lifetime, file, a + b) == Replay(lifetime, Replay(lifetime, file, a), b)
    ensures Atomic(lifetime, file, a + b)
       <==> Atomic(lifetime, file, a) && Atomic(lifetime, Replay(lifetime, file, a), b)
    decreases a
  {
    if a == [] {
      assert a + b == b;
    } else {
      assert (a + b)[1..] == a[1..] + b;
      ReplayAppend(lifetime, Serve(lifetime, file, a[0].request, a[0].draw).0, a[1..], b);
    }
  }

  // ---------------------------------------------------------------- how many sessions

  lemma {:induction false} ActiveShrinks(sessions: seq<Session>, now: int)
    ensures |Active(sessions, now)| <= |sessions|
  {
    if sessions != [] {
      ActiveShrinks(sessions[1..], now);
    }
  }

  lemma {:induction false} WithoutShrinks(sessions: seq<Session>, hash: TokenHash)
    ensures |Without(sessions, hash)| <= |sessions|
  {
    if sessions != [] {
      WithoutShrinks(sessions[1..], hash);
    }
  }

  ghost predicate Bounded(file: AuthFile) {
    file.Some? ==> |file.value.sessions| <= 32
  }

  lemma ServeKeepsBound(lifetime: int, file: AuthFile, r: Request, d: Draw)
    requires Bounded(file)
    ensures Bounded(Serve(lifetime, file, r, d).0)
  {
    if file.Some? {
      ActiveShrinks(file.value.sessions, d.pruned);
      if r.Logout? {
        WithoutShrinks(Active(file.value.sessions, d.pruned), Sha256(r.token));
      }
    }
  }

  /** Starting unconfigured, there are never more than 32 sessions. */
  lemma {:induction false} AtMost32(lifetime: int, file: AuthFile, h: History)
    requires Bounded(file)
    ensures Bounded(Replay(lifetime, file, h))
    decreases h
  {
    if h != [] {
      ServeKeepsBound(lifetime, file, h[0].request, h[0].draw);
      AtMost32(lifetime, Serve(lifetime, file, h[0].request, h[0].draw).0, h[1..]);
    }
  }

  // ---------------------------------------------------------------- how long a token lasts

  /** `s` is among the sessions, with at most `newer` sessions behind it. */
  ghost predicate Near(sessions: seq<Session>, s: Session, newer: int) {
    exists i | 0 <= i < |sessions| :: sessions[i] == s && |sessions| - 1 - i <= newer
  }

  ghost predicate Holds(file: AuthFile, s: Session, newer: int) {
    file.Some? && Near(file.value.sessions, s, newer)
  }

  lemma NearTail(sessions: seq<Session>, s: Session, newer: int)
    requires Near(sessions, s, newer)
    ensures sessions != [] && ((sessions[0] == s && |sessions| - 1 <= newer) || Near(sessions[1..], s, newer))
  {
    var i :| 0 <= i < |sessions| && sessions[i] == s && |sessions| - 1 - i <= newer;
    if i > 0 {
      assert sessions[1..][i - 1] == s;
    }
  }

  lemma NearAfter(before: seq<Session>, sessions: seq<Session>, s: Session, newer: int)
    requires Near(sessions, s, newer)
    ensures Near(before + sessions, s, newer)
  {
    var i :| 0 <= i < |sessions| && sessions[i] == s && |sessions| - 1 - i <= newer;
    assert (before + sessions)[|before| + i] == s;
  }

  lemma {:induction false} ActiveKeeps(sessions: seq<Session>, now: int, s: Session, newer: int)
    requires Near(sessions, s, newer) && s.expiresAt > now
    ensures Near(Active(sessions, now), s, newer)
  {
    NearTail(sessions, s, newer);
    var rest := Active(sessions[1..], now);
    if sessions[0] == s && |sessions| - 1 <= newer {
      ActiveShrinks(sessions[1..], now);
      assert Active(sessions, now)[0] == s;
    } else {
      ActiveKeeps(sessions[1..], now, s, newer);
      NearAfter(if sessions[0].expiresAt > now then [sessions[0]] else [], rest, s, newer);
    }
  }

  lemma {:induction false} WithoutKeeps(sessions: seq<Session>, hash: TokenHash, s: Session, newer: int)
    requires Near(sessions, s, newer) && s.hash != hash
    ensures Near(Without(sessions, hash), s, newer)
  {
    NearTail(sessions, s, newer);
    var rest := Without(sessions[1..], hash);
    if sessions[0] == s && |sessions| - 1 <= newer {
      WithoutShrinks(sessions[1..], hash);
      assert Without(sessions, hash)[0] == s;
    } else {
      WithoutKeeps(sessions[1..], hash, s, newer);
      NearAfter(if sessions[0].hash == hash then [] else [sessions[0]], rest, s, newer);
    }
  }

  lemma LoginKeeps(kept: seq<Session>, s: Session, newer: int, added: Session)
    requires Near(kept, s, newer) && newer < MAX_SESSIONS - 1
    ensures Near(Newest(kept, MAX_SESSIONS - 1) + [added], s, newer + 1)
  {
    var i :| 0 <= i < |kept| && kept[i] == s && |kept| - 1 - i <= newer;
    var cut := |kept| - |Newest(kept, MAX_SESSIONS - 1)|;
    assert (Newest(kept, MAX_SESSIONS - 1) + [added])[i - cut] == s;
  }

  ghost predicate IsLogin(e: Event) {
    e.request.Login? && e.reply.Issued?
  }

  /** The event ends every session but the one it may issue. */
  ghost predicate EndsSessions(e: Event) {
    (e.request.ChangePassword? && e.reply.Issued?) || (e.request.Disable? && e.reply.Done?)
  }

  ghost predicate Ends(e: Event, token: string) {
    EndsSessions(e) || e.request == Logout(token)
  }

  lemma StepKeeps(lifetime: int, file: AuthFile, e: Event, s: Session, newer: int)
    requires Holds(file, s, newer)
    requires e.reply == Serve(lifetime, file, e.request, e.draw).1
    requires !Ends(e, s.hash.token) && e.draw.pruned < s.expiresAt
    requires IsLogin(e) ==> newer < MAX_SESSIONS - 1
    ensures Holds(Serve(lifetime, file, e.request, e.draw).0, s, newer + if IsLogin(e) then 1 else 0)
  {
    match e.request
    case Login(password) =>
      if Verifies(password, file.value.password) {
        ActiveKeeps(file.value.sessions, e.draw.pruned, s, newer);
        LoginKeeps(Active(file.value.sessions, e.draw.pruned), s, newer, NewSession(lifetime, e.draw));
      }
    case Logout(token) =>
      ActiveKeeps(file.value.sessions, e.draw.pruned, s, newer);
      WithoutKeeps(Active(file.value.sessions, e.draw.pruned), Sha256(token), s, newer);
    case _ =>
  }

  ghost function Logins(h: History): nat {
    if h == [] then 0 else (if IsLogin(h[0]) then 1 else 0) + Logins(h[1..])
  }

  lemma {:induction false} HoldsOn(lifetime: int, file: AuthFile, h: History, s: Session, newer: nat)
    requires Atomic(lifetime, file, h) && Holds(file, s, newer)
    requires forall e | e in h :: !Ends(e, s.hash.token) && e.draw.pruned < s.expiresAt
    requires newer + Logins(h) < MAX_SESSIONS
    ensures Holds(Replay(lifetime, file, h), s, newer + Logins(h))
    decreases h
  {
    if h != [] {
      StepKeeps(lifetime, file, h[0], s, newer);
      HoldsOn(lifetime, Serve(lifetime, file, h[0].request, h[0].draw).0, h[1..], s,
              newer + if IsLogin(h[0]) then 1 else 0);
    }
  }

  /** A token issued by the first event of a history stays valid until it expires, through
      any 31 later logins, unless it is logged out, the password changes or authentication
      is disabled. `now` is a clock reading after those of the history. */
  lemma TokenLasts(lifetime: int, file: AuthFile, h: History, now: int)
    requires h != [] && Atomic(lifetime, file, h)
    requires h[0].reply.Issued? && h[0].draw.token != ""
    requires forall e | e in h[1..] :: !Ends(e, h[0].draw.token) && e.draw.pruned <= now
    requires Logins(h[1..]) < 32
    requires now < h[0].draw.issued + lifetime
    ensures SessionValid(Replay(lifetime, file, h), h[0].draw.token, now)
  {
    var s := NewSession(lifetime, h[0].draw);
    var next := Serve(lifetime, file, h[0].request, h[0].draw).0;
    assert next.value.sessions[|next.value.sessions| - 1] == s;
    HoldsOn(lifetime, next, h[1..], s, 0);
  }

  /** The last `count` sessions are others, none expired by `now`. */
  ghost predicate Behind(sessions: seq<Session>, hash: TokenHash, count: nat, now: int) {
    && count <= |sessions|
    && forall i | |sessions| - count <= i < |sessions| :: sessions[i].hash != hash && sessions[i].expiresAt > now
  }

  lemma {:induction false} ActiveKeepsBehind(
      sessions: seq<Session>, hash: TokenHash, count: nat, pruned: int, now: int)
    requires Behind(sessions, hash, count, now) && pruned <= now
    ensures Behind(Active(sessions, pruned), hash, count, now)
  {
    if count > 0 {
      var rest := if count == |sessions| then count - 1 else count;
      assert Behind(sessions[1..], hash, rest, now);
      ActiveKeepsBehind(sessions[1..], hash, rest, pruned, now);
      if count == |sessions| {
        ActiveShrinks(sessions[1..], pruned);
      }
    }
  }

  lemma {:induction false} LoginsPush(
      lifetime: int, file: AuthFile, h: History, hash: TokenHash, count: nat, now: int)
    requires Atomic(lifetime, file, h) && Bounded(file)
    requires file.Some? && count <= MAX_SESSIONS && Behind(file.value.sessions, hash, count, now)
    requires forall e | e in h ::
               IsLogin(e) && Sha256(e.draw.token) != hash && e.draw.pruned <= now < e.draw.issued + lifetime
    requires count + |h| >= MAX_SESSIONS
    ensures var last := Replay(lifetime, file, h);
            last.Some? && Bounded(last) && Behind(last.value.sessions, hash, MAX_SESSIONS, now)
    decreases h
  {
    if h != [] {
      var e := h[0];
      var next := Serve(lifetime, file, e.request, e.draw).0;
      ServeKeepsBound(lifetime, file, e.request, e.draw);
      ActiveKeepsBehind(file.value.sessions, hash, count, e.draw.pruned, now);
      var more := if count == MAX_SESSIONS then count else count + 1;
      assert Behind(next.value.sessions, hash, more, now);
      LoginsPush(lifetime, next, h[1..], hash, more, now);
    }
  }

  /** One login more is one too many: 32 later logins, none of them expired, push the token
      out. */
  lemma TokenPushedOut(lifetime: int, file: AuthFile, h: History, now: int)
    requires h != [] && Atomic(lifetime, file, h) && Bounded(file) && h[0].reply.Issued?
    requires |h| > 32
    requires forall e | e in h[1..] ::
               IsLogin(e) && e.draw.token != h[0].draw.token && e.draw.pruned <= now < e.draw.issued + lifetime
    ensures !SessionValid(Replay(lifetime, file, h), h[0].draw.token, now)
  {
    var next := Serve(lifetime, file, h[0].request, h[0].draw).0;
    ServeKeepsBound(lifetime, file, h[0].request, h[0].draw);
    LoginsPush(lifetime, next, h[1..], Sha256(h[0].draw.token), 0, now);
  }

  // ---------------------------------------------------------------- when a token expires

  /** No session of the token lasts longer than `expiry`. */
  ghost predicate EndsBy(sessions: seq<Session>, token: string, expiry: int) {
    forall s | s in sessions && s.hash.token == token :: s.expiresAt <= expiry
  }

  ghost predicate FileEndsBy(file: AuthFile, token: string, expiry: int) {
    file.Some? ==> EndsBy(file.value.sessions, token, expiry)
  }

  lemma {:induction false} ActiveMeans(sessions: seq<Session>, now: int)
    ensures forall s :: s in Active(sessions, now) <==> s in sessions && s.expiresAt > now
  {
    if sessions != [] {
      ActiveMeans(sessions[1..], now);
      assert sessions == [sessions[0]] + sessions[1..];
    }
  }

  lemma {:induction false} WithoutMeans(sessions: seq<Session>, hash: TokenHash)
    ensures forall s :: s in Without(sessions, hash) <==> s in sessions && s.hash != hash
  {
    if sessions != [] {
      WithoutMeans(sessions[1..], hash);
      assert sessions == [sessions[0]] + sessions[1..];
    }
  }

  lemma ServeEndsBy(lifetime: int, file: AuthFile, r: Request, d: Draw, token: string, expiry: int)
    requires FileEndsBy(file, token, expiry)
    requires d.token == token ==> d.issued + lifetime <= expiry
    ensures FileEndsBy(Serve(lifetime, file, r, d).0, token, expiry)
  {
    if file.Some? {
      ActiveMeans(file.value.sessions, d.pruned);
      if r.Logout? {
        WithoutMeans(Active(file.value.sessions, d.pruned), Sha256(r.token));
      }
    }
  }

  lemma {:induction false} ReplayEndsBy(lifetime: int, file: AuthFile, h: History, token: string, expiry: int)
    requires FileEndsBy(file, token, expiry)
    requires forall e | e in h && e.draw.token == token :: e.draw.issued + lifetime <= expiry
    ensures FileEndsBy(Replay(lifetime, file, h), token, expiry)
    decreases h
  {
    if h != [] {
      ServeEndsBy(lifetime, file, h[0].request, h[0].draw, token, expiry);
      ReplayEndsBy(lifetime, Serve(lifetime, file, h[0].request, h[0].draw).0, h[1..], token, expiry);
    }
  }

  /** A token is never valid once its lifetime has passed since it was issued, provided it is drawn
      once. */
  lemma ExpiresOnTime(lifetime: int, h: History, at: nat, now: int)
    requires at < |h| && forall j | 0 <= j < |h| && j != at :: h[j].draw.token != h[at].draw.token
    requires now >= h[at].draw.issued + lifetime
    ensures !SessionValid(Replay(lifetime, None, h), h[at].draw.token, now)
  {
    ReplayEndsBy(lifetime, None, h, h[at].draw.token, h[at].draw.issued + lifetime);
  }

  /** After a successful login, and after a logout, the file holds no session that had expired when the
      clock was read, the one just issued aside. */
  lemma ExpiredAreDropped(lifetime: int, file: AuthFile, r: Request, d: Draw, s: Session)
    requires file.Some? && (r.Logout? || (r.Login? && Serve(lifetime, file, r, d).1.Issued?))
    requires s in Serve(lifetime, file, r, d).0.value.sessions
    ensures s.expiresAt > d.pruned || (r.Login? && s == NewSession(lifetime, d))
    ensures s in file.value.sessions || (r.Login? && s == NewSession(lifetime, d))
  {
    ActiveMeans(file.value.sessions, d.pruned);
    if r.Logout? {
      WithoutMeans(Active(file.value.sessions, d.pruned), Sha256(r.token));
    }
  }

  /** A logout keeps every other session that has not expired. */
  lemma LogoutKeepsOthers(lifetime: int, file: AuthFile, token: string, d: Draw)
    requires file.Some?
    ensures var after := Serve(lifetime, file, Logout(token), d).0;
            && after.Some? && after.value.password == file.value.password
            && forall s :: s in after.value.sessions <==>
                 s in file.value.sessions && s.expiresAt > d.pruned && s.hash != Sha256(token)
  {
    ActiveMeans(file.value.sessions, d.pruned);
    WithoutMeans(Active(file.value.sessions, d.pruned), Sha256(token));
  }

  /** Only bad new passwords, and a logout without token, are answered without the lock. */
  lemma AnsweredWithoutLock(r: Request)
    ensures Unlocked(r).Some? <==>
            match r
            case Setup(password) => |password| < 8 || |password| > 1024
            case ChangePassword(_, next) => |next| < 8 || |next| > 1024
            case Logout(token) => token == ""
            case _ => false
  {
  }

  /** `Setup` and `ChangePassword` turn down exactly the new passwords of fewer than 8 and of more than
      1024 characters before they look at the file. */
  lemma PasswordsTurnedDown(lifetime: int, file: AuthFile, current: string, next: string, d: Draw)
    ensures Operation(lifetime, file, Setup(next), d).1 == Refused(TooShort) <==> |next| < 8
    ensures Operation(lifetime, file, Setup(next), d).1 == Refused(TooLong) <==> |next| > 1024
    ensures Operation(lifetime, file, ChangePassword(current, next), d).1 == Refused(TooShort) <==> |next| < 8
    ensures Operation(lifetime, file, ChangePassword(current, next), d).1 == Refused(TooLong) <==> |next| > 1024
    ensures |next| < 8 || |next| > 1024 ==>
              && Operation(lifetime, file, Setup(next), d).0 == file
              && Operation(lifetime, file, ChangePassword(current, next), d).0 == file
    ensures file.None? && 8 <= |next| <= 1024 ==> Operation(lifetime, file, Setup(next), d).1 == Issued(d.token)
  {
  }

  // ---------------------------------------------------------------- what ends a token

  ghost predicate Unknown(file: AuthFile, token: string) {
    file.Some? ==> forall s | s in file.value.sessions :: s.hash != Sha256(token)
  }

  lemma {:induction false} ActiveIsOld(sessions: seq<Session>, now: int)
    ensures forall s | s in Active(sessions, now) :: s in sessions
  {
    if sessions != [] {
      ActiveIsOld(sessions[1..], now);
    }
  }

  lemma {:induction false} WithoutIsOld(sessions: seq<Session>, hash: TokenHash)
    ensures forall s | s in Without(sessions, hash) :: s in sessions && s.hash != hash
  {
    if sessions != [] {
      WithoutIsOld(sessions[1..], hash);
    }
  }

  lemma StaysUnknown(lifetime: int, file: AuthFile, e: Event, token: string)
    requires e.draw.token != token
    requires e.reply == Serve(lifetime, file, e.request, e.draw).1
    requires Unknown(file, token) || Ends(e, token)
    ensures Unknown(Serve(lifetime, file, e.request, e.draw).0, token)
  {
    if file.Some? {
      ActiveIsOld(file.value.sessions, e.draw.pruned);
      if e.request.Logout? {
        WithoutIsOld(Active(file.value.sessions, e.draw.pruned), Sha256(e.request.token));
      }
    }
  }

  /** Once the password has changed, authentication has been disabled or the token has been
      logged out, the token is never valid again, provided it is not drawn again. */
  lemma {:induction false} RevokedForGood(lifetime: int, file: AuthFile, h: History, token: string, now: int)
    requires Atomic(lifetime, file, h)
    requires Unknown(file, token) || (h != [] && Ends(h[0], token))
    requires forall e | e in h :: e.draw.token != token
    ensures !SessionValid(Replay(lifetime, file, h), token, now)
    decreases h
  {
    if h != [] {
      StaysUnknown(lifetime, file, h[0], token);
      RevokedForGood(lifetime, Serve(lifetime, file, h[0].request, h[0].draw).0, h[1..], token, now);
    }
  }

  // ---------------------------------------------------------------- one setup at a time

  ghost predicate Configures(e: Event) {
    e.request.Setup? && e.reply.Issued?
  }

  ghost predicate Unconfigures(e: Event) {
    e.request.Disable? && e.reply.Done?
  }

  /** A setup succeeds only when none has succeeded since authentication was last disabled. */
  lemma {:induction false} SetupOnce(lifetime: int, file: AuthFile, h: History) returns (k: nat)
    requires h != [] && Atomic(lifetime, file, h) && Configures(h[|h| - 1])
    requires file.Some? || (|h| > 1 && Configures(h[0]))
    ensures k < |h| && Unconfigures(h[k])
    decreases h
  {
    if Unconfigures(h[0]) {
      return 0;
    }
    var next := Serve(lifetime, file, h[0].request, h[0].draw).0;
    var rest := SetupOnce(lifetime, next, h[1..]);
    k := rest + 1;
  }

  // ---------------------------------------------------------------- which password is accepted

  /** The password in force after an event, judged by request and reply alone. */
  function SetBy(password: Option<string>, e: Event): Option<string> {
    match e.request
    case Setup(first) => if e.reply.Issued? then Some(first) else password
    case ChangePassword(_, next) => if e.reply.Issued? then Some(next) else password
    case Disable(_) => if e.reply.Done? then None else password
    case _ => password
  }

  /** The password last set in a history and not disabled since. */
  function LastSet(password: Option<string>, h: History): Option<string>
    decreases h
  {
    if h == [] then password else LastSet(SetBy(password, h[0]), h[1..])
  }

  function PasswordOf(file: AuthFile): Option<string> {
    if file.None? then None else Some(file.value.password.password)
  }

  lemma {:induction false} PasswordIsLastSet(lifetime: int, file: AuthFile, h: History)
    requires Atomic(lifetime, file, h)
    ensures PasswordOf(Replay(lifetime, file, h)) == LastSet(PasswordOf(file), h)
    decreases h
  {
    if h != [] {
      PasswordIsLastSet(lifetime, Serve(lifetime, file, h[0].request, h[0].draw).0, h[1..]);
    }
  }

  /** The event succeeds exactly when its password is the one in force, or for a setup when none is. */
  ghost predicate AnswersFor(password: Option<string>, e: Event) {
    match e.request
    case Setup(_) => e.reply.Issued? <==> password == None
    case Login(given) => e.reply.Issued? <==> password == Some(given) && |given| <= MAX_PASSWORD_LENGTH
    case ChangePassword(given, _) => e.reply.Issued? <==> password == Some(given) && |given| <= MAX_PASSWORD_LENGTH
    case Disable(given) => e.reply.Done? <==> password == Some(given) && |given| <= MAX_PASSWORD_LENGTH
    case Logout(_) => e.reply.Done?
  }

  /** From the unconfigured store on, exactly the password last set and not disabled since is accepted. */
  lemma AcceptsTheLastSet(lifetime: int, h: History, e: Event)
    requires Atomic(lifetime, None, h + [e])
    ensures AnswersFor(LastSet(None, h), e)
  {
    ReplayAppend(lifetime, None, h, [e]);
    PasswordIsLastSet(lifetime, None, h);
  }
}
