/** The head authentication store (services/head_auth.py): what one operation does to the
    authentication file. SHA-256 and scrypt are modelled as injective. */
module AuthStore {
  import opened Wrappers

  const MIN_PASSWORD_LENGTH := 8
  const MAX_PASSWORD_LENGTH := 1024
  const MAX_SESSIONS := 32

  datatype PasswordHash = Scrypt(salt: string, password: string)

  datatype TokenHash = Sha256(token: string)

  datatype Session = Session(hash: TokenHash, expiresAt: int)

  datatype AuthState = AuthState(password: PasswordHash, sessions: seq<Session>)

  /** The authentication file; absent when no password is set. */
  type AuthFile = Option<AuthState>

  datatype Request =
    | Setup(password: string)
    | Login(password: string)
    | ChangePassword(current: string, next: string)
    | Disable(current: string)
    | Logout(token: string)

  /** What an operation draws: a token, a salt, and two readings of the clock, one when a
      session is issued and one when expired sessions are dropped. */
  datatype Draw = Draw(token: string, salt: string, issued: int, pruned: int)

  datatype Refusal = TooShort | TooLong | AlreadyConfigured | InvalidPassword

  datatype Reply = Issued(token: string) | Done | Refused(why: Refusal)

  // ---------------------------------------------------------------- sessions

  predicate Verifies(password: string, hash: PasswordHash) {
    |password| <= MAX_PASSWORD_LENGTH && hash.password == password
  }

  function Active(sessions: seq<Session>, now: int): seq<Session> {
    if sessions == [] then []
    else (if sessions[0].expiresAt > now then [sessions[0]] else []) + Active(sessions[1..], now)
  }

  function Without(sessions: seq<Session>, hash: TokenHash): seq<Session> {
    if sessions == [] then []
    else (if sessions[0].hash == hash then [] else [sessions[0]]) + Without(sessions[1..], hash)
  }

  lemma AppendAll(a: seq<Session>, b: seq<Session>, c: seq<Session>)
    ensures a + (b + c) == (a + b) + c
    ensures b == [] ==> a + c == a + (b + c)
  {
  }

  /** `sessions[-count:]`. */
  function Newest(sessions: seq<Session>, count: nat): seq<Session> {
    if |sessions| <= count then sessions else sessions[|sessions| - count..]
  }

  ghost predicate SessionValid(file: AuthFile, token: string, now: int) {
    && token != ""
    && file.Some?
    && exists s | s in file.value.sessions :: s.expiresAt > now && s.hash == Sha256(token)
  }

  // ---------------------------------------------------------------- operations

  function CheckPassword(password: string): Option<Refusal> {
    if |password| < MIN_PASSWORD_LENGTH then Some(TooShort)
    else if |password| > MAX_PASSWORD_LENGTH then Some(TooLong)
    else None
  }

  /** The reply to a request that never takes the lock. */
  function Unlocked(r: Request): Option<Reply> {
    match r
    case Setup(password) => Refuses(CheckPassword(password))
    case ChangePassword(_, next) => Refuses(CheckPassword(next))
    case Logout(token) => if token == "" then Some(Done) else None
    case _ => None
  }

  function Refuses(why: Option<Refusal>): Option<Reply> {
    if why.Some? then Some(Refused(why.value)) else None
  }

  function NewSession(lifetime: int, d: Draw): Session {
    Session(Sha256(d.token), d.issued + lifetime)
  }

  /** What a holder of the lock does with the file it has read: the file it leaves behind
      and its reply. `lifetime` is the session lifetime in seconds. */
  function Serve(lifetime: int, file: AuthFile, r: Request, d: Draw): (AuthFile, Reply) {
    match r
    case Setup(password) =>
      if file.Some? then (file, Refused(AlreadyConfigured))
      else (Some(AuthState(Scrypt(d.salt, password), [NewSession(lifetime, d)])), Issued(d.token))
    case Login(password) =>
      if file.None? || !Verifies(password, file.value.password) then (file, Refused(InvalidPassword))
      else
        var kept := Newest(Active(file.value.sessions, d.pruned), MAX_SESSIONS - 1);
        (Some(file.value.(sessions := kept + [NewSession(lifetime, d)])), Issued(d.token))
    case ChangePassword(current, next) =>
      if file.None? || !Verifies(current, file.value.password) then (file, Refused(InvalidPassword))
      else (Some(AuthState(Scrypt(d.salt, next), [NewSession(lifetime, d)])), Issued(d.token))
    case Disable(current) =>
      if file.None? || !Verifies(current, file.value.password) then (file, Refused(InvalidPassword))
      else (None, Done)
    case Logout(token) =>
      if file.None? then (file, Done)
      else
        var kept := Without(Active(file.value.sessions, d.pruned), Sha256(token));
        (Some(file.value.(sessions := kept)), Done)
  }

  /** The whole operation: the checks before the lock, then what the holder does. */
  function Operation(lifetime: int, file: AuthFile, r: Request, d: Draw): (AuthFile, Reply) {
    if Unlocked(r).Some? then (file, Unlocked(r).value) else Serve(lifetime, file, r, d)
  }

  // ---------------------------------------------------------------- the program

  /** The store, each method run alone; AuthProtocol interleaves their steps. */
  class HeadAuthStore {
    const lifetime: int
    var file: AuthFile

    constructor (sessionDays: int, file: AuthFile)
      ensures lifetime == sessionDays * 24 * 60 * 60 && this.file == file
    {
      lifetime := sessionDays * 24 * 60 * 60;
      this.file := file;
    }

    method Run(r: Request, d: Draw) returns (reply: Reply)
      modifies this
      ensures (file, reply) == Operation(lifetime, old(file), r, d)
    {
      match r
      case Setup(password) => reply := Setup(password, d);
      case Login(password) => reply := Login(password, d);
      case ChangePassword(current, next) => reply := ChangePassword(current, next, d);
      case Disable(current) => reply := Disable(current);
      case Logout(token) => reply := Logout(token, d);
    }

    method Setup(password: string, d: Draw) returns (reply: Reply)
      modifies this
      ensures (file, reply) == Operation(lifetime, old(file), Request.Setup(password), d)
    {
      var refusal := CheckPassword(password);
      if refusal.Some? {
        return Refused(refusal.value);
      }
      if file.Some? {
        return Refused(AlreadyConfigured);
      }
      var session := NewSession(lifetime, d);
      file := Some(AuthState(Scrypt(d.salt, password), [session]));
      return Issued(d.token);
    }

    method Login(password: string, d: Draw) returns (reply: Reply)
      modifies this
      ensures (file, reply) == Operation(lifetime, old(file), Request.Login(password), d)
    {
      if file.None? || !Verifies(password, file.value.password) {
        return Refused(InvalidPassword);
      }
      var state := file.value;
      var session := NewSession(lifetime, d);
      var active := ActiveSessions(state.sessions, d.pruned);
      state := state.(sessions := Newest(active, MAX_SESSIONS - 1));
      state := state.(sessions := state.sessions + [session]);
      file := Some(state);
      return Issued(d.token);
    }

    method ChangePassword(current: string, next: string, d: Draw) returns (reply: Reply)
      modifies this
      ensures (file, reply) == Operation(lifetime, old(file), Request.ChangePassword(current, next), d)
    {
      var refusal := CheckPassword(next);
      if refusal.Some? {
        return Refused(refusal.value);
      }
      if file.None? || !Verifies(current, file.value.password) {
        return Refused(InvalidPassword);
      }
      var state := file.value;
      var session := NewSession(lifetime, d);
      state := state.(password := Scrypt(d.salt, next));
      state := state.(sessions := [session]);
      file := Some(state);
      return Issued(d.token);
    }

    method Disable(current: string) returns (reply: Reply)
      modifies this
      ensures forall d :: (file, reply) == Operation(lifetime, old(file), Request.Disable(current), d)
    {
      if file.None? || !Verifies(current, file.value.password) {
        return Refused(InvalidPassword);
      }
      file := None;
      return Done;
    }

    method Logout(token: string, d: Draw) returns (reply: Reply)
      modifies this
      ensures (file, reply) == Operation(lifetime, old(file), Request.Logout(token), d)
    {
      if token == "" {
        return Done;
      }
      if file.None? {
        return Done;
      }
      var active := ActiveSessions(file.value.sessions, d.pruned);
      var kept := SessionsWithout(active, Sha256(token));
      file := Some(file.value.(sessions := kept));
      return Done;
    }

    method SessionsWithout(sessions: seq<Session>, hash: TokenHash) returns (kept: seq<Session>)
      ensures kept == Without(sessions, hash)
    {
      kept := [];
      for i := 0 to |sessions|
        invariant Without(sessions, hash) == kept + Without(sessions[i..], hash)
      {
        assert sessions[i..][1..] == sessions[i + 1..];
        AppendAll(kept, if sessions[i].hash == hash then [] else [sessions[i]], Without(sessions[i + 1..], hash));
        if sessions[i].hash != hash {
          kept := kept + [sessions[i]];
        }
      }
    }

    method ActiveSessions(sessions: seq<Session>, now: int) returns (active: seq<Session>)
      ensures active == Active(sessions, now)
    {
      active := [];
      for i := 0 to |sessions|
        invariant Active(sessions, now) == active + Active(sessions[i..], now)
      {
        assert sessions[i..][1..] == sessions[i + 1..];
        AppendAll(active, if sessions[i].expiresAt > now then [sessions[i]] else [], Active(sessions[i + 1..], now));
        if sessions[i].expiresAt > now {
          active := active + [sessions[i]];
        }
      }
    }

    method IsSessionValid(token: string, now: int) returns (valid: bool)
      ensures valid <==> SessionValid(file, token, now)
    {
      if token == "" || file.None? {
        return false;
      }
      var sessions := file.value.sessions;
      for i := 0 to |sessions|
        invariant forall k | 0 <= k < i :: !(sessions[k].expiresAt > now && sessions[k].hash == Sha256(token))
      {
        if sessions[i].expiresAt > now && sessions[i].hash == Sha256(token) {
          return true;
        }
      }
      return false;
    }
  }
}
