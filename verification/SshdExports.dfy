/** SFTP exports from the lines of an sshd configuration (`_exact_match_users` and
    `_collect_sftp_exports` of collectors/mounts.py). A line is its list of words; includes
    have been expanded. */
module SshdExports {
  import opened Wrappers
  import opened Text
  import opened SshdChroot

  type Line = seq<string>

  const DEFAULT_PORT := 22

  function Keyword(line: Line): string
    requires line != []
  {
    Lower(line[0])
  }

  predicate Plain(user: string) {
    user != "" && '*' !in user && '!' !in user && '?' !in user
  }

  /** The users of a `Match User` block without patterns; no users for any other block. */
  function ExactMatchUsers(arguments: seq<string>): seq<string> {
    if |arguments| != 2 || Lower(arguments[0]) != "user" then []
    else
      var users := Split(arguments[1], ',');
      if forall user | user in users :: Plain(user) then users else []
  }

  // ---------------------------------------------------------------- first-value semantics

  /** The users of the recognised block that line `n` stands in. */
  function UsersAt(lines: seq<Line>, n: nat): seq<string>
    requires n <= |lines| && [] !in lines
  {
    if n == 0 then []
    else if Keyword(lines[n - 1]) == "match" then ExactMatchUsers(lines[n - 1][1..])
    else UsersAt(lines, n - 1)
  }

  /** Line `i` gives `user` a value for `keyword`. */
  predicate Sets(lines: seq<Line>, i: nat, user: string, keyword: string)
    requires i < |lines| && [] !in lines
  {
    Keyword(lines[i]) == keyword && |lines[i]| > 1 && user in UsersAt(lines, i)
  }

  function ValueAt(line: Line): string
    requires line != []
  {
    Join(" ", line[1..])
  }

  /** The value of `keyword` for `user` in the first `n` lines: the first one given. */
  function FirstValue(lines: seq<Line>, n: nat, user: string, keyword: string): Option<string>
    requires n <= |lines| && [] !in lines
  {
    if n == 0 then None
    else if FirstValue(lines, n - 1, user, keyword).Some? then FirstValue(lines, n - 1, user, keyword)
    else if Sets(lines, n - 1, user, keyword) then Some(ValueAt(lines[n - 1]))
    else None
  }

  /** `FirstValue` is the value at the first line that gives one. */
  lemma {:induction false} FirstValueIsFirst(lines: seq<Line>, n: nat, user: string, keyword: string)
    requires n <= |lines| && [] !in lines
    ensures var v := FirstValue(lines, n, user, keyword);
            && (v.None? <==> forall i | 0 <= i < n :: !Sets(lines, i, user, keyword))
            && (v.Some? ==> exists i | 0 <= i < n :: Sets(lines, i, user, keyword) && v.value == ValueAt(lines[i])
                              && forall k | 0 <= k < i :: !Sets(lines, k, user, keyword))
  {
    if n > 0 {
      FirstValueIsFirst(lines, n - 1, user, keyword);
    }
  }

  function Home(homes: map<string, string>, user: string): Option<string> {
    if user in homes then Some(homes[user]) else None
  }

  /** What is exported for a user with this command and directory. */
  function Export(command: Option<string>, chroot: Option<string>, user: string, home: Option<string>)
    : Option<seq<string>>
  {
    if command.None? || !("internal-sftp" <= Lower(command.value)) then None
    else ExpandChroot(if chroot.None? then "none" else chroot.value, user, home)
  }

  /** The exported directory of a user, if any. */
  function Exported(lines: seq<Line>, homes: map<string, string>, user: string): Option<seq<string>>
    requires [] !in lines
  {
    Export(FirstValue(lines, |lines|, user, "forcecommand"),
           FirstValue(lines, |lines|, user, "chrootdirectory"), user, Home(homes, user))
  }

  /** The port a line outside recognised blocks sets. */
  function PortAt(lines: seq<Line>, i: nat): Option<int>
    requires i < |lines| && [] !in lines
  {
    if UsersAt(lines, i) != [] || Keyword(lines[i]) != "port" || |lines[i]| == 1 then None
    else
      var port := ParseInt(lines[i][1]);
      if port.Some? && 1 <= port.value <= 65535 then port else None
  }

  /** The ports of the first `n` lines, each once, in order. */
  function PortsIn(lines: seq<Line>, n: nat): seq<int>
    requires n <= |lines| && [] !in lines
  {
    if n == 0 then []
    else
      var ports, port := PortsIn(lines, n - 1), PortAt(lines, n - 1);
      if port.Some? && port.value !in ports then ports + [port.value] else ports
  }

  /** Line `i` is the first to set `port`. */
  ghost predicate FirstPort(lines: seq<Line>, i: nat, port: int)
    requires i < |lines| && [] !in lines
  {
    PortAt(lines, i) == Some(port) && forall k | 0 <= k < i :: PortAt(lines, k) != Some(port)
  }

  /** `at` says at which lines the ports of the first `n` lines are first set. */
  ghost predicate FirstSeenAt(lines: seq<Line>, n: nat, at: seq<nat>)
    requires n <= |lines| && [] !in lines
  {
    && |at| == |PortsIn(lines, n)|
    && (forall j | 0 <= j < |at| :: at[j] < n && FirstPort(lines, at[j], PortsIn(lines, n)[j]))
    && (forall j, k | 0 <= j < k < |at| :: at[j] < at[k])
  }

  lemma {:induction false} PortsAreComplete(lines: seq<Line>, n: nat)
    requires n <= |lines| && [] !in lines
    ensures forall i | 0 <= i < n :: PortAt(lines, i).Some? ==> PortAt(lines, i).value in PortsIn(lines, n)
  {
    if n > 0 {
      PortsAreComplete(lines, n - 1);
    }
  }

  /** The ports are those that lines outside recognised blocks set, each once, in the order
      in which they are first set. */
  lemma {:induction false} PortsAreFirstSeen(lines: seq<Line>, n: nat) returns (at: seq<nat>)
    requires n <= |lines| && [] !in lines
    ensures forall i | 0 <= i < n :: PortAt(lines, i).Some? ==> PortAt(lines, i).value in PortsIn(lines, n)
    ensures FirstSeenAt(lines, n, at)
  {
    PortsAreComplete(lines, n);
    if n == 0 {
      return [];
    }
    at := PortsAreFirstSeen(lines, n - 1);
    var ports, port := PortsIn(lines, n - 1), PortAt(lines, n - 1);
    if port.Some? && port.value !in ports {
      assert FirstPort(lines, n - 1, port.value);
      at := at + [n - 1];
    }
  }

  // ---------------------------------------------------------------- the program

  datatype Settings = Settings(command: Option<string>, chroot: Option<string>) {
    /** `setdefault`. */
    function SetDefault(keyword: string, value: string): Settings {
      if keyword == "forcecommand" && command.None? then this.(command := Some(value))
      else if keyword == "chrootdirectory" && chroot.None? then this.(chroot := Some(value))
      else this
    }
  }

  function Get(matches: map<string, Settings>, user: string): Settings {
    if user in matches then matches[user] else Settings(None, None)
  }

  method CollectSftpExports(lines: seq<Line>, homes: map<string, string>)
    returns (ports: seq<int>, exports: map<string, seq<string>>)
    requires [] !in lines
    ensures ports == if PortsIn(lines, |lines|) == [] then [22] else PortsIn(lines, |lines|)
    ensures forall user :: user in exports <==> Exported(lines, homes, user).Some?
    ensures forall user | user in exports :: Exported(lines, homes, user) == Some(exports[user])
  {
    ports := [];
    var matches: map<string, Settings> := map[];
    var currentUsers: seq<string> := [];
    for i := 0 to |lines|
      invariant currentUsers == UsersAt(lines, i)
      invariant ports == PortsIn(lines, i)
      invariant forall user :: Get(matches, user).command == FirstValue(lines, i, user, "forcecommand")
      invariant forall user :: Get(matches, user).chroot == FirstValue(lines, i, user, "chrootdirectory")
    {
      var line := lines[i];
      var keyword := Keyword(line);
      if keyword == "match" {
        currentUsers := ExactMatchUsers(line[1..]);
        continue;
      }
      if currentUsers == [] {
        if keyword == "port" && |line| > 1 {
          var port := ParseInt(line[1]);
          if port.None? {
            continue;
          }
          if 1 <= port.value <= 65535 && port.value !in ports {
            ports := ports + [port.value];
          }
        }
        continue;
      }
      if (keyword != "chrootdirectory" && keyword != "forcecommand") || |line| == 1 {
        continue;
      }
      matches := SetForUsers(matches, currentUsers, keyword, Join(" ", line[1..]));
    }
    if ports == [] {
      ports := [DEFAULT_PORT];
    }
    exports := ExportsOf(matches, homes);
    forall user ensures Exported(lines, homes, user) == ExportOf(matches, homes, user) {
      assert Get(matches, user).command == FirstValue(lines, |lines|, user, "forcecommand");
      assert Get(matches, user).chroot == FirstValue(lines, |lines|, user, "chrootdirectory");
    }
  }

  function ExportOf(matches: map<string, Settings>, homes: map<string, string>, user: string): Option<seq<string>> {
    Export(Get(matches, user).command, Get(matches, user).chroot, user, Home(homes, user))
  }

  /** The last loop, over the users that have settings. */
  method ExportsOf(matches: map<string, Settings>, homes: map<string, string>)
    returns (exports: map<string, seq<string>>)
    ensures forall user :: user in exports <==> ExportOf(matches, homes, user).Some?
    ensures forall user | user in exports :: ExportOf(matches, homes, user) == Some(exports[user])
  {
    exports := map[];
    var users := matches.Keys;
    while users != {}
      invariant users <= matches.Keys
      invariant forall user :: user in exports <==> user !in users && ExportOf(matches, homes, user).Some?
      invariant forall user | user in exports :: ExportOf(matches, homes, user) == Some(exports[user])
      decreases users
    {
      var user :| user in users;
      users := users - {user};
      var command := matches[user].command;
      if command.None? || !("internal-sftp" <= Lower(command.value)) {
        continue;
      }
      var chroot := matches[user].chroot;
      var directory := ExpandChroot(if chroot.None? then "none" else chroot.value, user, Home(homes, user));
      if directory.None? {
        continue;
      }
      exports := exports[user := directory.value];
    }
  }

  /** The inner loop: the first value given to a user stays. */
  method SetForUsers(before: map<string, Settings>, users: seq<string>, keyword: string, value: string)
    returns (matches: map<string, Settings>)
    ensures forall user :: Get(matches, user)
              == if user in users then Get(before, user).SetDefault(keyword, value) else Get(before, user)
  {
    matches := before;
    for i := 0 to |users|
      invariant forall user :: Get(matches, user)
                  == if user in users[..i] then Get(before, user).SetDefault(keyword, value) else Get(before, user)
    {
      matches := matches[users[i] := Get(matches, users[i]).SetDefault(keyword, value)];
    }
    assert users[..|users|] == users;
  }
}
