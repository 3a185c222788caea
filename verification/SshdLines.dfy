/** The exports and ports of the sshd scanner, said over the lines of the configuration alone
    (`_exact_match_users` and `_collect_sftp_exports` of collectors/mounts.py). */
module SshdLines {
  import opened Wrappers
  import opened Text
  import opened SshdChroot
  import opened SshdExports

  // ---------------------------------------------------------------- blocks

  /** A plain user name that a list of names can hold. */
  ghost predicate Listable(user: string) {
    user != "" && '*' !in user && '!' !in user && '?' !in user && ',' !in user
  }

  /** A `Match` line names exactly the users `us`, separated by commas, and nothing else. */
  ghost predicate NamesExactly(arguments: seq<string>, us: seq<string>) {
    && us != [] && (forall user | user in us :: Listable(user))
    && |arguments| == 2 && Lower(arguments[0]) == "user" && arguments[1] == Join(",", us)
  }

  /** The users of a recognised block are those its line names exactly; no other line has any. */
  lemma ExactUsersExactly(arguments: seq<string>, us: seq<string>)
    requires us != []
    ensures ExactMatchUsers(arguments) == us <==> NamesExactly(arguments, us)
  {
    if ExactMatchUsers(arguments) == us {
      JoinSplit(arguments[1], ',');
      SplitHasNone(arguments[1], ',');
    }
    if NamesExactly(arguments, us) {
      SplitJoin(us, ',');
    }
  }

  /** The last `Match` line before line `n` names the user. */
  ghost predicate InBlockOf(lines: seq<Line>, n: nat, user: string)
    requires n <= |lines| && [] !in lines
  {
    exists m, us ::
      && 0 <= m < n && Lower(lines[m][0]) == "match" && NamesExactly(lines[m][1..], us) && user in us
      && forall k | m < k < n :: Lower(lines[k][0]) != "match"
  }

  lemma {:induction false} InBlockExactly(lines: seq<Line>, n: nat, user: string)
    requires n <= |lines| && [] !in lines
    ensures user in UsersAt(lines, n) <==> InBlockOf(lines, n, user)
  {
    if n > 0 {
      InBlockExactly(lines, n - 1, user);
      var us := ExactMatchUsers(lines[n - 1][1..]);
      if Keyword(lines[n - 1]) == "match" {
        if us != [] {
          ExactUsersExactly(lines[n - 1][1..], us);
        }
        forall m, named | 0 <= m < n && Lower(lines[m][0]) == "match" && NamesExactly(lines[m][1..], named)
          && forall k | m < k < n :: Lower(lines[k][0]) != "match"
          ensures m == n - 1 && named == us
        {
          ExactUsersExactly(lines[m][1..], named);
        }
      }
    }
  }

  // ---------------------------------------------------------------- values

  /** Line `i` gives the user a value for the keyword. */
  ghost predicate Gives(lines: seq<Line>, i: nat, user: string, keyword: string)
    requires i < |lines| && [] !in lines
  {
    Lower(lines[i][0]) == keyword && |lines[i]| > 1 && InBlockOf(lines, i, user)
  }

  /** And is the first to do so. */
  ghost predicate FirstGiving(lines: seq<Line>, i: nat, user: string, keyword: string)
    requires i < |lines| && [] !in lines
  {
    Gives(lines, i, user, keyword) && forall k | 0 <= k < i :: !Gives(lines, k, user, keyword)
  }

  lemma GivesIsSets(lines: seq<Line>, i: nat, user: string, keyword: string)
    requires i < |lines| && [] !in lines
    ensures Gives(lines, i, user, keyword) <==> Sets(lines, i, user, keyword)
  {
    InBlockExactly(lines, i, user);
  }

  /** The value of a keyword is the joined words of the first line that gives it. */
  lemma FirstGivingExactly(lines: seq<Line>, i: nat, user: string, keyword: string)
    requires i < |lines| && [] !in lines && FirstGiving(lines, i, user, keyword)
    ensures FirstValue(lines, |lines|, user, keyword) == Some(Join(" ", lines[i][1..]))
  {
    FirstValueIsFirst(lines, |lines|, user, keyword);
    forall k | 0 <= k < |lines| ensures Gives(lines, k, user, keyword) <==> Sets(lines, k, user, keyword) {
      GivesIsSets(lines, k, user, keyword);
    }
  }

  lemma SomeFirstGiving(lines: seq<Line>, user: string, keyword: string) returns (i: nat)
    requires [] !in lines && FirstValue(lines, |lines|, user, keyword).Some?
    ensures i < |lines| && FirstGiving(lines, i, user, keyword)
  {
    FirstValueIsFirst(lines, |lines|, user, keyword);
    i :| 0 <= i < |lines| && Sets(lines, i, user, keyword) && forall k | 0 <= k < i :: !Sets(lines, k, user, keyword);
    forall k | 0 <= k <= i ensures Gives(lines, k, user, keyword) <==> Sets(lines, k, user, keyword) {
      GivesIsSets(lines, k, user, keyword);
    }
  }

  // ---------------------------------------------------------------- exports

  /** Line `i` forces the internal server, whatever its case. */
  predicate Forces(line: Line)
    requires line != []
  {
    "internal-sftp" <= Lower(Join(" ", line[1..]))
  }

  /** The directory that a line confines a user to. */
  function Confines(line: Line, homes: map<string, string>, user: string): Option<seq<string>>
    requires line != []
  {
    ExpandChroot(Join(" ", line[1..]), user, if user in homes then Some(homes[user]) else None)
  }

  /** The user is forced to the internal server and confined to the directory. */
  ghost predicate ForcedInto(lines: seq<Line>, homes: map<string, string>, user: string, directory: seq<string>)
    requires [] !in lines
  {
    && (exists i | 0 <= i < |lines| :: FirstGiving(lines, i, user, "forcecommand") && Forces(lines[i]))
    && (exists j | 0 <= j < |lines| ::
          FirstGiving(lines, j, user, "chrootdirectory") && Confines(lines[j], homes, user) == Some(directory))
  }

  /** A user is exported with a directory exactly when the first line that gives the user a command forces
      the internal server, and the first that gives a directory expands to this one. */
  lemma ExportedExactly(lines: seq<Line>, homes: map<string, string>, user: string, directory: seq<string>)
    requires [] !in lines
    ensures Exported(lines, homes, user) == Some(directory) <==> ForcedInto(lines, homes, user, directory)
  {
    if Exported(lines, homes, user) == Some(directory) {
      ExportedIsForced(lines, homes, user, directory);
    }
    if ForcedInto(lines, homes, user, directory) {
      var i :| 0 <= i < |lines| && FirstGiving(lines, i, user, "forcecommand") && Forces(lines[i]);
      var j :| 0 <= j < |lines| && FirstGiving(lines, j, user, "chrootdirectory")
               && Confines(lines[j], homes, user) == Some(directory);
      FirstGivingExactly(lines, i, user, "forcecommand");
      FirstGivingExactly(lines, j, user, "chrootdirectory");
    }
  }

  lemma ExportedIsForced(lines: seq<Line>, homes: map<string, string>, user: string, directory: seq<string>)
    requires [] !in lines && Exported(lines, homes, user) == Some(directory)
    ensures ForcedInto(lines, homes, user, directory)
  {
    var i := SomeFirstGiving(lines, user, "forcecommand");
    FirstGivingExactly(lines, i, user, "forcecommand");
    if FirstValue(lines, |lines|, user, "chrootdirectory").None? {
      LowerStays("none");
      assert false;
    }
    var j := SomeFirstGiving(lines, user, "chrootdirectory");
    FirstGivingExactly(lines, j, user, "chrootdirectory");
    assert Forces(lines[i]);
  }

  lemma {:induction false} LowerStays(s: string)
    requires forall i | 0 <= i < |s| :: !('A' <= s[i] <= 'Z')
    ensures Lower(s) == s
  {
    if s != "" {
      LowerStays(s[1..]);
      assert s == [s[0]] + s[1..];
    }
  }

  // ---------------------------------------------------------------- ports

  /** Line `i` stands in no block of exact users and gives a port from 1 to 65535. */
  ghost predicate GivesPort(lines: seq<Line>, i: nat, port: int)
    requires i < |lines| && [] !in lines
  {
    && Lower(lines[i][0]) == "port" && |lines[i]| > 1
    && ParseInt(lines[i][1]) == Some(port) && 1 <= port <= 65535
    && forall user: string :: !InBlockOf(lines, i, user)
  }

  lemma PortAtExactly(lines: seq<Line>, i: nat, port: int)
    requires i < |lines| && [] !in lines
    ensures PortAt(lines, i) == Some(port) <==> GivesPort(lines, i, port)
  {
    var users := UsersAt(lines, i);
    forall user: string ensures user in users <==> InBlockOf(lines, i, user) {
      InBlockExactly(lines, i, user);
    }
    if users != [] {
      assert users[0] in users;
    }
  }

  /** A port is listed exactly when some line gives it. */
  lemma PortsExactly(lines: seq<Line>, port: int)
    requires [] !in lines
    ensures port in PortsIn(lines, |lines|) <==> exists i | 0 <= i < |lines| :: GivesPort(lines, i, port)
  {
    var at := PortsAreFirstSeen(lines, |lines|);
    var ports := PortsIn(lines, |lines|);
    forall i | 0 <= i < |lines| ensures PortAt(lines, i) == Some(port) <==> GivesPort(lines, i, port) {
      PortAtExactly(lines, i, port);
    }
    if port in ports {
      var j :| 0 <= j < |ports| && ports[j] == port;
      assert FirstPort(lines, at[j], port);
      assert GivesPort(lines, at[j], port);
    }
    forall i | 0 <= i < |lines| && GivesPort(lines, i, port) ensures port in ports {
      assert PortAt(lines, i).value == port;
    }
  }
}
