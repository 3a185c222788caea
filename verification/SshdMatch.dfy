/** When the exports of the scanner are what sshd_config(5) makes apply (`_collect_sftp_exports` of
    collectors/mounts.py): values in satisfied `Match` blocks override global ones, and of several the
    first is applied. */
module SshdMatch {
  import opened Wrappers
  import opened Text
  import opened SshdExports
  import opened SshdChroot
  import opened SshdLines

  /** Whether a `Match` line is satisfied for a user, its other criteria being whatever they are. */
  type Criteria = (seq<string>, string) -> bool

  /** A block of exact users is satisfied for these users and for no other. */
  ghost predicate Sound(satisfied: Criteria) {
    forall arguments, us, user | NamesExactly(arguments, us) :: satisfied(arguments, user) <==> user in us
  }

  lemma SoundForUsers(satisfied: Criteria, arguments: seq<string>, user: string)
    requires Sound(satisfied) && ExactMatchUsers(arguments) != []
    ensures satisfied(arguments, user) <==> user in ExactMatchUsers(arguments)
  {
    ExactUsersExactly(arguments, ExactMatchUsers(arguments));
  }

  /** The `Match` line whose block line `n` stands in, None in the global section. */
  function BlockAt(lines: seq<Line>, n: nat): Option<seq<string>>
    requires n <= |lines| && [] !in lines
  {
    if n == 0 then None
    else if Keyword(lines[n - 1]) == "match" then Some(lines[n - 1][1..])
    else BlockAt(lines, n - 1)
  }

  predicate Gives(lines: seq<Line>, i: nat, keyword: string)
    requires i < |lines| && [] !in lines
  {
    Keyword(lines[i]) == keyword && |lines[i]| > 1
  }

  /** The first value in a satisfied block. */
  function MatchedValue(lines: seq<Line>, n: nat, user: string, keyword: string, satisfied: Criteria): Option<string>
    requires n <= |lines| && [] !in lines
  {
    if n == 0 then None
    else
      var earlier, block := MatchedValue(lines, n - 1, user, keyword, satisfied), BlockAt(lines, n - 1);
      if earlier.Some? then earlier
      else if Gives(lines, n - 1, keyword) && block.Some? && satisfied(block.value, user) then
        Some(ValueAt(lines[n - 1]))
      else None
  }

  /** The first value in the global section. */
  function GlobalValue(lines: seq<Line>, n: nat, keyword: string): Option<string>
    requires n <= |lines| && [] !in lines
  {
    if n == 0 then None
    else if GlobalValue(lines, n - 1, keyword).Some? then GlobalValue(lines, n - 1, keyword)
    else if Gives(lines, n - 1, keyword) && BlockAt(lines, n - 1).None? then Some(ValueAt(lines[n - 1]))
    else None
  }

  /** The value that applies to a user. */
  function Applied(lines: seq<Line>, user: string, keyword: string, satisfied: Criteria): Option<string>
    requires [] !in lines
  {
    var matched := MatchedValue(lines, |lines|, user, keyword, satisfied);
    if matched.Some? then matched else GlobalValue(lines, |lines|, keyword)
  }

  /** The keyword is given in blocks of exact users only. */
  predicate OnlyInExactBlocks(lines: seq<Line>, keyword: string)
    requires [] !in lines
  {
    forall i | 0 <= i < |lines| && Gives(lines, i, keyword) :: UsersAt(lines, i) != []
  }

  /** The scanner's value is the one that applies, for every user and whatever other criteria say. */
  ghost predicate AlwaysApplied(lines: seq<Line>, keyword: string)
    requires [] !in lines
  {
    forall user: string, satisfied: Criteria | Sound(satisfied) ::
      FirstValue(lines, |lines|, user, keyword) == Applied(lines, user, keyword, satisfied)
  }

  lemma {:induction false} UsersOfBlock(lines: seq<Line>, n: nat)
    requires n <= |lines| && [] !in lines
    ensures UsersAt(lines, n) ==
            if BlockAt(lines, n).None? then [] else ExactMatchUsers(BlockAt(lines, n).value)
  {
    if n > 0 {
      UsersOfBlock(lines, n - 1);
    }
  }

  lemma {:induction false} ExactIsApplied(lines: seq<Line>, n: nat, user: string, keyword: string, satisfied: Criteria)
    requires n <= |lines| && [] !in lines
    requires Sound(satisfied) && OnlyInExactBlocks(lines, keyword)
    ensures FirstValue(lines, n, user, keyword) == MatchedValue(lines, n, user, keyword, satisfied)
    ensures GlobalValue(lines, n, keyword) == None
  {
    if n > 0 {
      ExactIsApplied(lines, n - 1, user, keyword, satisfied);
      UsersOfBlock(lines, n - 1);
      var block := BlockAt(lines, n - 1);
      if block.Some? && ExactMatchUsers(block.value) != [] {
        SoundForUsers(satisfied, block.value, user);
      }
    }
  }

  // ---------------------------------------------------------------- the other way

  lemma {:induction false} LongerThanAll(names: seq<string>) returns (name: string)
    ensures forall other | other in names :: |other| < |name|
  {
    if names == [] {
      return "u";
    }
    var rest := LongerThanAll(names[1..]);
    name := rest + names[0] + "u";
  }

  /** A user whom no block of exact users names. */
  lemma {:induction false} Stranger(lines: seq<Line>, n: nat) returns (users: seq<string>)
    requires n <= |lines| && [] !in lines
    ensures forall i, user | 0 <= i < n && user in UsersAt(lines, i) :: user in users
  {
    if n == 0 {
      return [];
    }
    users := Stranger(lines, n - 1);
    users := users + UsersAt(lines, n - 1);
  }

  /** Every block without exact users is satisfied. */
  function Everyone(): Criteria {
    (arguments, user) => ExactMatchUsers(arguments) == [] || user in ExactMatchUsers(arguments)
  }

  lemma EveryoneIsSound()
    ensures Sound(Everyone())
  {
    forall arguments, us, user | NamesExactly(arguments, us) ensures Everyone()(arguments, user) <==> user in us {
      ExactUsersExactly(arguments, us);
    }
  }

  lemma {:induction false} StrangerIsGiven(lines: seq<Line>, n: nat, i: nat, user: string, keyword: string)
    requires i < n <= |lines| && [] !in lines
    requires Gives(lines, i, keyword) && UsersAt(lines, i) == []
    ensures MatchedValue(lines, n, user, keyword, Everyone()).Some? || GlobalValue(lines, n, keyword).Some?
    decreases n
  {
    if i < n - 1 {
      StrangerIsGiven(lines, n - 1, i, user, keyword);
    } else {
      UsersOfBlock(lines, i);
    }
  }

  lemma NotAlwaysApplied(lines: seq<Line>, keyword: string, i: nat)
    requires [] !in lines && i < |lines| && Gives(lines, i, keyword) && UsersAt(lines, i) == []
    ensures !AlwaysApplied(lines, keyword)
  {
    var users := Stranger(lines, |lines|);
    var user := LongerThanAll(users);
    FirstValueIsFirst(lines, |lines|, user, keyword);
    StrangerIsGiven(lines, |lines|, i, user, keyword);
    EveryoneIsSound();
    assert FirstValue(lines, |lines|, user, keyword) != Applied(lines, user, keyword, Everyone());
  }

  /** The scanner reads of a keyword what applies, for every user and whatever other criteria say, exactly
      when the keyword is given in blocks of exact users only. */
  lemma AppliedExactly(lines: seq<Line>, keyword: string)
    requires [] !in lines
    ensures AlwaysApplied(lines, keyword) <==> OnlyInExactBlocks(lines, keyword)
  {
    if OnlyInExactBlocks(lines, keyword) {
      forall user: string, satisfied: Criteria | Sound(satisfied)
        ensures FirstValue(lines, |lines|, user, keyword) == Applied(lines, user, keyword, satisfied)
      {
        ExactIsApplied(lines, |lines|, user, keyword, satisfied);
      }
    } else {
      var i :| 0 <= i < |lines| && Gives(lines, i, keyword) && UsersAt(lines, i) == [];
      NotAlwaysApplied(lines, keyword, i);
    }
  }

  /** If both keywords are given in blocks of exact users only, a user is exported with a directory exactly
      when the command that applies forces the internal server and the directory that applies expands to it. */
  lemma ExportsWhatApplies(
      lines: seq<Line>, homes: map<string, string>, user: string, satisfied: Criteria, directory: seq<string>)
    requires [] !in lines && Sound(satisfied)
    requires OnlyInExactBlocks(lines, "forcecommand") && OnlyInExactBlocks(lines, "chrootdirectory")
    ensures var command := Applied(lines, user, "forcecommand", satisfied);
            var chroot := Applied(lines, user, "chrootdirectory", satisfied);
            Exported(lines, homes, user) == Some(directory) <==>
              && command.Some? && "internal-sftp" <= Lower(command.value)
              && chroot.Some? && ExpandChroot(chroot.value, user, Home(homes, user)) == Some(directory)
  {
    AppliedExactly(lines, "forcecommand");
    AppliedExactly(lines, "chrootdirectory");
    assert FirstValue(lines, |lines|, user, "forcecommand") == Applied(lines, user, "forcecommand", satisfied);
    assert FirstValue(lines, |lines|, user, "chrootdirectory") == Applied(lines, user, "chrootdirectory", satisfied);
    LowerStays("none");
  }

  /** A value given in the global section applies, but the scanner does not see it. */
  lemma GlobalValueIsMissed(line: Line, keyword: string, user: string, satisfied: Criteria)
    requires |line| > 1 && Keyword(line) == keyword && keyword != "match"
    ensures FirstValue([line], 1, user, keyword) == None
    ensures Applied([line], user, keyword, satisfied) == Some(ValueAt(line))
  {
    assert UsersAt([line], 0) == [] && BlockAt([line], 0) == None;
    assert GlobalValue([line], 0, keyword) == None;
    assert MatchedValue([line], 0, user, keyword, satisfied) == None;
  }

  /** So a global `ChrootDirectory` is missed. */
  lemma GlobalDirectoryIsMissed(value: string, user: string, satisfied: Criteria)
    ensures FirstValue([["chrootdirectory", value]], 1, user, "chrootdirectory") == None
    ensures Applied([["chrootdirectory", value]], user, "chrootdirectory", satisfied) == Some(value)
  {
    var keyword := "chrootdirectory";
    var line := [keyword, value];
    assert keyword[0] == 'c';
    LowerStays(keyword);
    GlobalValueIsMissed(line, keyword, user, satisfied);
    assert line[1..] == [value];
  }
}
