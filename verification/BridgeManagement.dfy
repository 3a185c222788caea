/** The bridge manager (`BridgeManager` of services/bridges.py): edits of the compose file, which is
    backed up and then replaced whole, and the mark that records what was applied last. */
module BridgeManagement {
  import opened Wrappers
  import opened BridgeServices
  import opened BridgeDocuments

  // ---------------------------------------------------------------- the files

  datatype Loaded = SyntaxError | NotMapping | ServicesNotMapping | Parsed(document: Document)

  /** The text of a compose file: what it loads as, and everything the loader ignores. */
  datatype Content = Content(loaded: Loaded, layout: string)

  function Dump(document: Document): Content {
    Content(Parsed(document), "")
  }

  /** An absent file counts as the empty document. */
  const EMPTY := Dump(Document([], []))

  /** `applied.sha256`: the hash stands for the content it was taken of. */
  datatype Mark = NoMark | Mark(content: Content) | Torn

  /** A backup; one without copy was torn. */
  datatype Backup = Backup(stamp: int, copy: Option<Content>)

  const KEPT := 20

  datatype Store = Store(compose: Option<Content>, applied: Mark, backups: seq<Backup>)
  {
    function Current(): Content {
      if compose.Some? then compose.value else EMPTY
    }

    predicate Pending() {
      applied != Mark(Current())
    }
  }

  function Load(content: Content): Result<Document, Error> {
    match content.loaded
    case SyntaxError => Err(NotReadable)
    case NotMapping => Err(NotAMappingDocument)
    case ServicesNotMapping => Err(ServicesNotAMapping)
    case Parsed(document) => Ok(document)
  }

  // ---------------------------------------------------------------- saving

  /** The step of saving that fails, or where the process dies. */
  datatype Stop =
    | NoStop
    | AtLock
    | AtTemporary
    | AtCompose
    | AtBackup(torn: bool)
    | AtReplace
    | AtChmod
    | AtPrune(removed: nat)

  datatype Command = Up | Down

  datatype Reply = Saved | Applied(command: Command) | Failed(error: Error)

  datatype Outcome = Outcome(store: Store, reply: Reply)

  /** The directory with one more file, in the order of names; a file of the same name is replaced. */
  function Insert(backups: seq<Backup>, backup: Backup): seq<Backup> {
    if backups == [] || backup.stamp < backups[0].stamp then [backup] + backups
    else if backup.stamp == backups[0].stamp then [backup] + backups[1..]
    else [backups[0]] + Insert(backups[1..], backup)
  }

  /** The directory after the backup step. */
  function BackedUp(store: Store, now: int, stop: Stop): seq<Backup> {
    if store.compose.None? || stop == AtBackup(false) then store.backups
    else Insert(store.backups, Backup(now, if stop.AtBackup? then None else store.compose))
  }

  /** The number of backups beyond the newest twenty. */
  function Stale(backups: seq<Backup>): (r: nat)
    ensures r <= |backups| && |backups| - r <= 20
    ensures r > 0 ==> |backups| - r == 20
  {
    if |backups| > KEPT then |backups| - KEPT else 0
  }

  function Save(rules: Rules, store: Store, document: Document, now: int, stop: Stop): Outcome {
    var clash := FirstClash(rules, document.services);
    if clash.Some? then Outcome(store, Failed(clash.value))
    else if stop == AtTemporary then Outcome(store, Failed(FileError))
    else if stop == AtCompose then Outcome(store, Failed(ComposeInvalid))
    else
      var backups := BackedUp(store, now, stop);
      if stop == AtReplace || (stop.AtBackup? && store.compose.Some?) then
        Outcome(store.(backups := backups), Failed(FileError))
      else
        var stale := Stale(backups);
        var removed :=
          if stop == AtChmod then 0
          else if stop.AtPrune? && stop.removed < stale then stop.removed
          else stale;
        var failed := stop == AtChmod || (stop.AtPrune? && stop.removed < stale);
        Outcome(Store(Some(Dump(document)), store.applied, backups[removed..]),
                if failed then Failed(FileError) else Saved)
  }

  function EditOutcome(rules: Rules, store: Store, edit: Edit, now: int, stop: Stop): Outcome {
    var bad := if edit.Added().None? then None else rules.check(edit.Added().value);
    if bad.Some? then Outcome(store, Failed(BadInput(bad.value)))
    else if stop == AtLock then Outcome(store, Failed(FileError))
    else
      var loaded := Load(store.Current());
      if loaded.Err? then Outcome(store, Failed(loaded.error))
      else
        var services := loaded.value.services;
        var refused := Refused(rules, services, edit);
        if refused.Some? then Outcome(store, Failed(refused.value))
        else
          EditKeepsUnique(rules, services, edit);
          Save(rules, store, loaded.value.(services := Edited(services, edit)), now, stop)
  }

  // ---------------------------------------------------------------- applying

  /** The step of applying that fails. */
  datatype ApplyStop =
    | Runs
    | AtApplyLock
    | AtConfig
    | AtCommand
    | AtMark
    | InMark
    | AtMarkChmod

  /** The mark after the marking step, and whether the step succeeded. */
  function Marked(store: Store, stop: ApplyStop): Mark {
    if stop == AtMark then store.applied
    else if stop == InMark then Torn
    else Mark(store.Current())
  }

  function ApplyOutcome(rules: Rules, store: Store, stop: ApplyStop): Outcome {
    if stop == AtApplyLock then Outcome(store, Failed(FileError))
    else
      var loaded := Load(store.Current());
      if loaded.Err? then Outcome(store, Failed(loaded.error))
      else
        var services := loaded.value.services;
        var clash := FirstClash(rules, services);
        if clash.Some? then Outcome(store, Failed(clash.value))
        else if stop == AtConfig then Outcome(store, Failed(ComposeInvalid))
        else if stop == AtCommand then Outcome(store, Failed(CommandFailed))
        else
          Outcome(store.(applied := Marked(store, stop)),
                  if stop == Runs then Applied(if services == [] then Down else Up) else Failed(FileError))
  }

  // ---------------------------------------------------------------- the manager

  class BridgeManager {
    const rules: Rules
    var compose: Option<Content>
    var applied: Mark
    var backups: seq<Backup>

    function State(): Store
      reads this
    {
      Store(compose, applied, backups)
    }

    constructor (ip: IpParser, compose: Option<Content>)
      ensures rules == ReaderOf(ip) && State() == Store(compose, NoMark, [])
    {
      rules, this.compose, applied, backups := ReaderOf(ip), compose, NoMark, [];
    }

    method LoadDocument() returns (loaded: Result<Document, Error>)
      ensures loaded == Load(State().Current())
    {
      if compose.None? {
        return Ok(Document([], []));
      }
      loaded := Load(compose.value);
    }

    method WriteDocument(document: Document, now: int, stop: Stop) returns (reply: Reply)
      modifies this
      ensures Outcome(State(), reply) == Save(rules, old(State()), document, now, stop)
    {
      var clash := ValidateDocument(rules, document.services);
      if clash.Some? {
        return Failed(clash.value);
      }
      if stop == AtTemporary {
        return Failed(FileError);
      }
      if stop == AtCompose {
        return Failed(ComposeInvalid);
      }
      if compose.Some? {
        if stop == AtBackup(false) {
          return Failed(FileError);
        }
        backups := Insert(backups, Backup(now, if stop.AtBackup? then None else compose));
        if stop.AtBackup? {
          return Failed(FileError);
        }
      }
      if stop == AtReplace {
        return Failed(FileError);
      }
      compose := Some(Dump(document));
      if stop == AtChmod {
        return Failed(FileError);
      }
      reply := Prune(stop);
    }

    /** Removes all but the newest backups, oldest first. */
    method Prune(stop: Stop) returns (reply: Reply)
      modifies this`backups
      ensures var stale := Stale(old(backups));
              if stop.AtPrune? && stop.removed < stale
              then reply == Failed(FileError) && backups == old(backups)[stop.removed..]
              else reply == Saved && backups == old(backups)[stale..]
    {
      var stale := Stale(backups);
      ghost var before := backups;
      for removed := 0 to stale
        invariant backups == before[removed..]
        invariant stop.AtPrune? ==> removed <= stop.removed
      {
        if stop == AtPrune(removed) {
          return Failed(FileError);
        }
        backups := backups[1..];
      }
      reply := Saved;
    }

    method Create(value: BridgeInput, now: int, stop: Stop) returns (reply: Reply)
      modifies this
      ensures Outcome(State(), reply) == EditOutcome(rules, old(State()), Edit.Create(value), now, stop)
    {
      var bad := rules.check(value);
      if bad.Some? {
        return Failed(BadInput(bad.value));
      }
      if stop == AtLock {
        return Failed(FileError);
      }
      var loaded := LoadDocument();
      if loaded.Err? {
        return Failed(loaded.error);
      }
      var services := loaded.value.services;
      if Find(services, value.name).Some? {
        return Failed(AlreadyExists(value.name));
      }
      EditKeepsUnique(rules, services, Edit.Create(value));
      reply := WriteDocument(loaded.value.(services := services + [StandardEntry(value)]), now, stop);
    }

    method Update(current: string, value: BridgeInput, now: int, stop: Stop) returns (reply: Reply)
      modifies this
      ensures Outcome(State(), reply) == EditOutcome(rules, old(State()), Edit.Update(current, value), now, stop)
    {
      var bad := rules.check(value);
      if bad.Some? {
        return Failed(BadInput(bad.value));
      }
      if stop == AtLock {
        return Failed(FileError);
      }
      var loaded := LoadDocument();
      if loaded.Err? {
        return Failed(loaded.error);
      }
      var services := loaded.value.services;
      var raw := Find(services, current);
      if raw.None? {
        return Failed(UnknownBridge(current));
      }
      if !rules.parse(current, raw.value).Managed() {
        return Failed(ReadOnly);
      }
      if value.name != current && Find(services, value.name).Some? {
        return Failed(AlreadyExists(value.name));
      }
      EditKeepsUnique(rules, services, Edit.Update(current, value));
      reply := WriteDocument(
        loaded.value.(services := Replaced(services, current, StandardEntry(value))), now, stop);
    }

    method Delete(name: string, now: int, stop: Stop) returns (reply: Reply)
      modifies this
      ensures Outcome(State(), reply) == EditOutcome(rules, old(State()), Edit.Delete(name), now, stop)
    {
      if stop == AtLock {
        return Failed(FileError);
      }
      var loaded := LoadDocument();
      if loaded.Err? {
        return Failed(loaded.error);
      }
      var services := loaded.value.services;
      var raw := Find(services, name);
      if raw.None? {
        return Failed(UnknownBridge(name));
      }
      if !rules.parse(name, raw.value).Managed() {
        return Failed(ReadOnly);
      }
      EditKeepsUnique(rules, services, Edit.Delete(name));
      reply := WriteDocument(loaded.value.(services := Without(services, name)), now, stop);
    }

    method ApplyProject(stop: ApplyStop) returns (reply: Reply)
      modifies this
      ensures Outcome(State(), reply) == ApplyOutcome(rules, old(State()), stop)
    {
      if stop == AtApplyLock {
        return Failed(FileError);
      }
      var loaded := LoadDocument();
      if loaded.Err? {
        return Failed(loaded.error);
      }
      var clash := ValidateDocument(rules, loaded.value.services);
      if clash.Some? {
        return Failed(clash.value);
      }
      if stop == AtConfig {
        return Failed(ComposeInvalid);
      }
      if stop == AtCommand {
        return Failed(CommandFailed);
      }
      var command := if loaded.value.services != [] then Up else Down;
      var marked := MarkCurrentApplied(stop);
      reply := if marked then Applied(command) else Failed(FileError);
    }

    method MarkCurrentApplied(stop: ApplyStop) returns (ok: bool)
      modifies this`applied
      ensures applied ==
              if stop == AtMark then old(applied) else if stop == InMark then Torn else Mark(State().Current())
      ensures ok <==> stop !in {AtMark, InMark, AtMarkChmod}
    {
      if stop == AtMark {
        return false;
      }
      applied := Torn;
      if stop == InMark {
        return false;
      }
      applied := Mark(CurrentContent());
      ok := stop != AtMarkChmod;
    }

    function CurrentContent(): (content: Content)
      reads this
      ensures content == State().Current()
    {
      if compose.Some? then compose.value else EMPTY
    }

    method PendingApply() returns (pending: bool)
      ensures pending <==> State().Pending()
    {
      if !applied.Mark? {
        return true;
      }
      pending := applied.content != CurrentContent();
    }
  }
}
