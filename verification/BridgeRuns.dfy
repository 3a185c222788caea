/** What every run of the bridge manager keeps (services/bridges.py): saving is atomic, ports stay
    distinct, services outside the manager's care stay untouched, the newest backups are kept, and
    the mark tells what is pending. Operations hold the lock, so a run is a sequence of them, with
    edits by hand in between. */
module BridgeRuns {
  import opened Wrappers
  import opened BridgeServices
  import opened BridgeDocuments
  import opened BridgeEdits
  import opened BridgeManagement

  datatype Operation =
    | Change(edit: Edit, now: int, stop: Stop)
    | Apply(applyStop: ApplyStop)
    | ByHand(content: Option<Content>)

  function Do(rules: Rules, store: Store, operation: Operation): Outcome {
    match operation
    case Change(edit, now, stop) => EditOutcome(rules, store, edit, now, stop)
    case Apply(stop) => ApplyOutcome(rules, store, stop)
    case ByHand(content) => Outcome(store.(compose := content), Saved)
  }

  function Run(rules: Rules, store: Store, operations: seq<Operation>): Store
    decreases |operations|
  {
    if operations == [] then store
    else Run(rules, Do(rules, store, operations[0]).store, operations[1..])
  }

  // ---------------------------------------------------------------- one edit

  /** The document an edit is to write, when the loaded one allows it. */
  function Target(rules: Rules, store: Store, edit: Edit): Option<Document> {
    var loaded := Load(store.Current());
    if loaded.Err? || Refused(rules, loaded.value.services, edit).Some? then None
    else
      EditKeepsUnique(rules, loaded.value.services, edit);
      Some(loaded.value.(services := Edited(loaded.value.services, edit)))
  }

  /** An edit that its checks let through is a save of its target; any other changes nothing. */
  lemma EditIsSave(rules: Rules, store: Store, edit: Edit, now: int, stop: Stop)
    ensures var after := EditOutcome(rules, store, edit, now, stop);
            if ValidEdit(rules, edit) && Target(rules, store, edit).Some? && stop != AtLock
            then after == Save(rules, store, Target(rules, store, edit).value, now, stop)
            else after.store == store && after.reply.Failed?
  {
  }

  /** The compose file is exactly what it was, or exactly the new document. */
  predicate OldOrNew(rules: Rules, store: Store, document: Document, after: Outcome) {
    var saved := after.store.compose == Some(Dump(document)) && PortsDistinct(rules, document.services);
    && after.store.applied == store.applied
    && (after.store.compose == store.compose || saved)
    && (after.reply.Saved? ==> saved)
  }

  lemma SaveIsAtomic(rules: Rules, store: Store, document: Document, now: int, stop: Stop)
    ensures OldOrNew(rules, store, document, Save(rules, store, document, now, stop))
    ensures stop == NoStop ==>
            (Save(rules, store, document, now, stop).reply.Saved? <==> PortsDistinct(rules, document.services))
  {
    ClashIsReal(rules, document.services);
  }

  /** Wherever an edit stops, the compose file is exactly the old one or exactly the new document,
      the mark is untouched, and a reported success means the new document, with distinct ports. */
  lemma EditIsAtomic(rules: Rules, store: Store, edit: Edit, now: int, stop: Stop)
    ensures var after := EditOutcome(rules, store, edit, now, stop);
            if ValidEdit(rules, edit) && Target(rules, store, edit).Some?
            then OldOrNew(rules, store, Target(rules, store, edit).value, after)
            else after.store == store && after.reply.Failed?
  {
    EditIsSave(rules, store, edit, now, stop);
    if Target(rules, store, edit).Some? {
      SaveIsAtomic(rules, store, Target(rules, store, edit).value, now, stop);
    }
  }

  /** The steps at which a save that has begun stops with the old file: all up to the replacement. */
  predicate StopsBefore(stop: Stop, overwrites: bool) {
    stop == AtLock || stop == AtTemporary || stop == AtCompose || stop == AtReplace || (stop.AtBackup? && overwrites)
  }

  /** A permitted edit with a free port replaces the file exactly when no step up to the replacement stops it;
      whatever stops it later, the file stays replaced. */
  lemma EditReplacesExactly(rules: Rules, store: Store, edit: Edit, now: int, stop: Stop)
    requires ValidEdit(rules, edit) && Target(rules, store, edit).Some?
    requires PortsDistinct(rules, Target(rules, store, edit).value.services)
    ensures EditOutcome(rules, store, edit, now, stop).store.compose
         == if StopsBefore(stop, store.compose.Some?) then store.compose
            else Some(Dump(Target(rules, store, edit).value))
  {
    EditIsSave(rules, store, edit, now, stop);
    if stop != AtLock {
      SaveReplaces(rules, store, Target(rules, store, edit).value, now, stop);
    }
  }

  lemma SaveReplaces(rules: Rules, store: Store, document: Document, now: int, stop: Stop)
    requires PortsDistinct(rules, document.services) && stop != AtLock
    ensures Save(rules, store, document, now, stop).store.compose
         == if StopsBefore(stop, store.compose.Some?) then store.compose else Some(Dump(document))
  {
    ClashIsReal(rules, document.services);
  }

  /** What a successful edit makes of a document. */
  predicate EditedAsAsked(rules: Rules, before: Document, edit: Edit, after: Document) {
    && PortsDistinct(rules, after.services)
    && Others(after.services, AddedName(edit)) == Others(before.services, edit.Removed())
    && after.rest == before.rest
    && (edit.Added().Some? ==> StandardEntry(edit.Added().value) in after.services
                               && IsReadAs(rules, edit.Added().value))
  }

  predicate IsReadAs(rules: Rules, value: BridgeInput) {
    rules.parse(value.name, StandardService(value))
    == DefinitionOf(value)
  }

  /** After a successful edit the document loads back with distinct ports, the operand as asked for
      and managed, and every other service with its definition and in its order. */
  lemma SavedEdit(rules: Rules, store: Store, edit: Edit, now: int, stop: Stop)
    requires EditOutcome(rules, store, edit, now, stop).reply.Saved?
    ensures var before := Load(store.Current());
            var after := Load(EditOutcome(rules, store, edit, now, stop).store.Current());
            before.Ok? && after.Ok? && EditedAsAsked(rules, before.value, edit, after.value)
  {
    EditIsAtomic(rules, store, edit, now, stop);
    AtomicIsAsAsked(rules, store, edit, EditOutcome(rules, store, edit, now, stop));
  }

  lemma AtomicIsAsAsked(rules: Rules, store: Store, edit: Edit, after: Outcome)
    requires ValidEdit(rules, edit) && Target(rules, store, edit).Some?
    requires after.reply.Saved? && OldOrNew(rules, store, Target(rules, store, edit).value, after)
    ensures Load(store.Current()).Ok? && Load(after.store.Current()).Ok?
    ensures EditedAsAsked(rules, Load(store.Current()).value, edit, Load(after.store.Current()).value)
  {
    assert Load(after.store.Current()) == Ok(Target(rules, store, edit).value);
    TargetIsAsAsked(rules, store, edit);
  }

  lemma TargetIsAsAsked(rules: Rules, store: Store, edit: Edit)
    requires ValidEdit(rules, edit) && Target(rules, store, edit).Some?
    requires PortsDistinct(rules, Target(rules, store, edit).value.services)
    ensures Load(store.Current()).Ok?
    ensures EditedAsAsked(rules, Load(store.Current()).value, edit, Target(rules, store, edit).value)
  {
    var services := Load(store.Current()).value.services;
    OthersKept(rules, services, edit);
    if edit.Added().Some? {
      OperandReadsBack(rules, services, edit, edit.Added().value);
    }
  }

  /** From a loadable document with distinct ports, an edit that no step stops is saved exactly when
      its input is valid, the names allow it, and no other managed service has its port. */
  lemma EditIsSavedExactly(rules: Rules, store: Store, edit: Edit, now: int)
    requires Load(store.Current()).Ok? && PortsDistinct(rules, Load(store.Current()).value.services)
    ensures var services := Load(store.Current()).value.services;
            EditOutcome(rules, store, edit, now, NoStop).reply.Saved? <==>
              ValidEdit(rules, edit) && NamesAllow(rules, services, edit)
              && (edit.Added().Some? ==>
                    !Taken(rules, Others(services, edit.Removed()), edit.Added().value.listenPort))
  {
    var services := Load(store.Current()).value.services;
    RefusedExactly(rules, services, edit);
    EditIsSave(rules, store, edit, now, NoStop);
    if ValidEdit(rules, edit) && Refused(rules, services, edit).None? {
      PortsAfterEdit(rules, services, edit);
      SaveIsAtomic(rules, store, Target(rules, store, edit).value, now, NoStop);
    }
  }

  // ---------------------------------------------------------------- ports and other services

  predicate ByManager(operations: seq<Operation>) {
    forall operation | operation in operations :: !operation.ByHand?
  }

  /** Distinct ports stay distinct; unmanaged services and the rest of the document stay as they are. */
  predicate Keeps(rules: Rules, before: Document, after: Result<Document, Error>) {
    && after.Ok?
    && (PortsDistinct(rules, before.services) ==> PortsDistinct(rules, after.value.services))
    && Unmanaged(rules, after.value.services) == Unmanaged(rules, before.services)
    && after.value.rest == before.rest
  }

  lemma TargetKeeps(rules: Rules, store: Store, edit: Edit)
    requires ValidEdit(rules, edit) && Target(rules, store, edit).Some?
    requires PortsDistinct(rules, Target(rules, store, edit).value.services)
    ensures Keeps(rules, Load(store.Current()).value, Ok(Target(rules, store, edit).value))
  {
    UnmanagedKept(rules, Load(store.Current()).value.services, edit);
  }

  lemma StepKeeps(rules: Rules, store: Store, operation: Operation)
    requires !operation.ByHand?
    requires Load(store.Current()).Ok?
    ensures Keeps(rules, Load(store.Current()).value, Load(Do(rules, store, operation).store.Current()))
  {
    if operation.Change? {
      EditIsAtomic(rules, store, operation.edit, operation.now, operation.stop);
      AtomicKeeps(rules, store, operation.edit, Do(rules, store, operation));
    } else {
      assert Do(rules, store, operation).store.compose == store.compose;
    }
  }

  lemma AtomicKeeps(rules: Rules, store: Store, edit: Edit, after: Outcome)
    requires Load(store.Current()).Ok?
    requires if ValidEdit(rules, edit) && Target(rules, store, edit).Some?
             then OldOrNew(rules, store, Target(rules, store, edit).value, after)
             else after.store == store
    ensures Keeps(rules, Load(store.Current()).value, Load(after.store.Current()))
  {
    if after.store.compose != store.compose {
      assert Load(after.store.Current()) == Ok(Target(rules, store, edit).value);
      TargetKeeps(rules, store, edit);
    } else {
      assert Load(after.store.Current()) == Load(store.Current());
    }
  }

  /** Over every run without edits by hand, stopped operations included, ports stay distinct and the
      services outside the manager's care, their order, and the rest of the document never change. */
  lemma {:induction false} RunKeeps(rules: Rules, store: Store, operations: seq<Operation>)
    requires ByManager(operations)
    requires Load(store.Current()).Ok?
    ensures Keeps(rules, Load(store.Current()).value, Load(Run(rules, store, operations).Current()))
    decreases |operations|
  {
    if operations != [] {
      StepKeeps(rules, store, operations[0]);
      RunKeeps(rules, Do(rules, store, operations[0]).store, operations[1..]);
    }
  }

  lemma UnloadableStep(rules: Rules, store: Store, operation: Operation)
    requires !operation.ByHand? && !store.Current().loaded.Parsed?
    ensures Do(rules, store, operation).store == store
    ensures Do(rules, store, operation).reply.Failed?
    ensures operation == Apply(Runs) ==>
            Do(rules, store, operation).reply ==
            match store.Current().loaded
            case SyntaxError => Failed(NotReadable)
            case NotMapping => Failed(NotAMappingDocument)
            case _ => Failed(ServicesNotAMapping)
  {
  }

  /** A file that is no YAML, no mapping, or has services that are no mapping, is left alone, with mark and backups, by
      every run without edits by hand: no operation succeeds until it is repaired. */
  lemma {:induction false} UnloadableStays(rules: Rules, store: Store, operations: seq<Operation>)
    requires ByManager(operations) && !store.Current().loaded.Parsed?
    ensures Run(rules, store, operations) == store
    ensures forall operation | operation in operations :: Do(rules, store, operation).reply.Failed?
    decreases |operations|
  {
    if operations != [] {
      UnloadableStep(rules, store, operations[0]);
      UnloadableStays(rules, store, operations[1..]);
      assert operations == [operations[0]] + operations[1..];
    }
  }

  // ---------------------------------------------------------------- backups

  /** The edit is let through, and no step up to the backup stops it. */
  predicate Reaches(rules: Rules, store: Store, edit: Edit, stop: Stop) {
    && ValidEdit(rules, edit)
    && Target(rules, store, edit).Some?
    && PortsDistinct(rules, Target(rules, store, edit).value.services)
    && stop !in {AtLock, AtTemporary, AtCompose}
    && (stop == AtBackup(false) ==> store.compose.None?)
  }

  /** The backup an operation writes: none unless it overwrites a file and gets that far; then a copy
      of the file as it was, torn when the copying stops halfway. */
  function Written(rules: Rules, store: Store, operation: Operation): seq<Backup> {
    if operation.Change? && store.compose.Some? && Reaches(rules, store, operation.edit, operation.stop) then
      [Backup(operation.now, if operation.stop.AtBackup? then None else store.compose)]
    else []
  }

  function Log(rules: Rules, store: Store, operations: seq<Operation>): seq<Backup>
    decreases |operations|
  {
    if operations == [] then []
    else Written(rules, store, operations[0]) + Log(rules, Do(rules, store, operations[0]).store, operations[1..])
  }

  /** The clock moves on from one save to the next. */
  predicate Increasing(after: int, operations: seq<Operation>)
    decreases |operations|
  {
    operations == [] ||
    if operations[0].Change? then after < operations[0].now && Increasing(operations[0].now, operations[1..])
    else Increasing(after, operations[1..])
  }

  /** The directory holds the newest of all backups written, and no fewer than twenty if any is gone. */
  predicate Newest(backups: seq<Backup>, log: seq<Backup>) {
    && |backups| <= |log|
    && backups == log[|log| - |backups|..]
    && (|backups| < |log| ==> |backups| >= 20)
  }

  predicate UpTo(backups: seq<Backup>, now: int) {
    forall backup | backup in backups :: backup.stamp <= now
  }

  predicate Sorted(backups: seq<Backup>) {
    forall i, j | 0 <= i < j < |backups| :: backups[i].stamp < backups[j].stamp
  }

  /** The directory stays in order of time stamps, and a backup replaces the one of its own stamp only. */
  lemma {:induction false} InsertKeepsOrder(backups: seq<Backup>, backup: Backup)
    requires Sorted(backups)
    ensures Sorted(Insert(backups, backup))
    ensures forall b :: b in Insert(backups, backup) <==> b == backup || (b in backups && b.stamp != backup.stamp)
  {
    if backups != [] {
      assert backups == [backups[0]] + backups[1..];
      InsertKeepsOrder(backups[1..], backup);
    }
  }

  lemma {:induction false} InsertNewest(backups: seq<Backup>, backup: Backup)
    requires forall b | b in backups :: b.stamp < backup.stamp
    ensures Insert(backups, backup) == backups + [backup]
  {
    if backups != [] {
      InsertNewest(backups[1..], backup);
      assert backups + [backup] == [backups[0]] + (backups[1..] + [backup]);
    }
  }

  lemma BackedUpIs(store: Store, now: int, stop: Stop)
    requires forall b | b in store.backups :: b.stamp < now
    ensures BackedUp(store, now, stop) == store.backups +
            (if store.compose.Some? && stop != AtBackup(false)
             then [Backup(now, if stop.AtBackup? then None else store.compose)] else [])
  {
    InsertNewest(store.backups, Backup(now, if stop.AtBackup? then None else store.compose));
  }

  /** Some of the oldest backups beyond the newest twenty are dropped; all of them on success. */
  predicate Rotated(full: seq<Backup>, after: Outcome) {
    var removed := |full| - |after.store.backups|;
    && 0 <= removed <= Stale(full)
    && after.store.backups == full[removed..]
    && (after.reply.Saved? ==> removed == Stale(full))
  }

  lemma SaveRotates(rules: Rules, store: Store, document: Document, now: int, stop: Stop)
    requires PortsDistinct(rules, document.services)
    requires stop !in {AtTemporary, AtCompose}
    ensures Rotated(BackedUp(store, now, stop), Save(rules, store, document, now, stop))
  {
    ClashIsReal(rules, document.services);
  }

  lemma SaveIsRefused(rules: Rules, store: Store, document: Document, now: int, stop: Stop)
    requires !PortsDistinct(rules, document.services) || stop in {AtTemporary, AtCompose}
    ensures Save(rules, store, document, now, stop).store == store
    ensures Save(rules, store, document, now, stop).reply.Failed?
  {
    ClashIsReal(rules, document.services);
  }

  /** An edit appends the backup it writes, if any, and drops some of the oldest beyond the newest
      twenty: all of them when it succeeds. */
  lemma EditRotates(rules: Rules, store: Store, edit: Edit, now: int, stop: Stop)
    requires forall b | b in store.backups :: b.stamp < now
    ensures var after := EditOutcome(rules, store, edit, now, stop);
            if Reaches(rules, store, edit, stop)
            then Rotated(store.backups + Written(rules, store, Change(edit, now, stop)), after)
            else after.store.backups == store.backups && after.reply.Failed?
  {
    EditIsSave(rules, store, edit, now, stop);
    BackedUpIs(store, now, stop);
    if ValidEdit(rules, edit) && Target(rules, store, edit).Some? && stop != AtLock {
      var document := Target(rules, store, edit).value;
      if PortsDistinct(rules, document.services) && stop !in {AtTemporary, AtCompose} {
        SaveRotates(rules, store, document, now, stop);
      } else {
        SaveIsRefused(rules, store, document, now, stop);
      }
    }
  }

  /** The directory holds exactly the newest twenty of all backups written, or all of them. */
  predicate NewestTwenty(backups: seq<Backup>, log: seq<Backup>) {
    backups == log[Stale(log)..]
  }

  lemma NewestTwentyIsNewest(backups: seq<Backup>, log: seq<Backup>)
    requires NewestTwenty(backups, log)
    ensures Newest(backups, log)
  {
  }

  lemma AppendTwice(a: seq<Backup>, b: seq<Backup>, c: seq<Backup>)
    ensures a + (b + c) == (a + b) + c
  {
  }

  lemma NewestAfter(before: seq<Backup>, log: seq<Backup>, written: seq<Backup>, after: Outcome)
    requires Newest(before, log) && Rotated(before + written, after)
    ensures Newest(after.store.backups, log + written)
    ensures after.reply.Saved? ==> NewestTwenty(after.store.backups, log + written)
  {
    var full, all := before + written, log + written;
    var skipped := |log| - |before|;
    assert log == log[..skipped] + before;
    assert all == log[..skipped] + full;
    TailOfTail(log[..skipped], full, |full| - |after.store.backups|);
  }

  lemma TailOfTail(a: seq<Backup>, b: seq<Backup>, k: nat)
    requires k <= |b|
    ensures (a + b)[|a| + k..] == b[k..]
  {
  }

  lemma StepNewest(rules: Rules, store: Store, operation: Operation, log: seq<Backup>)
    requires Newest(store.backups, log)
    requires operation.Change? ==> forall b | b in store.backups :: b.stamp < operation.now
    ensures Newest(Do(rules, store, operation).store.backups, log + Written(rules, store, operation))
    ensures operation.Change? && Do(rules, store, operation).reply.Saved? ==>
            NewestTwenty(Do(rules, store, operation).store.backups, log + Written(rules, store, operation))
  {
    if operation.Change? {
      EditRotates(rules, store, operation.edit, operation.now, operation.stop);
    }
    if operation.Change? && Reaches(rules, store, operation.edit, operation.stop) {
      NewestAfter(store.backups, log, Written(rules, store, operation), Do(rules, store, operation));
    } else {
      assert log + Written(rules, store, operation) == log;
    }
  }

  lemma StepUpTo(rules: Rules, store: Store, operation: Operation, now: int)
    requires UpTo(store.backups, now) && (operation.Change? ==> now < operation.now)
    ensures UpTo(Do(rules, store, operation).store.backups, if operation.Change? then operation.now else now)
  {
    if operation.Change? {
      EditRotates(rules, store, operation.edit, operation.now, operation.stop);
    }
  }

  function Clock(start: int, operations: seq<Operation>): int
    decreases |operations|
  {
    if operations == [] then start
    else Clock(if operations[0].Change? then operations[0].now else start, operations[1..])
  }

  /** Over every run under an increasing clock, stopped operations included, the backups are the newest
      of all those written, and at least twenty of them when any was removed. */
  lemma {:induction false} RunKeepsNewest(
      rules: Rules, store: Store, operations: seq<Operation>, start: int, log: seq<Backup>)
    requires Newest(store.backups, log) && UpTo(store.backups, start) && Increasing(start, operations)
    ensures Newest(Run(rules, store, operations).backups, log + Log(rules, store, operations))
    ensures UpTo(Run(rules, store, operations).backups, Clock(start, operations))
    decreases |operations|
  {
    if operations == [] {
      assert log + [] == log;
    } else {
      var first := operations[0];
      var next := Do(rules, store, first).store;
      var written := Written(rules, store, first);
      StepNewest(rules, store, first, log);
      StepUpTo(rules, store, first, start);
      RunKeepsNewest(rules, next, operations[1..], if first.Change? then first.now else start, log + written);
      AppendTwice(log, written, Log(rules, next, operations[1..]));
    }
  }

  /** After a save that succeeds, at the end of any run from an empty directory, the backups are
      exactly the newest twenty of those written, or all of them. */
  lemma BackupsAfterSave(
      rules: Rules, store: Store, operations: seq<Operation>, start: int, edit: Edit, now: int, stop: Stop)
    requires store.backups == [] && Increasing(start, operations) && Clock(start, operations) < now
    requires EditOutcome(rules, Run(rules, store, operations), edit, now, stop).reply.Saved?
    ensures var end := Run(rules, store, operations);
            var all := Log(rules, store, operations) + Written(rules, end, Change(edit, now, stop));
            NewestTwenty(EditOutcome(rules, end, edit, now, stop).store.backups, all)
  {
    RunKeepsNewest(rules, store, operations, start, []);
    assert [] + Log(rules, store, operations) == Log(rules, store, operations);
    StepNewest(rules, Run(rules, store, operations), Change(edit, now, stop), Log(rules, store, operations));
  }

  predicate AllSaved(rules: Rules, store: Store, operations: seq<Operation>)
    decreases |operations|
  {
    operations == [] ||
    (operations[0].Change? && Do(rules, store, operations[0]).reply.Saved?
     && AllSaved(rules, Do(rules, store, operations[0]).store, operations[1..]))
  }

  /** The compose file before each save, under the save's time. */
  function Versions(rules: Rules, store: Store, operations: seq<Operation>): seq<Backup>
    requires AllSaved(rules, store, operations)
    decreases |operations|
  {
    if operations == [] then []
    else
      [Backup(operations[0].now, store.compose)]
      + Versions(rules, Do(rules, store, operations[0]).store, operations[1..])
  }

  lemma SavedWrites(rules: Rules, store: Store, operation: Operation)
    requires operation.Change? && store.compose.Some? && Do(rules, store, operation).reply.Saved?
    requires forall b | b in store.backups :: b.stamp < operation.now
    ensures Written(rules, store, operation) == [Backup(operation.now, store.compose)]
    ensures Do(rules, store, operation).store.compose.Some?
  {
    EditIsSave(rules, store, operation.edit, operation.now, operation.stop);
    EditRotates(rules, store, operation.edit, operation.now, operation.stop);
  }

  /** After `n` saves that all succeed, from an empty directory, the backups are exactly the newest
      twenty of the `n` earlier versions, or all of them. */
  lemma BackupsOfSaves(rules: Rules, store: Store, operations: seq<Operation>, start: int)
    requires store.backups == [] && store.compose.Some?
    requires Increasing(start, operations) && AllSaved(rules, store, operations)
    ensures var versions := Versions(rules, store, operations);
            |versions| == |operations| && NewestTwenty(Run(rules, store, operations).backups, versions)
  {
    SavesKeepNewest(rules, store, operations, start, []);
    assert [] + Versions(rules, store, operations) == Versions(rules, store, operations);
  }

  lemma SavedStep(rules: Rules, store: Store, operation: Operation, start: int, log: seq<Backup>)
    requires store.compose.Some? && NewestTwenty(store.backups, log) && UpTo(store.backups, start)
    requires operation.Change? && Do(rules, store, operation).reply.Saved? && start < operation.now
    ensures var next, all := Do(rules, store, operation).store, log + [Backup(operation.now, store.compose)];
            next.compose.Some? && NewestTwenty(next.backups, all) && UpTo(next.backups, operation.now)
  {
    SavedWrites(rules, store, operation);
    NewestTwentyIsNewest(store.backups, log);
    StepNewest(rules, store, operation, log);
    StepUpTo(rules, store, operation, start);
  }

  lemma {:induction false} SavesKeepNewest(
      rules: Rules, store: Store, operations: seq<Operation>, start: int, log: seq<Backup>)
    requires store.compose.Some? && NewestTwenty(store.backups, log)
    requires UpTo(store.backups, start) && Increasing(start, operations) && AllSaved(rules, store, operations)
    ensures |Versions(rules, store, operations)| == |operations|
    ensures var all := log + Versions(rules, store, operations);
            NewestTwenty(Run(rules, store, operations).backups, all)
    decreases |operations|
  {
    if operations == [] {
      assert log + [] == log;
    } else {
      var first := operations[0];
      var next := Do(rules, store, first).store;
      var written := [Backup(first.now, store.compose)];
      SavedStep(rules, store, first, start, log);
      SavesKeepNewest(rules, next, operations[1..], first.now, log + written);
      AppendTwice(log, written, Versions(rules, next, operations[1..]));
    }
  }

  // ---------------------------------------------------------------- pending changes

  /** The content at the last apply that reported success. */
  function LastApplied(rules: Rules, store: Store, operations: seq<Operation>, last: Option<Content>): Option<Content>
    decreases |operations|
  {
    if operations == [] then last
    else
      var outcome := Do(rules, store, operations[0]);
      LastApplied(rules, outcome.store, operations[1..],
                  if outcome.reply.Applied? then Some(store.Current()) else last)
  }

  function MarkOf(last: Option<Content>): Mark {
    if last.None? then NoMark else Mark(last.value)
  }

  /** Changes are pending unless the file is what it was at the last successful apply. */
  predicate Promise(store: Store, last: Option<Content>) {
    !store.Pending() <==> last == Some(store.Current())
  }

  /** The apply gets as far as to write the mark. */
  predicate Marks(rules: Rules, store: Store, operation: Operation) {
    && operation.Apply?
    && operation.applyStop !in {AtApplyLock, AtConfig, AtCommand, AtMark}
    && Load(store.Current()).Ok?
    && PortsDistinct(rules, Load(store.Current()).value.services)
  }

  ghost predicate HasServices(content: Content) {
    content.loaded.Parsed? && exists service :: service in content.loaded.document.services
  }

  /** An apply that nothing stops brings the services up if there are any, and down if there are none. */
  lemma ApplyMarks(rules: Rules, store: Store, stop: ApplyStop)
    ensures ApplyOutcome(rules, store, stop).reply == Applied(Up)
       <==> stop == Runs && Marks(rules, store, Apply(stop)) && HasServices(store.Current())
    ensures ApplyOutcome(rules, store, stop).reply == Applied(Down)
       <==> stop == Runs && Marks(rules, store, Apply(stop)) && !HasServices(store.Current())
    ensures var after := ApplyOutcome(rules, store, stop);
            && after.store.compose == store.compose
            && (after.reply.Applied? <==> stop == Runs && Marks(rules, store, Apply(stop)))
            && after.store.applied ==
               if !Marks(rules, store, Apply(stop)) then store.applied
               else if stop == InMark then Torn else Mark(store.Current())
  {
    if Load(store.Current()).Ok? {
      var services := Load(store.Current()).value.services;
      ClashIsReal(rules, services);
      assert services != [] ==> services[0] in services;
    }
  }

  lemma EditsMarkNothing(rules: Rules, store: Store, edit: Edit, now: int, stop: Stop)
    ensures EditOutcome(rules, store, edit, now, stop).store.applied == store.applied
    ensures !EditOutcome(rules, store, edit, now, stop).reply.Applied?
  {
    EditIsSave(rules, store, edit, now, stop);
    if Target(rules, store, edit).Some? {
      SaveMarksNothing(rules, store, Target(rules, store, edit).value, now, stop);
    }
  }

  lemma SaveMarksNothing(rules: Rules, store: Store, document: Document, now: int, stop: Stop)
    ensures Save(rules, store, document, now, stop).store.applied == store.applied
    ensures !Save(rules, store, document, now, stop).reply.Applied?
  {
  }

  lemma OnlyAppliesMark(rules: Rules, store: Store, operation: Operation)
    requires !Marks(rules, store, operation)
    ensures Do(rules, store, operation).store.applied == store.applied
    ensures !Do(rules, store, operation).reply.Applied?
  {
    match operation
    case Change(edit, now, stop) => EditsMarkNothing(rules, store, edit, now, stop);
    case Apply(stop) => ApplyMarks(rules, store, stop);
    case ByHand(_) =>
  }

  /** No apply stops while it marks. */
  predicate MarksWhole(operations: seq<Operation>) {
    forall operation | operation in operations :: operation.Apply? ==> operation.applyStop !in {InMark, AtMarkChmod}
  }

  /** Over every run in which no apply stops within its marking step, whatever else fails and whatever is
      edited by hand: nothing is pending exactly when an apply has succeeded and the file is what it
      was at the last one that did. */
  lemma {:induction false} PendingAsPromised(
      rules: Rules, store: Store, operations: seq<Operation>, last: Option<Content>)
    requires MarksWhole(operations) && store.applied == MarkOf(last)
    ensures Promise(Run(rules, store, operations), LastApplied(rules, store, operations, last))
    ensures Run(rules, store, operations).applied == MarkOf(LastApplied(rules, store, operations, last))
    decreases |operations|
  {
    if operations != [] {
      var first := operations[0];
      var outcome := Do(rules, store, first);
      if Marks(rules, store, first) {
        ApplyMarks(rules, store, first.applyStop);
      } else {
        OnlyAppliesMark(rules, store, first);
      }
      PendingAsPromised(rules, outcome.store, operations[1..],
                        if outcome.reply.Applied? then Some(store.Current()) else last);
    }
  }

  /** A run keeps the mark and the last successful apply while no apply in it gets to its mark. */
  predicate NoneMarks(rules: Rules, store: Store, operations: seq<Operation>)
    decreases |operations|
  {
    operations == [] ||
    (!Marks(rules, store, operations[0]) && NoneMarks(rules, Do(rules, store, operations[0]).store, operations[1..]))
  }

  lemma {:induction false} UnmarkedRun(rules: Rules, store: Store, operations: seq<Operation>, last: Option<Content>)
    requires NoneMarks(rules, store, operations)
    ensures Run(rules, store, operations).applied == store.applied
    ensures LastApplied(rules, store, operations, last) == last
    decreases |operations|
  {
    if operations != [] {
      OnlyAppliesMark(rules, store, operations[0]);
      UnmarkedRun(rules, Do(rules, store, operations[0]).store, operations[1..], last);
    }
  }

  /** Whether the promise holds once an apply that got to its mark stopped there: always if it succeeded;
      if the mark was torn, unless the file is back to the last successful apply; and if the mark was
      written but the apply then failed, unless the file equals exactly one of what was marked and
      what was last applied. */
  predicate HoldsAfter(stop: ApplyStop, marked: Content, last: Option<Content>, now: Content) {
    match stop
    case InMark => last != Some(now)
    case AtMarkChmod => (last == Some(now)) == (marked == now)
    case _ => true
  }

  /** The promise after an apply that got to its mark, the last one to do so, from any state. */
  lemma PendingExactly(
      rules: Rules, store: Store, stop: ApplyStop, operations: seq<Operation>, last: Option<Content>)
    requires Marks(rules, store, Apply(stop))
    requires NoneMarks(rules, ApplyOutcome(rules, store, stop).store, operations)
    ensures var end := Run(rules, store, [Apply(stop)] + operations);
            Promise(end, LastApplied(rules, store, [Apply(stop)] + operations, last)) <==>
              HoldsAfter(stop, store.Current(), last, end.Current())
  {
    ApplyMarks(rules, store, stop);
    var all := [Apply(stop)] + operations;
    assert all[1..] == operations;
    var after := ApplyOutcome(rules, store, stop);
    UnmarkedRun(rules, after.store, operations, if after.reply.Applied? then Some(store.Current()) else last);
  }

  lemma {:induction false} RunAppend(rules: Rules, store: Store, a: seq<Operation>, b: seq<Operation>)
    ensures Run(rules, store, a + b) == Run(rules, Run(rules, store, a), b)
    decreases |a|
  {
    if a == [] {
      assert a + b == b;
    } else {
      assert (a + b)[1..] == a[1..] + b;
      RunAppend(rules, Do(rules, store, a[0]).store, a[1..], b);
    }
  }

  lemma {:induction false} LastAppliedAppend(
      rules: Rules, store: Store, a: seq<Operation>, b: seq<Operation>, last: Option<Content>)
    ensures LastApplied(rules, store, a + b, last)
         == LastApplied(rules, Run(rules, store, a), b, LastApplied(rules, store, a, last))
    decreases |a|
  {
    if a == [] {
      assert a + b == b;
    } else {
      assert (a + b)[1..] == a[1..] + b;
      var outcome := Do(rules, store, a[0]);
      LastAppliedAppend(rules, outcome.store, a[1..], b,
                        if outcome.reply.Applied? then Some(store.Current()) else last);
    }
  }

  /** The last operation of a run that gets to its mark. */
  function LastMarking(rules: Rules, store: Store, operations: seq<Operation>): (r: Option<nat>)
    ensures r.Some? ==> r.value < |operations| && operations[r.value].Apply?
    decreases |operations|
  {
    if operations == [] then None
    else
      var later := LastMarking(rules, Do(rules, store, operations[0]).store, operations[1..]);
      if later.Some? then Some(later.value + 1)
      else if Marks(rules, store, operations[0]) then Some(0)
      else None
  }

  lemma {:induction false} LastMarkingMeans(rules: Rules, store: Store, operations: seq<Operation>)
    ensures var k := LastMarking(rules, store, operations);
            if k.None? then NoneMarks(rules, store, operations)
            else var there := Run(rules, store, operations[..k.value]);
                 && Marks(rules, there, operations[k.value])
                 && NoneMarks(rules, Do(rules, there, operations[k.value]).store, operations[k.value + 1..])
    decreases |operations|
  {
    if operations != [] {
      var next := Do(rules, store, operations[0]).store;
      LastMarkingMeans(rules, next, operations[1..]);
      var later := LastMarking(rules, next, operations[1..]);
      if later.Some? {
        var k := later.value;
        assert operations[..k + 1] == [operations[0]] + operations[1..][..k];
        assert operations[1..][k + 1..] == operations[k + 2..];
      } else if Marks(rules, store, operations[0]) {
        assert operations[..0] == [];
      }
    }
  }

  /** Over every run from a store without mark, whatever fails in it, the promise holds at the end exactly
      when the last apply that got to its mark, if any, left it holding. */
  lemma PendingInEveryRun(rules: Rules, store: Store, operations: seq<Operation>)
    requires store.applied == NoMark
    ensures var end, k := Run(rules, store, operations), LastMarking(rules, store, operations);
            Promise(end, LastApplied(rules, store, operations, None)) <==>
              (k.Some? ==>
                 var before := operations[..k.value];
                 HoldsAfter(operations[k.value].applyStop, Run(rules, store, before).Current(),
                            LastApplied(rules, store, before, None), end.Current()))
  {
    LastMarkingMeans(rules, store, operations);
    var marking := LastMarking(rules, store, operations);
    if marking.None? {
      UnmarkedRun(rules, store, operations, None);
    } else {
      PendingFrom(rules, store, operations, marking.value);
    }
  }

  lemma CutAt(operations: seq<Operation>, k: nat)
    requires k < |operations|
    ensures operations == operations[..k] + ([operations[k]] + operations[k + 1..])
  {
  }

  lemma PendingFrom(rules: Rules, store: Store, operations: seq<Operation>, k: nat)
    requires k < |operations|
    requires var there := Run(rules, store, operations[..k]);
             && Marks(rules, there, operations[k])
             && NoneMarks(rules, Do(rules, there, operations[k]).store, operations[k + 1..])
    ensures var end, before := Run(rules, store, operations), operations[..k];
            Promise(end, LastApplied(rules, store, operations, None)) <==>
              HoldsAfter(operations[k].applyStop, Run(rules, store, before).Current(),
                         LastApplied(rules, store, before, None), end.Current())
  {
    var before, rest := operations[..k], [operations[k]] + operations[k + 1..];
    CutAt(operations, k);
    RunAppend(rules, store, before, rest);
    LastAppliedAppend(rules, store, before, rest, None);
    PendingExactly(rules, Run(rules, store, before), operations[k].applyStop, operations[k + 1..],
                   LastApplied(rules, store, before, None));
  }

  lemma NothingClashes(rules: Rules)
    ensures PortsDistinct(rules, [])
  {
  }

  /** A torn mark: the project was just applied a second time, and yet changes are pending. */
  lemma TornMarkIsPending(rules: Rules)
    ensures var store := Store(None, Mark(EMPTY), []);
            !Promise(Run(rules, store, [Apply(InMark)]), LastApplied(rules, store, [Apply(InMark)], Some(EMPTY)))
  {
    var store := Store(None, Mark(EMPTY), []);
    NothingClashes(rules);
    PendingExactly(rules, store, InMark, [], Some(EMPTY));
    ApplyKeepsFile(rules, store, InMark);
    assert [Apply(InMark)] + [] == [Apply(InMark)];
  }

  /** A failed change of the mark's mode: no apply has succeeded, and yet nothing is pending. */
  lemma FailedApplyIsNotPending(rules: Rules)
    ensures var store := Store(None, NoMark, []);
            !Promise(Run(rules, store, [Apply(AtMarkChmod)]), LastApplied(rules, store, [Apply(AtMarkChmod)], None))
  {
    var store := Store(None, NoMark, []);
    NothingClashes(rules);
    PendingExactly(rules, store, AtMarkChmod, [], None);
    ApplyKeepsFile(rules, store, AtMarkChmod);
    assert [Apply(AtMarkChmod)] + [] == [Apply(AtMarkChmod)];
  }

  lemma ApplyKeepsFile(rules: Rules, store: Store, stop: ApplyStop)
    ensures Run(rules, store, [Apply(stop)]).compose == store.compose
  {
    ApplyMarks(rules, store, stop);
    assert [Apply(stop)][1..] == [];
  }
}
