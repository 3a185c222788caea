# Verified models of Cozy Network Manager

Dafny models of the parts of Cozy Network Manager that hold algorithms or keep state, and proofs
about them for all inputs, all runs and all interleavings.

- **The nginx configuration reader.** `NginxTokens` has the tokeniser's loop and the automaton it
  refines, `NginxLexemes` the lexical grammar it recognises; `NginxParser` the recursive-descent parser
  and its grammar; `NginxRoundTrip` a printer and the exact condition for reading back.
  `VirtualPaths` confines paths to `/etc/nginx` and follows links. `Includes` gives files their
  meaning by splicing, `NginxReader` is the reader object with its growing list of warnings, `NginxIncludeGraph`
  characterises and counts recursion warnings by cycles, and acyclic graphs by plain substitution.
  `NginxInlining` says on tokens what expansion makes of include statements and keeps of all others.
  `HostDisk` has the operating system's lookups, which go through linked directories;
  `NginxConfinement` shows when nothing outside `/etc/nginx` has any influence, and
  `NginxLinkedDirectory` a host on which it has.
- **The bridge manager.** `BridgeInputs` says which inputs are accepted. `BridgeServices` builds and
  parses compose services, and proves of the parser the three facts the manager relies on (`Sound`); the modules above it hold for any input
  check and parser with these facts (`Rules`), and the manager object is built with the program's own.
  `BridgeDocuments` has the port check and the edits, `BridgeEdits` what the edits promise.
  `BridgeManagement` is the manager over three pieces of state, namely the compose file, the mark of
  what was applied last, and the backup directory; each of its operations may stop at any step.
  `BridgeRuns` proves what every sequence of operations and edits by hand keeps.
- **The authentication store of the head.** `AuthStore` has the operations one at a time,
  `AuthSessions` what sequences of them guarantee about tokens, and `AuthProtocol` the steps of
  locking, reading, writing and unlocking by any number of callers, with readers that take no lock;
  every interleaving is shown to be atomic in lock order, and the guarantees carry over.
- **Topology correlation and inventory.** `SshdChroot` and `SshdExports` read sshd_config(5) `Match`
  blocks, `SshdLines` says over lines what is read, `SshdMatch` when that is what applies. `DeviceNodes`
  allocates node names, `MountPaths` maps mount directories.

`Text` and `Wrappers` hold the string operations and result types the models share. Text is a
sequence of characters, a path the sequence of its components, a file system a finite map. Where the
program loops or updates an object, the model is a method or a class, proved against a function
that the lemmas then reason about.

Four promises do not hold of the code as it stands. The models keep the code, with an input at which each
promise fails, and prove when it holds:

- The bridge manager reports pending changes correctly unless an apply stops while it writes the mark: a
  torn mark reports changes that are not there, and a mark whose mode cannot be changed hides that no
  apply has succeeded (`PendingExactly` and `PendingInEveryRun`, with one run for each failure).
- The directory of an export is not always the one that follows from the tokens sshd_config(5) gives
  `ChrootDirectory`, namely `%%`, `%h`, `%u` and `%U`. An escaped percent sign before an `h` is taken to
  name the home directory (`/%%h`), an empty home directory counts as unknown (`/%h`), `%U` is left as it
  stands (`/%U`), and malformed values, which sshd refuses, are exported (`/%x`). `ChrootAsSpecified`
  has the exact condition, with one lemma for each of these values.
- The nginx reader confines paths to `/etc/nginx`, but it checks only the last component for a link. Through
  a linked directory the operating system is led outside, even out of the mounted host
  (`LinkedDirectoryLeadsOutside`). `InPlaceExactly` says exactly when everything is found at its own path,
  and `ReadsOnlyBelowRoot` that nothing outside matters then; a linked directory that leads back below
  `/etc/nginx` is harmless as well, but not covered.
- The exports heed only `Match` blocks of exact users. A value in the global section or in another block
  may apply and is missed (`GlobalValueIsMissed`); `AppliedExactly` has the exact condition.

## Model

| member | source | states |
|---|---|---|
| `NginxTokens.Tokenize` | cozy_network_manager/app/collectors/public_interfaces.py:33-79 | the loop, with its quote and escape flags and its jump over comments, returns what an automaton reading one character at a time returns, including the unterminated-string error |
| `NginxTokens.FindNewline` | cozy_network_manager/app/collectors/public_interfaces.py:59 | the first newline at or after a position, or none |
| `NginxTokens.SkipComment` | cozy_network_manager/app/collectors/public_interfaces.py:55-62 | jumping to the newline leaves the automaton where reading the comment would have |
| `NginxTokens.NewlineAsComment` | cozy_network_manager/app/collectors/public_interfaces.py:55-66 | outside quotes any newline may be replaced by a comment that ends in one, without changing the tokens or the error |
| `NginxTokens.QuotedNewlineIsText` | cozy_network_manager/app/collectors/public_interfaces.py:41-52 | inside quotes the same replacement always changes the tokens of some continuation, so the side condition is needed |
| `NginxTokens.TokensNonEmpty` | cozy_network_manager/app/collectors/public_interfaces.py:53-79 | no token is empty: an empty quoted string leaves no trace |
| `NginxLexemes.TokensAreLexemes` | cozy_network_manager/app/collectors/public_interfaces.py:33-79 | a text is accepted with given tokens if and only if it is made of lawful lexemes with these words and marks: bare characters, words in either quotes with any character behind a backslash, adjacent pieces joined, comments, punctuation and any blanks |
| `NginxParser.ParseDirectives` | cozy_network_manager/app/collectors/public_interfaces.py:82-111 | the loop over an index agrees with the parser on remaining tokens: same trees, same place where reading stops, same error |
| `NginxParser.ParseStatement` | cozy_network_manager/app/collectors/public_interfaces.py:89-108 | one round of the loop reads at most one directive and moves on |
| `NginxParser.ReadWords` | cozy_network_manager/app/collectors/public_interfaces.py:89-92 | the longest run of words from a position |
| `NginxParser.Parse` | cozy_network_manager/app/collectors/public_interfaces.py:82-111 | reading never goes backwards, and a nested list consumes its closing brace |
| `NginxParser.AllRead` | cozy_network_manager/app/collectors/public_interfaces.py:82-111 | completeness: the parser steps over every sentence of the grammar and returns its meaning |
| `NginxParser.ParseSound` | cozy_network_manager/app/collectors/public_interfaces.py:82-111 | soundness: whatever is consumed is a sentence of the grammar with the meaning returned |
| `NginxParser.ParserIsGrammar` | cozy_network_manager/app/collectors/public_interfaces.py:82-111 | a token list is a sentence meaning given directives if and only if the parser returns exactly these and leaves no token; so the meaning is unique |
| `NginxParser.ParseThenFlatten` | cozy_network_manager/app/collectors/public_interfaces.py:82-111 | flattening the parsed tree gives the tokens back with only the empty statements removed |
| `NginxParser.FlattenThenParse` | cozy_network_manager/app/collectors/public_interfaces.py:82-111 | parsing what a tree of words flattens to gives the tree back, so no two trees flatten alike |
| `NginxRoundTrip.RoundTrip` | cozy_network_manager/app/collectors/public_interfaces.py:33-111 | a tree printed with every word quoted and escaped reads back unchanged, with a missing block distinct from an empty one, if and only if no word is empty and none is exactly a punctuation token |
| `NginxLexemes.TextIsGrammar` | cozy_network_manager/app/collectors/public_interfaces.py:33-111 | a text reads as given directives if and only if its lexemes, however words are quoted and laid out, are the tokens of statements that mean them |
| `NginxRoundTrip.RunEscape` | cozy_network_manager/app/collectors/public_interfaces.py:41-52 | the tokeniser undoes the escaping of a word |
| `VirtualPaths.SafeVirtualPath` | cozy_network_manager/app/collectors/public_interfaces.py:123-136 | the loop normalises and confines a path to the nginx root |
| `VirtualPaths.NormalizeIsIdempotent` | cozy_network_manager/app/collectors/public_interfaces.py:123-133 | a normal path has no `.`, `..` or empty component, and normalising it again changes nothing |
| `VirtualPaths.DotsTakeAway` | cozy_network_manager/app/collectors/public_interfaces.py:128-131 | `..` takes the component before it away, wherever it stands |
| `VirtualPaths.DotsAtTheTop` | cozy_network_manager/app/collectors/public_interfaces.py:128-131 | at the top it takes nothing away |
| `VirtualPaths.OthersVanish` | cozy_network_manager/app/collectors/public_interfaces.py:126-127 | empty components, `.` and the root vanish, wherever they stand |
| `VirtualPaths.SafeExactly` | cozy_network_manager/app/collectors/public_interfaces.py:133-136 | a path is safe if and only if it is normalised to one below `/etc/nginx` |
| `VirtualPaths.FollowSymlink` | cozy_network_manager/app/collectors/public_interfaces.py:142-152 | the bounded loop computes the link-following function |
| `VirtualPaths.Follow` | cozy_network_manager/app/collectors/public_interfaces.py:142-152 | a path that is found lies below the root and is no link |
| `VirtualPaths.FollowFinds` | cozy_network_manager/app/collectors/public_interfaces.py:142-152 | a file is found if and only if a chain of at most 19 links, every one inside the root, ends there; it gives up if and only if 20 links lead on inside; what is found is normal |
| `HostDisk.HopIsWalk` | cozy_network_manager/app/collectors/public_interfaces.py:148-151 | a relative link is taken where the operating system would walk to from its directory, whenever no further link is on that way and it does not leave the mounted host; if that is inside the root, the hop leads there, and if not, it is refused |
| `HostDisk.AbsoluteHopIsWalk` | cozy_network_manager/app/collectors/public_interfaces.py:148-151 | the same for an absolute link, on a host that is not mounted elsewhere |
| `NginxReader.NginxConfigReader.ReadConfig` | cozy_network_manager/app/collectors/public_interfaces.py:120-121 | reading `nginx.conf` yields the meaning of the file graph and adds exactly its warnings, in order |
| `NginxReader.NginxConfigReader.Expand` | cozy_network_manager/app/collectors/public_interfaces.py:171-202 | reading one file yields the spliced tree and warnings for every stack; the recursion ends because the files not on the stack shrink |
| `NginxReader.NginxConfigReader.ReadText` | cozy_network_manager/app/collectors/public_interfaces.py:178-179 | reading, tokenising and parsing one file, with every error |
| `NginxReader.NginxConfigReader.ExpandChildren` | cozy_network_manager/app/collectors/public_interfaces.py:204-217 | the loop over directives splices each include in place |
| `NginxReader.NginxConfigReader.ExpandDirective` | cozy_network_manager/app/collectors/public_interfaces.py:208-216 | an include is replaced, a block is expanded inside, any other directive stays |
| `NginxReader.NginxConfigReader.Include` | cozy_network_manager/app/collectors/public_interfaces.py:210-213 | the loop over the patterns of an include |
| `NginxConfinement.PatternIsConfined` | cozy_network_manager/app/collectors/public_interfaces.py:154-169 | a pattern is matched only once it is normal and below the nginx root; any other matches nothing |
| `NginxConfinement.PatternIsPlaced` | cozy_network_manager/app/collectors/public_interfaces.py:155-161 | a normal pattern is matched as it stands when absolute and below the root, and from the root when relative |
| `NginxReader.NginxConfigReader.IncludeEach` | cozy_network_manager/app/collectors/public_interfaces.py:211-212 | the loop over the matches of a pattern |
| `Includes.Load` | cozy_network_manager/app/collectors/public_interfaces.py:174-190 | a file that is read is a known file that is not on the stack, so the files on the stack are pairwise distinct |
| `Includes.Entering` | cozy_network_manager/app/collectors/public_interfaces.py:176-192 | entering a file leaves fewer files to enter: the measure behind termination on cyclic graphs |
| `Includes.SpliceAppend` | cozy_network_manager/app/collectors/public_interfaces.py:191-202 | splicing is directive by directive: what an include yields, or fails to, leaves what stands before and after it alone |
| `Includes.BackEdge` | cozy_network_manager/app/collectors/public_interfaces.py:174-202 | whatever else the patterns of an include match, a match that leads back to a file being read contributes no directive and exactly one warning, between what the matches before and after it contribute, and the rest of the including file is kept |
| `Includes.ReadFileHasNoInclude` | cozy_network_manager/app/collectors/public_interfaces.py:171-217 | no include directive is left at any depth |
| `Includes.NothingToInclude` | cozy_network_manager/app/collectors/public_interfaces.py:191-202 | directives without include at any depth expand to themselves, blocks with all their children, with no warning |
| `Includes.UnreadContributesNothing` | cozy_network_manager/app/collectors/public_interfaces.py:174-189 | what cannot be read contributes no directive: silently if it lies outside the root, otherwise with one warning that has the last component of its path and the cause |
| `NginxInlining.TreesInlined` | cozy_network_manager/app/collectors/public_interfaces.py:191-217 | the tokens of an expanded list are those of the list with every include statement, at any depth, replaced in place by the tokens of what the matched files read as |
| `NginxInlining.FileIsInlined` | cozy_network_manager/app/collectors/public_interfaces.py:171-202 | the tokens of what a file reads as, under any stack, are those of its text without empty statements, each include statement so replaced |
| `NginxInlining.AcyclicIsInlined` | cozy_network_manager/app/collectors/public_interfaces.py:171-217 | without a cycle, the tokens of what is read are those of the files inlined into each other, and these determine what is read |
| `NginxIncludeGraph.RecursionIsACycle` | cozy_network_manager/app/collectors/public_interfaces.py:175-190 | recursion is reported if and only if some walk along include directives comes back to a file it has been through |
| `NginxIncludeGraph.RecursionIsCounted` | cozy_network_manager/app/collectors/public_interfaces.py:175-202 | there are exactly as many recursion warnings as walks along include matches that come back for the first time at their end, with multiplicity |
| `NginxIncludeGraph.WarningsInOrder` | cozy_network_manager/app/collectors/public_interfaces.py:193-201 | the warnings of a tree are those of the files its includes match, one after the other in the order of the includes |
| `NginxIncludeGraph.AcyclicIsSubstitution` | cozy_network_manager/app/collectors/public_interfaces.py:171-217 | without a cycle, expansion equals plain substitution of the included trees, which knows no stack, and no recursion is reported |
| `NginxIncludeGraph.SpliceWarnings` | cozy_network_manager/app/collectors/public_interfaces.py:193-201 | the warnings of a tree are exactly those of the files its includes match, at any depth |
| `NginxIncludeGraph.SpliceAgrees` | cozy_network_manager/app/collectors/public_interfaces.py:193-201 | a spliced tree depends on nothing but what the matched files read as |
| `HostDisk.ViewIsLookup` | cozy_network_manager/app/collectors/public_interfaces.py:138-148 | what the reader finds at a path is what the operating system finds there, going through linked directories wherever they lead |
| `HostDisk.FoundInPlace` | cozy_network_manager/app/collectors/public_interfaces.py:138-145 | what stands below the mounted host at its own path is found there |
| `HostDisk.InPlaceExactly` | cozy_network_manager/app/collectors/public_interfaces.py:138-178 | everything found below `/etc/nginx` is found at its own path if and only if `/etc/nginx` is, when found at all, and no link below it leads to a directory that holds anything |
| `NginxConfinement.ReadFileSame` | cozy_network_manager/app/collectors/public_interfaces.py:123-217 | what any file reads as, directives and warnings, depends on nothing but what lookups and patterns find at paths below `/etc/nginx` |
| `NginxConfinement.ReadsOnlyBelowRoot` | cozy_network_manager/app/collectors/public_interfaces.py:123-217 | two disks that hold the same below `/etc/nginx`, on which it is found at its own path, if at all, and no link below it leads to a directory that holds anything, are read alike, directives and warnings, whatever else they hold |
| `NginxLinkedDirectory.LinkedDirectoryLeadsOutside` | cozy_network_manager/app/collectors/public_interfaces.py:154-178 | on a disk whose `conf.d` is a link to `../../srv`, a reader that includes `conf.d/*.conf` reports what `/srv/a.conf` says |
| `NginxLinkedDirectory.LinkedDisks` | cozy_network_manager/app/collectors/public_interfaces.py:138-178 | there are two such disks for any two words, and they hold the same below `/etc/nginx` |
| `BridgeServices.ManagedIsValid` | cozy_network_manager/app/services/bridges.py:114-169 | a managed service has a non-empty name and complete values that would pass input validation |
| `BridgeServices.StandardServiceReadsBack` | cozy_network_manager/app/services/bridges.py:81-169 | every accepted input comes back from the service built of it, managed and with the same name, port, host and target port |
| `BridgeServices.ManagedRebuilds` | cozy_network_manager/app/services/bridges.py:97-169 | rebuilding a managed service from what was read of it gives the same definition |
| `BridgeServices.ManagedIsLikeStandard` | cozy_network_manager/app/services/bridges.py:97-169 | a service is managed if and only if some accepted input has a standard service from which it differs at most in the order of entries, the spelling of its environment and further port mappings |
| `BridgeServices.PortReadsBack` | cozy_network_manager/app/services/bridges.py:73-78 | reading a printed port gives it back |
| `BridgeServices.StandardEnvironmentRead` | cozy_network_manager/app/services/bridges.py:60-70 | the environment of a standard service holds exactly its three values |
| `BridgeInputs.AcceptedExactly` | cozy_network_manager/app/services/bridges.py:81-94 | an input is accepted if and only if its name and, unless it is an IPv4 address, its host match the regular expressions of the program, the host is no IPv6 address, and both ports are from 1 to 65535 |
| `BridgeInputs.HostDecides` | cozy_network_manager/app/services/bridges.py:87-94 | with name and ports in order, an IPv6 address is refused as such, and what is no address must match the expression for host names |
| `BridgeServices.StandardPublishes` | cozy_network_manager/app/services/bridges.py:97-105 | the standard service publishes its listen port under the same number and nothing else |
| `BridgeServices.MappingReads` | cozy_network_manager/app/services/bridges.py:60-62 | an environment given as a mapping reads as its entries, printed, without those that are null |
| `BridgeServices.ListReadsAsMapping` | cozy_network_manager/app/services/bridges.py:63-69 | an environment given as a list of assignments reads as the mapping with the same entries, whatever the values contain |
| `BridgeServices.OtherItemsIgnored` | cozy_network_manager/app/services/bridges.py:65-69 | items that are no assignments are passed over |
| `BridgeServices.ReadWhateverElse` | cozy_network_manager/app/services/bridges.py:122-125 | of any service, managed or not, the ports read are the numbers from 1 to 65535 that the variables spell, and the host is what its variable says |
| `BridgeServices.ReaderIsSound` | cozy_network_manager/app/services/bridges.py:81-169 | the program's input check and parser have the facts the manager relies on: a definition keeps its name, a managed one has a name and a port, and accepted inputs read back |
| `BridgeDocuments.ValidateDocument` | cozy_network_manager/app/services/bridges.py:227-240 | the loop with its table of owners returns the first clash of ports, although it ignores owners with an empty name |
| `BridgeDocuments.OwnerIsFound` | cozy_network_manager/app/services/bridges.py:234-240 | the truthiness test on the owner finds every earlier owner, because managed services have names |
| `BridgeDocuments.ClashIsReal` | cozy_network_manager/app/services/bridges.py:227-240 | the check passes if and only if the managed services listen on pairwise distinct ports; otherwise it names a port two of them share, and the earlier one |
| `BridgeDocuments.EditKeepsUnique` | cozy_network_manager/app/services/bridges.py:415-457 | an edit that is let through leaves service names unique |
| `BridgeDocuments.RefusedExactly` | cozy_network_manager/app/services/bridges.py:415-457 | an edit is refused if and only if what it takes away is not there or not managed, or what it puts in shares the name of another service; with the error that says which |
| `BridgeDocuments.Replaced` | cozy_network_manager/app/services/bridges.py:438-443 | only the named entry is replaced, in its place |
| `BridgeDocuments.Without` | cozy_network_manager/app/services/bridges.py:455 | exactly the named entry goes |
| `BridgeEdits.OthersKept` | cozy_network_manager/app/services/bridges.py:415-457 | after create, update or delete the services other than the operand are the same ones in the same order |
| `BridgeEdits.OperandReadsBack` | cozy_network_manager/app/services/bridges.py:415-445 | the operand is in the new document and reads back as managed with the input it was given |
| `BridgeEdits.CreateThenDelete` | cozy_network_manager/app/services/bridges.py:415-457 | deleting what create added is let through and restores the services |
| `BridgeEdits.UpdateThenBack` | cozy_network_manager/app/services/bridges.py:426-445 | updating a bridge and updating it back restores the services in their order |
| `BridgeEdits.PortsAfterEdit` | cozy_network_manager/app/services/bridges.py:227-240 | from distinct ports, the edited services pass the port check if and only if no managed service other than the operand has the port |
| `BridgeEdits.UnmanagedKept` | cozy_network_manager/app/services/bridges.py:415-457 | no edit touches, moves or removes a service that is not managed |
| `BridgeRuns.UnloadableStays` | cozy_network_manager/app/services/bridges.py:213-225 | a file that does not load as a document with services makes every operation fail and is left alone, with mark and backups, by every run without edits by hand |
| `BridgeManagement.BridgeManager.WriteDocument` | cozy_network_manager/app/services/bridges.py:383-413 | files and reply after saving, for each step at which it may stop |
| `BridgeManagement.BridgeManager.Prune` | cozy_network_manager/app/services/bridges.py:406-408 | all but the newest twenty backups go, oldest first, even when it stops halfway |
| `BridgeManagement.BridgeManager.Create` | cozy_network_manager/app/services/bridges.py:415-424 | new files and reply of create, with every refusal |
| `BridgeManagement.BridgeManager.Update` | cozy_network_manager/app/services/bridges.py:426-445 | new files and reply of update, with every refusal |
| `BridgeManagement.BridgeManager.Delete` | cozy_network_manager/app/services/bridges.py:447-457 | new files and reply of delete, with every refusal |
| `BridgeManagement.BridgeManager.ApplyProject` | cozy_network_manager/app/services/bridges.py:477-496 | new files and reply of apply, and which command it chooses |
| `BridgeManagement.BridgeManager.MarkCurrentApplied` | cozy_network_manager/app/services/bridges.py:315-318 | the mark after each step at which marking may stop |
| `BridgeManagement.BridgeManager.PendingApply` | cozy_network_manager/app/services/bridges.py:320-325 | changes are pending unless the mark is that of the current content |
| `BridgeRuns.EditIsAtomic` | cozy_network_manager/app/services/bridges.py:383-413 | wherever an edit stops, the compose file is exactly the old one or exactly the new document, and a reported success means the new one with distinct ports |
| `BridgeRuns.EditReplacesExactly` | cozy_network_manager/app/services/bridges.py:391-408 | a permitted edit with a free port replaces the file if and only if no step up to the replacement stops it |
| `BridgeRuns.SavedEdit` | cozy_network_manager/app/services/bridges.py:415-457 | after a successful edit the file loads back with distinct ports, the operand managed as asked, and every other service with its definition and order |
| `BridgeRuns.EditIsSavedExactly` | cozy_network_manager/app/services/bridges.py:415-457 | from a loadable document with distinct ports, an edit that nothing stops succeeds if and only if its input is valid, the names allow it and no other managed service has its port |
| `BridgeRuns.RunKeeps` | cozy_network_manager/app/services/bridges.py:383-496 | over every run without edits by hand, failures included, ports stay distinct, and unmanaged services, their order and the rest of the document never change |
| `BridgeRuns.EditRotates` | cozy_network_manager/app/services/bridges.py:399-408 | an edit appends the backup it writes and drops only backups beyond the newest twenty: all of those when it succeeds |
| `BridgeRuns.InsertKeepsOrder` | cozy_network_manager/app/services/bridges.py:399-406 | the backup directory stays in order of time stamps, and a backup replaces the one of its own stamp only |
| `BridgeRuns.RunKeepsNewest` | cozy_network_manager/app/services/bridges.py:383-413 | over every run under an increasing clock, failures and edits by hand included, the backups are the newest of all those written, and at least twenty if any is gone |
| `BridgeRuns.BackupsAfterSave` | cozy_network_manager/app/services/bridges.py:383-413 | a successful save at the end of any run from an empty directory leaves exactly the newest twenty backups written, or all of them |
| `BridgeRuns.BackupsOfSaves` | cozy_network_manager/app/services/bridges.py:383-413 | after n successful overwrites from an empty directory the backups are exactly the newest min(20, n) earlier versions, in order |
| `BridgeRuns.ApplyMarks` | cozy_network_manager/app/services/bridges.py:477-496 | an apply never changes the compose file; one that nothing stops brings the services up if the document has any, and down if it has none; the mark it leaves is the old one, a torn one or that of the current content according to the step it reached |
| `BridgeRuns.OnlyAppliesMark` | cozy_network_manager/app/services/bridges.py:311-325 | nothing but an apply that gets to its mark changes the mark |
| `BridgeRuns.PendingAsPromised` | cozy_network_manager/app/services/bridges.py:311-325 | over every run in which no apply stops within its marking step: nothing is pending if and only if an apply has succeeded and the file is what it was at the last one that did |
| `BridgeRuns.PendingExactly` | cozy_network_manager/app/services/bridges.py:311-325 | the exact condition for that promise after any last apply that got to its mark: always after a success, after a torn mark unless the file is back to the last applied content, after a failed change of mode unless the file equals exactly one of the marked and the last applied content |
| `BridgeRuns.PendingInEveryRun` | cozy_network_manager/app/services/bridges.py:311-325 | the same for whole runs from a store without mark, whatever fails in them: nothing marked, or the condition at the last apply that got to its mark |
| `BridgeRuns.TornMarkIsPending` | cozy_network_manager/app/services/bridges.py:315-318 | a run in which the promise fails because the mark is torn |
| `BridgeRuns.FailedApplyIsNotPending` | cozy_network_manager/app/services/bridges.py:315-318 | a run in which the promise fails because the mark is written but the apply is reported as failed |
| `AuthStore.HeadAuthStore.Setup` | cozy_network_manager/app/services/head_auth.py:128-136 | file and reply of setup, refusals included |
| `AuthStore.HeadAuthStore.Login` | cozy_network_manager/app/services/head_auth.py:138-147 | file and reply of login |
| `AuthStore.HeadAuthStore.ChangePassword` | cozy_network_manager/app/services/head_auth.py:149-159 | file and reply of a password change, which leaves only the new session |
| `AuthStore.HeadAuthStore.Disable` | cozy_network_manager/app/services/head_auth.py:161-170 | file and reply of disable |
| `AuthStore.HeadAuthStore.Logout` | cozy_network_manager/app/services/head_auth.py:172-185 | file and reply of logout |
| `AuthStore.HeadAuthStore.ActiveSessions` | cozy_network_manager/app/services/head_auth.py:259-262 | the sessions that have not expired, in order |
| `AuthStore.HeadAuthStore.SessionsWithout` | cozy_network_manager/app/services/head_auth.py:180-184 | the sessions of other tokens, in order |
| `AuthStore.HeadAuthStore.IsSessionValid` | cozy_network_manager/app/services/head_auth.py:114-126 | true if and only if some unexpired session has the hash of the token |
| `AuthSessions.AtMost32` | cozy_network_manager/app/services/head_auth.py:138-147 | no sequence of operations leads to more than 32 sessions |
| `AuthSessions.TokenLasts` | cozy_network_manager/app/services/head_auth.py:114-185 | an issued token stays valid until it expires through any 31 later logins, unless it is logged out, the password changes or authentication is disabled |
| `AuthSessions.TokenPushedOut` | cozy_network_manager/app/services/head_auth.py:138-147 | 32 later logins push it out, so 31 is exact |
| `AuthSessions.ExpiresOnTime` | cozy_network_manager/app/services/head_auth.py:114-126 | from the moment its lifetime has passed a token is invalid, so that with `TokenLasts` the expiry is exact |
| `AuthSessions.ExpiredAreDropped` | cozy_network_manager/app/services/head_auth.py:144-184 | a login or logout keeps no session that had expired, and adds none but the one issued |
| `AuthSessions.LogoutKeepsOthers` | cozy_network_manager/app/services/head_auth.py:172-185 | a logout keeps the password and exactly the unexpired sessions of other tokens |
| `AuthSessions.PasswordsTurnedDown` | cozy_network_manager/app/services/head_auth.py:79-85 | setup and password change turn down exactly new passwords of fewer than 8 or more than 1024 characters, leaving the file alone |
| `AuthSessions.AnsweredWithoutLock` | cozy_network_manager/app/services/head_auth.py:128-185 | only bad new passwords, and a logout without token, are answered without taking the lock |
| `AuthSessions.RevokedForGood` | cozy_network_manager/app/services/head_auth.py:149-185 | after a logout of it, a password change or disabling, a token is never valid again |
| `AuthSessions.SetupOnce` | cozy_network_manager/app/services/head_auth.py:128-136 | between two successful setups authentication was disabled |
| `AuthSessions.AcceptsTheLastSet` | cozy_network_manager/app/services/head_auth.py:128-185 | after any sequence of operations exactly the password last set and not disabled since is accepted, and a setup succeeds exactly when there is none |
| `AuthSessions.ReplayAppend` | cozy_network_manager/app/services/head_auth.py:187-199 | a history is atomic exactly when its parts are, one after the other |
| `AuthProtocol.EveryRunIsAtomic` | cozy_network_manager/app/services/head_auth.py:271-301 | in every interleaving of the steps of any number of callers, failures included: only the holder is inside; the file is what the committed operations leave when run alone in lock order; each reply is that of one committed operation, no two of the same one, committed while its call was under way; each unlocked read saw a committed file, even if others commit before the reader looks at the clock; tokens are fresh and clock readings do not go back |
| `AuthProtocol.RealTimeOrderInEveryRun` | cozy_network_manager/app/services/head_auth.py:271-281 | a call that ended before another began was committed before it |
| `AuthProtocol.TokensDifferInEveryRun` | cozy_network_manager/app/services/head_auth.py:248-253 | no two callers are issued the same token |
| `AuthProtocol.AtMost32InEveryRun` | cozy_network_manager/app/services/head_auth.py:138-147 | at most 32 sessions in every interleaving |
| `AuthProtocol.TokenLastsInEveryRun` | cozy_network_manager/app/services/head_auth.py:114-185 | the lifetime of a token in every interleaving |
| `AuthProtocol.TokenExpiresInEveryRun` | cozy_network_manager/app/services/head_auth.py:248-253 | in every interleaving a token is invalid from the moment its lifetime has passed |
| `AuthProtocol.ReadersSeeItExpire` | cozy_network_manager/app/services/head_auth.py:114-126 | in every interleaving an unlocked reader that looks at the clock from then on is told that the token is invalid |
| `AuthProtocol.RevokedInEveryRun` | cozy_network_manager/app/services/head_auth.py:149-185 | revocation for good in every interleaving |
| `AuthProtocol.LogoutEndsTheToken` | cozy_network_manager/app/services/head_auth.py:172-185 | in every interleaving a caller told that its logout is done, of a token issued before it asked, has ended that token for good |
| `AuthProtocol.ChangeEndsTokens` | cozy_network_manager/app/services/head_auth.py:149-159 | in every interleaving a caller told that its password change succeeded has ended every token issued before it asked |
| `AuthProtocol.ReadersSeeTheEnd` | cozy_network_manager/app/services/head_auth.py:114-126 | in every interleaving an unlocked reader whose file has seen the end of a token is told that it is invalid |
| `AuthProtocol.ReadersSeeItLast` | cozy_network_manager/app/services/head_auth.py:114-126 | in every interleaving an unlocked reader whose file has seen a token issued, but neither its end nor 32 later logins, is told that it is valid, if it looks at the clock before the token expires |
| `AuthProtocol.SetupOnceInEveryRun` | cozy_network_manager/app/services/head_auth.py:128-136 | of any two callers told that their setup succeeded, in any interleaving, authentication was disabled between the one setup and the other |
| `AuthProtocol.AcceptsTheLastSetInEveryRun` | cozy_network_manager/app/services/head_auth.py:128-185 | the same in every interleaving, for each committed operation and those before it |
| `SshdChroot.ReplacementsAreOnePass` | cozy_network_manager/app/collectors/mounts.py:299-301 | the sequential replacements equal one pass from the left over `%%`, `%u` and `%h`, for every value and home without NUL and every user name without percent sign and NUL |
| `SshdChroot.ChrootAsSpecified` | cozy_network_manager/app/collectors/mounts.py:294-304 | the exact condition under which the function returns the directory that follows from the tokens of sshd_config(5), `%U` included, with malformed values refused |
| `SshdChroot.UidDiffers` | cozy_network_manager/app/collectors/mounts.py:300-303 | where a value names the user id, what comes out is absolute if and only if the specified directory is, and is never that directory |
| `SshdChroot.EscapedPercentIsMistaken` | cozy_network_manager/app/collectors/mounts.py:297-298 | a value with an escaped percent sign before an `h` is taken to name the home directory, and is not exported without one |
| `SshdChroot.UidTokenIsMissed` | cozy_network_manager/app/collectors/mounts.py:300-304 | a `%U` is left as it stands in place of the user id |
| `SshdChroot.UnknownTokenIsKept` | cozy_network_manager/app/collectors/mounts.py:300-304 | a value with an unknown token is exported |
| `SshdChroot.EmptyHomeIsMistaken` | cozy_network_manager/app/collectors/mounts.py:297-298 | with an empty home directory a value that names it is not exported |
| `SshdExports.CollectSftpExports` | cozy_network_manager/app/collectors/mounts.py:307-350 | the scanner returns the first-seen ports, or 22, and exactly the users whose first values export a directory, with that directory |
| `SshdExports.SetForUsers` | cozy_network_manager/app/collectors/mounts.py:333-334 | the first value given to a user stays |
| `SshdExports.ExportsOf` | cozy_network_manager/app/collectors/mounts.py:338-349 | the last loop exports exactly the users whose settings allow it |
| `SshdExports.FirstValueIsFirst` | cozy_network_manager/app/collectors/mounts.py:331-334 | the value used is that of the first line that sets the keyword for the user in a recognised block |
| `SshdExports.PortsAreFirstSeen` | cozy_network_manager/app/collectors/mounts.py:322-330 | the ports are those set outside recognised blocks, each once, in the order in which they are first set |
| `SshdLines.ExactUsersExactly` | cozy_network_manager/app/collectors/mounts.py:285-291 | a `Match` line has given users if and only if it has the one criterion `user`, in any case, and these names joined by commas, none empty and none with a pattern character |
| `SshdLines.InBlockExactly` | cozy_network_manager/app/collectors/mounts.py:316-321 | a user is in force at a line if and only if the last `Match` line before it names exactly users of whom this is one |
| `SshdLines.ExportedExactly` | cozy_network_manager/app/collectors/mounts.py:331-349 | said over lines: a user is exported with a directory if and only if the first line that gives the user a command has one that starts with `internal-sftp`, in any case, and the first line that gives a directory has one that expands to it |
| `SshdLines.PortsExactly` | cozy_network_manager/app/collectors/mounts.py:322-330 | a port is listed if and only if some line outside blocks of exact users gives it, and it is from 1 to 65535 |
| `SshdMatch.AppliedExactly` | cozy_network_manager/app/collectors/mounts.py:317-334 | the scanner reads of a keyword the value that sshd_config(5) makes apply, for every user and whatever the other criteria of `Match` lines say, if and only if the keyword is given in blocks of exact users only |
| `SshdMatch.ExportsWhatApplies` | cozy_network_manager/app/collectors/mounts.py:314-349 | with both keywords given in such blocks only, the exported directory of every user is that of the command and the directory that apply |
| `SshdMatch.GlobalValueIsMissed` | cozy_network_manager/app/collectors/mounts.py:322-330 | a value given before the first `Match` line applies, but is not seen |
| `SshdMatch.GlobalDirectoryIsMissed` | cozy_network_manager/app/collectors/mounts.py:322-330 | a run of the scanner that misses a global `ChrootDirectory` |
| `DeviceNodes.SuffixesTaken` | cozy_network_manager/app/services/devices.py:326-330 | pigeonhole: no more suffixes can be taken than there are names |
| `DeviceNodes.ChooseName` | cozy_network_manager/app/services/devices.py:323-330 | the loop finds the specified name after at most one more try than there are names |
| `DeviceNodes.FreeSuffix` | cozy_network_manager/app/services/devices.py:326-330 | the suffix is the smallest free one |
| `DeviceNodes.FirstCandidate` | cozy_network_manager/app/services/devices.py:323-330 | the name given is the first that is free among the name of the device, its address, and its address with `-2`, `-3` and so on |
| `DeviceNodes.FirstDeviceNamesTheNode` | cozy_network_manager/app/services/devices.py:320-334 | the first device with an address that has no node gets one of that address, under its first candidate that is no node name by then |
| `DeviceNodes.EnsureDeviceNodes` | cozy_network_manager/app/services/devices.py:312-334 | the loops leave the specified node table |
| `DeviceNodes.NewIpsAreNew` | cozy_network_manager/app/services/devices.py:320-333 | the new addresses are exactly the device addresses that had no node, each once |
| `DeviceNodes.EnsuredAddsOnePerAddress` | cozy_network_manager/app/services/devices.py:312-334 | existing nodes stay as they are and exactly one is added per new address |
| `DeviceNodes.EnsuredNamesAreDistinct` | cozy_network_manager/app/services/devices.py:312-334 | distinct names stay distinct |
| `DeviceNodes.SecondRunAddsNothing` | cozy_network_manager/app/services/devices.py:312-334 | a second run adds nothing |
| `MountPaths.TargetIsBelowChroot` | cozy_network_manager/app/services/mounts.py:39-43 | the components of the target are those of the normalised chroot followed by those of the remote path normalised by itself: `..` never climbs above the chroot |
| `MountPaths.NormPathComponents` | cozy_network_manager/app/services/mounts.py:42-43 | a normalised path has the normalised components |
| `MountPaths.CoversExactly` | cozy_network_manager/app/services/mounts.py:64-70 | a mapping covers a path if and only if neither side is empty, both paths are absolute or both relative, and its components are a prefix |
| `MountPaths.DirectoryTranslates` | cozy_network_manager/app/services/mounts.py:74-76 | the directory of a mapping is translated to its Windows directory |
| `MountPaths.TranslationSplits` | cozy_network_manager/app/services/mounts.py:74-78 | a path below it is translated to the Windows directory, a backslash unless that ends in a separator, and text that splits at backslashes into the rest of the path |
| `MountPaths.LongestMapping` | cozy_network_manager/app/services/mounts.py:62-73 | the first of the mappings that cover most of the target |
| `MountPaths.WindowsDirectory` | cozy_network_manager/app/services/mounts.py:58-78 | none if no mapping covers the target, else its translation by the longest |
| `MountPaths.OrderDoesNotMatter` | cozy_network_manager/app/services/mounts.py:58-78 | with distinct Linux paths the result does not depend on the order of the mappings |

## Left out

- nginx reader: a directive tree is a value, so the reassignment of a directive's children in place is modelled by building a new directive; sharing of directive objects is not captured.
- nginx reader: `_read_file` repeats the loop of `_expand_children`; the model uses one method for both.
- nginx reader: `_actual_path` normalises a path that is normal already; by `NormalizeIsIdempotent` this has no effect.
- nginx reader: text decoding and newline translation on reading; `glob` is a fixed function from a pattern to sorted paths, and the filter for matches outside the host root is part of it.
- nginx reader: paths with exactly two leading slashes, and Python's recursion limit.
- HostDisk.ViewIsLookup: a path may have a fixed number of components, in place of the limit on its characters; permissions of directories are not modelled.
- HostDisk.HopIsWalk: the program normalises the path of a target by its text; where a target goes through a further link, or climbs out of the mounted host, the operating system may lead elsewhere.
- NginxConfinement.ReadsOnlyBelowRoot: the condition is not necessary; a linked directory may lead back below `/etc/nginx`.
- nginx reader: `_walk_blocks`, listeners and interface merging, which would add only easy members.
- VirtualPaths.FollowFinds: says nothing of a file system that changes while links are followed.
- Bridge manager: YAML loading and dumping are inverse on documents; a file is what it loads as and a layout the loader ignores. Names and keys are strings, keys are distinct, and the place of `services` among the other top-level entries is not kept.
- Bridge manager: `str` of a list or mapping is a placeholder that is no host, port or port mapping.
- Bridge manager: Docker, Compose and file-system failures are chosen from outside, step by step; failures to read the compose file, leftover temporary files and the files `_ensure_paths` prepares are not modelled.
- Bridge manager: a definition's `container_name` and the texts of error messages; issues and errors are values.
- Bridge manager: the hash of a file stands for its content.
- Bridge manager: `project`, `service_action` and `restart_project`, which only read the files modelled here.
- BridgeManagement.BridgeManager.WriteDocument: the lock is not modelled; operations run one after the other, with edits by hand only in between.
- Text.ParseInt: digits outside ASCII, and Python's limit on the number of digits.
- Authentication store: scrypt and SHA-256 are injective and tokens never repeat; files that are corrupt or unreadable, removal of the file from outside the store, and `LoginThrottle`.
- sshd exports: the words of each line are given, so `shlex` and the include reading of `_SshConfigReader` are left out; exports are a map from user to directory, not a list sorted by user, and warnings are not modelled.
- SshdChroot.ChrootAsSpecified: a directory is given as components, so two leading slashes are not told from one.
- SshdMatch.AppliedExactly: the value of a line is its words joined, as the program takes it; for `ChrootDirectory` sshd reads a single word.
- sshd exports: a leading tilde in a `ChrootDirectory`, of which sshd_config(5) says nothing.
- Device nodes: the database is a list of nodes; `store_device_statuses`, which rewrites device rows before it calls `ensure_device_nodes`.
- Mount directories: `_unique_aliases`, `correlate_sshfs_mounts` and `_target_export`.
- HTTP routes, templates, sessions of the database, polling, DNS mapping, WireGuard parsing and deployment.
