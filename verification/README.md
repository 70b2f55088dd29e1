# Verified models of Orca's protocols, printers and scanners

A Dafny model of the self-contained algorithms of the Orca repository, with proofs about
them. `dafny verify dfyconfig.toml` checks the whole project.

Code that works step by step is written as methods and classes, each proved against a
specification function; what the source promises is then proved about that function, for
every input, every run or every reachable state. Where several processes, sockets or timers
interleave, the specification is a transition system (`Apply`, `Feasible`, `After`) and the
class methods are proved to take exactly its steps.

| file | what it models |
|---|---|
| `KeyFileLock.dfy` | the race of several mock servers for one key file and its lock |
| `WindowsCommandLine.dfy` | printing a Windows command line, and the Microsoft C runtime's rules that read it back |
| `ShellWords.dfy` | two POSIX command printers and the parser of recovery commands |
| `OptionKeyScanner.dfy` | two source-text scanners that find the option keys of a call |
| `OptionKeyGrammar.dfy` | the texts those scanners read, written out: comments, strings, templates, brackets |
| `AccessibilityTree.dfy` | the accessibility tree renderer and the way back from a record to its node |
| `TabCompaction.dfy` | deletion of inactive browser tabs from rendered lines and records |
| `DescendantSearch.dfy` | the bounded stack search through a tree or graph |
| `TerminalStreams.dfy` | cancel-on-resubscribe streams with delayed, guarded delivery |
| `ResetCreditLedger.dfy` | the idempotent ledger of reset credits |
| `EntryGuard.dfy` | reachability by worklist, and the guard built on it |
| `SmokeRun.dfy` | the promise that settles once among timers and process events |
| `CommandArguments.dfy` | command-line parsing, and the search for the command it must agree with |
| `CodexClassification.dfy` | shell words, launch prefixes and subcommands of Codex commands |
| `CodexGrammar.dfy` | what decides about a Codex command, said of the words as written |
| `CyclicChecksum.dfy` | a closed-form checksum against the loop it predicts |

Results that say where the code falls short of what it is for:

- `KeyFileLock`: a key file that is there but cannot be read while the lock is held is
  replaced, and then two processes return different keys (`OverlookedKeyBreaksAgreement`).
  Agreement is proved for every run in which that one read is true, and
  `ReadUnderLockDecides` says that this read alone decides whether the file is safe.
- `OptionKeyScanner`: the header of call-site-option-keys.ts says that what cannot be read is
  reported; quoted keys are dropped without a word. `MissesKeysSilently` says exactly when a
  key is missed, and the model follows the code.
- `DescendantSearch`: on an object reached over two paths the depth limit can hide a match
  that is near enough (`SharedNodeHidesMatch`). `DecidesExactlyWhenCovering` and
  `OnlyTheDepthLimitHides` say exactly when that can happen.
- `SmokeRun`: when the deadline's SIGTERM is refused, the promise resolves before the kill
  timer is set, and SIGKILL can be sent afterwards (`RefusedDeadlineKillsAfterwards`);
  `KillsAfterwardsExactly` says that there is no other way.
- `CodexClassification`: only the first 32 words are looked at, so with 16 settings in front
  of it `codex exec` is taken for interactive (`LimitChangesVerdict`).
  `VerdictIgnoresPrefixAndFlags` says exactly when the limit changes a verdict.
- `CommandArguments`: the parser's comment says that a flag in front of the command must not
  take a command path. One that is followed by two commands takes the first
  (`FlagTakesCommand`); `FlagTakesCommandExactly` says when.
- `ResetCreditLedger`: the answers "already being redeemed" and "noCredit" can never be given
  (`FreshConsumption`).

## Model

| member | source | states |
|---|---|---|
| KeyFileLock.MutualExclusionAlways | mobile/scripts/mock-server-key-pair.ts:53-133 | in every interleaving, crashes and failed renames or unlinks included, at most one process is between the exclusive create and the unlink, and the lock file exists while it is |
| KeyFileLock.ConsistentStep | mobile/scripts/mock-server-key-pair.ts:142-167 | one step of any process, with a true read if it is the read under the lock, keeps: whoever returned a key holds the file's key, whoever is minting sees no valid key; a valid key file is not replaced |
| KeyFileLock.ValidKeyIsPermanent | mobile/scripts/mock-server-key-pair.ts:91-167 | over every run in which no read under the lock overlooks a valid key, a valid key file keeps its content |
| KeyFileLock.Agreement | mobile/scripts/mock-server-key-pair.ts:53-167 | in every run in which no read under the lock overlooks a valid key, any two processes that return a key, at any moments, return the same key, which is the file's content from the first return on |
| KeyFileLock.AtMostOneKeyIsPersisted | mobile/scripts/mock-server-key-pair.ts:108-162 | at most one key is ever renamed into place in such a run, none if the file was valid |
| KeyFileLock.StuckLockIsHarmless | mobile/scripts/mock-server-key-pair.ts:71-88 | with a left-over lock nothing on disk changes again: nothing is minted, and whoever returns from then on returns the key in the file |
| KeyFileLock.LockIsReleased | mobile/scripts/mock-server-key-pair.ts:126-165 | if no holder crashes and no unlink fails, the lock exists only while someone holds it, so it is gone when all have stopped |
| KeyFileLock.WorkIsBounded | mobile/scripts/mock-server-key-pair.ts:53-106 | from any point of the protocol, the steps and exclusive creates a process can still make are bounded by its rank |
| KeyFileLock.WorkFromStart | mobile/scripts/mock-server-key-pair.ts:53-167 | no process makes more than 117 file operations or 51 exclusive creates, whatever the others do |
| KeyFileLock.BusyLockFails | mobile/scripts/mock-server-key-pair.ts:55-88 | a lock that stays busy with no key to read is tried exactly 51 times, in 104 operations, and then the process fails |
| KeyFileLock.EndsAsAnswered | mobile/scripts/mock-server-key-pair.ts:53-167 | every course of answers ends as the answers alone say: the first read that finds a key while the lock is out of reach decides; otherwise, once the lock is created, the key read under it or the minted one, if it is written, protected and renamed; failure in exactly the remaining cases |
| KeyFileLock.FailsExactly | mobile/scripts/mock-server-key-pair.ts:53-167 | a process fails if and only if a create is refused or the lock is busy at all 51 creates before any read finds a key, or under the lock no key is read and the mint, the write or the mode change fails or the renames end without success |
| KeyFileLock.CleansUp | mobile/scripts/mock-server-key-pair.ts:108-165 | whoever created the lock ends with the unlink, and whoever began to write the temporary file removes it right before, in success and failure alike |
| KeyFileLock.OverlookedKeyIsReplaced | mobile/scripts/mock-server-key-pair.ts:153-161 | wherever the read under the lock overlooks a valid key, the process can go on to replace that key by any other and return it, without any further read going wrong |
| KeyFileLock.ReadUnderLockDecides | mobile/scripts/mock-server-key-pair.ts:142-161 | in every consistent state a valid key file keeps its content in all that may follow exactly when the read under the lock returned its key |
| KeyFileLock.OverlookedKeyBreaksAgreement | mobile/scripts/mock-server-key-pair.ts:48-50 | a run from a fresh start in which two processes return different keys, because one 'unreadable' read was taken for no key |
| KeyFileLock.Process.AcquireKeyLock | mobile/scripts/mock-server-key-pair.ts:53-89 | the retry loop performs exactly the operations of the transition system from the first try on, and ends as it does |
| KeyFileLock.Process.RenameKeyFile | mobile/scripts/mock-server-key-pair.ts:91-106 | the rename loop performs exactly the operations of the transition system, up to the removal of the temporary file |
| KeyFileLock.Process.PersistKeyPair | mobile/scripts/mock-server-key-pair.ts:108-124 | writing, mode change, renames, and in any case the removal, then the unlink is next |
| KeyFileLock.Process.LoadOrCreate | mobile/scripts/mock-server-key-pair.ts:135-167 | for all answers of the file system the code performs exactly the operations and reaches exactly the end of the transition system |
| WindowsCommandLine.QuoteArgument | native/windows-cli-launcher/OrcaCliLauncher.cs:88-126 | the loop with its backslash count prints the quoted form that the round trip is about |
| WindowsCommandLine.BuildArguments | native/windows-cli-launcher/OrcaCliLauncher.cs:77-86 | the loop prints the script path and all arguments, quoted and separated by one space |
| WindowsCommandLine.WrittenAsItStands | native/windows-cli-launcher/OrcaCliLauncher.cs:88-98 | a value is written as it stands if and only if it is not empty and holds neither a double quote nor white space |
| WindowsCommandLine.ReadQuotedTail | native/windows-cli-launcher/OrcaCliLauncher.cs:101-125 | from the middle of any quoted value, with any backslashes pending, the C runtime reads back those backslashes and the rest of the value, and stops right behind it |
| WindowsCommandLine.ReadQuoted | native/windows-cli-launcher/OrcaCliLauncher.cs:88-126 | every NUL-free value, quoted or left bare, is read back as itself whatever follows |
| WindowsCommandLine.RoundTrip | native/windows-cli-launcher/OrcaCliLauncher.cs:77-126 | the C runtime's parsing of the printed line is the script path followed by the arguments if and only if none of them holds a NUL |
| WindowsCommandLine.ArgumentsAreNulFree | native/windows-cli-launcher/OrcaCliLauncher.cs:77-86 | no argument read from any command line holds a NUL, which is why the round trip needs the condition |
| ShellWords.ParseCommandLine | src/cli/orchestration-mutation-recovery.ts:107-158 | the loop computes the words of its recursive specification, none for an open quote or an empty line |
| ShellWords.ParserReadsEveryStyle | src/cli/orchestration-mutation-recovery.ts:107-158 | a line of any mixture of bare characters, escapes, backslashes that escape nothing, single and double quotes and gaps is read as the words it means |
| ShellWords.ParsesExactlyTheGrammar | src/cli/orchestration-mutation-recovery.ts:107-158 | a text parses to a list of words if and only if the list is not empty and the text is such a line that means it |
| ShellWords.ShellQuoteIsAWord | src/cli/orchestration-mutation-recovery.ts:194-199 | what shellQuote prints for any string is a word of that grammar which means the string |
| ShellWords.QuoteCliCommandArgumentIsAWord | src/cli/shell-command-quote.ts:1-9 | the same for the POSIX branch of quoteCliCommandArgument |
| ShellWords.PrintedAsItStands | src/cli/orchestration-mutation-recovery.ts:194-199 | each of the two printers leaves a string as it stands exactly when it is not empty and holds only letters, digits and the signs of its list |
| ShellWords.RenderRoundTrip | src/cli/orchestration-mutation-recovery.ts:107-168 | parsing a command rendered for a POSIX shell returns the same list of strings if and only if it is not empty |
| ShellWords.CliArgumentsRoundTrip | src/cli/shell-command-quote.ts:1-9 | the same for the other printer's words joined by spaces |
| OptionKeyScanner.BalancedArguments | config/scripts/call-site-option-keys.ts:49-102 | the loop returns what its specification, one character at a time, says |
| OptionKeyScanner.ClosingIndexIsFirst | config/scripts/call-site-option-keys.ts:49-102 | a closing position is found exactly when it is the first at which the depth counted in code is zero again, with no template hole and no lower depth before it |
| OptionKeyScanner.BalancedIsFirstClosing | config/scripts/call-site-option-keys.ts:45-102 | the text returned is the text up to that position, and none is returned exactly when there is no such position |
| OptionKeyScanner.VerdictsExactly | config/scripts/call-site-option-keys.ts:186-204 | for every text: reported as never closing exactly when there is no first closing position, as without argument when only blanks stand there, as no object literal when what is between the blanks does not start and end with braces, and otherwise judged by its keys |
| OptionKeyScanner.CollectObjectLiteralKeys | config/scripts/call-site-option-keys.ts:105-179 | the second loop collects the keys its specification says |
| OptionKeyScanner.KeysOverClosed | config/scripts/call-site-option-keys.ts:118-174 | over lexically closed text the key scanner only adds the code of a key to its token, whatever strings, comments and brackets the text holds |
| OptionKeyScanner.ClosingOverClosed | config/scripts/call-site-option-keys.ts:52-100 | over the same text the bracket scanner returns to the depth it came from: the two lexers agree |
| OptionKeyScanner.ReadsExactlyTheNames | config/scripts/call-site-option-keys.ts:186-204 | for every one-object call the names of its properties are read in order, and the call is readable exactly when all of them are identifiers |
| OptionKeyScanner.ExactKeyRecovery | config/scripts/call-site-option-keys.ts:186-204 | for identifier keys, shorthand or with lexically closed values, exactly those keys come back in order |
| OptionKeyScanner.MissesKeysSilently | config/scripts/call-site-option-keys.ts:5-9 | a call is reported readable with fewer keys than its properties stand for exactly when some property that is more than blanks and comments has no code in it and every name there is is an identifier |
| OptionKeyScanner.TrailingCommaMissesNothing | config/scripts/call-site-option-keys.ts:141-149 | a trailing comma, with blanks behind it or none, stands for no key and changes nothing that is read |
| OptionKeyGrammar.SpelledIsClosed | config/scripts/call-site-option-keys.ts:26-43 | any sequence of plain characters, line and block comments, strings with any escapes, templates without a hole and bracketed texts of such pieces, written out, is lexically closed, and its code is what the pieces say: nothing of comments, strings and templates |
| OptionKeyGrammar.HoleNeverCloses | config/scripts/call-site-option-keys.ts:92-96 | a call that holds such pieces and then a template with a hole is reported as never closing, whatever follows |
| OptionKeyGrammar.ReadsSpelledKeys | config/scripts/call-site-option-keys.ts:186-204 | a one-object call written with identifier keys, blanks and comments around them and any such pieces for values is readable, with exactly those keys in order |
| OptionKeyGrammar.QuotedKeyHasNoName | config/scripts/call-site-option-keys.ts:121-127 | every key in single or double quotes, whatever escapes it holds, stands for a key and has no name, so the promise fails for it |
| AccessibilityTree.Renderer.Walk | native/computer-use-linux/runtime.py:402-439 | the walk appends the shown nodes in preorder as far as the node limit allows, keeps record i and line i numbered i, and reports truncation only at a limit and always when something is missing; unless the node limit is reached, the depth limit is reported exactly when the tree goes below it |
| AccessibilityTree.RenderAccessibilityTree | native/computer-use-linux/runtime.py:349-444 | records and lines of a whole window are those of the shown nodes, at most 1200, and complete if no truncation is reported; the same of the depth limit |
| AccessibilityTree.ShownExactly | native/computer-use-linux/runtime.py:397-439 | what an untruncated snapshot shows, said of the nodes' own fields: a path is that of a shown node if and only if it leads from the window to a node through no node that is summarised or a titled compact control, and that node has a role other than the four containers, a text, a meaningful action, a summary or two children |
| AccessibilityTree.RecordsAreInPreorder | native/computer-use-linux/runtime.py:402-439 | records are numbered from zero, in preorder of their paths, and no two share a path |
| AccessibilityTree.VisibleIndented | native/computer-use-linux/runtime.py:416-439 | the depth of every shown node is the number of shown nodes above it |
| AccessibilityTree.LinesAreIndentedByAncestors | native/computer-use-linux/runtime.py:434-439 | in the rendered and capped lines too: elided nodes do not indent |
| AccessibilityTree.FindByPath | native/computer-use-linux/runtime.py:730-736 | following a path child by child resolves it, or finds nothing |
| AccessibilityTree.VisibleResolves | native/computer-use-linux/runtime.py:402-439 | every path the walk gives a node leads back to that node, through elided nodes and skipped child indices |
| AccessibilityTree.RecordsNeverLeadAstray | native/computer-use-linux/runtime.py:753-770 | on an application that has changed since, a record finds a node exactly when its path now leads to one of the same role, name, identifier and actions as the node it was made from, and never another |
| AccessibilityTree.RecordsLeadBack | native/computer-use-linux/runtime.py:730-770 | on an unchanged application every record of a snapshot finds exactly the node it was made from |
| TabCompaction.CollectTabPositions | native/computer-use-linux/runtime.py:448-452 | the positions of the tab lines from the start line on, all of them and in order |
| TabCompaction.TabLineExactly | native/computer-use-linux/runtime.py:481-488 | a line is a tab line exactly when it is the tabs of its depth, digits, a blank and one of three names in any case, ended by the line, a blank, a bracket or a comma |
| TabCompaction.ActiveExactly | native/computer-use-linux/runtime.py:491-498 | on aligned records a tab line stays exactly when it says that it is selected anywhere, or its own record is selected or has a 1 between blanks for its value |
| TabCompaction.Rendering.CompactRenderedBrowserTabs | native/computer-use-linux/runtime.py:447-478 | deleting in place from the end leaves the lines before the first tab, one marker with the right count, and every line that is not an inactive tab; with fewer than ten tabs, none active or none inactive nothing changes |
| TabCompaction.MarkerSaysHowMany | native/computer-use-linux/runtime.py:474-478 | the marker stands where the first tab line stood, and the number in it is how many lines have gone |
| TabCompaction.CompactionRemovesTheirRecords | native/computer-use-linux/runtime.py:470-477 | on records with distinct indices, records are filtered exactly as the lines are |
| TabCompaction.CompactionIsFinal | native/computer-use-linux/runtime.py:447-478 | compacting a second time changes nothing |
| TabCompaction.RenderedIndexIsTheRecords | native/computer-use-linux/runtime.py:520-523 | the index read off a rendered tab line is its record's, whatever follows it |
| TabCompaction.RenderedIsAligned | native/computer-use-linux/runtime.py:440-441 | so everything the renderer produces meets the condition of the two lemmas above |
| DescendantSearch.FirstDescendant | native/computer-use-linux/runtime.py:589-609 | on any finitely branching graph, cyclic or not, the loop ends, refines its specification, and returns only a match within the depth limit |
| DescendantSearch.SearchIsDepthFirst | native/computer-use-linux/runtime.py:589-609 | on every graph the stack search finds the first match of the recursive depth-first walk that carries along what was seen and how many visits are left |
| DescendantSearch.DecidesExactlyWhenCovering | native/computer-use-linux/runtime.py:593-608 | on every graph and under all limits: the search finds something exactly when a match is at most max_depth steps away, for every predicate, if and only if the walk visits the root and all children of every visited node that is nearer than max_depth |
| DescendantSearch.OnlyTheDepthLimitHides | native/computer-use-linux/runtime.py:602-603 | while visits are left, that fails only at a node first met at the depth limit that is really nearer, with a child met nowhere |
| DescendantSearch.NothingIsCutOff | native/computer-use-linux/runtime.py:602-608 | while visits are left, no match on the whole graph is missed, for every predicate, if and only if the depth guard cuts off no child that is visited nowhere else |
| DescendantSearch.LargeLimitsSuffice | native/computer-use-linux/runtime.py:589-609 | with both limits as large as the number of nodes that can be reached, nothing is found if and only if no reachable node matches |
| DescendantSearch.SearchRefinesPreorder | native/computer-use-linux/runtime.py:589-609 | on a tree of distinct objects the search returns the first match among the first max_nodes nodes, in preorder, of depth at most max_depth |
| DescendantSearch.SharedNodeHidesMatch | native/computer-use-linux/runtime.py:596-603 | a graph in which a match within the depth limit is not found |
| TerminalStreams.InvariantAlways | mobile/scripts/mock-server-terminal-stream.ts:14-127 | every run keeps: running timers belong to registered streams, and what a stream sent and still has waiting is what it emitted |
| TerminalStreams.RunSafety | mobile/scripts/mock-server-terminal-stream.ts:9-133 | in every interleaving of subscriptions, ticks, deliveries and closes at most one interval is live per socket and terminal, and every stream sends a beginning of the scrollback and the chunks, in order and without repeats |
| TerminalStreams.CurrentStreamIsComplete | mobile/scripts/mock-server-terminal-stream.ts:95-112 | a stream still current when its timer has stopped and nothing of it waits has sent everything |
| TerminalStreams.SupersededStreamIsSilent | mobile/scripts/mock-server-rpc-handlers.ts:112-124 | once superseded, unsubscribed or closed, a stream is never current again and nothing of it is delivered, whatever still waits |
| TerminalStreams.EndTakesEffect | mobile/scripts/mock-server-terminal-stream.ts:14-33 | in every reachable state: after an unsubscription no stream of its socket and terminal is current or ticking, after a subscription none but the new one, and after a close no stream of the socket is current |
| TerminalStreams.EndedStreamIsSilent | mobile/scripts/mock-server-terminal-stream.ts:14-127 | over every run: once an event has ended a stream - an unsubscription, a later subscription of the same key, a close - nothing of it is sent in any continuation, and but for a close its timer is off for good |
| TerminalStreams.TimersEnd | mobile/scripts/mock-server-terminal-stream.ts:95-112 | every stream ticks at most once more than there are chunks, in any run |
| TerminalStreams.MockHost.BeginTerminalStream | mobile/scripts/mock-server-terminal-stream.ts:23-33 | clears the stream of the same socket and terminal and registers a new one |
| TerminalStreams.MockHost.HandleSubscribe | mobile/scripts/mock-server-terminal-stream.ts:70-114 | the whole new state after a subscription |
| TerminalStreams.MockHost.OnInterval | mobile/scripts/mock-server-terminal-stream.ts:96-112 | the whole new state after a tick |
| TerminalStreams.MockHost.RespondGuarded | mobile/scripts/mock-server-rpc-handlers.ts:112-124 | a response waits or is sent at once, and is sent only while its stream is current |
| ResetCreditLedger.AccountState.ConsumeMockCodexResetCredit | mobile/scripts/mock-server-account-state.ts:139-193 | the answer and the whole new state of the ledger |
| ResetCreditLedger.OfferIsUnspent | mobile/scripts/mock-server-account-state.ts:130-137 | in every reachable state the offer made is the active account's, that account has its credit, and no recorded operation has redeemed the offer |
| ResetCreditLedger.RedeemedOfferIsNotRepeated | mobile/scripts/mock-server-account-state.ts:168-191 | an offer once redeemed is never made again, through any account switches and requests, until the fixture is reset |
| ResetCreditLedger.ResetRepeatsOffer | mobile/scripts/mock-server-account-state.ts:53-63 | a fixture reset at the same moment does make a redeemed offer again |
| ResetCreditLedger.ExactlyOnce | mobile/scripts/mock-server-account-state.ts:53-193 | in every reachable state operations and offer owners are inverse maps, and an account's resets plus its remaining credits are its one initial credit |
| ResetCreditLedger.FreshConsumption | mobile/scripts/mock-server-account-state.ts:168-192 | in every reachable state a request changes something exactly when its key is a new UUID and its scope the current offer; then it resets the account and spends the offer; two of the provided answers are never given |
| ResetCreditLedger.AnswersExactly | mobile/scripts/mock-server-account-state.ts:139-193 | in every reachable state the answer to every request and the state it leaves, case by case |
| ResetCreditLedger.SwitchingLosesNothing | mobile/scripts/mock-server-account-state.ts:78-86 | after any account switches, going back to an account makes the offer again that was made before, and nothing else has changed |
| ResetCreditLedger.OperationsArePermanent | mobile/scripts/mock-server-account-state.ts:157-166 | a recorded operation is never changed until the fixture is reset |
| ResetCreditLedger.ReplayIsIdempotent | mobile/scripts/mock-server-account-state.ts:157-167 | a replay with the same scope, after any account switches and other requests, returns the recorded outcome and changes nothing; with another scope it is refused |
| EntryGuard.CollectReachableChunks | config/build-plugins/plain-node-entry-guard.ts:75-98 | on any import graph, cyclic or with unknown targets, the worklist ends with exactly the known chunks reachable from the entry, each once |
| EntryGuard.ReachableIsClosed | config/build-plugins/plain-node-entry-guard.ts:88-95 | whatever is reachable lies in every set that holds the entry and follows known imports |
| EntryGuard.AssertNoElectronRequire | config/build-plugins/plain-node-entry-guard.ts:100-116 | the guard throws if and only if some reachable chunk requires electron, and names such a chunk |
| SmokeRun.RunAgrees | config/build-plugins/plain-node-entry-guard.ts:145-184 | after every order of events, refused signals included, the handlers' state is what the events alone call for |
| SmokeRun.SettlesOnce | config/build-plugins/plain-node-entry-guard.ts:159-183 | the outside sees SIGTERM once if the deadline fired, SIGKILL at most once and only after it, and one resolution, with the result of the first event that finishes the run; the resolution comes last unless it was brought about by the refusal of SIGTERM |
| SmokeRun.ExitSettles | config/build-plugins/plain-node-entry-guard.ts:180-182 | in every reachable state an exit's drain can fire until the run is settled, and settles it with that exit, even if the pipes never close |
| SmokeRun.KillsAfterwardsExactly | config/build-plugins/plain-node-entry-guard.ts:159-174 | a kill follows the resolution if and only if SIGTERM was refused and the kill timer fires all the same |
| SmokeRun.RefusedDeadlineKillsAfterwards | config/build-plugins/plain-node-entry-guard.ts:161-162 | a run in which that happens: the kill timer is set after the refusal has settled the run |
| SmokeRun.TimedOutMeansDeadline | config/build-plugins/plain-node-entry-guard.ts:165-174 | the deadline never fires after the resolution, and the kill timer only if SIGTERM was refused, so the result says timedOut exactly when the deadline fired |
| SmokeRun.Run.Finish | config/build-plugins/plain-node-entry-guard.ts:165-174 | only the first call settles, disarms the timers and resolves |
| CommandArguments.ParseArgs | src/cli/args.ts:36-79 | the loop computes its recursive specification for every command index |
| CommandArguments.SetFlagMeans | src/cli/args.ts:27-34 | read back, a repeatable flag has gained the nonempty parts of the value behind those it had, any other flag holds just the value, and no other flag has changed |
| CommandArguments.ParseRoundTrip | src/cli/args.ts:36-79 | words and flags written in any order and style are parsed back: the path is the words in order, and every flag holds what its values say |
| CommandArguments.ReadingIsUnique | src/cli/args.ts:41-76 | a command line has no second reading as words and flags |
| CommandArguments.EveryLineIsParsedAsRead | src/cli/args.ts:36-79 | every command line whatever has such a reading, and is parsed as it says |
| CommandArguments.OrdinaryFlagHoldsLast | src/cli/args.ts:36-79 | on every command line an ordinary flag holds the last value it is given there, and nothing if it is not given |
| CommandArguments.RepeatableHoldsAll | src/cli/args.ts:28-32 | a repeatable flag holds all its values joined by NULs |
| CommandArguments.RepeatedValuesRoundTrip | src/cli/flags.ts:52-60 | getRepeatedStringFlag returns the nonempty values in order if and only if none holds a NUL |
| CommandArguments.RepeatedFlagRoundTrip | src/cli/flags.ts:24-60 | from the command line on: a repeatable flag given the values in any style yields the nonempty ones in order, values that start with dashes or hold an equals sign included, if and only if none holds a NUL |
| CommandArguments.CommandPathStartsAt | src/shared/cli-argument-boundary.ts:48-66 | the two loops compute whether a command path stands at a position, flags between its words skipped |
| CommandArguments.PathStartsExactly | src/shared/cli-argument-boundary.ts:48-66 | where words stand with any complete flags in front of each, a command path is found if and only if the words begin with it |
| CommandArguments.FindCliCommandIndex | src/shared/cli-argument-boundary.ts:68-96 | the loop computes the position its specification says |
| CommandArguments.WalksAgree | src/shared/cli-argument-boundary.ts:76-95 | from any position before the first word a flag takes the next token in the search exactly when it does in the parser, so both come to the same first word |
| CommandArguments.CommandIsNotSwallowed | src/cli/args.ts:63-67 | the token the search finds is never a flag's value: the path starts with exactly that token, and one is found exactly when the first word of the path starts a command |
| CommandArguments.FlagTakesCommandExactly | src/shared/cli-argument-boundary.ts:82-93 | a flag that may take a value, with a word right behind it that starts a command, takes that word if and only if the flag is known to take values or a command starts behind the word as well |
| CommandArguments.FlagTakesCommand | src/cli/args.ts:63-67 | such a line: in `--x s s`, where `s` is a command, the flag takes the first `s` |
| CodexClassification.TokenizeLeadingShellWords | src/cli/codex-command-classification.ts:86-122 | bounded tokenising gives the first words of unbounded tokenising, for every limit of at least one |
| CodexClassification.WordsExactly | src/cli/codex-command-classification.ts:86-122 | for every text and list of words: the words of the text are that list if and only if the text is a line of bare characters, quoted runs, blanks and perhaps a last run left open that means it |
| CodexClassification.SpelledWordsAreRead | src/cli/codex-command-classification.ts:86-122 | nonempty words, each spelled in any mixture of bare characters and single and double quoted runs, with any blanks around, are read back as exactly those words |
| CodexClassification.StripShellLaunchPrefix | src/cli/codex-command-classification.ts:141-170 | the loops strip what their recursive specification strips |
| CodexClassification.StripLeavesCommand | src/cli/codex-command-classification.ts:141-170 | any assignments, and an env launcher with any options, are stripped, and a command that starts with neither a dash nor an assignment is left as it was |
| CodexGrammar.AssignmentExactly | src/cli/codex-command-classification.ts:137-139 | a token is an assignment exactly when it is a name of letters, digits and underscores that starts with no digit, an equals sign and any value |
| CodexGrammar.ExecutableExactly | src/cli/codex-command-classification.ts:124-131 | an executable is Codex exactly when its file name, in whatever directory and case, is one of three |
| CodexGrammar.EnvExactly | src/cli/codex-command-classification.ts:124-127 | and is the env launcher exactly when its file name, in any case, is env |
| CodexClassification.FindCodexSubcommand | src/cli/codex-command-classification.ts:190-218 | the loop finds what its specification finds, from any start |
| CodexClassification.FlagsOnlyShift | src/cli/codex-command-classification.ts:190-218 | complete known flags other than help and version in front of a subcommand only move where it is found |
| CodexGrammar.CompleteExactly | src/cli/codex-command-classification.ts:190-218 | a flag is complete exactly when it is spelled as a known name with its value behind it or behind an equals sign, or as a known switch |
| CodexGrammar.Split | src/cli/codex-command-classification.ts:190-218 | every list of words is complete flags and then words that start with none |
| CodexGrammar.FindsLeadWord | src/cli/codex-command-classification.ts:190-218 | for every such split the search returns the word that leads the rest - a prompt behind two dashes, help, version, or the word itself - and where it stands |
| CodexClassification.ShouldUseRendererBackedCodexTerminal | src/cli/codex-command-classification.ts:271-286 | the verdict on a command text is the verdict on the first 32 words of the trimmed text |
| CodexGrammar.InteractiveExactly | src/cli/codex-command-classification.ts:220-286 | said of the words as written, for every launch of Codex: it needs an interactive terminal if and only if no word leads it behind its flags, or that word is login without a token flag, help or one of two words to lead it, cloud without help, version or one of six, or no word of the list, in any case of letters |
| CodexClassification.VerdictOnAllWords | src/cli/codex-command-classification.ts:220-286 | when all words are looked at, neither a launch prefix nor complete global flags change whether a Codex command needs an interactive terminal |
| CodexClassification.CutOffVerdict | src/cli/codex-command-classification.ts:276-285 | a longer line counts as no Codex command if its executable is cut off, as interactive if it is cut off among its flags, and otherwise as what is kept of the rest |
| CodexClassification.VerdictIgnoresPrefixAndFlags | src/cli/codex-command-classification.ts:271-286 | a prefix and complete flags change the verdict on a command text if and only if it has more than 32 words and they push out the executable of an interactive command, or the subcommand of another or the word behind it that decides |
| CodexClassification.LimitChangesVerdict | src/cli/codex-command-classification.ts:276-278 | `codex` with n times `-c x` and then `exec` is taken for interactive if and only if n is at least 16 |
| CyclicChecksum.Compute | config/scripts/native-chat-live-session-benchmark.ts:146-157 | the closed form equals the sum of the values taken in turn, for every list, empty or not, and every count |
| CyclicChecksum.WholeCycles | config/scripts/native-chat-live-session-benchmark.ts:150-155 | whole cycles and a rest of values taken in turn are a product and a partial sum |
| CyclicChecksum.SessionIsPredicted | config/scripts/native-chat-live-session-benchmark.ts:129-166 | for every session, one without messages included, the prediction is what the timed loop accumulates |
| CyclicChecksum.PendingIsPredicted | config/scripts/native-chat-live-session-benchmark.ts:141-170 | the same for the pending-queue operation |
| CyclicChecksum.SessionOperationIsPredicted | config/scripts/native-chat-live-session-benchmark.ts:129-166 | so the session operation is predicted however often it runs |
| CyclicChecksum.PendingOperationIsPredicted | config/scripts/native-chat-live-session-benchmark.ts:141-170 | and so is the pending-queue operation |
| CyclicChecksum.CombinedIsPredicted | config/scripts/native-chat-live-session-benchmark.ts:316-325 | two predicted operations added up are predicted by the sum of their predictions |
| CyclicChecksum.Benchmark.RunSample | config/scripts/native-chat-live-session-benchmark.ts:172-182 | one sample adds what the operation accumulates to one total and what is expected to the other |
| CyclicChecksum.SamplesBalance | config/scripts/native-chat-live-session-benchmark.ts:172-243 | any sequence of samples of predicted operations adds the same to both totals |
| CyclicChecksum.Benchmark.RunSamples | config/scripts/native-chat-live-session-benchmark.ts:223-243 | after the rounds of a case the totals are equal if and only if they were before |

## Left out

- Agreement: needs the read under the lock to be true to the file; a read elsewhere may fail at will. Without the condition it is false of the code, as OverlookedKeyBreaksAgreement shows.
- Key file contents: base64 decoding and key derivation are one read that gives a key or a reason; file modes, the temporary file's name, waiting times and the case without a key file are not modelled. Nobody but the protocol touches the lock or the key file.
- RoundTrip: the reading rules are those of the Microsoft C runtime for arguments after the program name, as documented under "Parsing C command-line arguments"; a program that splits its command line by other rules is not covered. Starting the process is not modelled.
- RenderRoundTrip: covers the POSIX branch; the cmd and PowerShell quoters are not part of this model, and the win32 branch of quoteCliCommandArgument does not double backslashes and cannot be undone.
- Characters: strings are sequences of Dafny characters, so unpaired surrogates, which JavaScript and C# strings may hold, do not occur; lower-casing is modelled as far as it can yield an ASCII letter.
- Option keys of calls with several arguments and regular expression literals: the scanner has no notion of either, so they are outside the texts the theorems print; the error texts are an enumeration.
- Renderer: text_snippets, is_plain_text_subtree, the set of noisy action names and the text of a line behind its index are function parameters, about which nothing is assumed; the lower-cased role is an attribute of its own; frames, class names and toolkit calls are omitted.
- Compaction inside the walk: modelled as a pass of its own over records with distinct indices. Run in the middle of a walk it shortens the records, after which later indices can repeat, so index uniqueness does not hold there.
- RenderedIndexIsTheRecords: assumes that the text behind the index does not start with a digit; the source puts a blank or nothing there.
- Terminal streams: stream objects are numbers and the weak map of maps is one map, so object identity and collection are not captured; equal delays are taken to run out in order; the unguarded answer to an unsubscription, terminal.list and terminal.send are omitted.
- Reset-credit scopes: the serialised scope is compared by equality only, accounts are an enumeration so that selecting an unknown one does not arise, and the usage record is a value in a map rather than a shared object; times are exact integers.
- Electron detection: the regular expression test on a chunk's code is an attribute of the chunk; the error messages are not modelled.
- Smoke run: delays are not measured, so every order of enabled events is allowed; a refused signal is one whose error the child reports while the kill is made. Signals the platform does not know, spawning and the judgement of the result are omitted.
- CommandIsNotSwallowed: says nothing of flags that stand between the words of a command, of which PathStartsExactly speaks; help paths, positional normalisation, suggestions and validation are omitted.
- Classification: the variant for Claude commands is omitted; an absent command is the empty text.
- Checksums: integers are exact, as JavaScript's are below 2^53; times, calibration and medians are omitted.
- Screens, sockets, encryption, release scripts, help texts and string tables would only add easy members.
