# Verified models of tix

tix is a task tracker with a command line, a server and a terminal interface. This project models the parts of it
that are algorithms or state machines in their own right, and proves what they promise. Source files are cited by
their path in the repository.

- **The clock under test control** (`clock.dfy`, `fake.dfy`). A clock holds one-shot waiters and periodic tickers; a
  move in time collects what is due and sends on one-place channels without blocking. `Clock.Apply` is the meaning of
  each operation and the class `Fake` is the mutable clock, with its waiters filtered into their own array. Times are
  integers, channels are numbered, and `log` records the sends that were not dropped.
- **The component bundle** (`bundle.dfy`, `record.dfy`, `encode.dfy`, `decode.dfy`, `roundtrip.dfy`). An encoder and a
  decoder, both classes, agree on header first, kind order and uniqueness. The text form of a record is a parameter
  with the laws of `Records.Lawful`, which `record_sample.dfy` shows can be met for every record
  (`RecordSample.PlainLawful`); the core package's validation rules are parameters.
- **Configuration edits** (`config_keys.dfy`, `config_values.dfy`, `config_tree.dfy`, `config_nested.dfy`,
  `config_file.dfy`, `config_edit.dfy`). A struct type gives dotted keys; a file is a nested tree of scalars, built as
  nested maps changed in place; an edit writes back what the file carried and what changed. Maps are iterated in any
  order, by a choice the proofs do not constrain. `config_sample.dfy` has a type that meets all that is assumed of one
  (`ConfigSample.SampleSound`) and a whole edit of it.
- **Second-factor attempts** (`totp.dfy`, `attempt.dfy`). Codes, the window around now, the high-water mark and the
  lock, with bounds over whole runs. HMAC is any function from a key and a message to twenty bytes, and
  the attempt machine runs on whatever code each step has. Times are nanoseconds since the Unix epoch (`times.dfy`).
- **The verification gate** (`gate.dfy`). Any number of callers interleave the atomic steps of `do`.
- **Signed texts and password hashes** (`signed.dfy`, `sshnonce.dfy`, `ticket.dfy`, `password.dfy`, over `text.dfy`,
  `decimal.dfy` and `base64.dfy`). HMAC is any function from a key and a message, here a label followed by the body, to
  thirty-two bytes; the random bytes and the present time are parameters. A byte is a character below 256.
- **The audit listing** (`admin.dfy`) and **route paths** (`transport.dfy`, `route.dfy`).

Where the code does less than a first reading suggests, the model follows the code and the exact condition is proved:

- A list of strings does not always survive an edit and a reload, because its text joins the items with commas and
  parsing it splits at every comma, trims the parts and drops the empty ones; and an edit that does not change the
  text is not saved at all. `ConfigEdit.EditReload` has the exact condition on the values, `ConfigEdit.EditReloadText`
  that on the texts, and `ConfigEdit.ListEditsLost` and `ConfigSample.WholeEdit` show lists that are lost. No edit in
  the repository changes a list: those of `cmd/ctx.go`, `cmd/tenant.go`, `cmd/tui.go` and `cmd/target.go` set contexts
  and scalars only, so this is a matter of `SaveChanges` as a library function.
- `insertKey` depends on the order of its calls when one path begins with another (`ConfigTree.InsertsCommute`); the
  paths of a configuration never do (`ConfigKeys.PathsPrefixFree`).
- The comment on the gate says callers beyond the queue are refused. A caller can also be refused while fewer than
  limit + queue callers are admitted, when earlier refusals have not yet taken their addition back
  (`Gate.RefusedIff`, `Gate.RefusedFromEmptyGate`).
- A fresh code is refused when an earlier step of the window at or below the mark happens to have the same six digits
  (`Attempts.AcceptsIff`, `Attempts.FreshCodeRefused`).
- A challenge or ticket whose fields hold the separator is signed without complaint and cannot be read back
  (`SshNonce.ParseMint` and `Ticket.ParseMint` have the condition, `SshNonce.SeparatorUnreadable` and
  `Ticket.SeparatorUnreadable` an input). The issue time of a challenge wraps from 2^63 microseconds on
  (`SshNonce.LateIssueWraps`), a time a clock could hold; the seconds of a ticket always fit.
- `docs/theming.md` tells users to define themes in the configuration file, and the comment on `TUI` in
  `internal/config/config.go` says the same of its `Keys`. Both fields are maps, so no key lies under them, and loading
  such a file fails on an unknown key (`ConfigEdit.LoadIff` says which files load, `ConfigEdit.ThemesRefused` that one
  with a theme does not).
- `routePath` fills one placeholder for each parameter of its name, so one that is there twice is left over
  (`Routes.RouteIsSubstitution` has the condition, `Routes.SecondLeft` an input). With names given twice the text alone
  decides only where slashes part the placeholders, as in every route (`Routes.ValuesCoincide`).

## Model

| member | source | states |
|---|---|---|
| Clock.RunInv | internal/clock/clock.go:84-167 | after any sequence of operations, backwards moves included, every waiter and every ticker of positive interval is strictly ahead of now, every channel belongs to one waiter or ticker, and no pending waiter has been sent to |
| Clock.ApplyInv | internal/clock/clock.go:84-184 | each single operation keeps that invariant |
| Clock.RunShows | internal/clock/clock.go:84-99 | after any run that ends in Set(t) the clock shows t, and after one that ends in Advance(d) what it showed before plus d |
| Clock.SetDelivers | internal/clock/clock.go:84-113 | Set(t) delivers a pending waiter once if and only if its time is at or before t, also when t is earlier than now, and keeps it pending otherwise |
| Clock.FiredThen | internal/clock/clock.go:128-136 | sending to two lists of channels in turn is sending to the one list, so the order of the sends is that of the lists |
| Clock.WaitersFirst | internal/clock/clock.go:102-125 | whatever stands in a sweep before the channel of a waiter is the channel of a waiter: waiters go before tickers |
| Clock.AdvanceComposes | internal/clock/clock.go:93-125 | advancing by a and then by b (b not negative) leaves the same now, waiters, ticker times and full channels as advancing by a + b, and delivers to the same channels as often |
| Clock.DueTwice | internal/clock/clock.go:102-125 | two moves in turn collect each channel exactly as often as the one move to the later time |
| Clock.AfterFiresOnce | internal/clock/clock.go:102-150 | whatever is done after After(d) with d > 0, its channel has received exactly one value once some move has reached its time and none before, so the send is never dropped or repeated, and it is pending exactly until then |
| Clock.AfterNowFires | internal/clock/clock.go:139-144 | After(d) with d <= 0 delivers at once and never again |
| Clock.TickerGrid | internal/clock/clock.go:115-123 | in every run the next time of a live ticker is the least point of its grid start + k * interval past every time the clock has shown since it was made |
| Clock.TickerEntries | internal/clock/clock.go:115-123 | a move collects a live ticker exactly once for each grid point past every earlier time and at or before the new one |
| Clock.StoppedWell | internal/clock/clock.go:170-183 | stopping removes exactly the entry of that ticker, keeping the others, whatever place it held |
| FakeClock.FakeTicker.CatchUp | internal/clock/clock.go:119-122 | the catch-up loop collects the channel once per step and stops past now |
| FakeClock.Fake.CollectWaiters | internal/clock/clock.go:105-113 | the filter into its own backing array equals the pure filter, in order, and collects exactly the rest |
| FakeClock.Fake.CollectTickers | internal/clock/clock.go:115-123 | the loop over the tickers catches each of them up in place and collects their entries in order |
| FakeClock.Fake.CollectDue | internal/clock/clock.go:102-125 | one sweep brings waiters and tickers up to now and returns everything due |
| FakeClock.Fake.Fire | internal/clock/clock.go:128-136 | each due channel is sent to once without blocking, and a full one drops the value |
| FakeClock.Fake.constructor | internal/clock/clock.go:66 | a new clock shows the given time and holds nothing |
| FakeClock.Fake.Set | internal/clock/clock.go:84-90 | the clock shows exactly the time given, an earlier one too; the object does what the operation Set means and keeps the invariant |
| FakeClock.Fake.Advance | internal/clock/clock.go:93-99 | the clock shows its former time plus the duration; the object does what the operation Advance means and keeps the invariant |
| FakeClock.Fake.After | internal/clock/clock.go:139-150 | the object does what After means, whether or not the waiters had to move to a larger array |
| FakeClock.Fake.NewTicker | internal/clock/clock.go:160-167 | the object registers a fresh ticker first due one interval from now |
| FakeClock.Fake.DropTicker | internal/clock/clock.go:170-184 | dropping a ticker by identity, with the last one moved into its place, is the operation Stop; a second Stop changes nothing |
| Bundle.Sort | internal/bundle/bundle.go:254-263 | the slice is left as the stable arrangement of what it held |
| Bundle.ArrangedSorts | internal/bundle/bundle.go:252-263 | the arrangement is in order by kind and key and has the same components with the same multiplicity |
| Bundle.ArrangedIsStable | internal/bundle/bundle.go:255 | components that neither precede nor follow one another keep the order they stood in |
| Bundle.SortCanonical | internal/bundle/bundle.go:252-263 | two listings of the same valid components with distinct kind and key sort to the same sequence |
| Bundle.IdIff | internal/bundle/encode.go:70-71 | the zero-joined texts two components are remembered by are equal exactly when kind and key are |
| Bundle.OrderIs | internal/core/service.go:537-540 | the order of a kind is its place in the list workflow, field, tag, project, webhook; any other kind is unknown |
| Bundle.ValidIff | internal/bundle/bundle.go:133-198 | which workflows, fields, tags and webhooks are valid: the payload is there, its key is not blank and the core rule of its kind holds |
| Bundle.ValidProjectIff | internal/bundle/bundle.go:154-227 | which project templates are valid: key, colour and icon, the workflow when there is one, every field, and every tag named |
| Bundle.SortedIs | internal/bundle/bundle.go:252-263 | in a sorted listing an earlier component has a lesser kind, or the same kind and a key that is not later in dictionary order |
| Encoding.Encoder.Header | internal/bundle/encode.go:30-47 | after an error or a first header the call is refused; otherwise the line of a header with this name and time, the program version, format version 1 and no tenant is written |
| Encoding.Encoder.Component | internal/bundle/encode.go:52-78 | the four refusals in order, and otherwise the line of exactly this component |
| Encoding.Encoder.Write | internal/bundle/encode.go:84-89 | one record is one line; a writer that fails may take a part of it, and the error is kept |
| Encoding.ArrangementMore | internal/bundle/encode.go:60-76 | the order, validity and seen checks accept a component exactly when it can follow the accepted ones in a valid, ordered, duplicate-free sequence |
| Encoding.RunInv | internal/bundle/encode.go:30-89 | over every sequence of calls and every writer, the output is exactly the text of the accepted header and components, followed after a failed write by a part of the record of the call that failed, which fits behind what was accepted |
| Encoding.AcceptedAre | internal/bundle/encode.go:30-78 | over every sequence of calls and every writer the accepted header is that of the first call, with its name and time, the program version of the encoder, format version 1 and no tenant; the accepted components are those of the calls after it in order, and all of them when there was no error |
| Encoding.Sticky | internal/bundle/encode.go:31-33 | after the first error nothing changes any more: neither the error nor the output |
| Decoding.Decoder.ReadLine | internal/bundle/decode.go:146-156 | the next line with its line feed, a final line without one included, and the line count |
| Decoding.Decoder.Parse | internal/bundle/decode.go:93-116 | one line is parsed or refused as the decoder machine means |
| Decoding.Decoder.ParseComponent | internal/bundle/decode.go:119-142 | a component record is accepted or refused by header, payload, validity, order and uniqueness, in that order |
| Decoding.Decoder.NextLine | internal/bundle/decode.go:60-68 | the loop reads on past blank lines to the line that answers, or to the end |
| Decoding.Decoder.Next | internal/bundle/decode.go:59-70 | the next record, the end or a refusal is the one the lines determine |
| Decoding.Decoder.Header | internal/bundle/decode.go:35-56 | the opening record must be a header of the supported version |
| Decoding.Read | internal/bundle/decode.go:74-91 | the whole read answers what the lines determine, and the component of every later record is there |
| Decoding.ReadExact | internal/bundle/decode.go:35-156 | reading gives h and cs if and only if the non-blank lines are one header h of the supported version followed by exactly the valid, ordered, distinct components cs |
| Decoding.ReasonIs | internal/bundle/decode.go:93-142 | why a line is refused, for every record it can hold, and that a refused line leaves the place alone but for its number |
| Decoding.OpeningReasonIs | internal/bundle/decode.go:35-56 | why an opening is refused: nothing in it, a record that is no header, or another version |
| Decoding.LineNumber | internal/bundle/decode.go:60-68 | the line counted is that of the first line that is not blank, blank ones before it included |
| Records.LinesAre | internal/bundle/decode.go:146-156 | the lines put together are the document, and each but the last ends in its only line feed |
| RoundTrip.ReadOfWritten | internal/bundle/decode.go:74-91 | for every sequence of encoder calls over a writer that never fails, reading the output gives exactly the accepted header, which has the name and time of the first call, and components in order; the output is empty when no header was accepted |
| RoundTrip.TruncationRefused | internal/bundle/decode.go:144-156 | a document that breaks off inside a record is refused, whatever comes before |
| RoundTrip.TornOutputReads | internal/bundle/encode.go:84-89 | over a writer that fails at any point, the output reads as exactly what was accepted; or, when the writer took all but the line feed of the record of the call that failed, as that and this record; and otherwise it is refused |
| RoundTrip.TakesAll | internal/bundle/encode.go:52-78 | the encoder takes every component of a valid, ordered, duplicate-free sequence |
| RoundTrip.CanonicalDocument | internal/bundle/bundle.go:252-263 | the same valid, distinct components in any order sort to a sequence the encoder takes whole and give the same document |
| ConfigKeys.WalkType | internal/config/keys.go:90-114 | the walk lists, in field order, one key per named scalar field at any depth |
| ConfigKeys.WalkedKeys | internal/config/keys.go:90-114 | every key walked leads by its index to a scalar of its kind, and its path is the dotted field names on the way |
| ConfigKeys.KeysExact | internal/config/keys.go:90-114 | an index leads to a scalar of a kind if and only if the key of that kind whose path is the dotted field names on the way is walked; no two keys have one index; and they stand in field order |
| ConfigKeys.PathsPrefixFree | internal/config/keys.go:90-114 | no path walked is, or lies under, another, different keys name different fields, and a path determines its key |
| ConfigValues.SplitList | internal/config/keys.go:220-228 | the list parse is the trimmed, non-empty parts between commas |
| ConfigValues.KeptTwo | internal/config/keys.go:220-228 | the list parse of two runs of parts is that of the first and then of the second, so no part affects another |
| ConfigValues.KeptOne | internal/config/keys.go:220-228 | a part of white space is dropped and any other is trimmed |
| ConfigValues.PaddedParses | internal/config/keys.go:191-218 | white space around a truth value or a number does not matter to Set |
| ConfigValues.SetAfterGet | internal/config/keys.go:168-218 | rendering a value, parsing it and rendering again gives the same text, for a list exactly when its text is settled; every other kind gives back the very value |
| ConfigValues.ListRoundTrip | internal/config/keys.go:180-185 | a list renders and parses back to itself exactly when every item is non-empty, trimmed and free of commas |
| ConfigValues.ValueRoundTrip | internal/config/keys.go:168-218 | the text of a value parses to that very value if and only if it is no list with an item that is empty, untrimmed or holds a comma |
| ConfigValues.ListTextRoundTrip | internal/config/keys.go:220-228 | a text is unchanged by a list parse and a rendering exactly when it is empty or all its parts are non-empty and trimmed |
| ConfigTree.InsertAt | internal/config/file.go:183-194 | an insertion is found at its own path, hides what its path crosses, and leaves every other path |
| ConfigTree.InsertsCommute | internal/config/file.go:183-194 | two insertions give the same tree in either order if and only if neither path begins with the other |
| ConfigTree.OneTree | internal/config/file.go:169-172 | a prefix-free flat map has one tree, so the order the map is iterated in does not matter |
| ConfigNested.NestedMap.InsertKey | internal/config/file.go:183-194 | the insertion into nested maps, in place, is the insertion into the tree they stand for; the maps stay apart from one another, and only this map and those below it change |
| ConfigNested.NestedMap.Put | internal/config/file.go:173-178 | a scalar or the contexts placed under a name in place changes the tree there alone |
| ConfigNested.NestedMap.Document | internal/config/file.go:179 | walking the nested maps in any order writes exactly the tree they stand for |
| ConfigNested.BuildTree | internal/config/file.go:169-172 | inserting the keys of a prefix-free map in place, in any order, gives nested maps that stand for the map |
| ConfigFile.Collector.FlattenTree | internal/config/file.go:94-118 | the recursive flattening into the collected values in name order, with its first unknown key as the error |
| ConfigFile.FlattenUndoes | internal/config/file.go:94-118 | flattening the tree of a flat map of known keys gives back exactly that map if and only if no key begins with a dot |
| ConfigFile.NodeFlattens | internal/config/file.go:94-118 | flattening a tree succeeds if and only if it holds no contexts and the dotted path of every scalar is a known key, and then it adds exactly those keys |
| ConfigFile.NodeRefused | internal/config/file.go:94-118 | when flattening fails it names the key of the first path, in the order of names at each level, that is an unknown scalar or contexts |
| ConfigFile.NodeHolds | internal/config/file.go:94-118 | every value collected is the text of a scalar with that dotted path |
| ConfigEdit.LoadIff | internal/config/file.go:54-78 | a file loads if and only if contexts stand at the top or nowhere and the dotted path of every other scalar is a known key |
| ConfigEdit.LoadKeys | internal/config/file.go:54-78 | a file that loads carries exactly the dotted paths of its scalars |
| ConfigEdit.LoadFault | internal/config/file.go:54-118 | a file that does not load is refused for its contexts, or for the first path in the order of names that it cannot read |
| ConfigEdit.ReadHolds | cmd/ctx.go:227-248 | in a configuration read from a file each key holds what a scalar of its path in the file parses to when there is one, and otherwise its default, but for the current context, which is then empty; the contexts are those of the file |
| ConfigEdit.ThemesRefused | internal/config/file.go:111-114 | a file that defines a theme is refused, because themes is a field of the configuration and no key |
| ConfigEdit.LoadFile | internal/config/file.go:54-78 | contexts are taken out first, the rest is flattened, and the current context is read from the values |
| ConfigEdit.Cell.Set | internal/config/keys.go:191-218 | Set stores the parsed value under its key alone, and text that does not parse changes nothing |
| ConfigEdit.Resolve | cmd/ctx.go:236-247 | setting the values in any order gives the defaults overlaid by every value, and fails exactly when some value does not parse |
| ConfigEdit.ReadConfigFile | cmd/ctx.go:227-248 | a missing file gives the defaults, a readable one its document and the configuration it resolves to; it fails exactly when the file does not load or a value does not parse |
| ConfigEdit.ChangedValues | internal/config/file.go:155-166 | the carried values with exactly the differing keys written over them |
| ConfigEdit.SaveChanges | internal/config/file.go:154-180 | the saved document is the tree of the carried and changed values, the current context and the contexts |
| ConfigEdit.EditConfig | cmd/ctx.go:192-215 | the edit is applied to what was read and its answer is the answer, unless the file cannot be read; a failed read or edit leaves the file alone, and a successful one saves the changes against what was read |
| ConfigEdit.SavedDocument | internal/config/file.go:145-180 | what the saved document says at the place of each key: the current context unless it is empty, the new text of a changed key, for any other key what the file carried or nothing; and it names contexts exactly when there are some |
| ConfigEdit.SavedLoads | internal/config/file.go:154-180 | the saved document loads to exactly the saved values, contexts and current context |
| ConfigEdit.FileReload | internal/config/file.go:145-180 | after any edit the saved file loads, with the edited contexts and current context and text that parses for every key; every key left alone keeps its raw text or stays absent |
| ConfigEdit.KeyReload | cmd/ctx.go:193-248 | after the reload a key the edit changed holds what its text parses to, and any other key what it held before |
| ConfigEdit.EditReload | internal/config/file.go:145-180 | after any edit the reloaded value of every key equals the edited one if and only if the edit is kept: where the text changed, a list has only trimmed, non-empty items without commas; where it did not, the value did not change either. For every kind but lists it always is |
| ConfigEdit.EditReloadText | internal/config/file.go:145-180 | after any edit the rendered text of every key comes back as edited, except exactly that of a changed list whose text is not settled |
| ConfigEdit.ListEditsLost | internal/config/file.go:160-166 | setting a list to one item a,b reads back as two, to one item with white space around it reads back trimmed, and changing the items a and b to the one item a,b is not saved |
| ConfigSample.WholeEdit | cmd/ctx.go:193-248 | a whole edit of that type, from no file to the reload, that sets a list to one item with a comma and reads back two |
| Totp.StepRounds | internal/auth/totp.go:77 | the time step is whole 30-second periods since the epoch rounded toward zero, also before the epoch |
| Totp.CounterValue | internal/auth/totp.go:85-86 | the counter bytes denote the step modulo 2^64, a negative step included |
| Totp.TruncateIs | internal/auth/totp.go:91-92 | the truncation reads four bytes that are inside the digest and keeps their low 31 bits |
| Totp.Code | internal/auth/totp.go:80-98 | the code is six digits that denote the truncation modulo a million |
| Totp.NormalizeKeepsDigits | internal/auth/totp.go:124-131 | the digits of an entry are kept in order and everything else is dropped, wherever it stands |
| Totp.SameCode | internal/auth/totp.go:155 | two six-digit codes are equal exactly when they denote the same number |
| Totp.CodesAre | internal/auth/totp.go:91-97 | six digits are the code of a step exactly when they denote its truncated digest modulo a million |
| Totp.MatchCode | internal/auth/totp.go:140-160 | the loop over the window, which tries every step, returns the least match |
| Attempts.MatchIsLeast | internal/auth/totp.go:140-160 | the step matched is the least of the three in the window whose code has the digits entered, and there is none exactly when no step matches |
| Attempts.AcceptsIff | internal/auth/totp.go:177-216 | an unlocked attempt accepts exactly when some step of the window has the code and none of those is at or below the high-water mark; success leaves that step, no failures and no lock, and failure one more failure and from the fifth on a lock of fifteen minutes from now |
| Attempts.LockedIff | internal/auth/totp.go:173-187 | a locked attempt answers the end of its lock whatever the code and changes nothing, up to that time and not at it |
| Attempts.Attempt.Verify | internal/auth/totp.go:183-194 | the object answers and changes as the attempt machine means |
| Attempts.Attempt.Succeed | internal/auth/totp.go:198-204 | an accepted step raises the mark and clears failures and lock |
| Attempts.Attempt.Fail | internal/auth/totp.go:208-216 | a failure is counted and, from the fifth on, locks for fifteen minutes from now |
| Attempts.SingleUse | internal/auth/totp.go:177-194 | over any run at any times the accepted steps strictly increase above the starting mark and the mark ends at the last |
| Attempts.AcceptedBound | internal/auth/totp.go:140-194 | calls whose time steps lie in [a, b] accept at most b - a + 3 codes |
| Attempts.FailuresApart | internal/auth/totp.go:173-216 | of two failures with no success between them, when the first is the fifth in a row or later, the second is at least a whole lock window after it by the times of the two calls, even when the clock went backwards between them |
| Attempts.LockAdvances | internal/auth/totp.go:208-216 | in a run without a success each failure past the quick ones has moved the end of the lock on by a whole window, counted from the start of the run |
| Attempts.FreshCodeRefused | internal/auth/totp.go:188-191 | a code of the present step that was never used is refused when the step before, at the mark, has the same code |
| Attempts.GuessRate | internal/auth/totp.go:42-48 | a run without a success over a span counts at most 5 failures plus one per whole lock window, and at most 1 plus one per window once five are on record |
| Gate.GateSafety | internal/auth/gate.go:31-53 | in every interleaving at most limit callers are inside fn, at most limit + queue are admitted, the counter is the calls in flight, refused ones included, and slot occupancy is the slot holders |
| Gate.RunInv | internal/auth/gate.go:42-53 | every schedule of atomic steps keeps those counts and that fn has run exactly once past it and never before |
| Gate.RefusedIff | internal/auth/gate.go:43-46 | a call is refused exactly when limit + queue calls are in flight already, counting refusals not yet undone |
| Gate.NobodyRefused | internal/auth/gate.go:43-46 | if no more than limit + queue calls are ever in flight, nobody is refused |
| Gate.RefusedAtBound | internal/auth/gate.go:31-46 | in a gate made for a limit and a queue, after any schedule, the next call is refused if and only if max(limit, 1) + max(queue, 0) calls are in flight |
| Gate.SlotAtLimit | internal/auth/gate.go:47-49 | an admitted caller can take its slot if and only if fewer than max(limit, 1) slots are held |
| Gate.NobodyRefusedWithin | internal/auth/gate.go:31-46 | if never more than max(limit, 1) + max(queue, 0) calls are in flight, nobody is refused |
| Gate.RefusedFromEmptyGate | internal/auth/gate.go:43-46 | a refusal not yet undone can turn a caller away from a gate nobody has been admitted to |
| Gate.NeverStuck | internal/auth/gate.go:42-53 | while a caller has not returned, some caller can take a step |
| Gate.RunBounded | internal/auth/gate.go:42-53 | every step uses up one of finitely many, so every run of finitely many callers ends |
| Gate.CompleteRun | internal/auth/gate.go:47-52 | when all have returned the counter is zero and no slot is held; the admitted ran fn exactly once and the refused never |
| GateObject.SharedGate.constructor | internal/auth/gate.go:31-39 | the gate starts empty with max(limit, 1) slots and room for max(queue, 0) more callers |
| GateObject.SharedGate.Step | internal/auth/gate.go:42-53 | the next atomic operation of any caller, on the shared counter and channel, is the step of the model |
| GateObject.SharedGate.RunAll | internal/auth/gate.go:42-53 | whichever enabled caller moves next, every caller returns and the gate is left as it was made |
| Signed.OpenCarried | internal/auth/sshnonce.go:76-88 | a payload beside a digest opens, to that payload, exactly when the digest is the one this key and purpose give its body |
| Signed.OpenSign | internal/auth/ticket.go:66-90 | opening a signed payload gives it back |
| Signed.SignIs | internal/auth/ticket.go:63-70 | a signed text is the encoded payload and the encoded MAC of the label and that body, with the one dot between them |
| Signed.OpenIff | internal/auth/ticket.go:76-90 | a text opens to a payload if and only if it is a body and a signature around its first dot, the signature decodes to the MAC of the body under the purpose, and the body decodes to the payload |
| Signed.OtherPurpose | internal/auth/sshnonce.go:109-114 | what was signed for one purpose does not open for another unless the two MACs collide |
| SshNonce.Stamped | internal/auth/sshnonce.go:62-63 | the issue time is cut down to whole microseconds and the expiry is two minutes after it |
| SshNonce.MintIff | internal/auth/sshnonce.go:54-58 | a challenge is minted exactly when it names a tenant and an audience |
| SshNonce.MintLayout | internal/auth/sshnonce.go:64-70 | what is signed under its label: tenant, audience, whole microseconds and the encoded random bytes, in this order |
| SshNonce.PaddedParse | internal/auth/sshnonce.go:77 | white space around a challenge does not matter |
| SshNonce.ParseMint | internal/auth/sshnonce.go:54-103 | parsing a minted challenge returns exactly what was reported if and only if neither field holds the separator, the issue time fits 64 bits of microseconds and it has not expired; the two failures are told apart |
| SshNonce.SeparatorUnreadable | internal/auth/sshnonce.go:64-92 | a challenge for a tenant a|b is minted and cannot be read back |
| SshNonce.LateIssueWraps | internal/auth/sshnonce.go:62-101 | a challenge issued 2^63 microseconds after the epoch is minted and has expired when it is read back at once |
| Ticket.MintIff | internal/auth/ticket.go:50-62 | a ticket is minted exactly when the key can be read and it names a user, a tenant and one of the surfaces web, cli and ssh; the first that is missing is the reason |
| Ticket.MintLayout | internal/auth/ticket.go:63-68 | what is signed under its label: user, tenant, surface, whole seconds and method, in this order |
| Ticket.ParsedIs | internal/auth/ticket.go:74-112 | whatever parses is signed, names a known surface and is not over |
| Ticket.FourFields | internal/auth/ticket.go:90-108 | a payload of four fields reads with an empty method |
| Ticket.ParseMint | internal/auth/ticket.go:50-112 | parsing a minted ticket returns it with its expiry cut to whole seconds if and only if no field holds the separator, the expiry fits 64 bits of seconds and is still ahead |
| Ticket.SeparatorUnreadable | internal/auth/ticket.go:63-94 | a ticket for a user a|b is minted and refused when it is read back |
| Base64.RoundTrip | internal/auth/sshnonce.go:67-70 | unpadded base64 decodes to what was encoded, in both alphabets |
| Base64.SextetIs | internal/auth/sshnonce.go:67-70 | the alphabets of tables 1 and 2 of RFC 4648 |
| Base64.SpreadIs | internal/auth/sshnonce.go:67-70 | the four sextets of a group and its three bytes are the same twenty-four bits |
| Base64.EncodedLength | internal/auth/sshnonce.go:67-70 | nothing is filled up: the length of an encoding without padding |
| Base64.ReadableIff | internal/auth/sshnonce.go:84-88 | a text is readable exactly when it stays in the alphabet and no single character follows its last whole group |
| Decimal.ParseFormat | internal/auth/sshnonce.go:66-96 | the 64-bit parse undoes the decimal rendering exactly on the 64-bit range |
| Decimal.ParseIs | internal/auth/sshnonce.go:93 | the number a sign and digits denote is the number parsed, or none when it does not fit 64 bits |
| Text.SplitJoin | internal/auth/sshnonce.go:64-89 | splitting joined fields gives them back when none holds the separator |
| Text.SplitJoinCount | internal/auth/sshnonce.go:64-92 | a join of n fields splits into n pieces exactly when no field holds the separator, and into more otherwise |
| Text.TrimIs | internal/auth/sshnonce.go:77 | trimming takes white space from both ends and leaves none there |
| Text.LessIs | internal/bundle/bundle.go:261 | the order of texts is dictionary order: a proper beginning, or a lesser character at the first difference |
| Password.Decode | internal/auth/password.go:162-195 | whatever text decodes, the parameters are usable and record the lengths of the salt and key read |
| Password.DecodeEncode | internal/auth/password.go:153-195 | decoding an encoded hash gives back its parameters, salt and key exactly when the parameters are valid and record the real lengths |
| Password.DecodeIff | internal/auth/password.go:162-195 | a text decodes to a hash if and only if it spells it field by field and the parameters describe it; another algorithm and another version are told apart from every other fault |
| Password.DescribesIff | internal/auth/password.go:49-68 | the least and greatest values of usable parameters |
| Password.EncodeIs | internal/auth/password.go:153-159 | the text of a hash |
| Password.SettingsScan | internal/auth/password.go:174-176 | scanning the rendered cost parameters by the format gives them back |
| Password.ReplacedIff | internal/auth/password.go:71-77 | a hash minted under usable parameters is replaced exactly when the policy asks for more memory, time, threads, salt or key |
| Admin.StreamAudit | cmd/admin.go:328-361 | the scan loop reads, filters and writes as the bounded scan means, failures included |
| Admin.ReadPage | cmd/admin.go:334-349 | one round lists a page, writes its matches and takes its cursor, or fails where the listing or the writer does |
| Admin.WritePage | cmd/admin.go:340-348 | one page writes its matching entries in order until the writer fails |
| Admin.ScanBounded | cmd/admin.go:333-352 | at most eight list calls, exactly one with no filter active, and a stop with more to come only when not filtering, full, or out of pages |
| Admin.OvershootBounded | cmd/admin.go:366-377 | a further page is read only while the limit is not filled, so the rows stay below the limit plus one page |
| Admin.ScanEmits | cmd/admin.go:332-352 | over a fixed log a scan emits, in order, the filter of exactly the stretch between its cursor and the one it reports |
| Admin.ChainRows | cmd/admin.go:332-360 | chaining scans from the reported cursors emits the filter of the rest of the log with no gap and no duplicate |
| Admin.ChainIsFilter | cmd/admin.go:332-360 | chaining from no cursor emits the filter of the whole log |
| Admin.ChainEnds | cmd/admin.go:332-360 | when nothing fails the chain ends |
| Transport.BuildPath | internal/client/transport.go:25-31 | the loop replaces the first placeholder of each parameter in turn and ignores a name without a value |
| Transport.FillRender | internal/client/transport.go:28 | replacing in the text of a pattern fills its first placeholder of that name and nothing else |
| Transport.RouteFills | internal/client/transport.go:25-31 | whatever the parameters, the path is the pattern with some of its placeholders filled: no encoded value is taken for a placeholder or for a part of one |
| Routes.FilledAt | internal/client/transport.go:25-31 | the k-th placeholder of a name is filled with the encoded value of the k-th pair of that name, and stays when there is none |
| Routes.RouteIsSubstitution | internal/client/transport.go:25-31 | the path is the simultaneous substitution when each placeholder gets the value its name has first; only then, when a slash stands between any two placeholders or the parameters have distinct names; and in every case only if each placeholder that has a value is filled |
| Routes.OnceServed | internal/client/transport.go:25-31 | placeholders that are there once get that value, and with distinct parameter names only they do |
| Routes.SecondLeft | internal/client/transport.go:28 | a placeholder that is there twice is left over the second time |
| Routes.ValuesCoincide | internal/client/transport.go:28 | with placeholders side by side and names given twice, different values can add up to the text of the substitution |
| Routes.RouteOrder | internal/client/transport.go:25-31 | for a pattern with distinct placeholders the order of the parameters does not matter |
| Routes.RouteSegments | internal/client/transport.go:23-31 | whatever the values hold the path has as many segments as the pattern, and each value decodes from the part that stands for it |
| Routes.RouteDelimiters | internal/client/transport.go:25-31 | a path has as many slashes, question marks and number signs as its pattern, whatever the values hold |
| Routes.SegmentDecodes | internal/client/transport.go:25-31 | where a segment of the pattern is a placeholder, the segment of the path in the same place decodes to the value of that name |
| Routes.OpenBraceTaken | internal/client/transport.go:28 | a brace left open in the literal text of a pattern can close around a value and be taken for a placeholder |
| Transport.UnescapeEscape | internal/client/transport.go:23-28 | percent-decoding an encoded value gives it back (sections 2.1 and 3.3 of RFC 3986) |
| Transport.EscapeChars | internal/client/transport.go:28 | every character of an encoded value is a letter, a digit, one of -_.~$&+=:@, or belongs to a percent sign followed by two upper-case hexadecimal digits |
| Transport.EscapeSafe | internal/client/transport.go:28 | so it holds no slash, question mark, number sign, space, brace, semicolon or comma |
| Transport.UnencodedStays | internal/client/transport.go:28 | a value of unencoded characters alone is its own encoding |

## Left out

- Times and durations are unbounded integers: the clock, the attempt machine and the credentials do not model the wrap
  of a time far outside any calendar, apart from the 64-bit microseconds and seconds of the signed texts.
- A panic in `fn`, after which the two deferred steps of `do` still run: in the model `fn` returns.
- Counters and lengths of the gate are unbounded: a limit and queue whose sum passes 64 bits is not modelled.
- Mutexes and goroutine scheduling of the clock: each operation is one atomic step followed by its sends. The value a
  channel carries (the real time) is not kept.
- The sort of the standard library merges runs of insertion-sorted blocks; `Bundle.Sort` sorts the whole slice by
  insertion, which has the same stable result.
- JSON and YAML text: a record's line and a configuration tree are abstract. `Records.Lawful` asks that the text of a
  record reads back as that record. JSON falls short of it where a member is omitted, and where a text is not valid
  UTF-8, which is written with replacement characters: tags named by the single bytes ff and fe both pass the encoder,
  are written under one name, and make the decoder refuse the document as repeating a component. Scalars of a
  configuration file are their rendered text (`scalarString` is not modelled).
- `editConfig` copies the configuration shallowly; the copy taken before an edit is a value here, so an edit that
  changed a list in place without replacing it is not captured.
- `ConfigEdit.Config` holds the values of the keys, and the contexts. The other fields of the source's `Config`,
  `Themes` and the `Keys` of `TUI`, are no keys: an edit of them is neither saved nor reloaded.
- Duplicate environment variable names, which stop the program at start-up, and the sorting of the key list.
- The text form of durations is a parameter with the law that parsing undoes rendering.
- The rules of workflows, fields, project keys, colours, icons and URLs, which other packages define.
- Errors are told apart by kind; their messages are not modelled. Failures of the reader under the decoder are not
  modelled.
- Base32 decoding of a secret and base64 decoding of a configured key: a secret or key that cannot be read is `None`.
- Cryptography: HMAC, argon2id, random bytes and constant-time comparison are parameters or plain equality.
- White space in scanned numbers and trimmed texts is judged character by character, without decoding UTF-8.
- A pattern's literal text is taken to open no brace, as that of every route does, and a parameter's name to close
  none; `Routes.OpenBraceTaken` shows a pattern outside that.
- The cursor of a listing is opaque: `Admin.Serves` says what a store that pages through a fixed log must do.
- Everything else in the repository: commands, rendering, the HTTP and SSH servers, the client's other calls, stores,
  leases, workflows, recurrence and the filter language.
