# Verified model of rurge's profile checks and API guards

rurge reads a proxy profile and serves an HTTP API for it. This project models the parts whose
correctness tests cannot settle, and proves them for all inputs, all graphs and all interleavings:

- `Glob`, `Patterns` - the wildcard matcher that remembers only its last `*`, the reading of its patterns, and
  what a pattern matches as it is written;
- `Graph`, `Profile`, `GroupCycles`, `UnderlyingCycles`, `TakenIn` - the checks over the graph of
  policies and groups: the colouring search for cycles, the search behind `E0019`, and the table of
  the members a group takes in;
- `SetKinds` - the one-pass check that all uses of a resource agree on its kind;
- `Dialect`, `Template` - the rewriting of ICU spellings, and replacement templates;
- `Managed` - the line in force, the walk along downloaded copies, and the choice between file and copy;
- `BanTable` - the bounded table of failing and banned sources;
- `Linger`, `TlsListener` - the connections of the API under every interleaving of their tasks;
- `Networks`, `Timings` - overlapping networks, and the rounding of HAR timings.

Text is a sequence of characters, times and durations are natural numbers (nanoseconds, or seconds for
intervals), and unbounded integers stand for machine integers except where wrap-around is written out.
Code that works by loops and updates is a method or a class, proved against functions and predicates
whose own properties are the lemmas. Methods on a heap (`GroupCycles.Search`, `TakenIn.Memo`,
`BanTable.AuthState`) state their whole new state. The protocol of connections is a relation between
states, one step of one task at a time; the compare-and-swap loop is a load and separate attempts.

`hide` in a body keeps definitions out of a proof that does not need them.

## What came out differently from the comments in the code

- `TakenIn.OrderFreeExactlyWithoutTwoOnACycle`: what a group takes in can depend on which group was asked for
  before, because the table keeps the shorter answer. It can for an include graph exactly when a cycle runs
  through two different groups; `TakenIn.OnACycleOrderMatters` gives the groups and the question for any such
  cycle. Groups that reach no such cycle get their plain answers (`TakenIn.TakeIsPlain`). The warnings about port
  hopping then depend on the order of the lines, exactly for the same include graphs
  (`TakenIn.LineOrderFreeExactlyWithoutTwoOnACycle`).
- `TlsListener.OneMoreWhileRefusing`: whatever the limits, while the accept loop holds a connection, one more
  can be open than there are handshakes and lingering places together. With an idle loop there is none beyond
  them but for strays, which `TlsListener.PendingIsBounded` counts and of which there can be any number
  (`TlsListener.StraysAddUp`).
- `Linger.EmptyTrackerMeansAllGone`: an empty tracker means that no stream is open exactly when no connection
  waits to be counted and no task dropped by the runtime still has its stream;
  `Linger.AnAbandonedTaskCanOutliveItsToken` has a run after which such a task has, and one after which it has
  its place. For all others the order of the drops is proved (`Linger.TokenGoesLast`).
- `Timings.TimeIsTheWholeRoundedDown`: the sum of the steps is the whole stretch but for rounding exactly when
  the whole milliseconds of the steps come to less than 2^63; from there on it is at least 2^64 - 4 too small.
- `BanTable.EntryCountsTheRecent`: two requests at once may be recorded in the other order than they read the
  clock. The failures that count for one at `now` are exactly the recent ones if and only if the old ones stand
  first in the entry, and none that was put out is recent again. The entry counts exactly its recent failures at
  all times if and only if they are sorted, as they are in a history in order.
  `BanTable.OutOfOrderAnOldOneCounts` and `BanTable.OutOfOrderARecentOneIsMissed` are the two ways to fail, for
  any times that do.

## Model

| member | source | states |
|---|---|---|
| `Glob.Matches` | crates/rurge-config/src/glob.rs:115-138 | the loop answers true exactly when the folded text splits over the tokens (`Patterns` says what that is of a written pattern); it turns at most (tokens + 1) x (text length) times |
| `Glob.NewStarDominates` | crates/rurge-config/src/glob.rs:123-125 | at a star, whatever a longer run of an older star could still match, this star can match too, so the older one may be forgotten |
| `Glob.PlainTakesItsLength` | crates/rurge-config/src/glob.rs:120-122 | tokens other than stars take one character each, so what follows them starts exactly that much later |
| `Glob.NoRetryAtEnd` | crates/rurge-config/src/glob.rs:126-137 | when the text is used up, no longer run of the last star can match, so giving up loses nothing |
| `Glob.Visit` | crates/rurge-config/src/glob.rs:119-133 | the place (token, character) at the head of the loop is one it was never at before |
| `Glob.New` | crates/rurge-config/src/glob.rs:38-94 | reading fails exactly when a class is not closed, and gives the tokens of the pattern with runs of stars collapsed, which match the same texts |
| `Glob.NewClass` | crates/rurge-config/src/glob.rs:51-84 | the class that opens here, its negation, its ranges and where it ends, or nothing when it is not closed |
| `Glob.CollapseKeepsLanguage` | crates/rurge-config/src/glob.rs:45-49 | collapsing runs of stars changes nothing in what a token list matches |
| `Patterns.ReadsBack` | crates/rurge-config/src/glob.rs:38-94 | every list of parts (characters, stars, marks, classes of members and spans, negated by `!` or `^`) is what the pattern it is written as is read as |
| `Patterns.ReadExactlyWhenWritten` | crates/rurge-config/src/glob.rs:38-94 | the patterns that can be read are exactly those written as such parts |
| `Patterns.MatchesWhatIsWritten` | crates/rurge-config/src/glob.rs:103-138 | the tokens of a pattern match a text exactly when its parts do: letters by themselves or by the other case of the alphabet, members and spans of a class, any run for a star |
| `Patterns.PlainTextMatchesItself` | crates/rurge-config/src/glob.rs:103-138 | a pattern without wildcards matches the texts of its length that have the same letter at every place, and no others |
| `Patterns.OneTokenTakes` | crates/rurge-config/src/glob.rs:103-112 | which texts each kind of token takes by itself |
| `Glob.PatternIgnoresCase` | crates/rurge-config/src/glob.rs:33-35 | a pattern that ignores case is read the same whatever the case of its letters |
| `Graph.CycleAlongEdge` | crates/rurge-config/src/config.rs:1116-1119 | a cycle runs along an edge exactly when the end of the edge leads back to its start |
| `Graph.SortedHasNoCycle` | crates/rurge-config/src/config.rs:1472-1478 | names in an order in which edges only lead to earlier ones have no cycle |
| `GroupCycles.GroupCycleWarnings` | crates/rurge-config/src/config.rs:1436-1478 | there is a warning exactly when the references among the groups have a cycle, self-references included; the two groups of each warning are neighbours on one cycle; every group ends in colour 2 |
| `GroupCycles.RefGraphIs` | crates/rurge-config/src/config.rs:1088-1107 | a group leads to another exactly if it has it as a member, in a condition, as its default, or, unless it is a subnet group, as an include |
| `GroupCycles.Search.Dfs` | crates/rurge-config/src/config.rs:1445-1473 | one search: what was coloured stays, its group gets colour 2, every warning so far is true, and without one the finished groups are in topological order |
| `GroupCycles.BackEdge` | crates/rurge-config/src/config.rs:1455-1466 | a reference back to a group of colour 1 closes a cycle through both |
| `GroupCycles.Left` | crates/rurge-config/src/config.rs:1472 | a group all of whose references are finished may be finished itself |
| `UnderlyingCycles.LeadsBack` | crates/rurge-config/src/config.rs:1154-1168 | the search with a stack and a set is exactly reachability, and ends on every graph |
| `UnderlyingCycles.BuildEdges` | crates/rurge-config/src/config.rs:1126-1153 | the loops end in a graph in which, with the unique names a profile has, one name leads to another exactly by a relay, a reference or include, or an admitted proxy |
| `UnderlyingCycles.EdgesAreExactly` | crates/rurge-config/src/config.rs:1126-1153 | there is an edge from a to b exactly when a policy or a group a is relayed through b, a group a refers to b in one of the four ways, or a takes in all proxies and b is one that is no alias and that its filter admits |
| `UnderlyingCycles.Check` | crates/rurge-config/src/config.rs:1120-1203 | the reports are, in order, exactly the policies and groups whose own relay lies on a cycle; there is none exactly when no cycle runs along a relay |
| `UnderlyingCycles.PolicyReportsAre` | crates/rurge-config/src/config.rs:1169-1185 | one report for each policy whose relay lies on a cycle, in order, with its name and its relay |
| `UnderlyingCycles.GroupReportsAre` | crates/rurge-config/src/config.rs:1186-1202 | the same for the groups |
| `TakenIn.Memo.TakenIn` | crates/rurge-config/src/config.rs:1261-1289 | the answer and the table after it, on every include graph, cycles included; it always ends |
| `TakenIn.TakeIsPlain` | crates/rurge-config/src/config.rs:1256-1289 | whatever was asked for before and is being worked out, a group that reaches no cycle through two groups gets own members, then admitted members of the other groups it includes, then admitted proxies; including itself adds nothing |
| `TakenIn.AdmittedAre` | crates/rurge-config/src/config.rs:1274-1276 | of the names of an included group exactly those the filter admits are taken, each as often, in the same order |
| `TakenIn.OwnProxiesAre` | crates/rurge-config/src/config.rs:1278-1286 | the proxies of the profile that are no alias and that the filter admits, in order, if the group takes them in at all |
| `TakenIn.AnswerIsInOrder` | crates/rurge-config/src/config.rs:1270-1288 | an answer is the members, then for each include in order the admitted part of its own answer, then the proxies |
| `TakenIn.AnswerHas` | crates/rurge-config/src/config.rs:1256-1289 | a name is in the answer of such a group exactly if it is a written member, or admitted and in the answer of another included group, or an admitted proxy of a group that takes in all |
| `TakenIn.AnswerDoesNotDependOnOrder` | crates/rurge-config/src/config.rs:1256-1289 | unless a cycle runs through two groups, the answer is the plain recursive one after any sequence of earlier questions |
| `TakenIn.OnACycleOrderMatters` | crates/rurge-config/src/config.rs:1258-1260 | for every edge from a to b of a cycle through two groups, where only b has a member: a has it when asked for first and lacks it once b was asked for, and b has it either way |
| `TakenIn.OrderFreeExactlyWithoutTwoOnACycle` | crates/rurge-config/src/config.rs:1256-1289 | all groups with a given include graph have answers that no earlier question changes exactly when no cycle of it runs through two groups |
| `TakenIn.HopsUnderGroupRelays` | crates/rurge-config/src/config.rs:1212-1254 | on every include graph, the warnings of each relayed group in order: the port-hopping names of its plain answer, each once, if it reaches no cycle through two groups, and those of the shared table otherwise |
| `TakenIn.CalmGroupIsWarned` | crates/rurge-config/src/config.rs:1216-1253 | a group that reaches no such cycle is warned of exactly the names of port-hopping policies it takes in, if it has a relay |
| `TakenIn.FirstHopsAre` | crates/rurge-config/src/config.rs:1236-1238 | each port-hopping name once, where it is first met |
| `TakenIn.WarningsInLineOrder` | crates/rurge-config/src/config.rs:1232-1253 | the warnings of a group come before those of a group on a later line |
| `TakenIn.LineOrderDecidesAWarning` | crates/rurge-config/src/config.rs:1232-1253 | for every such edge between relayed groups, where the member hops ports: the warning for a comes exactly when the line of a is before that of b, and the one for b always |
| `TakenIn.LineOrderFreeExactlyWithoutTwoOnACycle` | crates/rurge-config/src/config.rs:1212-1254 | profiles with the same groups and a given include graph get the same warnings in whatever order their lines are, exactly when no cycle of it runs through two groups |
| `SetKinds.CollectSetUses` | crates/rurge-config/src/config.rs:1297-1309 | the uses of a rule at any depth, from left to right |
| `SetKinds.UsesAsWritten` | crates/rurge-config/src/config.rs:1297-1309 | the uses in a rule stand in it from left to right |
| `SetKinds.AllUsesAsWritten` | crates/rurge-config/src/config.rs:1322-1339 | all uses: those of the rules, then of the hosts, then of the inline sets, each on its line and a whole set counting as one line |
| `SetKinds.SetKindConflicts` | crates/rurge-config/src/config.rs:1322-1363 | the reports are the conflicts in order; there is none exactly when each resource can be given one kind that all its uses agree with |
| `SetKinds.TableHasFirst` | crates/rurge-config/src/config.rs:1340-1349 | the table holds the first use of each resource and whether a later one differed |
| `SetKinds.KindUsesAgree` | crates/rurge-config/src/config.rs:1297-1309 | the uses gathered from a rule agree with an assignment of kinds exactly when every use inside it, at any depth, does |
| `SetKinds.SilentWhenKindsAgree` | crates/rurge-config/src/config.rs:1311-1321 | silence means that an assignment of one kind per resource agrees with every use |
| `SetKinds.ReportedOnce` | crates/rurge-config/src/config.rs:1316-1317 | no resource is reported twice |
| `SetKinds.ReportIs` | crates/rurge-config/src/config.rs:1340-1362 | a report is of the earliest use that differs from the first use of its resource, and tells its line and the kind and line of the first |
| `SetKinds.ReportedWhenUsedBothWays` | crates/rurge-config/src/config.rs:1311-1321 | the reported resources are exactly the URLs and files with uses of both kinds |
| `Dialect.Translate` | crates/rurge-config/src/dialect.rs:27-96 | the loop gives the translation step by step, or the refusal of the first escape that has no place in a class |
| `Dialect.PushQuoted` | crates/rurge-config/src/dialect.rs:116-125 | the literals of a quoted section, and where reading goes on |
| `Dialect.LeavesNothing` | crates/rurge-config/src/dialect.rs:27-96 | what is translated at one class depth has no ICU spelling left, read at that depth or one more |
| `Dialect.ClassOpens` | crates/rurge-config/src/dialect.rs:68-85 | the same for the head of a class, which a second reading may take to be longer where an empty quote stood in it |
| `Dialect.TranslatingTwiceIsOnce` | crates/rurge-config/src/dialect.rs:18-26 | whenever a pattern translates, its translation translates to itself |
| `Dialect.KeptExactlyWhenFree` | crates/rurge-config/src/dialect.rs:18-26 | the patterns that come through unchanged are exactly those without an ICU spelling |
| `Dialect.QuotedSectionIsLiteral` | crates/rurge-config/src/dialect.rs:114-158 | a quoted section, ended or running on to the last character, becomes literals that read back as exactly its text, at any class depth, and the rest is read at the same depth |
| `Dialect.LiteralReadsBack` | crates/rurge-config/src/dialect.rs:127-158 | a quoted character reads back as itself for a reader with its own list of special characters and white space |
| `Dialect.LiteralIs` | crates/rurge-config/src/dialect.rs:127-158 | exactly the eighteen special characters get a backslash, exactly the white space its number, and every other character stands as it is |
| `Dialect.EscapesMeanWhatIcuMeans` | crates/rurge-config/src/dialect.rs:41-46 | what is written for `\h`, `\H`, `\v`, `\V` outside a class matches exactly what ICU means, and inside one has exactly those members |
| `Dialect.OtherEscapes` | crates/rurge-config/src/dialect.rs:48-66 | `\R` becomes a pair or one line break, `\Z` the end behind one of these or none, both outside a class only; angle brackets lose the backslash and all other escapes stay |
| `Dialect.RefusedExactlyInClasses` | crates/rurge-config/src/dialect.rs:41-47 | a pattern is refused exactly when one of `\H`, `\V`, `\R` is read with a class open around it, and the refusal names the first of them |
| `Template.Parse` | crates/rurge-config/src/dialect.rs:186-225 | the pieces of a template, whose expansion is a one-pass reading for every number of groups and all their texts |
| `Template.PiecesExpandToOnePass` | crates/rurge-config/src/dialect.rs:186-252 | reading first and expanding later is one pass that knows the groups: a backslash takes a character, a `$` no more digits than the group count has, and the rest is text |
| `Template.ReadsLikeThis` | crates/rurge-config/src/dialect.rs:186-225 | a backslash makes any next character text and is dropped at the end, a `$` without a digit is text, and so is every other character |
| `Template.Expand` | crates/rurge-config/src/dialect.rs:231-252 | appends the expansions of the pieces in order |
| `Template.ReplaceAll` | crates/rurge-config/src/dialect.rs:334-368 | the text with the template in the place of every match, or nothing exactly when the engine gave up |
| `Template.DollarZeroKeepsTheText` | crates/rurge-config/src/dialect.rs:334-368 | the template `$0` leaves every text as it is, for all ordered matches that do not overlap |
| `Template.EscapedStandsForItself` | crates/rurge-config/src/dialect.rs:183-185 | a text with its backslashes and dollars escaped stands for itself, whatever the groups |
| `Template.ExistingGroupsAreRead` | crates/rurge-config/src/dialect.rs:239-249 | for every count of 64 bits, digits that write the number of a group stand for that group, and those that write a larger number for nothing below 10^19 groups |
| `Template.EveryGroupCanBeNamed` | crates/rurge-config/src/dialect.rs:227-249 | `$` and the decimal number of any group, up to what is no digit, stand for that group and nothing more |
| `Template.MoreDigitsAreText` | crates/rurge-config/src/dialect.rs:239-249 | of more digits than the count has, the first ones name the group and the others are text |
| `Template.GroupsAreTheirText` | crates/rurge-config/src/dialect.rs:334-368 | in the place of a match, `$` and the number of a group put the text that group stands at |
| `Template.IndexIsTheNumber` | crates/rurge-config/src/dialect.rs:242-244 | digits that are read as another number name no group, for every count of 64 bits; all that can be taken give their number exactly when there are fewer than 10^19 groups |
| `Managed.Find` | crates/rurge-config/src/managed.rs:112-201 | the last directive with an http(s) address is in force; its interval is its last number of at least 60 seconds, 60 for a smaller one and a day for none, its `strict` the last readable one; each directive gets its warnings, in order |
| `Managed.SecondHasItsWay` | crates/rurge-config/src/managed.rs:112-201 | of any two headers read as one, the line of the second is in force if it has one, the line of the first otherwise, and the warnings of both are kept |
| `Managed.ReadParams` | crates/rurge-config/src/managed.rs:143-185 | interval and `strict` by the places of the parameters that count, 0 counting as not written; each parameter gets the warning that fits it, and there is none exactly when every parameter is in order |
| `Managed.SaidOfOne` | crates/rurge-config/src/managed.rs:112-201 | which warning each kind of parameter and of directive gets |
| `Managed.SaidInOrder` | crates/rurge-config/src/managed.rs:143-185 | what is said of parameters is what is said of each, one behind the other |
| `Managed.WalkAlong` | crates/rurge-config/src/managed.rs:265-323 | the stops are the first places of the orbit of named addresses, at most nine and pairwise distinct; it ends Found, NotFound or NoLine exactly when the orbit comes home, has no copy or no line within eight changes, and NoWayOut otherwise; with the last copy and the newest time |
| `Managed.WalkIsShort` | crates/rurge-config/src/managed.rs:306-311 | nine stops at most; it gives up at the ninth or where an address would come again |
| `Managed.LastCopyIs` | crates/rurge-config/src/managed.rs:283-303 | the copy it holds is that of its last stop that has one, with the line of that copy |
| `Managed.WalkIsUnique` | crates/rurge-config/src/managed.rs:265-323 | there is one walk from each address: its length, its stops, its end and what it found are settled by the copies |
| `Managed.Circle` | crates/rurge-config/src/managed.rs:306-311 | once an address comes again the lines go around in a circle for ever |
| `Managed.LineThatNamesTheEnd` | crates/rurge-config/src/managed.rs:409-420 | the last copy's own line names the last stop whenever the walk did not end without a line or a way out |
| `Managed.KeepsLocalExactlyWhen` | crates/rurge-config/src/managed.rs:346-351 | the local file is kept exactly if no stop has a copy, or there is a section in it and its change is later than the download of each copy of the walk, and not later than now |
| `Managed.Choose` | crates/rurge-config/src/managed.rs:334-446 | which text is in effect; every stop but the last is a hop with the default interval, the last is the managed profile unless the copy in effect has no line, with an interval of at least 60 seconds; what is said, and which files it names |
| `BanTable.TableKeepsRecent` | crates/rurge-api/src/auth.rs:61-78 | after every history in order the table has min(1024, all) sources with the times of their last failures, and none that is gone failed later than one that is kept |
| `BanTable.TableKeepsTimes` | crates/rurge-api/src/auth.rs:61-78 | the size and the times hold in whatever order the failures are recorded |
| `BanTable.KeptExactlyWhenRecent` | crates/rurge-api/src/auth.rs:61-78 | with distinct times a source is kept exactly when fewer than 1024 others failed after it |
| `BanTable.TableAgrees` | crates/rurge-api/src/auth.rs:44-94 | after every history, in order or not, a source has an entry with exactly the failures that count since its last ban or insertion, fewer than five, and the end of its ban |
| `BanTable.PruneLeavesRecent` | crates/rurge-api/src/auth.rs:79-85 | dropping old failures from the front leaves exactly those within the window |
| `BanTable.WindowIsRecent` | crates/rurge-api/src/auth.rs:79-85 | recorded in order, the failures that count are exactly those within the window before the last |
| `BanTable.PruneIsRecentExactlyWhenSorted` | crates/rurge-api/src/auth.rs:79-85 | for every list of failures: dropping old ones from the front leaves exactly the recent ones at all times if and only if the list is sorted |
| `BanTable.CountsExactlyTheRecent` | crates/rurge-api/src/auth.rs:79-86 | for all failures of a source in any order and any time: the next one is counted with exactly the recent ones if and only if in the window the old ones stand first and those put out are old for it too |
| `BanTable.EntryCountsTheRecent` | crates/rurge-api/src/auth.rs:79-86 | the same for the entry of the table after every history; those put out are old unless the clock goes back behind a failure, and the entry is sorted after every history in order |
| `BanTable.OutOfOrderAnOldOneCounts` | crates/rurge-api/src/auth.rs:119-139 | of two requests at once, the younger recorded first: the older one counts at exactly the times that are too late for it and not for the younger |
| `BanTable.OutOfOrderARecentOneIsMissed` | crates/rurge-api/src/auth.rs:119-139 | a failure recorded late misses one of its own window that a younger one has put out |
| `BanTable.BanBeginsAtTheFifth` | crates/rurge-api/src/auth.rs:86-93 | in order, a failure begins a ban exactly when four others lie within the window before it |
| `BanTable.BannedExactlyForTenMinutes` | crates/rurge-api/src/auth.rs:44-58 | a source is banned exactly from the start of its last ban for 600 s, the end not included |
| `BanTable.BannedMeansFiveFailures` | crates/rurge-api/src/auth.rs:44-94 | who is banned after a history in order has failed five times within ten minutes, the last time less than ten minutes ago |
| `BanTable.SinceIsTheEnd` | crates/rurge-api/src/auth.rs:79-93 | what counts for a source are the last of all its failures |
| `BanTable.RecentAre` | crates/rurge-api/src/auth.rs:79-85 | the recent failures are those of the last 600 s, the first of them included |
| `BanTable.AuthState.IsBanned` | crates/rurge-api/src/auth.rs:44-58 | the answer from the history alone, and the table after it |
| `BanTable.AuthState.Oldest` | crates/rurge-api/src/auth.rs:65-69 | a source whose last failure is no later than any other's |
| `BanTable.AuthState.RecordFailure` | crates/rurge-api/src/auth.rs:61-94 | at any time given, a new source takes a place in a full table from one that failed longest ago; the answer is whether this is the fifth failure that counts, which in order is the fifth within the window |
| `BanTable.AuthState.RequireKey` | crates/rurge-api/src/auth.rs:119-139 | at any time given, a banned source is turned away whatever key it has, any other is let in exactly with the right key, and each refusal counts one failure |
| `BanTable.CtEq` | crates/rurge-api/src/auth.rs:99-104 | the fold over all bytes tells exactly whether the two strings are equal |
| `Linger.CounterIsExact` | crates/rurge-api/src/linger.rs:65-84 | in every state of every run the counter is the number of places taken, at most `max` and never below zero |
| `Linger.NextKeepsGood` | crates/rurge-api/src/linger.rs:65-84 | every step of every task keeps this, a compare-and-swap that comes too late included |
| `Linger.TokenGoesLast` | crates/rurge-api/src/linger.rs:240-276 | in every run, before a connection whose own code drops its token comes the drop of its stream, and between the taking of its place and the token the giving back of the place |
| `Linger.EmptyTrackerMeansAllGone` | crates/rurge-api/src/linger.rs:123-143 | once no token is held, no stream is open exactly when no connection waits to be counted and no task dropped by the runtime has one, and no place is taken exactly when no such task has one |
| `Linger.AnAbandonedTaskCanOutliveItsToken` | crates/rurge-api/src/linger.rs:75-84 | for every positive limit, two runs after which no token is held: a stream is open when the task was suspended, a place is taken when it never began |
| `Linger.NothingKeptWhenDone` | crates/rurge-api/src/linger.rs:75-84 | however the tasks end, when all connections are done no token, stream or place is left |
| `Linger.RefusedOnlyWhenFull` | crates/rurge-api/src/linger.rs:253-256 | for every refusal there was a moment, while the connection was asking, at which all places were taken |
| `Linger.StepsRunOut` | crates/rurge-api/src/linger.rs:240-276 | every step brings its connection nearer to its end, however the task ends; only an attempt at the counter that comes too late leaves it where it was |
| `Linger.NeverStuck` | crates/rurge-api/src/linger.rs:65-84 | a connection that is not done can always go on, and has to ask again only when the counter has changed under it |
| `Linger.ReadAway` | crates/rurge-api/src/linger.rs:282-299 | the shutdown and all reads together never take longer than the time given, never more than the limit is thrown away, and reading stops only at the limit, the end, a failure or when time is up |
| `Linger.WantIs` | crates/rurge-api/src/linger.rs:288-291 | a read asks for 4096 bytes, or for all that may still be thrown away if that is less |
| `TlsListener.StepIsLingerStep` | crates/rurge-api/src/tls.rs:104-189 | every step of the listener is one step of the plain listener beneath it, or none |
| `TlsListener.RunsOnThePlainListener` | crates/rurge-api/src/tls.rs:129-140 | every run goes along a run of the plain listener, one step of it at a time or none |
| `TlsListener.RefusedOnlyWhenFull` | crates/rurge-api/src/tls.rs:18-21 | carried over along that run: over TLS too, a refusal means that all places were taken while the connection asked |
| `TlsListener.NextKeepsGood` | crates/rurge-api/src/tls.rs:104-189 | every step keeps what place, letting go, permit, channel and accept loop say of each other |
| `TlsListener.RefusesOnlyWithoutPermit` | crates/rurge-api/src/tls.rs:104-112 | a connection is refused only while other connections hold all the permits |
| `TlsListener.NoDeadlock` | crates/rurge-api/src/tls.rs:104-189 | in every run, if the channel holds at least one: as long as a connection is not done, some connection can go on, without a new one and without a stop |
| `TlsListener.HandshakesAreBounded` | crates/rurge-api/src/tls.rs:102-122 | there are never more handshakes in flight than permits |
| `TlsListener.HandedOverOnce` | crates/rurge-api/src/tls.rs:129-140 | the server receives a connection at most once, open and counted, and none whose letting go has begun |
| `TlsListener.PendingIsBounded` | crates/rurge-api/src/tls.rs:40-50 | in every run the open connections not yet received are at most handshakes plus lingering places, plus the one the accept loop holds, plus the strays: those given up early that are still being let go of, and those dropped by the runtime place first |
| `TlsListener.OneMoreWhileRefusing` | crates/rurge-api/src/tls.rs:104-112 | for all limits there is a run that ends with handshakes plus lingering places plus one such connections, without strays |
| `TlsListener.StraysAddUp` | crates/rurge-api/src/tls.rs:149-164 | for all limits with a permit and every k, a run that ends with an idle loop, all permits and places taken and k connections more, given up early and still asking |
| `Networks.OverlapsMeansSharing` | crates/rurge-config/src/general.rs:748-752 | two networks with any host bits overlap exactly when some address lies in both |
| `Networks.ContainsMeansAllLieIn` | crates/rurge-config/src/general.rs:735-746 | one contains the other exactly when every address of the other lies in it |
| `Networks.LargerHolds` | crates/rurge-config/src/general.rs:748-752 | of two networks that share an address the one with the shorter prefix contains the other |
| `Networks.ExcludedRoutes` | crates/rurge-config/src/general.rs:985-1004 | a warning for exactly the items that have an address in rurge's own space, in order |
| `Networks.SharingAre` | crates/rurge-config/src/general.rs:985-1004 | they are picked from the items without changing their order |
| `Networks.WholePrivateRange` | crates/rurge-config/src/general.rs:735-746 | the first private range all of whose addresses lie in the item, and none for IPv6 |
| `Networks.RangesAsWritten` | crates/rurge-config/src/general.rs:720-733 | which four bytes an address of the own space and of each private range has |
| `Networks.SpaceV6AsWritten` | crates/rurge-config/src/general.rs:720-733 | the same for version 6 |
| `Timings.TimingsOf` | crates/rurge-api/src/har.rs:46-79 | the steps; their sum is 0 to n - 1 ms short of the whole stretch, n pieces, exactly when the whole milliseconds of the pieces come to less than 2^63 |
| `Timings.TimeIsTheWholeRoundedDown` | crates/rurge-api/src/har.rs:41-45 | the same for all durations, whatever the lookups took and whether the connection was made or reused |
| `Timings.StepsTellWhatWasTaken` | crates/rurge-api/src/har.rs:63-74 | below 2^63 a step is -1 exactly when there was none, and no other is negative |
| `Timings.StepsAre` | crates/rurge-api/src/har.rs:47-73 | each step is the whole milliseconds of its piece; the lookups count for no more than the connection, or the whole request without one, and are taken off it |
| `Timings.KnownStepsAreThreeShortAtMost` | crates/rurge-api/src/har.rs:46-79 | with connection, waiting and receiving known the sum is 0 to 3 ms short exactly then |
| `Timings.NoConnectionIsOneShortAtMost` | crates/rurge-api/src/har.rs:46-79 | without connection and receiving it is 0 or 1 ms short of the whole request exactly then |
| `Timings.ExactWhenItFits` | crates/rurge-api/src/har.rs:24-27 | a duration is given exactly when its milliseconds are below 2^63 |
| `Timings.BeyondSixtyFourBits` | crates/rurge-api/src/har.rs:24-27 | at 2^64 - 1 ms of waiting it comes out as -1, and the sum as 0 |

## Left out

- TimingsOf: sums wrap around at 64 bits, as in a release build; a debug build stops there instead.
- RequireKey: its lookup and its failure are one after the other here; requests that come in between are events of the history, whose results hold for all orders of events.
- EscapesMeanWhatIcuMeans: says nothing of what is written for `\R` and `\Z`, whose frame is a group with alternatives and not a class.
- The parsing of lists, addresses, numbers and header lines, `#!include` files and the rest of a profile: taken as read, with unique names of policies and groups as the reader guarantees them.
- The regular-expression engines: a supplier of ordered captures that do not overlap, or of a failure; a filter of group members is any predicate of a name.
- Sockets, TLS itself, certificates, the scheduler and the clock: steps, times and durations given from outside. A read gives at least one byte and no more than asked.
- Bytes of UTF-8 text: positions of matches are positions of characters.
- Wording, places and hints of diagnostics, and what keeps secrets out of them.
- `first_final` and `effective_final`, references to unknown policies, and the other keys of `[General]`: first-match readings that would add only easy members.
- Routing and JSON of the API, and the HAR document around the timings.
