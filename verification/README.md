# A verified model of Rowsafe's readers, trackers and schedulers

Rowsafe is a PostgreSQL (and MySQL, MongoDB, Redis) agent with a command line, a monitoring collector, data
masking and a guard around database commands. This project models, in Dafny, the parts of it whose
correctness is not visible in one body:

- **Readers of text.** The lexer that accepts exactly one SQL statement (`Statement*.dfy`, `Sql*.dfy`), the shell
  line and word splitters of the command guard with the quoting they must undo (`Shell*.dfy`, `Command*.dfy`), and
  the reading of printed plan conditions back into predicates on columns (`Plan*.dfy`). Each reader is proved
  against a grammar of what can be written, printed by functions that know nothing of the reader.
- **Trackers of counters.** Cumulative statement counters turned into activity per interval against a server
  that evicts, re-adds and resets (`Activity*.dfy`, `TopStatements.dfy`, `StatementTracker.dfy`), and the plain
  counter tracker (`Delta.dfy`).
- **Schedulers.** Report slots with backoff (`Slots.dfy`) and the insights start/finish/take protocol
  (`Insights.dfy`).
- **Masking.** The keyed byte stream, same-format replacement and unique columns (`Masking*.dfy`).
- **Schema copying** as a run to the least fixpoint (`Schema.dfy`, `SchemaOrder.dfy`), **plan trees** (`PlanTree.dfy`) and
  **SHA-256-crypt** (`Crypt.dfy`).

`dafny verify dfyconfig.toml` verifies the whole project.

## How it is modelled

- A Go string that is read byte by byte is a `string` whose characters are the bytes; one that is read rune by
  rune is a `string` of runes. White space includes the multi-byte characters `strings.TrimSpace` removes.
- Times and durations are integer nanoseconds; floating point numbers are reals.
- SHA-256 and HMAC are arbitrary functions with 32-byte results; Unicode's letter, digit and case tables, the
  upper-cased leading word of a statement and the candidates a masking strategy proposes are function
  parameters. The 32-bit block counter of the stream wraps as in the source.
- A loop over a Go map takes its keys in an arbitrary order.
- PostgreSQL is what it is assumed to be: for schema copying, a statement succeeds when what it needs exists,
  a batch is all or nothing; for statement counters, a server that runs, evicts and re-adds entries at will;
  for plan conditions, a table of rows, comparisons that are never true of nulls, computed operands that are
  functions of the values in their text, and sub-selects and opaque conditions that are functions of the whole row.
- Where the source changes things step by step the model is a method or a class whose `ensures` ties it to a
  function, a predicate or a relation; the theorems are about those.

## Where the code does not do what it says

Each of these is the code as it stands; the exact condition under which the promise holds is proved.

- `commandWords` never returns on a segment with a newline inside quotes, and returns on every other
  (`ReturnsIffNoNewline`, `NewlineLoops`).
- `splitSegments` knows no backslash outside quotes, so a word with a single quote, which `ShellQuote` prints as
  `'\''`, can swallow the next command (`SingleQuoteSwallows`). A line is split back into its commands if and
  only if no command's text holds a separator read outside quotes and all but the last close their quotes
  (`LineRoundTripIff`); for one word and a command after it, that is that the word survives
  (`ProbeIffSurvives`). `shellWords` undoes `ShellQuote` for all words.
- `splitSegments` ends a command at a closing parenthesis, so that its output is piped on is lost there
  (`SubshellLosesPipe`); `SegmentsAre` says what is read from every line.
- `firstWord` closes a comment at the first `*/`, from the comment's own first byte on; the tokenizer nests
  comments. The two see the same end of a comment exactly when it is flat (`SameEndIffFlat`,
  `NestedCommentHidesKeyword`). For a whole text flatness is sufficient (`FirstWordAgrees`) and not
  necessary: after a nested comment a line comment can bring the two together again (`FlatNotNecessary`).
- `conditions` takes a column compared with something else for a predicate with a fixed value unless `mentions`
  sees the table in the other side. Three things that vary with the row are not seen: a correlated sub-select,
  printed `(SubPlan 1)`, or a volatile call, which name no column (`SubPlanUnsound`); a column after an apostrophe
  inside a quoted name, taken for the start of a literal (`ApostropheUnsound`); a table name with a double quote,
  which is doubled in print (`QuotedNameUnsound`). A comparison is read soundly if and only if whatever in it is
  compared with a column of the table and varies is seen (`CompareSoundIff`), and so is a disjunction of any depth
  from which anything is read (`DisjunctionSoundIff`). All trees whose comparisons are so guarded are read soundly
  (`ConditionsSound`); for names without apostrophes, a table name without double quotes and no sub-select
  compared with the table they always are (`PlainConditionsSound`).
- An entry whose counters did not go backwards is taken for one that was there all along: evicted and re-added, it
  is reported with exactly what ran since if and only if that is less than it had (`EvictedExactIff`,
  `EvictionHidesCalls`).
- `Observe` sums the entries of one ID; after an eviction the sum goes backwards and old calls are reported as
  new. It is safe exactly when no ID has two entries (`SafeIffOneEntry`, `SharedIdOverCounts`).
- The backoff cap is 30 minutes while intervals up to an hour are accepted: a failed send is never retried at
  a time already past exactly when the interval is at most 30 minutes (`RetryLaterIff`), and it goes back to its
  own slot exactly when it failed within the interval less the wait of that slot (`ReusesSlotIff`).
- "A slow run doubles the interval (up to 4 hours)" shortens it when the default is longer than 4 hours
  (`SlowNeverSoonerIff`).
- `execSchema` retries "until no more succeed", for six rounds at most: a chain of seven statements in the
  wrong order is given up (`LongChainGivenUp`). Up to a hundred statements are copied exactly in whatever order
  they come, if and only if each that six rounds of running everything at once would find ready is ready after
  five (`ExactInEveryOrderIff`); the condition is enough for lists of any length (`InTimeIsExact`).

## Model

| member | source | states |
|---|---|---|
| StatementTheorems.AcceptsExactly | local/readonly.go:57-154 | `readStatement` accepts a text if and only if every comment, quote and dollar body ends, the part before the first top-level semicolon is not blank, and only semicolons, blanks and comments follow it |
| StatementTheorems.ReturnsStatement | local/readonly.go:145-154 | what it returns: the trimmed text before the first top-level semicolon of the token list, and the largest parameter number that fits an int |
| StatementTheorems.ReadTwice | local/readonly.go:57-154 | reading the returned text again is accepted and returns the same text, parameter and first word |
| StatementTheorems.TokensTile | local/readonly.go:61-144 | tokens tile the text: each starts where the one before ended, and they end with the text unless one is left open |
| SqlText.WriteReads | local/readonly.go:61-144 | SQL printed from its parts (plain and E strings with doubled quotes and backslashes, quoted names, dollar bodies, nested comments, remarks, parameters, semicolons, other bytes) is read back to exactly those parts, one token each |
| SqlReading.EndsIffWritten | local/readonly.go:61-144 | every construct of a text ends if and only if the text can be so written |
| SqlReading.ReadsWritten | local/readonly.go:57-154 | of a written text `readStatement` accepts exactly those with something before the first semicolon and nothing but blanks, comments and semicolons after it, and returns the former and the largest parameter that fits an int |
| SqlReading.AcceptsWritten | local/readonly.go:57-154 | it accepts exactly the texts that can be written as one statement |
| SqlReading.DecimalOfDigits | local/readonly.go:122-124 | a parameter's digits, with or without leading zeros, are its number |
| StatementTheorems.SkipsBlanks | local/readonly.go:177 | what is skipped before the keyword is white space and opening parentheses, to where neither stands |
| ByteText.TrimSpaceCuts | local/readonly.go:58 | trimming cuts off white space characters at both ends, and nothing else |
| StatementTheorems.SameEndIffFlat | local/readonly.go:185-190 | `firstWord` and the tokenizer close a comment at the same place if and only if it holds no other comment and does not begin `/*/` |
| StatementTheorems.FirstWordAgrees | local/readonly.go:175-193 | with flat leading comments, the first word is looked for where the tokenizer's first code byte stands |
| StatementTheorems.NestedCommentHidesKeyword | local/readonly.go:185-190 | a comment in a leading comment: the statement is accepted and `firstWord` looks inside the comment |
| StatementTheorems.FlatNotNecessary | local/readonly.go:175-193 | a text whose leading comment is not flat and on which the two agree all the same |
| StatementReader.ReadStatement | local/readonly.go:57-154 | the byte loop computes the reference reading: trim, tokens, pass, first word, and the same error otherwise |
| StatementReader.ScanTokens | local/readonly.go:61-144 | the main loop refines the recursive pass over the token list |
| StatementReader.NextToken | local/readonly.go:67-143 | one turn of the switch is one reference token |
| StatementReader.SkipLine | local/readonly.go:68-72 | stops at the newline or the end |
| StatementReader.SkipBlock | local/readonly.go:73-94 | the depth counter finds the end that recursively nested comments have |
| StatementReader.SkipQuoted | local/readonly.go:95-115 | the end of a quoted text with doubled quotes and, after E, backslashes |
| StatementReader.SkipDigits | local/readonly.go:118-121 | the end of a parameter's digits |
| StatementReader.DollarTag | local/readonly.go:161-171 | the end of a `$tag$`, if one stands there |
| StatementReader.FirstWord | local/readonly.go:175-199 | the loop finds where the first word is looked for |
| ShellTheorems.WordsRoundTrip | mcp/guard.go:306-345 | `shellWords` undoes `ShellQuote`: any words, quoted and joined by blanks, are read back, embedded single quotes included |
| ShellWritten.WrittenReads | mcp/guard.go:306-345 | words made of bare characters, single and double quoted texts and backslashes, in any mixture, with blanks between, are read back to what they hold |
| ShellWritten.WordsAre | mcp/guard.go:306-345 | every line is such a line, an open quote running to its end; so its words are what it was written from |
| ShellSegments.CommandsRead | mcp/guard.go:189-239 | commands with quoted texts between semicolons, newlines, ampersands, parentheses, single and double bars and bar-ampersands are read back as segments, `pipes` exactly before a bar that is single or followed by an ampersand |
| ShellSegments.SegmentsAre | mcp/guard.go:189-239 | every line is such a line, so its segments are what it was written from |
| ShellSegments.SubshellLosesPipe | mcp/guard.go:219-233 | a command in parentheses before a bar is read as two segments neither of which pipes |
| Shell.TrimIs | mcp/guard.go:195 | a segment's text is trimmed of white space at both ends, and of nothing else |
| ShellLines.LineRoundTripIff | mcp/guard.go:189-239 | for every line of non-empty quoted commands joined by a semicolon, a newline, a single or double ampersand, a single or double bar or a bar and ampersand, `splitSegments` yields one segment per command with `pipes` exactly before a single bar or a bar and ampersand if and only if no command holds a separator that is read outside quotes and all but the last close their quotes; then `shellWords` gives each command's words back |
| ShellTheorems.LineRoundTrip | mcp/guard.go:189-239 | so it is for all lines whose words survive quoting |
| ShellTheorems.QuoteFreeSurvives | client/ssh.go:179-184 | every word without single quotes survives |
| ShellTheorems.ProbeIffSurvives | mcp/guard.go:202-236 | the line of a word and another command reads back as two commands if and only if the word survives |
| ShellTheorems.SingleQuoteSwallows | mcp/guard.go:202-236 | a word with a single quote that swallows the next command |
| ShellReader.ShellWords | mcp/guard.go:306-345 | the rune loop computes the recursive word reader |
| ShellReader.SplitSegments | mcp/guard.go:189-239 | the rune loop with its quote state and builder computes the recursive segment reader |
| ShellReader.RemoteCommand | client/ssh.go:167-184 | the command is the words quoted and joined, and reading it gives `sh`, `-c`, the script, the name and all arguments back |
| CommandWords.ReturnsIffNoNewline | mcp/guard.go:245-284 | `commandWords` returns on a segment if and only if it has no newline |
| CommandWords.BlankWordIsShorter | mcp/guard.go:248-257 | without newlines, a word with a blank is strictly shorter than its segment: the recursion's measure |
| CommandWords.NewlineLoops | mcp/guard.go:248-257 | a two-line quoted word is its own only word |
| CommandWords.DepthDoesNotMatter | mcp/guard.go:245-284 | the result does not depend on the number of nested calls allowed, once enough |
| CommandWords.DropWrappers | mcp/guard.go:258-284 | what is left is the end of the list and starts with neither an assignment nor a wrapper |
| CommandLines.PrefixesDropped | mcp/guard.go:258-283 | from a command written with any assignments, wrappers with their flags and the flags' values up to `--` or the first word that is none, and runners with their verb, what is left is the command |
| CommandLines.AssignmentIff | mcp/guard.go:286 | an assignment is a name, an equals sign and anything |
| CommandLines.ShellFlagsIff | mcp/guard.go:303 | combined shell flags are a dash and letters with a c among them |
| CommandLines.BaseOf | mcp/guard.go:347 | a tool is known by its name whatever directory stands before it |
| CommandLines.ScriptAfterIs | mcp/guard.go:290-301 | after which words a quoted argument is a script |
| CommandLines.PlainResult | mcp/guard.go:245-257 | words without blanks are the command |
| CommandLines.ScriptResult | mcp/guard.go:248-257 | a quoted script where one is run stands for its own words, and elsewhere or without words for itself |
| CommandLines.WrittenScript | mcp/guard.go:245-284 | prefixes, `sh -c` and a script, all quoted by `ShellQuote`, are read as `sh -c` and the words of the script |
| CommandWords.DropLeading | mcp/guard.go:258-284 | the dropping loop computes it |
| CommandWords.ReadCommand | mcp/guard.go:245-284 | on newline-free segments the recursive method returns the words of the reference |
| PlanReading.ConditionsRead | local/explain.go:831-904 | for every printed AND/OR/comparison/null test/flag/opaque tree, `conditions` returns exactly the predicates of the tree's top-level conjuncts |
| PlanMeaning.ConditionsSound | local/explain.go:831-904 | for every tree whose comparisons are guarded, in every world: each predicate returned is on the table, and wherever the condition is true the row is one it speaks of; an equality or an OR of equalities confines the column to finitely many values |
| PlanMeaning.PlainConditionsSound | local/explain.go:831-904 | the same for names without apostrophes, a table name without double quotes, and no sub-select or volatile call compared with the table |
| PlanExact.CompareSoundIff | local/explain.go:876-901 | a comparison of any two operands by any operator is read soundly if and only if whatever is compared with a column of the table and varies from row to row is seen by `mentions` |
| PlanExact.DisjunctionSoundIff | local/explain.go:835-850 | a disjunction of any depth is read soundly if and only if nothing is read from it or all its comparisons are guarded |
| PlanExact.SubPlanUnsound | local/explain.go:894-901 | `(o.total = (SubPlan 1))` is taken for an equality with a value |
| PlanExact.ApostropheUnsound | local/explain.go:976-991 | `(a.x = (b."it's" + a.y))` is taken for an equality with a value |
| PlanExact.QuotedNameUnsound | local/explain.go:976-991 | a table named with a double quote: its x = y is taken for an equality with a value |
| PlanExact.FormsAreRead | local/explain.go:858-904 | in any conjunction each equality or range of a column of the table with something that does not name it, each join, null test and flag is read |
| PlanExact.OrIsRead | local/explain.go:835-850 | an OR of equalities on one column is read as one |
| PlanExact.SignsSpelled | local/explain.go:873-901 | how each comparison is spelled and what it means |
| PlanExact.CastsSpelled | local/explain.go:911-916 | how each cast to text is spelled |
| PlanExact.MentionStands | local/explain.go:976-991 | what is taken for a mention stands there, and is not the end of a longer name |
| PlanMeaning.PredsConfine | local/explain.go:831-856 | each predicate of a tree whose comparisons are guarded confines the table |
| PlanMeaning.MentionsComplete | local/explain.go:976-991 | `mentions` misses no column of the table in an operand, when the table's name has no double quote and no name in the operand an apostrophe |
| PlanColumns.ColReads | local/explain.go:921-972 | `colRef` undoes the printing of a column, whatever its quoted names hold |
| PlanColumns.OperandReads | local/explain.go:909-919 | `plainCol` reads an operand as the column it is, through parentheses and casts to text, and as none when it is computed |
| PlanScan.SplitJoin | local/explain.go:1025-1047 | texts joined by a separator that none of them holds at its top level are split back into the list |
| PlanWritten.SplitsWritten | local/explain.go:1025-1047 | texts of characters, quoted texts and groups in parentheses or brackets, however nested and whatever is inside, are cut at the separators between them and nowhere else |
| PlanWritten.ClosesWritten | local/explain.go:1004-1022 | the closing parenthesis is found past all groups and quoted texts in between |
| PlanWritten.NamesRead | local/explain.go:930-972 | any list of bare or quoted names joined by dots is read back |
| PlanScan.UnwrapTwice | local/explain.go:995-1002 | unwrapping is idempotent |
| PlanText.PartLength | local/explain.go:831-838 | each part of a split is strictly shorter when there are several: the recursion's measure |
| PlanReader.SplitAtTop | local/explain.go:1025-1047 | the index loop computes the recursive split |
| PlanReader.FindClosing | local/explain.go:1004-1022 | the index loop finds the closing parenthesis |
| PlanReader.StripParens | local/explain.go:995-1002 | the loop computes the unwrapped text |
| PlanReader.ReadIdents | local/explain.go:930-972 | the loop computes the dotted identifiers |
| PlanReader.FindMention | local/explain.go:976-991 | the loop decides whether the alias is mentioned |
| PlanReader.ReadConditions | local/explain.go:831-856 | the recursive method, appending to its result, computes the predicates and ends |
| PlanReader.ReadPart | local/explain.go:833-853 | one conjunct, the branches of an OR read by recursion |
| PlanTree.Explain.Read | local/explain.go:404-478 | the steps are the tree's preorder, `slowest` is the first step of the greatest positive weight (0 if none), `share` is in (0,1] and is that step's part of the total whenever the total is positive, else 0 |
| PlanTree.Explain.Walk | local/explain.go:412-462 | appends the preorder of a subtree; the node's step number is its position |
| PlanTree.ChildBlock | local/explain.go:459-461 | the k-th child's whole tree stands right after the trees of the children before it |
| PlanTree.ChildStep | local/explain.go:413-461 | a tree's first step is its root's, and the k-th child's step stands where its block begins, one deeper |
| PlanTree.StepMeans | local/explain.go:441-457 | a step's own cost and time are the node's less those of its children that are no InitPlans, not below zero; an untimed node takes nothing |
| PlanTree.SelfCostIdentity | local/explain.go:451-457 | self costs sum exactly to the root's cost plus the InitPlans' plus what children cost beyond their parents |
| PlanTree.SelfCostsExactIff | local/explain.go:451-457 | self costs sum to at least the root's cost, and to exactly it if and only if InitPlans cost nothing and no node's children cost more than it |
| PlanTree.SelfTimeIdentity | local/explain.go:441-450 | over an analyzed tree self times sum exactly to the root's time plus the InitPlans' plus what children take beyond their parents |
| PlanTree.SelfTimesExactIff | local/explain.go:441-450 | they sum to at least the root's time, and to exactly it if and only if InitPlans take none and no node's children take more than it |
| PlanTree.TotalIs | local/explain.go:464-477 | the whole that shares are taken of is that sum of times, or of costs for a plan that was not analyzed |
| PlanTree.SelfOf | local/explain.go:441-457 | the two loops compute a node's own time and cost, never negative |
| PlanTree.SlowestOf | local/explain.go:464-477 | the scan for the slowest step and its share |
| Activity.NeverOverCounted | collect/statements.go:272-292 | whatever is run, evicted and re-added between two readings, whole or cut short, no entry is reported with more calls, time, rows or blocks than ran |
| Activity.TotalNeverOverCounted | collect/statements.go:234-239 | an interval's total is at most what ran in it |
| Activity.TotalExact | collect/statements.go:234-239 | with whole readings and no eviction the total is exactly what ran |
| ActivityExact.ListedExact | collect/statements.go:277-292 | readings cut short or not, an entry in both and not evicted in between is reported with exactly what ran of it, and not at all when nothing did |
| ActivityExact.NewExact | collect/statements.go:281-286 | an entry in the later reading only is reported with exactly what ran since it was added, unless a reading was cut short, and then not at all |
| ActivityExact.EvictedExactIff | collect/statements.go:285-289 | an entry in both that was evicted in between is reported with exactly what ran since if and only if that is less than it had, in calls or time |
| ActivityExact.EvictionHidesCalls | collect/statements.go:285-289 | one call, an eviction, two calls: one is reported |
| ActivityExact.CutExact | collect/statements.go:277-314 | without evictions the total reported from readings cut short is what ran, over the entries in both |
| ActivityExact.CutRunExact | collect/statements.go:221-239 | over a run of such readings exactly that is reported |
| ActivityExact.MergeAddsUp | collect/enginestatements.go:56-67 | each ID gets everything listed under it, added up |
| ActivityExact.MergeIsMerged | collect/enginestatements.go:56-67 | a server's rows merge to the reading whose safety SafeIffOneEntry characterises |
| Activity.SafeIffOneEntry | collect/enginestatements.go:56-67 | summing the entries of one ID never over-counts if and only if no ID has two entries |
| Activity.SharedIdOverCounts | collect/enginestatements.go:56-67 | for any two entries of one ID, a history in which old calls are reported as new |
| StatementTracker.RunNeverOverCounts | collect/statements.go:179-239 | over any run of readings, with any evictions, resets, epochs, gaps and cuts, everything reported is at most everything that ran |
| StatementTracker.QuietRunExact | collect/statements.go:221-239 | over a run of one epoch, whole readings, gaps in range and no eviction, everything that ran is reported |
| StatementTracker.QuietRunTelescopes | collect/statements.go:221-239 | the totals of such a run sum to the server's final totals minus its first |
| StatementTracker.StmtState.Read | collect/statements.go:200-241 | the new state is always the new reading; a report is made exactly in one epoch with a gap in range, and sums, picks and counts exactly the interval's activity |
| StatementTracker.StmtTracker.Observe | collect/enginestatements.go:55-94 | the same for the other engines, with equal IDs summed: the totals are the sums over the interval's activity, listed once per ID |
| StatementTracker.MergeRows | collect/enginestatements.go:56-67 | the loop sums rows with the same key |
| TopStatements.StatementDeltas | collect/statements.go:277-314 | whatever the map's order: each query with activity once, the sums over its positive key deltas, `topMs` the greatest of them and the top database and user a key that has it, in order |
| TopStatements.ReportIsUnique | collect/statements.go:277-314 | any two such lists have the same statements, sums and order |
| TopStatements.ReportTotal | collect/statements.go:235-239 | the list's total is the sum over all entries with activity |
| TopStatements.PickIsTopK | collect/statements.go:316-326 | for lists of any length: picked and dropped together are the list, nothing dropped takes more time than any of the first 40 or has more calls than any of the last 10 |
| TopStatements.BuildStats | collect/enginestatements.go:96-125 | for a list in any order: totals over all statements, the pick of the list put in order, busiest first, and the number left out |
| TopStatements.Summarize | collect/statements.go:235-241 | totals over all statements, the pick, and the number left out |
| Delta.DeltaTracker.Observe | collect/delta.go:34-53 | the sample is replaced; increases are reported exactly when the previous one has the epoch and is a second or more old, for exactly the counters in both that did not fall |
| Delta.DeltaTracker.Forget | collect/delta.go:57-64 | exactly the keys of databases kept stay, unchanged |
| Delta.KeysIndependent | collect/delta.go:34-64 | over any run of calls, what is known of a key follows from its own readings and the forgets that drop it |
| Delta.IncreasesNotNegative | collect/delta.go:45-51 | no increase is negative and no interval is under a second |
| Delta.ReportedIff | collect/delta.go:37-53 | a counter is reported exactly when both readings have it, in one epoch and a second or more apart, and it did not fall; with the difference |
| Delta.DatabaseIs | collect/delta.go:55-59 | a key's database is what comes before its first slash |
| Delta.NeverOverReported | collect/delta.go:16-64 | over any run, however often the counter restarts, with its epoch or alone, and whatever is forgotten or left out of a reading, no more is reported than happened |
| Delta.ExactIffCounted | collect/delta.go:34-64 | the reported increases sum to last minus first if and only if every reading that found growth was comparable with the one before it, and never to more |
| Delta.SteadyExact | collect/delta.go:34-64 | with one epoch, gaps of a second and the key kept, they sum to last minus first |
| Slots.NextSlot | collect/collector.go:163-169 | the least time after now that is congruent to the offset, found with at most one turn of the loop |
| Slots.SlotIffCongruent | collect/collector.go:161-164 | being a slot is being congruent to the offset modulo the interval |
| Slots.RunTurn | collect/collector.go:130-158 | one turn of the send loop: failures, interval and next slot |
| Slots.WaitIs | collect/collector.go:146 | the wait is the interval times 2 to the number of failures, six at most, and never more than 30 minutes |
| Slots.IntervalsAccepted | collect/collector.go:154-156 | every interval of a run is the first or the last accepted one, 15 to 3600 seconds |
| Slots.FailedSlot | collect/collector.go:143-152 | after a failed send the next slot is in (now + wait - interval, now + wait] |
| Slots.RetryLaterIff | collect/collector.go:147-151 | for sends that waited for a slot, the next slot after a failure is always after now if and only if the interval is at most 30 minutes |
| Slots.ReusesSlotIff | collect/collector.go:143-152 | a failed send goes back to its own slot, or one before it, if and only if it failed sooner after that slot than the interval less the wait |
| Slots.SlotsIncrease | collect/collector.go:120-158 | over a run no slot is used twice, given that sends fail only at intervals of at most 30 minutes |
| Insights.InsightsState.Start | collect/insights.go:47-64 | whether a run begins, and the new state |
| Insights.InsightsState.Finish | collect/insights.go:68-84 | the new interval, next time and result |
| Insights.InsightsState.Take | collect/insights.go:87-93 | the result is handed out and gone |
| Insights.AtMostOneRun | collect/insights.go:47-84 | over every interleaving in which only runs in flight finish, at most one run is in flight |
| Insights.ReadyIsNewest | collect/insights.go:81-93 | what is ready is the newest result since the last take |
| Insights.HandedOutOnce | collect/insights.go:86-93 | two takes never hand out the same run's result, and each hands out the newest |
| Insights.TakeIffNewest | collect/insights.go:86-93 | a take hands out a result exactly when a run left one since the last take, and then the newest |
| Insights.StartsIffDue | collect/insights.go:47-64 | after a finish a start begins a run exactly when none is in flight and the interval is over |
| Insights.FirstStartIff | collect/insights.go:53-61 | before the first finish, exactly when none is in flight and the first delay is over |
| Insights.StartsAfterInterval | collect/insights.go:59-80 | a run begins no earlier than the last finish plus the interval it left |
| Insights.IntervalFormula | collect/insights.go:72-79 | over every interleaving, after k slow runs in a row the state's interval is the lesser of the default times 2^k and 4 hours, and after a quick one the default |
| Insights.SlowNeverSoonerIff | collect/insights.go:75-79 | over all legal histories a slow run never leaves a shorter interval than the run before it, if and only if the default is at most 4 hours |
| Masking.Stream.Byte | masking/masking.go:132-149 | the buffered stream's k-th byte is byte k mod 32 of keyed block k div 32 |
| Masking.Stream.Intn | masking/masking.go:152-155 | a number below n, from the next three bytes |
| Masking.SameFormat | masking/masking.go:237-273 | the loop over the stream computes the pure replacement from the stream's position |
| Masking.MaskNext | masking/masking.go:244-270 | one rune's replacement and the bytes it takes |
| Masking.FormatKept | masking/masking.go:237-273 | the replacement has as many runes, each in its class and case, others unchanged, and a first digit other than zero stays so |
| MaskingFormat.RuneBecomes | masking/masking.go:240-272 | each letter or digit becomes its class's first character plus the number of the three stream bytes at its place, modulo 26 or 10; a leading digit other than zero becomes one again, from the next draw modulo 9; everything else stays |
| MaskingFormat.NothingShows | masking/masking.go:237-273 | two texts of one shape get one replacement from one stream |
| MaskingFormat.EveryCharacter | masking/masking.go:237-273 | every letter or digit can become each character of its class |
| Masking.BigEndianMeans | masking/masking.go:139-141 | the block number's four bytes, highest first |
| Masking.ColumnMasker.Mask | masking/plan.go:137-156 | the answer and what is remembered after it |
| Masking.HistoryKeeps | masking/plan.go:119-156 | over every history `taken` is exactly the values of `seen`, which is injective, and nothing remembered changes |
| Masking.SameAnswer | masking/plan.go:137-156 | over every history a value always gets the same answer |
| Masking.DistinctAnswers | masking/plan.go:137-156 | in a unique column no two values get the same fake |
| Masking.FirstCandidateIffFree | masking/plan.go:141-153 | a unique column gives a new value what any other column would if and only if its first candidate is free |
| Masking.NoneIff | masking/plan.go:141-155 | a value is left alone exactly when its candidates are taken up to an attempt that has none, or all twenty are |
| Schema.ExecSchema | local/schema.go:155-188 | the run is the function of the start and the statements the theorems speak of; every statement ran, is a harmless comment or is failed; nothing is made that is not in the least schema; with nothing failed the result is exactly that |
| Schema.ExactWhenStuck | local/schema.go:168-182 | a run that ends because nothing is pending or a round made no progress has made the least fixpoint, and the failed are exactly those outside it |
| Schema.RoundsKept | local/schema.go:168-182 | n rounds make at least what n rounds of everything at once would, and what is pending was not ready in the last of those |
| SchemaOrder.ExactInEveryOrderIff | local/schema.go:155-188 | up to 100 statements reach the least fixpoint in every order if and only if each ready in the sixth stage is ready in the fifth |
| SchemaOrder.InTimeIsExact | local/schema.go:155-188 | the condition is enough for lists of any length |
| Schema.RunBatches | local/schema.go:157-166 | the first pass: whole batches of 100 run or stay pending |
| Schema.BatchesKept | local/schema.go:157-166 | the first pass loses no statement and makes nothing a closed schema would not have |
| Schema.RunRound | local/schema.go:169-182 | one round, statement by statement |
| Schema.RoundKept | local/schema.go:169-182 | a round loses no statement, keeps pending only what failed when it began, and stays within every closed schema |
| Schema.Database.ExecBatch | local/schema.go:160-165 | all statements of a batch or none |
| Schema.StuckIffFails | local/schema.go:178-180 | a round drops nothing if and only if every pending statement fails, and then changes nothing |
| SchemaOrder.LongChainGivenUp | local/schema.go:152-188 | a chain of 7 to 100 statements in the wrong order: all but six are given up, none of which should be |
| Schema.LeastIsUnique | local/schema.go:151-154 | there is one least schema |
| Schema.StageBelow | local/schema.go:168-182 | running everything at once any number of times stays within it |
| Crypt.FeedBlocks | client/copypass.go:126-130 | the 32-byte loop and the remainder feed exactly the digest repeated to the password's length, for passwords of any length |
| Crypt.RepeatTo | client/copypass.go:189-195 | the first n bytes of the digest repeated |
| Crypt.FeedBits | client/copypass.go:131-137 | the digest for each 1 and the password for each 0 of the length's binary digits, lowest first |
| Crypt.BitsAreUnique | client/copypass.go:131-137 | those digits are determined by the length |
| Crypt.TimesIsCyclic | client/copypass.go:140-149 | writing bytes k times is their repetition to k times their length |
| Crypt.HashRounds | client/copypass.go:116-170 | the result is the one steps 1 to 21 of "Unix crypt using SHA-256 and SHA-512" define |
| Crypt.RoundInputIs | client/copypass.go:152-170 | each round hashes the result so far once, first or last by the round's parity, the password's sequence at the other end, and in between the salt's unless 3 divides the round and the password's unless 7 does |
| Crypt.CryptIsUnique | client/copypass.go:116-170 | that definition determines the result |
| Crypt.B64 | client/copypass.go:173-179 | the digits of base 64 of three bytes, lowest first |
| Crypt.Encode | client/copypass.go:172-184 | the text encodes the digest, group by group |
| Crypt.DecodeInvertsEncode | client/copypass.go:180-183 | all 32 bytes can be read back from the 43 characters |
| Crypt.EncodingInjective | client/copypass.go:172-184 | texts are equal if and only if the digests are |
| Crypt.CodesAreEncodings | client/copypass.go:172-184 | the texts that are encodings are exactly those of 43 alphabet characters whose last is one of the first 16 |
| Crypt.Sha256Crypt | client/copypass.go:116-185 | the output is the encoding of the digest the algorithm defines |

## Left out

- Schema.ExecSchema: a cancelled context, on which the source drops the untried rest of a round, is not modelled, and the texts of the errors are not.
- Schema.Database.ExecBatch: a statement depends on named objects only; other reasons for PostgreSQL to refuse one are not modelled.
- StatementTheorems.FirstWordAgrees: one direction only for a whole text, since a line comment after a nested comment can bring the two readings together (FlatNotNecessary); the exact condition is stated for each comment by SameEndIffFlat.
- StatementReader.FirstWord: which characters are letters and how they are upper-cased is a parameter.
- ShellReader.RemoteCommand: the script is a parameter, since its text plays no part.
- PlanMeaning.ConditionsSound: one direction for trees with conjunctions, where a conjunct that is never true makes any other sound; opaque conditions and computed operands are any text that stands alone between connectives.
- PlanTree.Explain.Read: the detail lines, labels and row counts of a step are report text and are left out.
- StatementTracker.StmtState.Read: the query that reads the rows, the statement texts and the database and role names are left out; a row is a key and its counters.
- StatementTracker.StmtTracker.Observe: statement IDs are integers, of which only equality and order matter.
- Masking.ColumnMasker.Mask: the strategies that propose candidates, and how their streams are seeded, are a parameter; emails, addresses, dates, noise and JSON are not modelled.
- Slots.NextSlot: for a negative offset Go's remainder would be negative where the model's is not; the offset is between 5 and 50 seconds.
- Cutting texts to a length on a character boundary (`truncateText`, `clip`, `truncate`): one short loop each.
- The tables of destructive tools, statements and scripts in `mcp/guard.go`: case lists and regular expressions.
- SQL text, catalog reads, sessions, the control plane API, SSH and HTTP: behaviour that lives elsewhere.
- The index advisor, whose predicates the plan reader feeds, is not part of this model.
