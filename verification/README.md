# Gates and seeds of the pilot, as models with proofs

The repository's operator tools decide what may ship and write what the pilot shows. This project models
the ones whose behaviour is hard to see by reading one function, and proves what they promise:

* the **licence gate** (`SpdxGrammar`, `SpdxPolicy`, `SpdxTexts`): a recursive-descent evaluator over a mutable cursor,
  the one-pass scanner that must agree with it, and the decision about one distribution;
* the **migration gate** (`MigrationTemplates`, `MigrationText`, `MigrationSql`, `MigrationReports`, `MigrationLayout`,
  `MigrationPatterns`, `MigrationCalls`, `MigrationGate`): a string evaluator over a flow-insensitive binding table with
  `%` and `.format` templates, SQL normalisation and statement patterns, what is reported of an executed name or call,
  worklist reachability and a multiset baseline;
* the **environment isolation check** (`TerraformBlocks`, `TerraformText`, `TerraformPlaces`, `TerraformLines`,
  `EnvironmentIsolation`, `EnvironmentRules`): a line and brace reader, and rules that add up to a statement about all
  environments at once;
* the **reconcilers** (`Redemptions`, `RedemptionRuns`, `RedemptionBooks`, `StudentAgenda`, `LoginAccounts`,
  `SeedLogins`, `LoginRuns`, `SeedReruns`, `SeedPromises`, `Journeys`, `JourneyRuns`): seeds that converge from any
  earlier state, with the store they write to and what else writes to it;
* the **dataset arithmetic** (`FrequentCodes`, `SpeakerFeedback`, `EventTargets`);
* the **front-matter reader** (`FrontMatter`, `FrontMatterRecords`).

`Outcomes`, `Ordering`, `Arithmetic`, `Trimming`, `Lines` and `Casing` hold what they share. Code that changes things step
by step is a method or a class whose contract ties its new state to a specification function; the theorems are about
those functions, and each of those functions is also described from outside, with its characters, words and numbers
written out. A raised exception is an `Err`, and a refused transaction is rolled back where the tool rolls it back.

## Where the code does not do what is said of it

In each case the code is kept as it is, the failure is shown on a concrete or general input, and the exact condition
under which the promise holds is proved.

* A `WITH` followed by a parenthesis or an operator is accepted by the evaluator, while the scanner goes on and
  swallows the next licence (`ScannerAgreesExactlyWhenReadable`). A refusal can then name nothing
  (`RefusalsNameACulpritExactlyWhen`), and an exception cite nothing (`ExceptionsAreCitedExactlyWhen`);
  `UnreadableOperandCitesNothing` shows both.
* Bindings of one name are joined before comments are removed, so one that ends inside a comment hides the next
  (`NextTextIsReadExactlyWhenClosed`, `NextBindingIsReadExactlyWhenClosed`, `DropBehindOpenCommentIsMissed`).
* Renaming an index is documented as not reported. It is not in a plain text, and it is in a wrapping call such as
  `sa.text`, whose unknown receiver stands before `ALTER INDEX` (`WrappedIndexRenameIsReported`); this is the only
  difference a wrapping call makes (`WrappedTextIsReportedExactly`).
* Templates are said to be followed through `%` and `.format`. A template that doubles its mark, as Python escapes it, is
  misread, and no other (`FormatIsReadExactlyWhenUndoubled`, `PercentIsReadExactlyWhenUndoubled`).
* `direct` is documented as the part of `body` at depth one; a line that carries the closing brace at its end is in
  `direct` only (`DirectIsInBodyExactlyWhen`, `ClosingLineCanBeDirectOnly`).
* The stride of 7 is said to keep pairs from repeating within a run; it does so exactly up to a least common multiple
  (`PairsRepeatExactlyBeyondTheLcm`).
* The cycle of 36 stages is said to bring 180 journeys to 40, 45, 35, 45 and 15; it brings them to 45, 40, 40, 40 and 15
  (`FunnelOf180`).
* The rotation is said to walk the whole vocabulary; whatever the draws, it does so exactly when three does not divide
  its size (`CalendarCoversExactly`). The two vocabularies in use have 20 and 10 codes.
* The registration counter of the demo student is one too few when the place to give up was already held and others
  were taken (`CounterIsExactUnless`, `CounterMissesOne`).

## Model

| member | source | states |
|---|---|---|
| SpdxGrammar.SpacedTokensReadBack | tools/supply_chain.py:367-371 | Tokens written with blanks between them are found again one for one, so a tree can be carried through its text. |
| SpdxGrammar.AcceptsExactlyExpressions | tools/supply_chain.py:395-456 | A token stream is accepted if and only if it is one whole expression of the grammar (any token allowed after `WITH`), and then it has exactly one reading. |
| SpdxGrammar.PrintingKeepsMeaning | tools/supply_chain.py:417-451 | Printing a licence tree with the parentheses precedence needs gives a well-formed expression with the tree's meaning: `WITH` over `AND` over `OR`. |
| SpdxPolicy.PrintedTreeEvaluates | tools/supply_chain.py:395-456 | For every licence tree and policy, the verdict on its printed text is the tree's Boolean meaning (SPDX 2.3, Annex D.4). |
| SpdxPolicy.Evaluator.ParseOr | tools/supply_chain.py:417-422 | The loop over the shared cursor decides what the grammar's reading from that position means, leaves the cursor after it, and raises where the reading fails. |
| SpdxPolicy.Evaluator.ParseAnd | tools/supply_chain.py:424-429 | The same for the `AND` loop, which always consumes a token. |
| SpdxPolicy.Evaluator.ParseAtom | tools/supply_chain.py:431-451 | The same for an atom: identifier, identifier with an exception, or a parenthesised expression. |
| SpdxPolicy.Evaluate | tools/supply_chain.py:395-456 | The cursor-driven evaluator agrees with the grammar on every text, trailing tokens and empty input included. |
| SpdxPolicy.RefusalIgnoresPolicy | tools/supply_chain.py:395-456 | A text is refused if and only if its tokens are not one whole expression, with the same error under every policy; so the evaluation outside the `try` cannot raise. |
| SpdxPolicy.LicenseIds | tools/supply_chain.py:374-392 | The one-pass scanner returns what its token-by-token specification keeps, without repeats, in order of first appearance. |
| SpdxPolicy.ScannerAgreesExactlyWhenReadable | tools/supply_chain.py:374-392 | The scanner sees every licence of an expression, in order, if and only if each `WITH` but the last is followed by a plain identifier. |
| SpdxPolicy.VerdictDependsOnScannedIds | tools/supply_chain.py:374-456 | For such expressions the verdict is monotone in the allowed set, depends only on the scanned identifiers, and is true when all of them are allowed. |
| SpdxPolicy.ResolveOne | tools/supply_chain.py:605-696 | Always returns a resolution; which of the six statuses, and that a disallowed one lists exactly the uncovered scanned identifiers and an exception exactly the recorded reasons used. |
| SpdxPolicy.RefusalsNameACulpritExactlyWhen | tools/supply_chain.py:667-696 | Every refusal of an expression names an identifier outside the policy, whatever the policy, if and only if allowing the scanned identifiers would satisfy the expression. |
| SpdxPolicy.ExceptionsAreCitedExactlyWhen | tools/supply_chain.py:667-696 | Every pass by exception cites an exception recorded for that distribution, whatever the policy, if and only if the expression turns on its scanned identifiers alone; readable expressions do. |
| SpdxPolicy.UnreadableOperandCitesNothing | tools/supply_chain.py:374-392 | `MIT WITH ) AND X` is refused without naming anything, and passes by exception without citing anything. |
| SpdxTexts.SpelledIsOneToken | tools/supply_chain.py:351-352 | Every non-empty text of ASCII letters, digits, `.`, `+` and `-` is one token. |
| SpdxTexts.OtherCharactersSeparate | tools/supply_chain.py:352-371 | Any other character but a parenthesis separates tokens and is dropped; a parenthesis is a token of its own. |
| SpdxTexts.OperatorsInAnyCase | tools/supply_chain.py:395-451 | A token is an operator exactly when it spells `and`, `or` or `with`, letter by letter in either case. |
| SpdxTexts.IdentifierIsJudged | tools/supply_chain.py:395-456 | Such a text, unless it is an operator in any case, evaluates to whether it is allowed. |
| SpdxTexts.SumIsJudged | tools/supply_chain.py:424-429 | Two identifiers and an `AND` in any case: both have to be allowed. |
| SpdxTexts.ChoiceIsJudged | tools/supply_chain.py:417-422 | Two identifiers and an `OR` in any case: one has to be. |
| SpdxTexts.ExceptionIsJudged | tools/supply_chain.py:431-451 | An identifier with an exception is judged by the identifier, whatever the exception is called. |
| SpdxTexts.AndBindsTighter | tools/supply_chain.py:417-429 | `AND` binds tighter than `OR`, on either side of it. |
| SpdxTexts.ScannerKeepsIdentifiers | tools/supply_chain.py:374-392 | The scanner keeps both identifiers of a sum or a choice, and of an exception only the licence. |
| SpdxTexts.BrokenExpressionsAreTold | tools/supply_chain.py:406-456 | Each of the six complaints about an unreadable expression, on the tokens that draw it. |
| MigrationText.CollectBindings | tools/migration_expand_contract_check.py:233-260 | The table holds, for each plain name, every value bound to it in source order, and no other name. |
| MigrationText.ActiveMattersOnlyWhereReached | tools/migration_expand_contract_check.py:263-296 | The cut-off set changes an expression's text only through the names the expression reaches; cyclic tables included. |
| MigrationText.TextIsTheRuntimeString | tools/migration_expand_contract_check.py:263-349 | Where every reached name has one binding and bindings are acyclic, an expression of strings, names, f-strings without format specifications, `+`, `%` and `.format` is read as exactly its runtime string, which is computed by a model of the Python operations of its own; a template that doubles its mark is the exception, told apart below. |
| MigrationText.PrefixIsReadExactly | tools/migration_expand_contract_check.py:263-349 | The same read off a running module: after any prefix of its assignments, an expression over the names assigned so far is read as its value. |
| MigrationText.ModuleIsReadExactly | tools/migration_expand_contract_check.py:233-349 | For a module whose string constants are each assigned once, collection and evaluation together read every such expression over them as the string the module holds. |
| MigrationText.ByNameValue | tools/migration_expand_contract_check.py:315-330 | A keyword value is that of the last keyword of its name. |
| MigrationText.ByKeyExactly | tools/migration_expand_contract_check.py:333-349 | The values of a mapping are found under its string-literal keys, the last one winning. |
| MigrationTemplates.FormatIsReadExactlyWhenUndoubled | tools/migration_expand_contract_check.py:299-330 | Of a template some call of `.format` accepts, the gate reads every such call as the string Python makes of it if and only if the template doubles no brace. |
| MigrationTemplates.PercentIsReadExactlyWhenUndoubled | tools/migration_expand_contract_check.py:299-349 | Of a template some use of `%` accepts, every use is read as the string Python makes of it if and only if the template doubles no percent sign. |
| MigrationTemplates.BraceFieldIsFilled | tools/migration_expand_contract_check.py:138-138 | A brace, a name, anything that is no brace and the closing brace are one field: it takes the next value, the numbered one or the named one, and the unknown where there is none. |
| MigrationTemplates.PercentFieldIsFilled | tools/migration_expand_contract_check.py:139-139 | A percent sign, a name in parentheses, flags, a width, a precision and one of `sdrif` are one field. |
| MigrationTemplates.WrittenNumberIsRead | tools/migration_expand_contract_check.py:307-309 | A numbered field is read in decimal. |
| MigrationCalls.WrappedTextIsReportedExactly | tools/migration_expand_contract_check.py:288-296 | For every kind and every expression, `execute(m.f(e))` is reported if `execute(e)` is, `e` passed by position or by keyword, `m` any receiver that reads as the unknown and `f` not `format`; and for nothing else, but that the rename of an index is then reported too. |
| MigrationCalls.WrappedIndexRenameIsReported | tools/migration_expand_contract_check.py:126-130 | Every `ALTER INDEX ... RENAME ...`, in any case and layout, passes as a plain text and is reported inside such a call. |
| MigrationCalls.BareCallIsTransparent | tools/migration_expand_contract_check.py:290-296 | `execute(f(e))` and `execute(e.f())` read as `execute(e)`. |
| MigrationCalls.EitherBranchIsReported | tools/migration_expand_contract_check.py:286-287 | A conditional is reported if and only if one of its branches is, when the first closes its comments. |
| MigrationCalls.EveryPartIsRead | tools/migration_expand_contract_check.py:263-296 | The text of every part of an f-string, a sum, a collection, a mapping, a conditional or a call stands in the text of the whole. |
| MigrationCalls.PartsAreReadInOrder | tools/migration_expand_contract_check.py:263-296 | And the parts stand there in their order: a receiver, then arguments, then keywords. |
| MigrationCalls.EveryBindingIsRead | tools/migration_expand_contract_check.py:275-279 | The text of every value bound to a name stands in the text of the name. |
| MigrationCalls.ArgumentsAreReadApart | tools/migration_expand_contract_check.py:292-295 | Arguments are read with a blank between them. |
| MigrationSql.TextsStayApartExactlyWhenClosed | tools/migration_expand_contract_check.py:362-365 | Joining a text with any other by ` ; ` strips comments separately if and only if the first text leaves no comment open. |
| MigrationSql.JoinedNormalForm | tools/migration_expand_contract_check.py:362-365 | The normal form of two joined texts is their normal forms around `;`, up to one blank at the joint. |
| MigrationSql.SqlKinds | tools/migration_expand_contract_check.py:368-376 | Lists exactly the kinds some statement of the text has, each once, drops before renames. |
| MigrationLayout.LayoutDoesNotMatter | tools/migration_expand_contract_check.py:362-365 | However a text is laid out, in words, white space, line comments and block comments, its normal form is its words in capitals with one blank between them. |
| MigrationPatterns.DropsExactly | tools/migration_expand_contract_check.py:120-128 | A statement drops if and only if it holds, from the start of a word, `DROP` and one of the six objects as a word, or `ALTER TABLE` and a `DROP` of anything but a constraint, `NOT NULL`, a default, an identity or an expression. |
| MigrationPatterns.RenamesExactly | tools/migration_expand_contract_check.py:129-130 | A statement renames if and only if it holds a `RENAME` of anything but a constraint and does not start with `ALTER INDEX`. |
| MigrationPatterns.StatementIsJudgedByItsWords | tools/migration_expand_contract_check.py:362-376 | A text without a semicolon is reported if and only if its words in capitals are destructive. |
| MigrationPatterns.ObjectDropIsReported | tools/migration_expand_contract_check.py:120-122 | The drop of a table, column, view, type or schema is reported in any case, over any lines, around any comments and whatever follows the name. |
| MigrationPatterns.ColumnDropIsReported | tools/migration_expand_contract_check.py:123-128 | So is a `DROP` inside `ALTER TABLE`, unless what follows is one of the five it may drop. |
| MigrationPatterns.RenameIsReportedExactly | tools/migration_expand_contract_check.py:129-130 | An `ALTER x n RENAME ...` of anything but a constraint is reported if and only if `x` is not `INDEX`. |
| MigrationSql.JoinReportsEither | tools/migration_expand_contract_check.py:362-376 | When the first of two texts closes its comments, the joined text is reported for a kind if and only if one of the two is. |
| MigrationSql.JoinReportsAny | tools/migration_expand_contract_check.py:275-287 | The same for any number of texts of which all but the last close their comments. |
| MigrationSql.OpenCommentHidesNextText | tools/migration_expand_contract_check.py:362-376 | A text that ends in a line comment hides the next one-line text whatever it destroys. |
| MigrationReports.NextTextIsReadExactlyWhenClosed | tools/migration_expand_contract_check.py:362-376 | Behind a text that is not itself reported, every next text is reported as it is alone if and only if the first text leaves no comment open. |
| MigrationReports.NextBindingIsReadExactlyWhenClosed | tools/migration_expand_contract_check.py:394-410 | The same of `execute(name)` over a binding table: every further value bound to the name is reported as it is alone if and only if what was bound before leaves no comment open. |
| MigrationReports.ExecuteReportsAnyBinding | tools/migration_expand_contract_check.py:394-410 | `execute(name)` is reported if and only if some value bound to the name is, read with the name itself cut off as the evaluator does, on whatever branch or in whatever loop it was bound; all but the last close their comments. |
| MigrationReports.ExecuteReportsAnyLoopElement | tools/migration_expand_contract_check.py:233-296 | A loop over a literal tuple binds its variable to the tuple, and `execute` of the variable is reported if and only if some element is. |
| MigrationReports.ExecuteReportsEachAlone | tools/migration_expand_contract_check.py:394-410 | When no binding mentions the name, that is: if and only if `execute` of some expression bound to it is reported. |
| MigrationReports.DropBehindOpenCommentIsMissed | tools/migration_expand_contract_check.py:394-410 | Any plain `DROP TABLE` is reported when executed, and missed when executed through a name bound first to a text ending in a line comment. |
| MigrationGate.ReachableFromUpgrade | tools/migration_expand_contract_check.py:206-230 | The worklist returns `upgrade` first, no function twice, and exactly the functions of the least set closed under mentions through functions and aliases; it terminates on mutual recursion. |
| MigrationGate.LeastIsReachedByMentions | tools/migration_expand_contract_check.py:206-230 | That least set is exactly what chains of mentions from `upgrade` lead to. |
| MigrationGate.MentionsLeadExactly | tools/migration_expand_contract_check.py:219-230 | A mention leads to the function of that name, and to an alias only where no function has it. |
| MigrationGate.BeyondIsTheDifference | tools/migration_expand_contract_check.py:505-514 | What is beyond the baseline is a subsequence of the operations whose signature multiset is operations minus recorded. |
| MigrationGate.BeyondBaseline | tools/migration_expand_contract_check.py:505-514 | The counter loop computes that subsequence. |
| MigrationGate.SignatureTellsTheOperation | tools/migration_expand_contract_check.py:158-161 | Two operations whose kinds hold no blank and whose targets are trimmed have one signature if and only if they have one kind and one target. |
| MigrationGate.FileViolations | tools/migration_expand_contract_check.py:517-548 | A parsable file is clean if and only if it has no operations, or is unlisted with a marker naming a release, or is listed and within its recorded multiset; an unlisted file has exactly one violation for each of its operations, with its line, what it is and the marker's fault, and a listed file one for each beyond the baseline. |
| TerraformBlocks.StripComment | tools/env_isolation_check.py:435-453 | The scan over one line leaves no unquoted `#` or `//`, and scanning again changes nothing. |
| TerraformBlocks.StrippedLineHasNoComment | tools/env_isolation_check.py:435-453 | The same of the specification, for every line. |
| TerraformBlocks.ReadBlocks | tools/env_isolation_check.py:490-523 | The depth-counting loop agrees with the line-by-line reader, errors included. |
| TerraformText.ParseBlocks | tools/env_isolation_check.py:435-523 | From text to blocks: splitting, removing comments, joining and splitting again gives the blocks of the lines of the text itself. |
| TerraformText.PrintedTextReadsBack | tools/env_isolation_check.py:435-523 | The text of any blocks with children nested to any depth in canonical layout, no piece of it holding a line separator, reads back as the same types, labels and flattened bodies, with `direct` exactly the depth-one lines, child headers in and closing braces out. |
| TerraformLines.LineIsCutAtItsFirstMark | tools/env_isolation_check.py:435-453 | A line is cut at the first `#` or `//` behind an even number of unescaped quotes, or kept whole. |
| TerraformLines.HeaderIsReadExactly | tools/env_isolation_check.py:348-348 | A line opens a block if and only if it is a name of a letter or underscore, letters, digits, underscores and hyphens, quoted labels and an opening brace at its end; with that name and those labels. |
| TerraformLines.UnsupportedLineIsRefused | tools/env_isolation_check.py:490-523 | Outside a block every line that is neither empty nor a header is refused, and named. |
| TerraformLines.UnbalancedBlockIsRefused | tools/env_isolation_check.py:490-523 | A block left open at the end is refused, and so is one whose braces do not come back to zero. |
| Lines.LinesAreCutExactly | tools/env_isolation_check.py:438-438 | A text is cut at each of the ten line breaks of `splitlines` and nowhere else; a carriage return and a line feed are one. |
| TerraformPlaces.DirectIsInBodyExactlyWhen | tools/env_isolation_check.py:357-375 | In every accepted file each block's direct lines are among its body lines, place by place, if and only if no non-empty line read at depth one and not led by `}` brings the depth to zero. |
| TerraformPlaces.DirectIsPartOfBody | tools/env_isolation_check.py:357-375 | Then `direct` is a subsequence of `body` in every block. |
| TerraformBlocks.ClosingLineCanBeDirectOnly | tools/env_isolation_check.py:481-523 | A line that ends with the closing brace is in `direct` and not in `body`. |
| EnvironmentIsolation.Report.CheckIdentifierValue | tools/env_isolation_check.py:681-774 | Appends exactly the findings the spelling, placeholder, domain, tag and foreign-environment rules demand of one value. |
| EnvironmentIsolation.Report.CheckDisjoint | tools/env_isolation_check.py:777-801 | Appends one finding for each name with two owners, in name order, blaming its first owner. |
| EnvironmentIsolation.Report.Check | tools/env_isolation_check.py:1343-1398 | Runs the registry rules in order, appending exactly their findings. |
| EnvironmentRules.RuleIsReportedExactly | tools/env_isolation_check.py:621-774 | Each rule's code is in the report, against an environment, if and only if that environment breaks the rule, said of its blocks and values and not of the findings. |
| EnvironmentRules.ReportIsCleanExactlyWhen | tools/env_isolation_check.py:1343-1398 | A report is clean if and only if the environments are the four expected, none breaks a rule (every placeholder carries the piece `example`, every value is well spelled and on no real domain, every block is `terraform` or `locals`, no backend in `terraform`, and so on), and no two declarations share a name. |
| EnvironmentRules.TokensExactly | tools/env_isolation_check.py:617-618 | The pieces of a value are the runs between `-`, `.`, `_` and `@`, in lower case. |
| EnvironmentRules.ResourcesAreTheIdentifiers | tools/env_isolation_check.py:128-152 | The fourteen identifiers, which of them is no placeholder, and which may be unset where. |
| EnvironmentRules.NothingMissingMeansDeclared | tools/env_isolation_check.py:621-670 | Where no key is missing each of the fourteen and each setting is declared. |
| EnvironmentIsolation.SharedIsBlamedOnTheFirst | tools/env_isolation_check.py:777-801 | The environment blamed for a shared name is the one that declares it first, and some later declaration shares it. |
| EnvironmentIsolation.TaggedEnvironmentsAreDisjoint | tools/env_isolation_check.py:717-774 | Of listed environments, if a report holds no charset, own-tag or foreign-tag finding, no identifiers of two different environments normalise to the same name, whatever else it holds. |
| EnvironmentIsolation.SilentExactlyWhenInjective | tools/env_isolation_check.py:777-801 | The disjointness rule is silent if and only if no two declarations, across environments or within one, normalise to the same name. |
| EnvironmentIsolation.AllDeclaredExactly | tools/env_isolation_check.py:777-801 | What that rule compares is exactly the text identifiers the environments declare. |
| EnvironmentIsolation.CleanReportMeansIsolation | tools/env_isolation_check.py:1343-1398 | A report without findings means: exactly the expected environments, each with exactly the classified keys and its own name, identifiers text or null as classified, and nothing named in common. |
| Redemptions.Rewards.OpenRedemption | python/smartmatch_persistence/smartmatch_persistence/rewards.py:740-822 | Refuses an unknown, unlistable or unaffordable item before it looks for a row in flight; otherwise one row in flight results. |
| Redemptions.Rewards.TransitionRedemption | python/smartmatch_persistence/smartmatch_persistence/rewards.py:1006-1095 | Makes only legal moves; fulfilment debits the snapshot price once and only when the balance covers it. |
| Redemptions.SeedRedemptions | tools/seed_pilot_engagement.py:629-757 | The two loops over the store do what matching the history and then advancing the carried rows specify. |
| RedemptionRuns.RunSettlesThePlan | tools/seed_pilot_engagement.py:661-757 | From any history with at most one in-flight row per item, a run that is not refused leaves each planned item in its planned state or closed otherwise, keeps every terminal row, and keeps the index satisfied. |
| RedemptionRuns.SecondRunChangesNothing | tools/seed_pilot_engagement.py:661-757 | A second run is not refused, opens and advances nothing, and changes nothing. |
| RedemptionRuns.RunDebitsAtMostOnce | tools/seed_pilot_engagement.py:661-757 | A run debits an item at most once, only if it had no fulfilled row and has one afterwards. |
| RedemptionRuns.SeedPaysAtMostOnce | tools/seed_pilot_engagement.py:661-757 | Over any number of runs among requests, decisions, credits and reversals, the seed pays for an item at most once, and never for one already fulfilled. |
| RedemptionRuns.CoveredMoves | python/smartmatch_persistence/smartmatch_persistence/rewards.py:1006-1095 | While the balance covers what is open, no legal move is refused for points and the balance still covers what is open. |
| RedemptionRuns.AnyOrderIsAffordable | tools/seed_pilot_engagement.py:340-346 | So the open redemptions can be carried to fulfilment in any order. |
| RedemptionRuns.EnoughForThePlan | tools/seed_pilot_engagement.py:297-311 | A balance of what is open plus the plan's costs is enough: a feasible plan is not refused and what it leaves open is covered. |
| RedemptionRuns.PilotPlanIsAffordable | tools/seed_pilot_engagement.py:253-346 | Nineteen attendances at 100 points pay for the pilot's plan at the worksheet prices and leave the rest affordable in any order. |
| RedemptionBooks.OpenedExactly | python/smartmatch_persistence/smartmatch_persistence/rewards.py:740-822 | A request is taken up if and only if the item is listed, listable and covered by the balance; then the row in flight stays, or one is added with the listed price. |
| RedemptionBooks.MovedExactly | python/smartmatch_persistence/smartmatch_persistence/rewards.py:1006-1095 | A decision passes if and only if it is one of the five moves and, for fulfilment, the balance covers the price; it changes that row's state and nothing else, but that fulfilment debits the price. |
| RedemptionBooks.BooksBalance | python/smartmatch_persistence/smartmatch_persistence/rewards.py:1006-1095 | Over any acts, from an account whose books balance: the balance is what was credited, less what was reversed, less the prices of the fulfilled rows, each paid exactly once. |
| RedemptionBooks.RowsAreOpenedWithinTheBalance | python/smartmatch_persistence/smartmatch_persistence/rewards.py:740-822 | Over any sequence of acts a row is added only for a listed, listable item whose price the balance covered at that moment. |
| RedemptionBooks.RunPassesExactlyWhen | tools/seed_pilot_engagement.py:661-757 | From any history a run passes if and only if every step can start, told from the history and the balance, every carried row can move to its planned state, and the balance covers what the run fulfils. |
| RedemptionBooks.ThinBalanceIsRefused | tools/seed_pilot_engagement.py:661-757 | A run on a history without a row for a planned item is refused whenever the balance is below that item's price. |
| RedemptionBooks.RunReportsWhatItDid | tools/seed_pilot_engagement.py:661-757 | The report counts the steps found settled, those opened, those closed otherwise and the moves made. |
| StudentAgenda.SeedStudent | tools/seed_pilot_engagement.py:493-626 | From any earlier rows, leaves the reconciled agenda, and what each counter of the report is. |
| StudentAgenda.RunLeavesTheAgenda | tools/seed_pilot_engagement.py:546-626 | What a run leaves is the one agenda in which attended events are credited, kept places held, the last one cancelled and every other row as it was. |
| StudentAgenda.PlacesAreTheNextEvents | tools/seed_pilot_engagement.py:546-626 | Of the events still ahead, counted in calendar order, the student holds a place at the first four and has given the fifth up, or, where fewer are ahead, all but the last; later events are left as they were. |
| StudentAgenda.CounterIsExactUnless | tools/seed_pilot_engagement.py:575-626 | The registrations reported are the places taken, unless the place given up was held before the run and another was taken. |
| StudentAgenda.CounterMissesOne | tools/seed_pilot_engagement.py:575-626 | A student holding only the place to give up: one registration fewer is reported than was made. |
| StudentAgenda.SecondRunWritesNothing | tools/seed_pilot_engagement.py:546-626 | Reconciling a reconciled agenda changes nothing and takes no place. |
| LoginAccounts.NormalisedIsFound | python/smartmatch_persistence/smartmatch_persistence/login_accounts.py:155-161 | An address stored normalised is found again by the folding query. |
| LoginAccounts.LoginStore.FindOrAddRole | python/smartmatch_persistence/smartmatch_persistence/login_accounts.py:273-327 | Refuses before it writes; otherwise grants the role to the one holder, or credentials the given account of a free address. |
| LoginAccounts.LoginStore.CredentialNewLogin | python/smartmatch_persistence/smartmatch_persistence/login_accounts.py:330-374 | Never gives a credentialed, suspended or missing account a password. |
| LoginAccounts.LoginStore.RotateOwnPassword | python/smartmatch_persistence/smartmatch_persistence/login_accounts.py:422-448 | Replaces an existing credential and creates none. |
| SeedLogins.VerifyMembershipSet | tools/seed_pilot.py:147-214 | Refuses if and only if an invitation-only role is asked for or some row other than a Speaker row was not asked for; otherwise the roles held. |
| SeedLogins.EnsureMembershipSet | tools/seed_pilot.py:217-266 | Leaves exactly the requested roles beside Speaker rows, keeps every row, and adds one row for each role not held, so none on a second call. |
| SeedLogins.GrantedAllToHolder | tools/seed_pilot_logins.py:295-304 | Granting to an address with one holder always succeeds, only adds the requested rows to it, and leaves each role active. |
| SeedLogins.FirstGrantClaims | tools/seed_pilot_logins.py:346-349 | A first credential makes its account the one holder of the address. |
| SeedLogins.SeedOne | tools/seed_pilot_logins.py:272-366 | One entry, against its specification; a refusal leaves the store as it was without any rollback. |
| SeedLogins.SeedRoleLogins | tools/seed_pilot_logins.py:369-437 | The loop over the four entries, half-configured ones included. |
| SeedLogins.RunSeed | tools/seed_pilot_logins.py:468-482 | A refused run leaves the store unchanged. |
| LoginRuns.EntryFrame | tools/seed_pilot_logins.py:272-366 | Whatever way an entry goes, it touches one account: its own, or one login it may merge into, whose account and password stay as they were. |
| LoginRuns.CredentialWriterRefusesExactlyTheStranded | tools/seed_pilot_logins.py:305-356 | On any sound store whatever, every refusal is the tool's own conflict, except that the credential writer refuses if and only if the entry's own credentialed login is not found at its own address. |
| LoginRuns.NoLoginIsEverStranded | python/smartmatch_persistence/smartmatch_persistence/login_accounts.py:330-374 | The writer stores addresses trimmed; so over every sequence of seed runs, activations and unbinds that state is never reached, and every refusal is the tool's own. |
| LoginRuns.RunIsFair | tools/seed_pilot_logins.py:369-437 | A run keeps every row, every binding and every other login, and adds only rows without a window over the unit: requested roles for own logins, `volunteer` for a login within speaker and volunteer. |
| LoginRuns.NoRunWidensALogin | tools/seed_pilot_logins.py:263-366 | The same of every seed run in every sequence of seed runs, activations and unbinds. |
| LoginRuns.OtherLoginsGainOnlyVolunteer | tools/seed_pilot_logins.py:306-332 | In any such sequence a login that is no entry's own gains from a seed run only `volunteer`, only while its active roles are within speaker and volunteer, and keeps its password. |
| LoginRuns.ReachedIsSound | python/smartmatch_persistence/smartmatch_persistence/speaker_portal.py:543-588 | Any sequence keeps the store sound; no row is ever removed, and only Speaker rows are ever given an end. |
| SeedReruns.EntryPassesExactlyWhen | tools/seed_pilot_logins.py:272-366 | On any sound store an entry passes if and only if its address is held by its own intact account, or by another login it may merge into, or by nobody while its own account is absent or unclaimed and intact; it merges exactly when another login holds the address. |
| SeedReruns.RunPassesExactlyWhen | tools/seed_pilot_logins.py:369-437 | On any sound store a run (of entries only the last of which may merge, as the tool's) passes if and only if no entry is half-configured or short of password, no two configured entries share an address, and each configured entry passes alone in the store before the run; which entries merge is told from that store. |
| SeedReruns.FirstRunPassesExactlyWhen | tools/seed_pilot_logins.py:369-437 | On an empty store a run passes, creating each configured login, if and only if no entry is half-configured or short of password and no two configured entries share an address. |
| SeedReruns.ReadyPasses | tools/seed_pilot_logins.py:335-366 | An own login as a run leaves it passes again: nothing is granted, the password is rotated. |
| SeedReruns.EntryKeepsReady | tools/seed_pilot_logins.py:272-366 | No other entry disturbs it, unless its roles leave it open to a merge. |
| SeedReruns.ActivationKeepsReady | services/api/smartmatch_api/speaker_portal_activation.py:156-242 | Activating any contact leaves every own login ready. |
| SeedReruns.UnbindKeepsReady | python/smartmatch_persistence/smartmatch_persistence/speaker_portal.py:543-588 | Unbinding a contact leaves an own login ready if and only if it is not that login, bound to itself. |
| SeedReruns.NextRunPassesExactlyWhen | tools/seed_pilot.py:160-170 | After a run that passed, whatever Speakers activate or unbind short of dropping an entry's own login, the next run with the same configuration passes at any time if and only if the entries it had merged still pass; with none merged it passes and changes only passwords. |
| SeedReruns.UnboundMergePassesExactlyWhen | tools/seed_pilot_logins.py:306-332 | Once the login an entry merged into is unbound from itself, the entry passes if and only if its own account, which the merge never examined, is absent or unclaimed and intact. |
| SeedPromises.EntriesFollowTheirRoles | tools/seed_pilot_logins.py:150-180 | The four entries, by the naming of their accounts and variables; the coordinator and the administrator hold each other's role. |
| SeedPromises.ConfigurationIsReadExactly | tools/seed_pilot_logins.py:203-235 | An entry is configured if and only if its address is not blank and its password has twelve characters; refused if and only if it is given by halves or shorter. |
| SeedPromises.RunKeepsItsPromise | tools/seed_pilot_logins.py:369-437 | After a run that passed, entry by entry: what it reports, and that each login it created and did not merge signs in at its address with its password, is the only one there, and holds exactly its roles over the unit. |
| SeedPromises.AddressOfAnotherPassesExactlyWhen | tools/seed_pilot_logins.py:306-332 | Where another login holds the address the entry passes if and only if it asks for nothing but `volunteer` and every row in force of that login is a Speaker's or a volunteer's; then it gains that role and nothing else changes. |
| SeedPromises.OwnAddressPassesExactlyWhen | tools/seed_pilot_logins.py:335-366 | Where its own login does: if and only if that account is live, at the address, in the organization, and holds no row not asked for. |
| SeedPromises.FreeAddressPassesExactlyWhen | tools/seed_pilot_logins.py:335-366 | Where nobody does: if and only if its own account is absent, or has no password and is otherwise as above. |
| SeedPromises.DisputedAddressIsRefused | tools/seed_pilot_logins.py:289-304 | An address held by two logins, or in another organization, is refused whatever the entry. |
| SeedPromises.FirstCredentialExactlyWhen | python/smartmatch_persistence/smartmatch_persistence/login_accounts.py:330-374 | A first password is written for a live account of the organization that has none and for no other, with the address in its normal form, and nothing else changes. |
| SeedPromises.AddressIsTrimmedByTheQuery | python/smartmatch_persistence/smartmatch_persistence/login_accounts.py:79-161 | The query trims the six ASCII white-space characters from both ends of a stored address. |
| SeedPromises.FirstActivationExactlyWhen | services/api/smartmatch_api/speaker_portal_activation.py:305-342 | At an address nobody holds, activation passes if and only if the contact is live, unbound and without a password, and a first password is supplied. |
| SeedPromises.ActivationByLoginExactlyWhen | services/api/smartmatch_api/speaker_portal_activation.py:305-342 | At the address of a login, if and only if that login is live, a volunteer and nothing but a Speaker beside, speaks for no other contact, and its password is supplied; then it takes the contact on and holds the Speaker role. |
| Journeys.PipelineStore.AdvanceStage | python/smartmatch_persistence/smartmatch_persistence/pipeline.py:585-833 | Refuses the entry stage, missing or misplaced evidence, a cancelled booking, a missing prerequisite and a time before it; a stage already reached is left alone. |
| Journeys.AdvanceJourney | tools/seed_demo_pipeline.py:209-287 | The loop over the stages does what the walk specifies and counts its own transitions. |
| Journeys.WriteJourneys | tools/generate_pilot_dataset.py:1099-1168 | The loop opens and walks the plan's journeys by stride; nothing is written without resolved events or professionals. |
| JourneyRuns.StageIsAcceptedExactlyWhen | python/smartmatch_persistence/smartmatch_persistence/pipeline.py:585-833 | A stage is accepted if and only if it is not the first, carries evidence of attendance exactly when it is attendance, the booking is not cancelled, and it is reached already or is the next one at a time not before the last; and what then changes. |
| JourneyRuns.WalkExactly | tools/seed_demo_pipeline.py:250-287 | On any row the constraints allow, a walk succeeds if and only if its first missing stage is not before the last one reached and attendance is not asked of a cancelled booking; then it adds the missing stages and counts only those. |
| JourneyRuns.WalkStamped | tools/seed_demo_pipeline.py:250-287 | On journeys only this tool has stamped a walk never fails and ends at the later of the two stages. |
| JourneyRuns.WalkTwiceIsWalkFurther | tools/seed_demo_pipeline.py:250-287 | Walking to one stage and then another is walking to the later one, in state and in count. |
| JourneyRuns.SecondRunTransitionsNothing | tools/generate_pilot_dataset.py:1128-1168 | A run ends with every journey at its stage or beyond, and running it again transitions and writes nothing, even where pairs repeat. |
| JourneyRuns.EachJourneyEndsAtItsStage | tools/generate_pilot_dataset.py:1128-1168 | While no pair repeats, each journey of a first run ends exactly at its place in the cycle with strictly increasing times from its match. |
| JourneyRuns.JourneyIsAsPlanned | tools/generate_pilot_dataset.py:1109-1163 | Journey `j` of a first run pairs the person `7 j` places round the roster with the event `j` places round the dated events, is matched at nine in the morning thirty days before, moves on every ten minutes, and ends at its place in the turn of 36. |
| JourneyRuns.FunnelOf180 | tools/generate_pilot_dataset.py:296-340 | Of 180 journeys 45 stay matched, 40 each end at contacted, confirmed and attended, and 15 at member inquiry. |
| JourneyRuns.PairsRepeatExactlyBeyondTheLcm | tools/generate_pilot_dataset.py:1112-1117 | No pair repeats among the first journeys if and only if there are at most lcm(P, E) of them, P divided by seven when seven divides it. |
| FrequentCodes.FrequentCodes | tools/generate_pilot_dataset.py:1296-1320 | Counting, ranking and windowing compute the specified window. |
| FrequentCodes.OnlyCountsMatter | tools/generate_pilot_dataset.py:1296-1302 | The result depends only on the multiset of the input. |
| FrequentCodes.RankedIsRanked | tools/generate_pilot_dataset.py:1312-1316 | The ranking holds each stated code once; a code before another is stated more often, or as often and is the earlier text: at the first difference its character is the smaller, or it is a prefix. |
| FrequentCodes.WindowIsDistinct | tools/generate_pilot_dataset.py:1304-1320 | A window holds distinct stated codes, as many as are wanted or exist. |
| FrequentCodes.HeadIsTop | tools/generate_pilot_dataset.py:1312-1320 | At offset zero a code kept is stated at least as often as any code left out, and where as often it is the earlier text, said of the multiset of values and of the characters. |
| FrequentCodes.WindowGoesRound | tools/generate_pilot_dataset.py:1317-1320 | Place by place, the window at an offset is the ranking read on from there and round. |
| FrequentCodes.SpeakerRequestTargets | tools/generate_pilot_dataset.py:1359-1386 | A negative variant and a roster with nothing to target are refused; otherwise the variant's two windows. |
| FrequentCodes.SiblingsTargetDifferentCodesExactly | tools/generate_pilot_dataset.py:1340-1380 | Two or more sibling requests target pairwise different codes if and only if the roster states enough codes for all of them. |
| SpeakerFeedback.BuildSpeakerFeedback | tools/pilot_dataset_plan.py:1115-1178 | Which shapes are refused, and that every accepted one gives rounds of the planned size, whatever is drawn. |
| SpeakerFeedback.EachSpeakerReceivesExactly | tools/pilot_dataset_plan.py:1165-1178 | Speaker `i` receives exactly `shape[i]` ratings and nobody else receives any. |
| SpeakerFeedback.EntriesAreInRange | tools/pilot_dataset_plan.py:1165-1178 | Every entry is one of eight students on a speaker of the shape, with a rating from one to five or none. |
| SpeakerFeedback.ScaleWeighs | tools/pilot_dataset_plan.py:207-213 | Of twenty draws five are a five, eight a four, four a three, two a two and one a one. |
| SpeakerFeedback.Opportunities | tools/pilot_dataset_plan.py:1098-1112 | The opportunities are the whole number nearest to four thirds of the ratings, and never fewer than they are. |
| SpeakerFeedback.SummarizeFeedback | tools/pilot_dataset_plan.py:1181-1212 | The dictionary of counts sums to the specified summary. |
| SpeakerFeedback.PublishedAndSuppressedAreHeard | tools/pilot_dataset_plan.py:1199-1202 | Published and suppressed speakers together are those with at least one rating. |
| SpeakerFeedback.UnitPublishesExactlyWhenNoRemainderIsSmall | tools/pilot_dataset_plan.py:1203-1212 | The unit publishes if and only if its pool is large enough and the pool minus the counts of any set of published speakers is zero or at least three. |
| SpeakerFeedback.ShippedShapePublishes | tools/pilot_dataset_plan.py:165-175 | The shape (5, 4, 2, 1) publishes the unit beside two suppressed speakers; (5, 4, 2) would not. |
| EventTargets.PlanTargets | tools/pilot_dataset_plan.py:860-890 | The draw loop and the ordered pick, against their specification. |
| EventTargets.TargetsAreEnough | tools/pilot_dataset_plan.py:881-890 | Once the draws end, an event has two distinct codes (or the only one) in vocabulary order, among them its rotation and its weighted draw. |
| EventTargets.CalendarCoversExactly | tools/pilot_dataset_plan.py:868-890 | Whatever the draws, as many consecutive events as there are codes ask for every code if and only if three does not divide their number. |
| FrontMatter.ParseFrontMatter | tools/agent_memory_check.py:83-128 | From the text: the line loop over the insertion-ordered dictionary agrees with taking the lines one by one. |
| FrontMatter.AcceptedExactly | tools/agent_memory_check.py:98-125 | Fields are accepted if and only if every line is proper, no item precedes the first key, no item follows a key with a value and no key repeats; then each key holds its value or the items below it. |
| FrontMatter.ItemsBelongToTheKeyAbove | tools/agent_memory_check.py:103-124 | On any accepted input an item belongs to the nearest key above it, which has no value. |
| FrontMatter.ItemsHaveAKey | tools/agent_memory_check.py:104-106 | And there is such a key. |
| FrontMatterRecords.WrittenRecordReadsBack | tools/agent_memory_check.py:83-128 | The text of a record reads back with the same ordered fields, scalars, lists and empty lists, and body, for all keys and items meeting the grammar's side conditions: trimmed, on one line, and a body whose only separators are newlines. |
| FrontMatterRecords.AcceptedRecordIsWritable | tools/agent_memory_check.py:83-128 | The record of every accepted text meets those conditions, so reading, writing and reading again changes nothing. |

## Left out

- Sessions, locks and rows of the database: a store is a value a class holds; concurrent transactions are not
  interleaved inside one transaction, only between transactions.
- Timestamps, actors, provenance, units and versions on rows: left out unless a rule reads them. Memberships carry
  their windows, journeys their stage times.
- One tenant and one subject: redemptions and the agenda are those of one student in one tenant; reward items are
  identified by their names. Logins keep their tenants.
- Texts of findings, violations, outcomes and errors: a finding is its code and what it is about, an error its kind.
- Upper and lower case are those of ASCII; white space and line separators are Python's. The `ast` and `tokenize`
  walks are inputs: syntax trees, and for reachability the identifiers a walk over a function or an alias meets.
- Regular expressions are predicates and matchers on positions of one statement or line, as far as the properties need.
- `_call_operations` for direct operations, `_comments_by_line`, `contract_marker` and the check over the directory:
  a file enters as its operations and its marker.
- `declared_license`, `load_locks`, the SBOM and `main` of the licence gate: what metadata declares is an input.
- EnvironmentIsolation.Report.Check: runs the rules over environments; the policy, module, root and layout rules of
  the same function, and `parse_value`, are not part of this model.
- `_existing_or_insert_tenant` and `_existing_or_insert_unit`: the tenant and the unit are given.
- The key derivation is a record of the secret and the salt; the salt drawn for each login is an input.
- Invitations: an activation starts from a live, verified one, and its session is not issued; quotas and session
  revocation are left out.
- `_seed_catalog`, `_seed_meetings`, `_seed_host_request`: checks and inserts that would add only easy members.
- Random streams: weighted draws, samples and ratings are arbitrary choices of the stated shape; the extra draws of an
  event are a finite stream that may end before there are enough, since nothing bounds how many are needed.
- Floating point: the opportunities are the exact quotient, rounded; the withheld share is left out.
- SeedReruns.NextRunPassesExactlyWhen: between the runs no unbind drops an entry's own login; for such a store, as for
  any other, `RunPassesExactlyWhen` gives the condition.
- TerraformText.PrintedTextReadsBack: the layout has closing braces on their own lines and no braces in strings.
- The pool of one request and the rest of the generator's plan: arithmetic over constants.
- MigrationText.TextIsTheRuntimeString: format specifications, conversions, attributes and indices inside a field, and
  values that are not strings, have no runtime string in the model; the gate reads such a field as its value
  (`BraceFieldIsFilled`, `PercentFieldIsFilled`).
