# pgfathom: a verified model

pgfathom reads a PostgreSQL catalog, infers which columns reference which keys, and asks
the data whether the inferred foreign keys hold. This project models its algorithms in
Dafny and proves what they promise:

- **Validation.** Tables are sequences of rows of optional cells. The one specification
  everything is measured against is a MATCH SIMPLE foreign key (section 11.8 of ISO/IEC
  9075-2:2003), `Relational.MatchSimple`. The grouped validation query, the verdict, the
  prefilter that kills candidates without reading data, the key probe and the emitted SQL
  are proved against it. The concurrent run is a state machine; its theorems are about
  every interleaving.
- **The SQL scanner and join extractor.** The scanner is a function of the text and of two
  bits of context (`Lexer`), the extractor a function of the tokens (`Extract`). The index
  loops of the source (`LexerLoops`, `ExtractLoops`) are proved to compute them. On top: a
  reference grammar that gives every text its tokens (`LexerElements`), round trip,
  invisibility of comments and of the case of bare words, isolation of statements, and a
  query written out from its meaning giving its joins and predicates back
  (`ExtractQueries`). The reference is section 4.1 of the PostgreSQL documentation, Lexical
  Structure.
- **Candidate inference.** Naming profiles, the affix index, single-column and composite
  candidates, join evidence folded into an append-only list with a map beside it, the score
  and the cut, up to the accounting of a whole run.
- **Identifier truncation** on bytes, with UTF-8 as section 4 of RFC 3629 has it.

`Text`, `Counting`, `Sorting`, `Grouping`, `Pairs` and `ScanLoop` are the shared ground:
string helpers, multiplicities and groupings, sorting, grouping by key, lists without a
repeated pair, and the scanning loop over an arbitrary turn function.

Code that changes state is modelled with methods and classes, each proved against a
specification function; the theorems are lemmas about those functions.

## Where the code does not do what its comments say

Each of these is a lemma with a concrete input, beside the exact condition under which the
claim holds.

- A tuple is called at least as varied as its most varied column (`internal/stats/stats.go:199-204`).
  With partly NULL rows it need not be, and the prefilter rejects a constraint that holds:
  `PrefilterSoundness.PartialNullsMislead`, and `SoundExactly` for when it can be trusted.
- `Checked = Kept + Rejected + NoStats` (`internal/stats/stats.go:89`) counts candidates
  without statistics twice: `Prefilter.FunnelCanOverflow`, and `FunnelCloses` for when there are none.
- `Validated` plus `TimedOut` is said to close the account (`internal/validate/validate.go:119`);
  a missing privilege is in neither: `ValidateRun.AccountCanStayOpen`, and `AccountCloses`.
- A run of operator characters takes a comment opener with it (`internal/sqlprobe/token.go:98-103`):
  `LexerComments.OperatorSwallowsOpener`, and `CommentInvisibleExactly` for where a comment is seen.
- A subquery that is never closed takes the following statements along
  (`internal/sqlprobe/extract.go:228-245`): `ExtractExactly.OpenSubquerySwallows`, and `IsolatedExactly`.
- `unwrapDollarBody` is to strip one dollar quote around the whole input (`internal/sqlprobe/extract.go:308`);
  it strips the outer halves of two as well: `ExtractText.TwoQuotesUnwrapped`, and `OneQuoteExactly`.
- `resolveMirror` and `resolveAnchored` can use one child column for two positions of a key
  (`internal/infer/composite.go:212-244`): `CompositeRepeats.MirrorCanRepeat`, `CandidateCanRepeat`,
  and `CandidateRepeatsExactly`.
- Readings are told apart by their columns joined with commas (`internal/infer/composite.go:47-49`):
  `CompositeSignatures.CommasCollide`, and `TellsListsApartExactly` for names that cannot.
- Candidates are looked up by text (`internal/infer/evidence.go:146`), and quoted names can make
  two pairs read alike: `PairNames.RenderingCanCollide`, and `TellsApartExactly` for names that cannot.

One theorem has an exception that is no fault of the scanner. A comment between `E` and its
literal turns the escapes off (`internal/sqlprobe/token.go:142-145`), and in PostgreSQL it does
too, since the `E` has to stand directly before the quote (section 4.1.2.2 of its documentation).
`LexerInvisible.FillerInvisible` says exactly when that shows, and `EscapeSplit` is an instance.

## Model

| member | source | states |
|---|---|---|
| Relational.SqlMatchIsEquality | internal/validate/query.go:84-109 | the condition that joins a tuple to a parent row, in three-valued logic, is true of equal null-free tuples and of nothing else |
| Relational.ExistsIsMembership | internal/validate/query.go:106-109 | EXISTS over the parent is membership of the null-free tuple among the parent's tuples |
| Relational.OrphanRow | internal/validate/query.go:94-118 | a row violates MATCH SIMPLE exactly when its key tuple is an orphan |
| Relational.MatchSimpleByProjection | internal/validate/query.go:94-118 | the constraint holds exactly when no key tuple of the child is an orphan |
| ValidationQuery.QueryCountsRows | internal/validate/query.go:68-121 | the seven grouped counts equal direct counts over the child's rows and sizes of tuple sets, at every arity and for any grouping the server may use |
| ValidationQuery.MaxRowsPerValue | internal/validate/query.go:103-118 | max_rows_per_value is the largest multiplicity of a null-free tuple, and times distinct_vals it covers not_null_rows |
| ValidationQuery.OrphanCountsAgree | internal/validate/query.go:106-118 | orphan_rows is zero exactly when orphan_vals is, and orphans are among the rows that were checked |
| ValidationQuery.ArityOneHasNoPartialNulls | internal/validate/query.go:88-102 | a single-column key has no partly null rows |
| ValidationQuery.OrderDoesNotMatter | internal/validate/query.go:68-121 | any two groupings of the same rows give the same seven numbers |
| ValidationQuery.NoOrphansIsMatchSimple | internal/validate/query.go:68-121 | on a full read, no orphan rows and no orphan values is the MATCH SIMPLE constraint |
| ValidationQuery.SampleUnderstates | internal/validate/query.go:132-149 | over any sub-multiset of the rows no count of orphans, of tuples or of checked rows exceeds that of the whole table |
| Verdict.SampledOnlyAboveTarget | internal/validate/query.go:39-55 | a sample is taken exactly when the row estimate is known, above the target, and a full read was not asked for; by rows below a hundred thousand estimated rows and by pages from there on; its percentage is the one that gives the target, and at least a hundredth of a percent |
| Verdict.ConfirmedExactly | internal/validate/validate.go:257-294 | Confirmed if and only if the whole table was read, it holds two different null-free tuples, its rows with a NULL are at most the allowed share of all its rows, and MATCH SIMPLE holds |
| Verdict.BrokenIsReal | internal/validate/validate.go:257-294 | Broken or Rejected, sampled or not, implies a violation in the whole table |
| Verdict.ViolationsAreSeen | internal/validate/validate.go:257-294 | on a full read of a violating table there are orphans and no Confirmed; Broken and Rejected are decided by the tuples with a parent against the shares of the null-free tuples that the thresholds ask for, 0.90 and 0.50 unless set |
| Verdict.VerdictOverRows | internal/validate/validate.go:257-294 | every verdict, sampled or not, in terms of the rows that were read: Confirmed, Broken and Rejected each if and only if its condition on the orphans, the null-free tuples and the rows with a NULL holds, and Weak otherwise |
| Verdict.SampleNeverConfirms | internal/validate/validate.go:257-294 | a sampled read never confirms, and where the constraint holds it says Weak |
| Verdict.ContainmentIsFraction | internal/model/candidate.go:183-190 | row containment is a fraction, and one exactly when nothing examined is an orphan |
| Prefilter.LowerBoundDistinct | internal/stats/stats.go:208-226 | the largest known estimate among the key's columns, and none exactly when none is known |
| Prefilter.FloorUnique | internal/stats/stats.go:208-226 | that floor is determined by the statistics |
| Prefilter.RecordedIsEstimated | internal/model/stats.go:163-175 | statistics that record d distinct values in n rows, as the count or as the negative share of the rows, give the estimate d |
| Prefilter.UnestimatedExactly | internal/model/stats.go:163-175 | there is no estimate exactly where statistics are absent, zero, or a share of no rows |
| Prefilter.EstimateIsNearest | internal/model/stats.go:163-175 | any estimate is the whole number nearest to the count, or to the share of the rows, halves upwards |
| Prefilter.DisjointExactly | internal/stats/stats.go:232-247 | two bounds are disjoint if and only if no value lies within both |
| Prefilter.FindDisjoint | internal/stats/stats.go:232-247 | true exactly when some position has known bounds on both sides that cannot overlap |
| Prefilter.EvaluateOne | internal/stats/stats.go:140-197 | the signals, the score, the verdict and the outcome of every branch, from the floor, the parent's estimate and the bounds |
| Prefilter.Evaluate | internal/stats/stats.go:110-118 | one evaluated result per candidate; kept and rejected are the survivors and casualties in input order |
| Prefilter.EvaluationKeepsIdentity | internal/stats/stats.go:140-197 | evaluation never changes what a candidate is about, only adds signals at the end, and rescores where it adds a penalty |
| Prefilter.FunnelCloses | internal/stats/stats.go:88-130 | kept plus rejected is everything checked; adding those without statistics closes if and only if every candidate has a row estimate of both tables and an estimate of some column of its child |
| Prefilter.UnknownExactly | internal/stats/stats.go:140-162 | a candidate counts as without statistics exactly when one of those estimates is missing |
| Prefilter.FunnelCanOverflow | internal/stats/stats.go:88-130 | without any statistics, one candidate is counted as kept and again as without statistics |
| PrefilterSoundness.TuplesVaryMost | internal/stats/stats.go:199-226 | without partly null rows, there are at least as many null-free tuples as distinct values in any column |
| PrefilterSoundness.RejectedHasOrphan | internal/stats/stats.go:140-226 | with estimates that do not overstate, and no partly null child row, every rejected candidate has an orphan, for every reject factor, so a full validation could not confirm it |
| PrefilterSoundness.SoundExactly | internal/stats/stats.go:140-226 | rejection on the exact column count is sound for every covering parent if and only if that count stays within the number of tuples, or within the factor times it |
| PrefilterSoundness.RejectsByTheTables | internal/stats/stats.go:140-226 | with statistics that record every column of the child in either form, a candidate is rejected if and only if the values of its most varied column exceed the rows of the parent, and the factor times them |
| PrefilterSoundness.DisjointIsOrphaned | internal/stats/stats.go:232-247 | a null-free child row whose value lies outside the bounds of the parent column is an orphan |
| PrefilterSoundness.NoPartialNullsIsEnough | internal/stats/stats.go:199-226 | the absence of partly null rows meets that condition |
| PrefilterSoundness.PartialNullsMislead | internal/stats/stats.go:199-226 | a table with one half-null row, exact statistics of it, and an evaluation that rejects a candidate whose constraint holds |
| PrefilterSoundness.ArityOneHasNoneNull | internal/stats/stats.go:199-226 | at arity one the condition is met without any assumption |
| KeyProbe.ConfirmedIsKey | internal/validate/keyprobe.go:62-112 | a completed probe confirms exactly the column sets that are null-free and injective over all rows, at every arity |
| KeyProbe.OnlyAnswersConfirm | internal/validate/keyprobe.go:62-84 | timeouts and missing privileges never confirm, and any other failure is an error |
| KeyProbe.OneRowMore | internal/validate/keyprobe.go:86-112 | what the probe counts: a row by its first occurrence, nulls in a row of several columns included, a null in a single column not |
| KeyProbe.ProbeUniqueness | internal/validate/keyprobe.go:48-60 | one result per candidate in order, or an error exactly when some probe failed for good |
| EmittedSql.AntiJoin | internal/report/sql.go:286-299 | the clauses the loop appends, column by column |
| EmittedSql.SelectedIsOrphan | internal/report/sql.go:286-299 | the emitted condition selects exactly the rows whose key tuple is an orphan |
| EmittedSql.EmittedAgreesWithMeasured | internal/report/sql.go:258-299 | the orphan listing has orphan_vals groups adding up to orphan_rows, the violation query returns orphan_rows, and that is zero exactly when the constraint holds |
| EmittedSql.ListingAccusesOrphans | internal/report/sql.go:258-273 | the listing names every orphan tuple once, with the number of rows that carry it, and nothing else |
| ValidateRun.RunInv | internal/validate/validate.go:132-168 | in every reachable state of every interleaving the invariant holds: at most `limit` queries in flight, a slot filled only by its own task and with that task's result, the counts handed to callbacks distinct |
| ValidateRun.SlotsAreWrittenOnce | internal/validate/validate.go:142-153 | a step that changes slot i is a step of task i, and a filled slot never changes |
| ValidateRun.EveryRunAgrees | internal/validate/validate.go:132-168 | every interleaving that ends returns what the sequential map returns, fails exactly when some reply is fatal, and otherwise reports each of 1..n exactly once |
| ValidateRun.UpToIsEach | internal/validate/validate.go:148-150 | what "each of 1..n once" means, number by number |
| ValidateRun.ResultsKeepOrder | internal/validate/validate.go:132-196 | the candidates come back in input order, each resolved by its own reply: an answer gives its verdict and marks it validated, any other reply leaves it unvalidated, only the time ceiling counts as timed out, and pair, signals and score stay |
| ValidateRun.AccountCloses | internal/validate/validate.go:113-124 | validated, timed out and unprivileged make up everything that entered; the first two alone do so only without a missing privilege |
| ValidateRun.AccountCanStayOpen | internal/validate/validate.go:113-124 | a job of one candidate whose table may not be read: neither validated nor timed out |
| ValidateRun.Progress | internal/validate/validate.go:132-168 | no state short of the end is stuck |
| ValidateRun.RunsEnd | internal/validate/validate.go:132-168 | no run takes more than five steps per candidate |
| ValidateRun.Tally | internal/validate/validate.go:159-167 | the loop over the results returns them in order with the two counts |
| LexerLoops.SkipLineComment | internal/sqlprobe/token.go:115-120 | the index loop computes the line comment's length |
| LexerLoops.SkipBlockComment | internal/sqlprobe/token.go:123-138 | the index loop computes the nested comment's length |
| LexerLoops.ReadStringAt | internal/sqlprobe/token.go:147-170 | the index loop computes the text and length of a literal, one past the end included |
| LexerLoops.ReadQuotedIdentAt | internal/sqlprobe/token.go:194-209 | the index loop computes the text and length of a quoted identifier |
| LexerLoops.SkipDollarQuoted | internal/sqlprobe/token.go:174-192 | the index loop decides whether a dollar quote opens and where it ends |
| LexerLoops.EscapeIsContext | internal/sqlprobe/token.go:142-145 | the look behind is exactly what scanning the text behind leaves as context |
| LexerLoops.ScanOne | internal/sqlprobe/token.go:52-109 | one turn of the loop, branch by branch |
| LexerLoops.Tokenize | internal/sqlprobe/token.go:48-111 | the whole loop returns the tokens of the text, and ends for every text |
| LexerRoundTrip.RoundTrip | internal/sqlprobe/token.go:48-209 | printing the tokens of any text, unterminated literals included, and scanning the print gives the same tokens |
| LexerRoundTrip.Image | internal/sqlprobe/token.go:48-111 | a token list is the scan of some text if and only if each of its tokens is one the scanner can emit |
| LexerRoundTrip.ScanScannable | internal/sqlprobe/token.go:48-111 | everything the scanner emits, from any context, is of that kind |
| LexerRoundTrip.ScanPrint | internal/sqlprobe/token.go:48-209 | scanning the print of any such list gives the list |
| LexerBoundary.TurnLocal | internal/sqlprobe/token.go:52-109 | a finished element does not depend on the text behind it, if that opens with a space, or with a comment and the element is no operator |
| LexerBoundary.TurnEndsWord | internal/sqlprobe/token.go:52-109 | no turn cuts an identifier or a number in two |
| LexerElements.TokensAreMeant | internal/sqlprobe/token.go:48-209 | the scanner against a reference grammar: a text written as a list of lexical elements has the tokens its elements say, in order; bare and quoted names, literals with and without escapes, numbers, operators, nested comments and dollar quotes, closed or left open |
| LexerElements.EveryTextIsWritten | internal/sqlprobe/token.go:48-209 | every text is such a list |
| LexerElements.Alphabet | internal/sqlprobe/token.go:211-225 | the classes of bytes |
| LexerWords.WordIsFolded | internal/sqlprobe/token.go:85-90 | a bare word at a boundary, with no identifier part behind it, adds one name of the same length: its bytes, with A to Z moved by 32 |
| LexerWords.QuotedIsKept | internal/sqlprobe/token.go:80-83 | a quoted identifier at a boundary adds one name, byte for byte |
| LexerWords.CaseIsInvisible | internal/sqlprobe/token.go:85-90 | two texts that differ only in the case of bare words have the same tokens |
| ScanLoop.RunToBoundary | internal/sqlprobe/token.go:48-111 | the same of all elements up to a boundary: nothing depends on the text beyond it |
| ScanLoop.RunThroughBoundary | internal/sqlprobe/token.go:48-111 | a scan is the scan up to any boundary followed by the scan from it |
| ScanLoop.RunConcat | internal/sqlprobe/token.go:48-111 | a finished text, a space and more text scan one after the other |
| LexerInvisible.CommentNests | internal/sqlprobe/token.go:123-138 | a comment that closes is skipped as a whole, at any depth around it |
| LexerInvisible.NestedComment | internal/sqlprobe/token.go:123-138 | a well-formed comment inside a comment changes nothing but the length |
| LexerInvisible.ContextMatters | internal/sqlprobe/token.go:142-170 | the text behind changes a scan exactly when it turns on escapes that the next literal uses |
| LexerInvisible.BackslashTells | internal/sqlprobe/token.go:147-170 | a literal with a backslash never reads the same with and without escapes |
| LexerInvisible.FillerInvisible | internal/sqlprobe/token.go:48-138 | a block comment, line comment or dollar quote put between spaces at a boundary leaves the tokens unchanged if and only if it does not part E from a literal with a backslash |
| LexerInvisible.LiteralIsOneToken | internal/sqlprobe/token.go:147-170 | a string literal put at a boundary adds exactly one string token, whatever it contains |
| LexerInvisible.EscapeSplit | internal/sqlprobe/token.go:142-145 | a text whose tokens such a filler does change |
| LexerComments.CommentInvisibleExactly | internal/sqlprobe/token.go:48-138 | a comment put at a boundary, without a space around it, leaves the tokens unchanged if and only if no operator ends there and it does not part E from a literal with a backslash |
| LexerComments.CommentSwallowed | internal/sqlprobe/token.go:98-103 | behind any operator, a comment changes the tokens, whatever is around it |
| LexerComments.OperatorTakesOpener | internal/sqlprobe/token.go:98-103 | every run of operator characters takes the opener and all operator characters behind it, unless run and opener open a comment earlier |
| LexerComments.OperatorSwallowsOpener | internal/sqlprobe/token.go:98-103 | a text for which that happens: behind `=` the opener joins the operator, and the comment is scanned as code |
| ExtractLoops.ReadDottedName | internal/sqlprobe/extract.go:248-262 | the loop reads the names and where it stops |
| ExtractLoops.ReadRefEndingAt | internal/sqlprobe/extract.go:267-294 | the backward walk reads the reference before an operator |
| ExtractLoops.JumpParens | internal/sqlprobe/extract.go:228-245 | the forward jump lands just past the closing parenthesis, or at the end |
| ExtractLoops.CollectAliases | internal/sqlprobe/extract.go:155-195 | the loop over a FROM list enters its aliases and returns where the scan resumes |
| ExtractLoops.VisitAt | internal/sqlprobe/extract.go:87-135 | one turn of the extractor, with its effect on the alias map |
| ExtractLoops.ExtractAll | internal/sqlprobe/extract.go:75-138 | the whole scan returns the joins and predicates of the tokens, and ends |
| ExtractIsolation.StatementsAreIsolated | internal/sqlprobe/extract.go:87-135 | if the scan of t1 meets no subquery that t1 leaves open, t1 ; t2 gives the findings of t1 followed by those of t2 |
| ExtractExactly.IsolatedExactly | internal/sqlprobe/extract.go:75-245 | a statement is isolated from everything that may follow it if and only if the scan of it meets no FROM or JOIN list with a subquery it leaves open |
| ExtractExactly.IsolatedFromExactly | internal/sqlprobe/extract.go:75-245 | in front of a statement without a closing parenthesis: isolated if and only if that, or there is nothing to find in it |
| ExtractExactly.NextIsSwallowed | internal/sqlprobe/extract.go:228-245 | otherwise the findings are those of the first statement alone |
| ExtractExactly.ClosedIsIsolated | internal/sqlprobe/extract.go:228-245 | a statement in which every subquery closes is isolated |
| ExtractExactly.OpenSubquerySwallows | internal/sqlprobe/extract.go:228-245 | a statement for which nothing of the next one is found |
| ExtractText.TextsAreIsolated | internal/sqlprobe/extract.go:75-138 | the same on texts, from unwrapping to findings, where there is no dollar quote to take off |
| ExtractText.QuotedIsIsolatedExactly | internal/sqlprobe/extract.go:75-138 | one dollar quote in front of a statement adds nothing to its findings, though alone its body is code: they are isolated if and only if nothing is found in the body |
| ExtractText.QuotedBehindExactly | internal/sqlprobe/extract.go:75-138 | the same of a dollar quote behind a statement |
| ExtractText.FillerIsNotEvidence | internal/sqlprobe/extract.go:75-138 | what is in a comment or a dollar quote is neither a join nor a predicate, from unwrapping to findings, where there is no dollar quote to take off |
| ExtractText.FillerInBody | internal/sqlprobe/extract.go:75-138 | a comment or a dollar quote inside a wrapped body is no evidence either |
| ExtractText.WrappedBodyIsCode | internal/sqlprobe/extract.go:309-323 | a function body stored in a dollar quote is what gets scanned, whatever it is |
| ExtractText.TakenOffIsWrapped | internal/sqlprobe/extract.go:309-323 | what is taken off is one delimiter in front and the same at the end, and nothing else ever is |
| ExtractText.OneQuoteExactly | internal/sqlprobe/extract.go:309-323 | such a text is one dollar quote to the scanner if and only if the tag is one and the delimiter does not occur in the body |
| ExtractText.TwoQuotesUnwrapped | internal/sqlprobe/extract.go:309-323 | two quotes with code between them lose their outer halves |
| ExtractText.ExtractSql | internal/sqlprobe/extract.go:75-138 | unwrapping, scanner loop and extractor loop together compute the findings of the text |
| ExtractMeaning.ScopeIsMeaning | internal/sqlprobe/extract.go:155-195 | filling the map in order makes the last alias win and lets a bare table name yield to any alias |
| ExtractConditions.OperatorSays | internal/sqlprobe/extract.go:97-125 | what is found at an operator is what the comparison means: a join for an equality of two qualified columns, else a predicate of the class of the operator on a qualified left side, and nothing for a bare one |
| ExtractConditions.SqlIsSql | internal/sqlprobe/extract.go:41-53 | the operator tables of the package give each operator its class |
| ExtractConditions.EndingWords | internal/sqlprobe/extract.go:55-64 | the words that end an item of a FROM list |
| ExtractConditions.LikeTurn | internal/sqlprobe/extract.go:127-150 | a LIKE gives a predicate on its left side, infix exactly if the pattern is a literal that starts with a wildcard |
| ExtractConditions.ConditionsFound | internal/sqlprobe/extract.go:87-135 | the conditions of a clause, in parentheses or not, give their findings in order |
| ExtractQueries.SourcesAreRead | internal/sqlprobe/extract.go:155-262 | a list of tables and subqueries, with aliases, AS and grouping parentheses, is read to its end, and its scope is that of its tables |
| ExtractQueries.QueryGivesItsFindings | internal/sqlprobe/extract.go:75-306 | a query written out from its meaning, with a FROM list, joins and conditions, gives back exactly its findings, in order: each condition on the table its qualifier stands for where it is written, by the class of its operator, and nothing for a column without a qualifier |
| Profile.Validate | internal/profile/profile.go:130-177 | accepts exactly the profiles with a name and a plural rule, no list with duplicates or blanks, no shadowed affix, and no plural rule twice |
| Profile.NameAndRuleAreRequired | internal/profile/profile.go:130-177 | no accepted profile does without a name or without a plural rule, and nothing else has to be given |
| Profile.CheckOrder | internal/profile/profile.go:193-217 | accepts exactly the lists in which no earlier affix hides a longer later one |
| Profile.OrderIsLongestMatch | internal/profile/profile.go:193-217 | for lists without duplicates, the order check accepts exactly those for which the first match is the longest match in every name |
| Profile.DeriveEntityName | internal/profile/normalize.go:57-78 | the two loops compute the entity of the column |
| Profile.EntityExactly | internal/profile/normalize.go:57-78 | of an accepted profile: the entity is the lowered, trimmed name, first without the longest suffix that leaves something, then without the longest prefix that does, without underscores around it |
| Profile.EntityIsEmptyExactly | internal/profile/normalize.go:57-78 | a column has no entity exactly when it is blanks and underscores, whatever the profile |
| TableForms.Depluralize | internal/profile/normalize.go:135-149 | the loop gives one form per rule that applies |
| TableForms.SingularsExactly | internal/profile/normalize.go:135-149 | the singulars of a name are those of the rules whose ending it has behind at least one letter, that ending replaced |
| TableForms.StrippedExactly | internal/profile/normalize.go:112-120 | of an accepted profile, the name without a prefix is the name without the longest one that leaves something |
| TableForms.PluralRulesExactly | internal/profile/profile.go:163-173 | plural rules are accepted if and only if none applies to every name and no two take the same off any name |
| TableForms.DeriveForms | internal/profile/normalize.go:90-132 | the loops and the seen set compute the forms of the table |
| TableForms.FormsAreProper | internal/profile/normalize.go:90-132 | no form is empty and no value appears twice |
| TableForms.MatchIsStrongest | internal/profile/normalize.go:153-165 | a match carries the strongest way the name comes to be the entity, and there is one whenever some way exists |
| TargetIndex.BuildTargetIndex | internal/infer/generate.go:185-196 | under every value the index holds the tables having a form with it, once each and in order |
| TargetIndex.IndexIsScan | internal/infer/generate.go:185-196 | at every lowered, trimmed entity the index holds exactly what a scan with Profile.Match finds, with Match's origin |
| TargetIndex.ScanFindsStrongest | internal/profile/normalize.go:153-165 | each table is found by its strongest origin |
| TargetIndex.CollapseBest | internal/infer/generate.go:282-290 | the collapse keeps the first entry of the strongest origin per table, and with unique names replaces nothing |
| TargetIndex.CollapseKeepsAll | internal/infer/generate.go:282-290 | with unique table names the collapse keeps every entry of the index and never chooses |
| TargetIndex.ResolveByAffix | internal/infer/generate.go:282-312 | every table name that answers is a match or a skip with its reason, by an entry of its strongest origin; no name matches twice, and there are no other matches or skips |
| TargetIndex.KeyTargetExactly | internal/infer/generate.go:238-254 | a table can be referred to if and only if its key is one existing column; it is skipped for having no key, or for a key of several |
| Scoring.PenaltyNeverCuts | internal/infer/score.go:131-163 | the cut score is never below the score, and equals it without a generic-name penalty |
| Scoring.ScoresAreClamped | internal/infer/score.go:109-163 | score and cut score lie between zero and one, are the sum of the weights where that does, and the nearer end where it does not; the cut leaves the generic-name penalty out |
| Scoring.SumConcat | internal/infer/score.go:109-163 | the sum is additive, and of one signal its weight |
| Scoring.ArityWeights | internal/infer/score.go:56-65 | what a key of two, three, four and more columns weighs |
| Scoring.MentionsExactly | internal/infer/generate.go:472-477 | a comment mentions an entity if and only if it has it somewhere, whatever the case |
| Scoring.ArityWeightMonotone | internal/infer/score.go:56-65 | more columns never weigh less, and nothing weighs more than the cap |
| Scoring.Total | internal/infer/score.go:109-163 | the loops compute the sum of the weights, leaving out one kind if asked |
| CompositeKeys.KeyColumns | internal/infer/composite.go:433-443 | the columns of the names, or none exactly when a name has no column |
| CompositeKeys.CompareKeys | internal/infer/composite.go:414-430 | incompatible exactly when lengths differ or some position does not fit, identical exactly when all positions are |
| CompositeKeys.Usable | internal/infer/composite.go:192-209 | true exactly when all columns exist and are eligible, and every position's type fits |
| CompositeKeys.EligibleExactly | internal/infer/generate.go:169-181 | a column is not eligible if and only if it is the whole primary key of its table, or goes by a name in a declared foreign key |
| Model.TypesFitByRange | internal/infer/types.go:48-71 | a type fits a key if and only if it is the same, or both are integers and the key holds all its values, or both are character types |
| Model.TypesCompose | internal/infer/types.go:48-71 | fitting is transitive |
| CompositeKeys.ResolveMirror | internal/infer/composite.go:212-222 | the loop keeps the positions that have a column |
| CompositeKeys.ResolveAnchored | internal/infer/composite.go:232-244 | the loop keeps the positions that have a column, and counts an anchor exactly when some position has one |
| CompositeKeys.MirrorAligns | internal/infer/composite.go:212-222 | a mirror reading as long as the key matches it position by position |
| CompositeKeys.AnchoredAligns | internal/infer/composite.go:232-244 | an anchored reading as long as the key matches it position by position, with or without the form in front, and somewhere with it |
| CompositeKeys.AnchoredRepeatsExactly | internal/infer/composite.go:232-244 | an anchored reading uses a column twice if and only if the key has names that differ in case only, or a mirrored and an anchored position go by one name |
| CompositeRepeats.CandidateRepeatsExactly | internal/infer/composite.go:103-244 | an emitted candidate uses a child column twice if and only if the key it refers to has names that differ in case only, or it is the reading of a form by which a mirrored and an anchored position go by one name |
| CompositeRepeats.CandidateCanRepeat | internal/infer/composite.go:103-244 | two tables and a profile for which the pass emits such a candidate, by an anchored reading |
| CompositeRepeats.MirrorCanRepeat | internal/infer/composite.go:103-222 | two tables and a profile for which it emits one by the mirror reading |
| CompositeKeys.MirrorRepeatsExactly | internal/infer/composite.go:212-222 | a mirror reading does if and only if the key has names that differ in case only |
| Composite.Readings.Add | internal/infer/composite.go:151-172 | what one attempt adds: a partial, a complete reading that is none so far, or nothing |
| Composite.MatchKey | internal/infer/composite.go:140-188 | returns the readings among the attempts and the longest attempt that falls short |
| Composite.ReadableExactly | internal/infer/composite.go:140-188 | the readings returned are readings, no two have one signature, and no reading is missing by its signature |
| CompositeSignatures.TellsListsApartExactly | internal/infer/composite.go:47-49 | the signature tells lists of as many names apart if and only if names have no commas |
| CompositeSignatures.ReadingsByColumns | internal/infer/composite.go:140-188 | of a child without commas in its column names: no two readings have the same columns, and no reading is missing by its columns |
| Composite.ResolveAmbiguity | internal/infer/composite.go:262-300 | the matches are split into emitted and skipped, as multisets; emitted alone with their signature or in an anchored-only group, and called ambiguous exactly in groups of more than one |
| Composite.MirrorNeedsUniqueColumns | internal/infer/composite.go:262-309 | a mirror match is emitted only if no other match for the child reads the same columns |
| Grouping.GroupInOrder | internal/infer/composite.go:263-271 | grouping with a map and an order list: one group per key, each with every element of its key |
| CompositeCandidates.CompositeTargets | internal/infer/composite.go:87-101 | the loop finds the targets among the tables |
| CompositeCandidates.TargetsExactly | internal/infer/composite.go:87-101 | a target is a table with a key of two or more existing columns, with the forms of its name, and every such table is one |
| CompositeCandidates.SignalsSay | internal/infer/composite.go:341-409 | each kind of signal a composite candidate carries, and exactly when |
| CompositeCandidates.SignalsWeigh | internal/infer/composite.go:341-409 | what the signals of a composite candidate add up to, weight by weight |
| CompositeCandidates.EmitComposite | internal/infer/composite.go:313-339 | the candidate of a reading, with its signals and score |
| CompositeCandidates.SkipsExactly | internal/infer/composite.go:103-134 | a target is skipped if it is read in several ways, or not at all while two of its columns or more are there, and only then |
| CompositeCandidates.CompositeFor | internal/infer/composite.go:103-134 | the targets read in one way are partitioned into candidates and signature skips; all others are skipped for position or as partial, with their columns |
| CompositeGeneration.ReadingIsWellFormed | internal/infer/composite.go:140-244 | equal arity of at least two, eligible existing columns, fitting types, never a table mapped to its own key, a name behind every position, score the sum of the signals |
| CompositeGeneration.MatchesExactly | internal/infer/composite.go:103-134 | the matches of a child are the targets it reads in exactly one way |
| CompositeGeneration.EmittedApart | internal/infer/composite.go:103-134 | with unique tables, a child's composite candidates are about different parents |
| CompositeGeneration.GenerateComposite | internal/infer/composite.go:59-70 | the candidates are exactly the single readings of every child against every target whose columns are settled, with their signals; no pair is emitted twice |
| Generation.ResolveBySimilarity | internal/infer/generate.go:318-360 | the loops compute the tables above the cutoff, the most similar first |
| Generation.SimilarityNames | internal/infer/generate.go:318-360 | the fallback names exactly the tables above the cutoff that have a single-column key, with the signal of their similarity, each once |
| Generation.AboveIsInOrder | internal/infer/generate.go:318-346 | the most similar table comes first, equally similar ones by name |
| Generation.BuiltSignalsSay | internal/infer/generate.go:408-470 | each kind of signal a single-column candidate carries, and exactly when |
| Generation.BuiltSignalsWeigh | internal/infer/generate.go:408-470 | what the signals of a single-column candidate add up to, weight by weight, with the generic-name penalty and without |
| Generation.CandidateScores | internal/infer/generate.go:366-470 | the score and the cut score of such a candidate, from the tables |
| Generation.FinalizeMatches | internal/infer/generate.go:366-389 | the loop makes one candidate per table whose key's type fits, and counts every table found as company |
| Generation.CandidatesSay | internal/infer/generate.go:366-389 | those candidates are sound, complete over the fitting tables, and about different parents |
| Infer.FindNamed | internal/infer/generate.go:256-277 | the tables found are ones the entity names: by form, or by similarity only if no form answers, with a key of one existing column; where refs tell tables apart, all of them |
| Infer.GenerateSingles | internal/infer/generate.go:129-156 | where refs tell tables apart, the candidates are exactly those of an eligible column with an entity, a table the entity names, and a key whose type fits; with a proper catalog no pair is there twice |
| Evidence.GroupEvidence | internal/infer/evidence.go:50-75 | every group holds all equalities of its key, and the groups together hold every equality as often as it was stated |
| Evidence.GroupsExactly | internal/infer/evidence.go:50-75 | equalities go into one group if and only if they stem from the same object of the same kind and are between the same two tables, whichever is on the left |
| Evidence.EquatesExactly | internal/infer/evidence.go:192-211 | an equality pairs a parent column with a child column if and only if one side is the one and the other side the other |
| Evidence.KeyMapping | internal/infer/evidence.go:192-211 | the loop computes the mapping, or none on a conflict |
| Evidence.MappingExactly | internal/infer/evidence.go:192-211 | there is no mapping exactly when one parent column has two counterparts; otherwise it holds what is stated and nothing else |
| Evidence.ChildNames | internal/infer/evidence.go:106-118 | the loop computes the child columns of the whole key, or none |
| Evidence.NamesFromExactly | internal/infer/evidence.go:106-118 | there are such columns exactly when every position is mapped and no column serves twice; each is its position's counterpart |
| Evidence.SourcesWeigh | internal/infer/evidence.go:289-298 | what a join is worth by what states it: a view, a function, or statements |
| EvidenceFold.FactsExactly | internal/infer/evidence.go:13-281 | what the evidence states is exactly this: an equality, either way round, whose one side is a single-column key and whose other side can refer to it; and a group of two tables, either way round, that gives a usable column of its own for every position of a longer key |
| EvidenceFold.StrengtheningAbsorbs | internal/infer/evidence.go:146-153 | adding a signal of its weight to a candidate adds that one fact to what the list says, keeps its place, its pair and the soundness of all |
| EvidenceFold.AppendingAbsorbs | internal/infer/evidence.go:155-186 | appending a candidate about a new pair adds that one fact and repeats no pair |
| EvidenceFold.Result.constructor | internal/infer/evidence.go:310-316 | the map holds exactly the rendered pairs of the list, each at a position that has it |
| EvidenceFold.Result.Credit | internal/infer/evidence.go:143-186 | one step keeps the map in line with the list and folds in exactly one fact: a pair already there gets the join signal with its weight, unless it has one of the kind; a pair not there yet is appended, with the join and the given signals |
| EvidenceFold.IndexIsExact | internal/infer/evidence.go:310-316 | with no pair twice, the map sends every pair to its position |
| EvidenceApply.ReadSingle | internal/infer/evidence.go:213-235 | an equality is a hypothesis exactly when its parent side is a single-column key and its child column is eligible and fits; its signals are what the tables say of the type, the index and the nulls |
| EvidenceApply.ApplyOriented | internal/infer/evidence.go:213-281 | one orientation of one equality folds in exactly the facts it states, with their weights; what is new is born of the tables |
| EvidenceApply.ReadComposite | internal/infer/evidence.go:89-139 | a group is a hypothesis exactly when it gives a usable, different column for every position of the key; its signals are what the tables say of the arity, the types, the index and the nulls |
| EvidenceApply.CompositeFounded | internal/infer/evidence.go:89-139 | such a hypothesis has no child column twice, fitting types, and the parent's whole key |
| EvidenceApply.ApplyCompositeOriented | internal/infer/evidence.go:89-187 | one direction of one group folds in exactly the facts it states, with their weights; what is new is born of the tables |
| EvidenceApply.ApplyCompositeEvidence | internal/infer/evidence.go:79-87 | both directions, and nothing for a self-join |
| EvidenceApply.ApplyEvidence | internal/infer/evidence.go:13-35 | the list grows by, and says, exactly what the evidence states: candidates keep their place, pair and verdict and gain join signals of their weights only; what is new is an unvalidated hypothesis with one join and the signals its tables give, and join signals on top; scores stay sums, each join kind counts at most once, and no pair comes to be there twice |
| EvidenceWorth.StrengthenedScore | internal/infer/evidence.go:146-153 | a strengthened candidate scores what it had without joins, and the weight of each kind of join it carries, once; between zero and one |
| EvidenceWorth.FreshScores | internal/infer/evidence.go:155-280 | the score of a candidate that only evidence has found, weight by weight |
| PairNames.TellsApartExactly | internal/infer/evidence.go:146-147 | the rendering tells all pairs apart if and only if names have no dots, no commas or no spaces, and not all three bytes of the arrow |
| PairNames.PairTellsApart | internal/infer/evidence.go:146-147 | over such names a rendered pair stands for one pair of keys |
| PairNames.PlainPairsOnce | internal/infer/evidence.go:310-316 | over such names, no rendering twice is no pair twice |
| PairNames.RenderingCanCollide | internal/infer/evidence.go:146-147 | two different pairs with the same rendering |
| Cut.ByScoreIsOrder | internal/infer/generate.go:563-573 | the comparison is a total preorder |
| Cut.Finalize | internal/infer/generate.go:529-561 | the loop splits at the cut score and orders both halves |
| Cut.FinalizeCuts | internal/infer/generate.go:529-573 | the halves are the whole as multisets, both in order of score and text; a candidate is discarded if and only if its weights without the generic-name penalty add up to less than the threshold, for a threshold up to one |
| Sorting.SortIsStable | internal/infer/generate.go:563-573 | candidates that compare equal keep their order |
| Generate.Generate | internal/infer/generate.go:129-156 | what is found is the list the names give, with exactly what the evidence states folded in; it is split and nothing is lost; every score is a sum; a join signal is there exactly when the evidence states the join; with proper and plain names no pair is there twice |
| Generate.FoundExactly | internal/infer/generate.go:129-156 | every candidate the names give is found, with no more than join signals added; everything found stems from a candidate the names give or from one born of evidence and tables, and its pair is an inferred one or one the evidence states |
| Generate.FoundScores | internal/infer/generate.go:129-156 | where no pair is found twice, every score is what names or tables give, plus the weight of each kind of join the evidence states of the pair, once |
| Discovery.ApplyPrefilter | internal/discovery/discovery.go:194-214 | the survivors of evaluation are kept and its casualties rejected, pair by pair; without statistics everything is kept |
| Discovery.ValidateAll | internal/discovery/discovery.go:228-231 | what this returns is what every interleaving of the validation protocol returns |
| Discovery.Finish | internal/discovery/discovery.go:184-236 | a run validates the survivors of the prefilter, each by its own reply, and aborts exactly if one of those is fatal; otherwise the candidates, the discards and every count are pinned, and they add up |
| Discovery.ConfirmedHolds | internal/discovery/discovery.go:228-236 | with replies that are verdicts on the tables: the confirmed candidates of a run are exactly those answered by a full read of tables that satisfy the constraint, with two different null-free tuples and no more NULLs than allowed; a broken or rejected one has a violation behind it; and without an answer there is no verdict |
| Discovery.Discover | internal/discovery/discovery.go:147-236 | end to end: names and evidence pin what is found, threshold and statistics who is validated, replies how each ends; what a run hands over is what was found, pair by pair, and with proper and plain names no pair is handed over twice |
| Truncate.LowerStaysValid | internal/report/sql.go:665-670 | lowering keeps a text valid |
| Truncate.ValidExactly | internal/report/sql.go:672-676 | a text counts as valid if and only if it is the UTF-8 encoding of some Unicode characters (section 3 of RFC 3629) |
| Truncate.CutNear | internal/report/sql.go:672-676 | within three bytes before any place in a valid text there is a cut that leaves it valid |
| Truncate.CutBack | internal/report/sql.go:672-676 | the loop runs at most three times, keeps at least 51 bytes, and keeps as much as fits |
| Truncate.TruncateIdent | internal/report/sql.go:665-682 | at most 63 bytes of valid UTF-8; a name that fits is unchanged but for case |
| Truncate.HexReads | internal/report/sql.go:670 | the eight digits of the suffix, read as a hexadecimal number, are the hash |
| Truncate.TruncatedNamesCollide | internal/report/sql.go:665-682 | two truncated names are equal exactly when the kept bytes and the hashes are |

## Left out

- Database access, the catalog reader, configuration, benchmarks, reports other than the conditions above, and all terminal output: input, output and user interface.
- Floating point: weights, thresholds, fractions and statistics are reals, and percentages are not rounded.
- Unicode case folding and trimming: letters fold and blanks trim as ASCII, one character standing for one byte; truncation works on bytes.
- The hash behind a truncated identifier, the trigram measure, and whether a table is small by its statistics: parameters.
- Replies of the database, and with them cancellation causes: a validation's reply is a parameter, and a group that is cancelled may fail any query in flight.
- Texts a user reads, such as a signal's detail, a candidate's reason and a skip's detail, and the times of the stages.
- The text of generated SQL beyond its conditions: quoting, comments, ordering and layout, and the text of the sample clause.
- The naming detector and the merging of what it detects: its comparisons are no orders, so the longest match is claimed for lists that pass validation only.
- Resolution of extracted names against the catalog, and its deduplication of joins per view: evidence is modelled from the grouping on.
- Polymorphic pairs, audit findings, coverage shares and index methods: simple tables and partitions.
- Integer widths: row counts are unbounded, and nothing in the modelled code wraps below 2^63 rows.
- Aliasing of Go slices: lists are values, and a candidate is changed by replacing it in its list.
- EvidenceApply.ApplyEvidence: says which join signals there are, not the detail each carries, since only the first object that states a join is named.
- Generate.Generate: a profile is always given, where the source returns an empty result without one; skips and polymorphic pairs are not part of what it returns, and a table's schema name is its schema's.
- ExtractText.TextsAreIsolated: says nothing of two statements that together open and close with one delimiter, which the code takes off; FillerIsNotEvidence likewise.
- Infer.FindNamed: two tables whose refs read alike, which takes quoted dots, share one entry, and then only that what is found is named is claimed; the same goes for GenerateSingles and Generate.
