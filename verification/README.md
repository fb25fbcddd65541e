# Bolsas de extensão UENF: a Dafny model of the matching core

The system collects the extension-scholarship notices of UENF (Universidade Estadual do
Norte Fluminense). A scraper walks the news list of the PROEX pages, keeps the notices
about inscriptions and results, and sorts each notice's PDF links into the main notice
and one PDF per project (tagged with its centro: CBB, CCT, CCTA or CCH). A parser classifies
each notice and cuts the project PDF into project blocks. For a result PDF it turns the
tables into approval drafts: advisor, project title, profile number (perfil) and candidate.
The database layer stores each edital and its projects by upserting them. It also fills
the scholarship slots (bolsas) from the drafts. Two engines do this filling: a row-by-row
engine that asks the store at every step, and a batch engine that loads everything into
memory once and writes one bulk upsert. Both resolve the draft's advisor by fuzzy key
matching. They then find the project through a four-layer cascade (equal key, substring,
Jaccard score, fuzzy ratio), refuse a candidate already approved for the project, and
claim an available slot. Around this core sit the following:

- two sliding-window rate limiters (the backend one and the serverless one);
- the HTML, URL and CORS-origin guards of the API;
- the frontend's casing of titles and names;
- the phone and Telegram input masks;
- the per-session set of bolsas already viewed.

The model is functional. Tables are sequences of rows. Every engine is a fold whose state
is an explicit record. The clock (`now`) is a parameter, and so is difflib's
`SequenceMatcher.ratio` (`ratio`). Lemmas that need `0 <= ratio <= 1` and `ratio(a, a) == 1`
assume them through `Similarity.ValidRatio`. Characters follow a concrete table for ASCII
and Latin-1: the NFD decomposition of the accented letters, the combining marks, Python's
`isspace`, and upper and lower case.

Files: `chars.dfy` (character classes), `text.dfy` (split, join, strip, case), `values.dfy`
(`Wrappers`: Option/Result; `Values`: the JSON cells of a draft), `keys.dfy` (the key
normalisers), `similarity.dfy` (get_close_matches and the Jaccard score), `store.dfy`
(tables and the store's queries), `matching.dfy` (advisor resolution, cascade, duplicate
test), `lookup.dfy` (best-match dictionary lookups), `upsert.dfy`, `rowbyrow.dfy`,
`batch.dfy`, `parser.dfy`, `scraper.dfy`, `limits.dfy`, `ratelimiter.dfy`,
`ratelimitervercel.dfy`, `security.dfy`, `formatters.dfy`, `contact.dfy`, `viewsession.dfy`.

## Model

| member | source | states |
|---|---|---|
| Keys.StripAccents | backend/utils.py:13 | the result has no combining mark and is the concatenation of the base letters of the input's decompositions |
| Keys.SpaceOutStructural | backend/utils.py:17 | each of `- : ( )` becomes a space; every other character is kept in place |
| Keys.DropPunctuation | backend/utils.py:20 | every kept character is a word or whitespace character of the input, and a text of only such characters is kept whole |
| Keys.DropPunctuationOrder | backend/utils.py:20 | punctuation is dropped character by character: the result of a concatenation is the concatenation of the results, and one character is kept exactly when it is a word or whitespace character |
| Keys.UtilsKeyOf | backend/utils.py:11-24 | the parser's key of a string is a key: upper-case accent-free word characters separated by single spaces |
| Keys.MatchKey | backend/utils.py:9-10 | a non-string gives "", and every result is a key |
| Keys.DbKeyOf | backend/database.py:63-67 | the engine's key of a string is a key |
| Keys.DbKey | backend/database.py:61-62 | a non-string gives "", and every result is a key |
| Keys.KeysFixKeys | backend/utils.py:11-24 | both key functions map a key to itself |
| Keys.MatchKeyIdempotent | backend/utils.py:11-24 | normalising a parser key again returns it unchanged |
| Keys.DbKeyIdempotent | backend/database.py:56-69 | normalising an engine key again returns it unchanged |
| Keys.UtilsSplice | backend/utils.py:13-24 | two middle parts with the same character-wise image give the same parser key |
| Keys.DbSplice | backend/database.py:63-67 | the same for the engine key |
| Keys.UtilsDelete | backend/utils.py:13-24 | a middle part whose characters all vanish leaves the parser key unchanged |
| Keys.DbDelete | backend/database.py:63-67 | the same for the engine key |
| Keys.WhitespaceLaw | backend/utils.py:24 | any whitespace run between two parts counts as one space in both keys |
| Keys.LeadingBlankLaw | backend/utils.py:24 | leading whitespace does not change either key |
| Keys.TrailingBlankLaw | backend/utils.py:24 | trailing whitespace does not change either key |
| Keys.StructuralLaw | backend/utils.py:17 | the parser key reads `- : ( )` as a space, while the engine key deletes them |
| Keys.PunctuationLaw | backend/utils.py:20 | other punctuation such as `/` and `.` is deleted by both keys, gluing its neighbours |
| Keys.AccentLaw | backend/utils.py:13 | a precomposed letter counts as its base letter in both keys |
| Keys.CaseLaw | backend/utils.py:23 | an ASCII lower-case letter counts as its capital |
| Keys.OrdinalIsKeyChar | backend/tests/test_utils.py:9 | the ordinal sign `º` is a word character without case or accent, so it survives in "Nº" |
| Keys.KeysOfEmpty | backend/tests/test_utils.py:15-17 | the empty string has the empty key under both functions |
| Keys.NormalizeForDb | backend/database.py:42-54 | a non-string gives ""; otherwise the result has single interior spaces and the same words as the upper-cased text, accents kept |
| Keys.NormalizeForDbIdempotent | backend/database.py:42-54 | normalising a normalised text changes nothing |
| Keys.FilterTokens | backend/database.py:81 | a token is kept exactly when it is outside STOP_WORDS and EDITAL_TERMS and not all digits; a list of kept tokens is returned whole |
| Keys.FilterTokensOrder | backend/database.py:81 | the filter works token by token: the result of a concatenation is the concatenation of the results, so order and repetition are kept |
| Keys.ProjectKeyOf | backend/database.py:79-82 | a project key of a string is a key |
| Keys.ProjectKey | backend/database.py:76-77 | a non-string gives "", and every result is a key |
| Keys.ProjectKeyTokens | backend/database.py:79-82 | the tokens of a project key are exactly the kept tokens of the engine key, in order |
| Keys.AccentedTermsAreDead | backend/database.py:11-22 | removing the accented entries from the word lists never changes a project key |
| Keys.KeyTokensAreNotAccented | backend/database.py:11-22 | no token of a key equals an accented list entry |
| Keys.DeaccentedExtensaoSurvives | backend/database.py:19 | "EXTENSAO", the de-accented form of a listed word, is not filtered out |
| Keys.ProjectKeyIdempotent | backend/database.py:71-82 | a project key is a fixed point of the project key function |
| Text.ZFill | backend/database.py:86 | a text shorter than the width is padded with zeros on the left, after its sign when it has one; a text at least as long as the width is kept |
| Keys.NormalizePerfil | backend/database.py:84-86 | None exactly for a falsy value; otherwise the stripped text padded to two characters: kept when it has two or more, a zero put before a one-character unsigned text, after a sign, and "00" for an empty text |
| Keys.PerfilOneIsPadded | backend/database.py:84-86 | perfil 1, as a number or as text, becomes "01" |
| Keys.NormalizePerfilIdempotent | backend/database.py:84-86 | normalising a normalised perfil changes nothing |
| Similarity.CloseMatches | backend/database.py:231 | at most n entries, drawn without repetition from the qualifying keys, ranked best first; empty exactly when no key reaches the cutoff |
| Similarity.Qualifying | backend/database.py:231 | exactly the possibilities scoring at least the cutoff, none more often than in the input |
| Similarity.QualifyingOrder | backend/database.py:231 | the possibilities are tested one by one: the result of a concatenation is the concatenation of the results, so their order is kept |
| Similarity.TopOfRanking | backend/database.py:231 | a prefix of a ranking keeps its best entries and nothing else |
| Similarity.LeftOutRanksLower | backend/database.py:231 | every qualifying key that is left out ranks below every returned key |
| Similarity.CloseMatchesBest | backend/database.py:305 | with n = 1, the single result is the top-ranked qualifying key |
| Similarity.ExactKeyIsClose | backend/database.py:231 | a query that is itself a possibility is matched at any cutoff up to 1 |
| Similarity.JaccardScore | backend/database.py:290-292 | the score lies in [0, 1] and is the size of the intersection over the size of the union |
| Similarity.JaccardThreshold | backend/database.py:298 | a score reaches 0.6 exactly when five times the intersection's size is at least three times the union's size |
| Similarity.JaccardOfSame | backend/database.py:290-292 | equal non-empty token sets score 1 |
| Store.Dedupe | backend/database.py:243 | the same elements without repetition |
| Store.AllAdvisors | backend/database.py:391-401 | exactly the truthy advisor names of the projects, each once |
| Store.ProjectsOf | backend/database.py:249 | exactly the projects whose advisor is among the names |
| Store.ProjectsOfOrder | backend/database.py:249 | the projects are tested row by row, so the selection keeps table order |
| Store.FilledCandidates | backend/database.py:320-321 | exactly the truthy candidates of the project's filled slots |
| Store.FilledCandidatesOrder | backend/database.py:320-321 | the slots are read row by row, so the candidates come in table order |
| Store.FirstAvailable | backend/database.py:334 | the first available slot of the project with the perfil; none for a missing perfil or id |
| Store.FillSlot | backend/database.py:340-343 | the slot with the id becomes filled with the candidate; the table keeps its shape |
| Store.FillOneAvailable | backend/database.py:340-346 | with unique ids, filling an available slot removes exactly one available slot |
| Store.FillKeepsTheRest | backend/database.py:340-343 | with unique ids, every other slot is left as it was |
| Matching.BuildIndex | backend/database.py:203-207 | the built map sends each key to the distinct originals having that key |
| Matching.BuildAdvisorIndex | backend/database.py:203-207 | the advisor map of the loaded names under the engine key |
| Matching.AddAdvisorKeepsIndex | backend/database.py:204-207 | one build step keeps the map correct for the names seen so far |
| Matching.Gather | backend/database.py:238-240 | exactly the originals of the given keys |
| Matching.AdvisorKeyMatches | backend/database.py:231 | the close matches (n = 5, cutoff 0.75) of the draft's advisor key among the map's keys |
| Matching.MatchedAdvisors | backend/database.py:231-243 | only loaded names, without repetition |
| Matching.MatchedAdvisorsSound | backend/database.py:231-243 | a name is returned exactly when its key is among the matched keys; nothing exactly when no key qualifies |
| Matching.GatheredNames | backend/database.py:238-240 | a gathered name's key is one of the gathered keys |
| Matching.KnownAdvisorResolves | backend/database.py:231-243 | an advisor whose key is a loaded key always resolves to some names, and to itself unless five other perfect-scoring keys crowd it out |
| Matching.KnownAdvisorAmongTop | backend/database.py:231 | a key outranks the query's own key only when it scores 1 and sorts after it |
| Matching.FirstWhere | backend/database.py:265-270 | the first key with the property, and none before it has it |
| Matching.LastOf | backend/database.py:305 | the last position holding the key, the entry a dict comprehension keeps |
| Matching.JaccardScan | backend/database.py:286-296 | the scan ends at the first maximum of the scores over the eligible keys |
| Matching.JaccardPick | backend/database.py:282-299 | the first key with the highest Jaccard score, when that score reaches 0.6, and nothing otherwise |
| Matching.FuzzyPick | backend/database.py:304-308 | the best-ranked key at ratio ≥ 0.8, at its last position, and nothing otherwise |
| Matching.Cascade | backend/database.py:262-309 | the first layer that succeeds wins, in the order exact, substring, Jaccard, fuzzy, and every earlier layer failed |
| Matching.FindBestProject | backend/database_optimized.py:237-283 | the cascade on the draft title's project key over the candidate projects |
| Matching.EmptyKeyTakesFirst | backend/database_optimized.py:272-279 | an empty draft key takes the first candidate at the substring layer, unless some candidate key is empty |
| Matching.EqualKeyIsExact | backend/database_optimized.py:264-270 | a draft key equal to a candidate key is found at the exact layer, at or before that candidate |
| Matching.IsDuplicate | backend/database.py:324-328 | true exactly when some filled candidate's engine key scores at least 0.95 against the new one |
| Matching.DbKeys | backend/database.py:326 | the engine key of each name, position by position |
| Matching.SelfIsDuplicate | backend/database.py:324-328 | a candidate already on the list is a duplicate of itself |
| Lookup.BestLast | backend/parser.py:300-304 | the row whose key is the best close match of the query, if any key reaches the cutoff |
| Lookup.BestIsChosen | backend/parser.py:300-304 | the answer is the chosen row: best score, ties broken by string order, last holder of the key |
| Lookup.ChosenUnique | backend/parser.py:300-304 | at most one row is chosen |
| Lookup.BestLastIsChosen | backend/database.py:116-129 | the lookup agrees with the reference description whenever a row is chosen |
| Lookup.KnownKeyIsFound | backend/database.py:116-129 | a query equal to one of the keys is always found |
| Lookup.KnownKeyScoresOne | backend/parser.py:300-304 | such a query picks a row whose key scores 1 against it |
| Upsert.FindEdital | backend/database.py:99-100 | the id of the first edital stored under the link, if any |
| Upsert.ExistingProjects | backend/database.py:110-113 | exactly the stored projects of that edital, in table order; none without an edital id |
| Upsert.StoredKeys | backend/database.py:116 | the project key of each stored project, in order |
| Upsert.MatchedId | backend/database.py:116-129 | an id only from a stored project whose key scores at least 0.85 against the parsed key |
| Upsert.StoredKeyIsMatched | backend/database.py:116-129 | a parsed key equal to a stored key always gets an id |
| Upsert.NormalizeBolsa | backend/database.py:135-141 | a missing vagas becomes 1; the perfil is normalised |
| Upsert.NormalizeBolsas | backend/database.py:135-141 | the bolsas are normalised one by one, in order |
| Upsert.BuildProject | backend/database.py:118-152 | a payload project with the matched id and the parsed fields |
| Upsert.BuildProjects | backend/database.py:118-152 | one payload project per parsed project, in order |
| Upsert.BuildPayload | backend/database.py:155-161 | the edital fields and the payload projects |
| Upsert.UpsertEdital | backend/database.py:88-182 | None without a client; otherwise the RPC's answer, or None when it answers with nothing |
| Upsert.PayloadFields | backend/database.py:144-151 | every payload project carries its parsed project's names and normalised bolsas |
| Upsert.PayloadIdIsStored | backend/database.py:110-129 | a payload id is None or the id of a project stored for the same link whose key reaches 0.85 |
| Upsert.NewEditalHasNoIds | backend/database.py:99-113 | without a stored edital every project is sent as new |
| Upsert.SameKeySameId | backend/database.py:116-129 | nothing is consumed: two parsed titles with the same key get the same id |
| Upsert.ResaveMatchesStored | backend/database.py:110-129 | saving again under the same link matches every project whose title key is a stored key |
| RowByRow.Claim | backend/database.py:334-346 | the slot filled is the first fitting available one, given to the candidate; NoSlot, with nothing changed, exactly when none fits |
| RowByRow.RowTarget | backend/database.py:214-363 | a non-skipped target carries the normalised perfil and candidate, and the row-by-row engine never skips for lack of projects |
| RowByRow.Route | backend/database.py:312-363 | a cascade hit with a truthy id is the target; otherwise the advisors' sole project when they own exactly one; otherwise skipped as ambiguous |
| RowByRow.RowTargetSpec | backend/database.py:214-363 | the target, layer by layer: Incomplete exactly for a missing advisor or title, NoAdvisor exactly when no advisor key reaches 0.75, then a truthy cascade hit, else the sole project |
| RowByRow.StepRow | backend/database.py:311-383 | one draft: skipped, a duplicate, no slot, or one slot filled |
| RowByRow.StepRowSpec | backend/database.py:311-383 | a direct hit runs the duplicate test; the fallback path does not |
| RowByRow.Targets | backend/database.py:210-230 | one target per draft, in order |
| RowByRow.TargetsAt | backend/database.py:210-230 | each draft's target depends only on that draft |
| RowByRow.RowFold | backend/database.py:210-389 | the loop over the drafts, with the count of slots it fills |
| RowByRow.UpdateSlots | backend/database.py:184-389 | 0 with no drafts or no advisors; otherwise the fold over the drafts |
| RowByRow.RowFoldCounts | backend/database.py:210-389 | with unique ids, the count is the number of slots no longer available, and filled slots are untouched |
| RowByRow.StepRowCounts | backend/database.py:311-383 | the same for one step |
| RowByRow.UpdateSlotsCounts | backend/database.py:184-389 | the same for the whole run |
| Batch.SlotIndex | backend/database_optimized.py:82-86 | only available slots with a truthy project and perfil; each key holds one of them |
| Batch.SlotIndexKeepsLast | backend/database_optimized.py:82-86 | a key holds the last indexed slot with that key |
| Batch.SlotIndexIdsApart | backend/database_optimized.py:82-86 | with unique ids, different keys hold different slots |
| Batch.FilledIndex | backend/database_optimized.py:88-94 | no entry for an empty project id, and every listed project has at least one candidate |
| Batch.FilledIndexAgrees | backend/database_optimized.py:88-94 | the index lists, per project, the truthy candidates of its filled slots in table order, which is what the row-by-row engine asks the store for |
| Batch.DuplicateCloseAgrees | backend/database_optimized.py:159-166 | over the engine's pairwise test, the loop's duplicate test is the row-by-row one |
| Batch.DuplicateCloseIsReflexive | backend/database_optimized.py:159-166 | under a valid ratio every candidate is close to itself |
| Batch.Pick | backend/database_optimized.py:158-187 | a duplicate, no slot, or one claim of the project's key for the perfil |
| Batch.PickOutcome | backend/database_optimized.py:158-187 | which of the three happens, and exactly when |
| Batch.PickClaims | backend/database_optimized.py:176-187 | a claim removes that key, queues that slot and records the candidate, and nothing else |
| Batch.BatchStep | backend/database_optimized.py:103-189 | one draft of the loop, with the fallback also going through the duplicate test |
| Batch.BatchStepSpec | backend/database_optimized.py:103-189 | a skipped draft changes nothing; every other draft is picked |
| Batch.BatchFold | backend/database_optimized.py:103-189 | the loop with one outcome per draft |
| Batch.BatchStepSound | backend/database_optimized.py:177-184 | a step keeps the state sound: no slot id is queued twice, none is still indexed |
| Batch.ClaimSound | backend/database_optimized.py:177-184 | a claim keeps the state sound |
| Batch.BatchFoldSound | backend/database_optimized.py:177-184 | the loop keeps the state sound |
| Batch.DeadStaysDead | backend/database_optimized.py:159-187 | a target that cannot fill stays unable to fill in every later state |
| Batch.DeadIsNoOp | backend/database_optimized.py:159-187 | a dead target leaves the state alone |
| Batch.StepIsLater | backend/database_optimized.py:159-187 | every step only shrinks the index and grows the filled lists |
| Batch.StepKills | backend/database_optimized.py:159-187 | after a step its own target cannot fill again |
| Batch.DeadWhenNotFilled | backend/database_optimized.py:159-187 | a step that does not fill leaves its target dead |
| Batch.FoldIsLater | backend/database_optimized.py:103-189 | the loop only moves forward |
| Batch.FoldKillsAll | backend/database_optimized.py:103-189 | after the loop no target of the batch can fill anything |
| Batch.FoldOfDead | backend/database_optimized.py:103-189 | dead targets go by without a trace |
| Batch.FoldAppend | backend/database_optimized.py:103-189 | the loop over a + b continues the loop over a |
| Batch.BatchRepeatIsNoOp | backend/database_optimized.py:103-189 | the same drafts fed twice fill nothing more than fed once |
| Batch.FilledCountAppend | backend/database_optimized.py:103-189 | the filled count of a + b is the sum of the counts |
| Batch.StateAtNext | backend/database_optimized.py:103-189 | draft j is stepped from the state reached before it |
| Batch.StateAtLater | backend/database_optimized.py:103-189 | later states know more candidates and hold fewer keys |
| Batch.StateAtEnd | backend/database_optimized.py:103-189 | the state after all drafts is the loop's final state |
| Batch.LaterCloseCandidateIsDuplicate | backend/database_optimized.py:159-187 | a later draft for the same project with a close candidate is skipped as a duplicate |
| Batch.ClaimedCandidateStays | backend/database_optimized.py:187 | a claimed candidate stays on its project's filled list |
| Batch.KnownCloseIsDuplicate | backend/database_optimized.py:159-166 | a draft close to a listed candidate is a duplicate |
| Batch.OwnedBy | backend/database_optimized.py:75-79 | one advisor's projects, in table order |
| Batch.BatchProjects | backend/database_optimized.py:132-135 | exactly the projects of the matched advisors, grouped by advisor |
| Batch.BatchTarget | backend/database_optimized.py:104-150 | the cascade's hit, else the sole project of the advisors, else a skip reason |
| Batch.BatchTargetSpec | backend/database_optimized.py:104-150 | the target, step by step |
| Batch.BatchTargets | backend/database_optimized.py:104-150 | one target per draft, in order |
| Batch.BatchTargetsAt | backend/database_optimized.py:104-150 | each draft's target depends only on that draft |
| Batch.BatchLoop | backend/database_optimized.py:19-61 | None for no drafts, no advisors, or a failed project or slot read; otherwise the loop's state and outcomes |
| Batch.ApplyUpdates | backend/database_optimized.py:199 | each queued update fills its slot; the table keeps its shape |
| Batch.RunBatch | backend/database_optimized.py:19-204 | 0 and no write when the run stops, has nothing to write, or the upsert fails |
| Batch.ApplyUpdatesCounts | backend/database_optimized.py:199 | distinct available updates remove exactly one available slot each |
| Batch.ApplyUpdatesFills | backend/database_optimized.py:199 | the slot an update names ends up filled with its candidate |
| Batch.ApplyUpdatesKeeps | backend/database_optimized.py:199 | a slot no update names is left as it was |
| Batch.InitialSound | backend/database_optimized.py:82-94 | the state before the loop is sound |
| Batch.SoundApplicable | backend/database_optimized.py:177-199 | a sound final state names distinct available slots of the table |
| Batch.BatchLoopSound | backend/database_optimized.py:19-189 | the loop ends sound against the index it built |
| Batch.RunBatchCounts | backend/database_optimized.py:193-204 | with unique ids, the count is the number of slots no longer available, and other slots are untouched |
| Batch.FilledIsQueued | backend/database_optimized.py:177-184 | a filled draft queues its candidate for the slot its key held |
| Batch.WrittenIsFilled | backend/database_optimized.py:177-199 | once written, that slot holds the candidate and the store lists it as filled |
| Batch.FoldWritesFilled | backend/database_optimized.py:177-199 | the same for every filled draft of the loop |
| Batch.RerunSkipsFilled | backend/database_optimized.py:159-166 | running the same drafts again on the written store skips every draft that filled, as a duplicate |
| Parser.ClassifyEtapa | backend/parser.py:121-135 | resultado exactly for the result words; else entrevista; else homologacao; else inscricao, each case-insensitive |
| Parser.EtapaIgnoresCase | backend/parser.py:122-123 | lower-casing the inputs does not change the stage |
| Parser.ClassifyModalidade | backend/parser.py:137-153 | apoio_academico exactly when an apoio word appears, extensao otherwise |
| Parser.ModalidadeIgnoresCase | backend/parser.py:137-153 | lower-casing the title does not change the modality |
| Parser.DadosAt | backend/parser.py:347 | a match of `DADOS\s+DO(S)?\s+PROJETO(S)?` at the position, case-insensitive |
| Parser.MarkerAt | backend/parser.py:347 | a marker starts at the position and names PROGRAMA exactly when that word is there |
| Parser.Scan | backend/parser.py:347-348 | the non-overlapping leftmost matches from a position, inside the text |
| Parser.Markers | backend/parser.py:347-348 | the matches of the pattern, inside the text |
| Parser.ScanSound | backend/parser.py:347-348 | every match found is a real match, and none starts inside the previous one |
| Parser.ScanComplete | backend/parser.py:347-348 | every position where a match starts lies inside a match that was found |
| Parser.MarkersSpec | backend/parser.py:347-348 | finditer over the whole text: sound and complete |
| Parser.KeptFrom | backend/parser.py:353-361 | exactly the starts of the markers that are not suppressed |
| Parser.KeptFromOrder | backend/parser.py:353-361 | the kept starts are increasing |
| Parser.SplitIndices | backend/parser.py:350-361 | the first marker always starts a block; a later one starts a block unless it is DADOS fewer than 400 characters after a PROGRAMA |
| Parser.SplitIndicesAreCuts | backend/parser.py:350-361 | the cut points are increasing positions of the text |
| Parser.SplitIndicesOrdered | backend/parser.py:350-361 | the same for any increasing markers |
| Parser.Blocks | backend/parser.py:363-366 | one block per cut point |
| Parser.BlocksAt | backend/parser.py:363-366 | block k runs from cut k to the next cut, or to the end |
| Parser.BlocksCover | backend/parser.py:363-366 | the blocks, joined, are the text from the first cut to the end |
| Parser.BlocksArePrefixes | backend/parser.py:363-366 | each block starts the text at its cut |
| Parser.SplitBlocks | backend/parser.py:341-373 | None exactly for a text under 100 characters or without a marker |
| Parser.SplitBlocksSpec | backend/parser.py:341-373 | the blocks cover the text from the first marker and each starts at a kept marker |
| Parser.IndexOf | backend/parser.py:270 | the first position holding the header |
| Parser.ColIndex | backend/parser.py:267-271 | the position of the first alias present in the headers, or -1 exactly when none is |
| Parser.MapColumns | backend/parser.py:273-281 | None exactly when some required column has no alias in the headers |
| Parser.KnownKeys | backend/parser.py:300 | the parser key of each known advisor |
| Parser.CorrectAdvisor | backend/parser.py:295-304 | when some known key reaches ratio 0.8 the result is the known name of the chosen key; the raw value when nothing qualifies |
| Parser.RowDraft | backend/parser.py:306-311 | the four draft fields from the row's columns, with the advisor corrected |
| Parser.PageRows | backend/parser.py:283-311 | at most one draft per row, and one per row when all rows are kept |
| Parser.PageRowsSpec | backend/parser.py:283-311 | the drafts are exactly those of the kept rows: enough cells, no RESERVA, an all-digit perfil |
| Parser.PageRowsSound | backend/parser.py:283-311 | every draft comes from a kept row |
| Parser.PageRowsComplete | backend/parser.py:283-311 | every kept row gives its draft |
| Parser.PageDrafts | backend/parser.py:260-281 | no drafts for a page without headers, rows or a required column |
| Parser.UpperAll | backend/parser.py:260 | each header upper-cased |
| Parser.ResultDrafts | backend/parser.py:184-311 | no drafts without pages |
| Parser.PageDraftsFromRows | backend/parser.py:260-311 | a page's draft comes from a kept row under its mapped columns |
| Parser.ResultDraftsFromPages | backend/parser.py:184-311 | every draft of the PDF comes from one of its pages |
| Parser.NoticiaStage | backend/parser.py:561-611 | resultado exactly for a result title; inscricao exactly for an inscription title with project PDFs; none otherwise |
| Parser.TagCentros | backend/parser.py:594-605 | each parsed project carries the centro of the PDF it came from |
| Parser.ParseNoticia | backend/parser.py:551-613 | None exactly when the stage is none; a result has no projects or end date; an inscription has no approvals |
| Scraper.StrpIso | backend/scraper.py:239 | a date only for a valid calendar date in ISO form |
| Scraper.StrpIsoOfIsoText | backend/scraper.py:192 | reading a written ISO date gives the date back |
| Scraper.ManualDate | backend/scraper.py:41-60 | a value exactly when the cleaned text has three tokens and the first is a known month |
| Scraper.PublicationDate | backend/scraper.py:28-60 | None for empty input; the locale parse when it succeeds; else the manual fallback |
| Scraper.ManualDateIgnoresCase | backend/scraper.py:48 | the fallback does not depend on case |
| Scraper.ManualDateParses | backend/scraper.py:41-60 | a valid day and year give an ISO text that reads back as that date |
| Scraper.ManualDateBadDay | backend/scraper.py:41-60 | a day past the month's end gives a text that does not parse: the day is not validated |
| Scraper.DayFirstIsNotParsed | backend/scraper.py:41-60 | a text that starts with a digit, as a day-first date does, gives None, since the first token is read as the month |
| Scraper.DayFirstExample | backend/scraper.py:41-60 | "15 de março de 2025" gives None |
| Scraper.MonthMapValues | backend/scraper.py:41-45 | every month maps to two digits between 01 and 12 |
| Scraper.DayDigits | backend/scraper.py:55 | zfill(2) of a one- or two-digit day keeps its value |
| Scraper.FirstCode | backend/scraper.py:86-88 | the first code contained in the text, and none before it is |
| Scraper.ExtractCentro | backend/scraper.py:81-89 | a centro code contained in the lower-cased text; None exactly when none is |
| Scraper.CctaWins | backend/scraper.py:85 | a text containing ccta gives ccta |
| Scraper.CentroIsFirst | backend/scraper.py:81-89 | no earlier code in the order is contained |
| Scraper.CentroIgnoresCase | backend/scraper.py:81-89 | lower-casing the text does not change the answer |
| Scraper.PdfLinks | backend/scraper.py:110 | exactly the links with a non-empty href ending in .pdf |
| Scraper.ProjectLinks | backend/scraper.py:120-134 | exactly the non-excluded links that name a centro, tagged with it |
| Scraper.PrincipalCandidates | backend/scraper.py:120-136 | empty exactly when every PDF link is excluded or names a centro |
| Scraper.FirstCandidateIsFirst | backend/scraper.py:120-136 | the first candidate is the href of the first link that is neither excluded nor names a centro |
| Scraper.FirstNotExcluded | backend/scraper.py:144-147 | None exactly when every link is excluded |
| Scraper.TriageLinks | backend/scraper.py:110-147 | the project PDFs of the pdf links, and a principal |
| Scraper.TriagePrincipal | backend/scraper.py:139-147 | the principal is the first candidate, absent exactly when there is none |
| Scraper.FallbackFindsNothing | backend/scraper.py:141-147 | the fallback can find nothing when the candidates and the projects are empty |
| Scraper.CandidateIsTruthy | backend/scraper.py:139 | the chosen principal href is not empty |
| Scraper.TriageProjects | backend/scraper.py:124-134 | every project PDF comes from a pdf link naming its centro |
| Scraper.NoticeKind | backend/scraper.py:219-230 | a kind exactly for a proex or extensão title with an inscription or result word; its flags tell which |
| Scraper.ScraperAndParserAgree | backend/scraper.py:224-227 | the scraper's result flag gives the parser's resultado stage |
| Scraper.RouteOf | backend/scraper.py:249-267 | inscription needs a principal and projects; result needs projects and no inscription word |
| Scraper.Walk | backend/scraper.py:213-242 | raises exactly on an unparsable date; otherwise lists exactly the titles that reach the date filter |
| Scraper.Reverse | backend/scraper.py:208 | the list backwards |
| Scraper.FetchNews | backend/scraper.py:186-242 | a malformed stored date raises, no stored date never raises, and every listed title passes the title filter |
| Scraper.FetchNewsSpec | backend/scraper.py:186-242 | the same over the page, with a malformed stored date raising |
| Scraper.NoStoredDateKeepsAll | backend/scraper.py:238-242 | with no stored date every relevant title is listed |
| Limits.ExactRule | backend/rate_limiter.py:75-77 | the first rule whose key is the path; none exactly when no key is |
| Limits.PrefixRule | backend/rate_limiter.py:80-82 | the first rule whose key prefixes the path; none exactly when no key does |
| Limits.LimitFor | backend/rate_limiter.py:64-86 | a listed path gets the limit of an entry with that key, and a path some key prefixes gets the limit of an entry prefixing it |
| Limits.LimitForSpec | backend/rate_limiter.py:74-86 | exact key, else first prefix, else the default |
| Limits.LimitForIsConfigured | backend/rate_limiter.py:74-86 | every answer is a configured limit or the default |
| RateLimiter.EndpointLimit | backend/rate_limiter.py:64-86 | a configured limit of at least 5 calls and a window of at most an hour |
| RateLimiter.ScrapeStartLimit | backend/rate_limiter.py:37 | /api/scrape/start gets five calls per hour |
| RateLimiter.Newer | backend/rate_limiter.py:106-109 | exactly the entries strictly newer than the time, in order |
| RateLimiter.NewerMembers | backend/rate_limiter.py:106-109 | an entry is kept exactly when it is newer |
| RateLimiter.Cleanup | backend/rate_limiter.py:41-62 | a no-op before the interval; otherwise entries older than an hour and emptied IPs are dropped |
| RateLimiter.Step | backend/rate_limiter.py:99-146 | denies exactly when the IP's count in the window reaches the limit, recording nothing; an allow records one entry |
| RateLimiter.IsAllowed | backend/rate_limiter.py:88-146 | the step under the endpoint's own limit, which is at least 5 calls over a window of one minute to one hour |
| RateLimiter.StepInfo | backend/rate_limiter.py:115-146 | the reported count, remaining calls and retry delay |
| RateLimiter.NewerIdempotent | backend/rate_limiter.py:133-136 | filtering twice by a time is filtering once |
| RateLimiter.NewerNewer | backend/rate_limiter.py:133-136 | filtering by a later time after an earlier one is filtering by the later |
| RateLimiter.TotalOfUnits | backend/rate_limiter.py:107-109 | with unit counts the total is the number of entries |
| RateLimiter.AllowedHistory | backend/rate_limiter.py:129-136 | an allowed call leaves the entries inside the window, then the new one |
| RateLimiter.AllowedStaysWithinLimit | backend/rate_limiter.py:138-146 | after an allowed call the IP's calls in the window are at most the limit, and the remaining count is reported and not negative |
| RateLimiter.AllowedPrunesSharedHistory | backend/rate_limiter.py:133-136 | an allowed call drops entries a longer-window endpoint would still count |
| RateLimiter.UnitCountsKept | backend/rate_limiter.py:130 | every entry counts one call, before and after any call |
| RateLimiter.AllowedEntriesWithinLimit | backend/rate_limiter.py:129-146 | after an allowed call the IP holds at most the limit of entries |
| RateLimiter.CleanupKeepsWindows | backend/rate_limiter.py:41-62 | the sweep never changes a decision |
| VercelLimiter.PathLimit | api/rate_limiter_vercel.py:49-63 | every limit is per minute with 50 to 200 calls, or per hour with 5 to 20 calls |
| VercelLimiter.BolsaIdLimit | api/rate_limiter_vercel.py:58-60 | /api/bolsas/abc gets 200 calls per minute |
| VercelLimiter.FirstField | api/rate_limiter_vercel.py:42 | the text before the first comma |
| VercelLimiter.ClientIp | api/rate_limiter_vercel.py:36-47 | forwarded-for's first entry, stripped, when not empty; else x-real-ip when not empty; else cf-connecting-ip when not empty; else unknown; never empty |
| VercelLimiter.NoHeadersIsUnknown | api/rate_limiter_vercel.py:36-47 | no headers gives unknown |
| VercelLimiter.After | api/rate_limiter_vercel.py:80-87 | only stamps newer than the time |
| VercelLimiter.Step | api/rate_limiter_vercel.py:65-111 | prunes to the window, denies exactly when the count reaches the limit, appends now only on an allow; other IPs untouched |
| VercelLimiter.CheckLimit | api/rate_limiter_vercel.py:65-111 | the step under the path's limit |
| VercelLimiter.RetryAfterBounds | api/rate_limiter_vercel.py:89-100 | a denial asks for at least one second, and for at most a window and a second when the oldest kept call is not later than now |
| VercelLimiter.AllowedStaysWithinLimit | api/rate_limiter_vercel.py:102-111 | after an allowed call the IP holds at most the limit of stamps, all in the window |
| VercelLimiter.ApplyRateLimit | api/rate_limiter_vercel.py:118-141 | None exactly when the check allows; otherwise the error with limit, window and retry delay |
| Security.EscapeIsInert | api/security_utils.py:28 | no raw < > " ' remains in the escaped text |
| Security.EscapeRoundTrip | api/security_utils.py:28 | decoding the escaped text gives the text back |
| Security.EscapePlain | api/security_utils.py:28 | text without special characters is unchanged |
| Security.SanitizeTelegramHtml | api/security_utils.py:24-30 | "" for empty text, otherwise the escaped text |
| Security.SanitizeUrl | api/security_utils.py:43-57 | "" for empty input; otherwise an escaped http or https URL that decodes to the normalised URL |
| Security.ValidateOrigin | api/security_utils.py:71-88 | false for an empty origin; otherwise true exactly when some entry accepts it |
| Security.ListedOriginIsValid | api/security_utils.py:79-80 | a listed origin is valid whatever its case or blanks |
| Security.EmptyListRejects | api/security_utils.py:71-88 | an empty list accepts nothing |
| Security.WildcardAccepts | api/security_utils.py:83-86 | a wildcard accepts every origin ending with its domain |
| Security.WildcardWithoutDotBoundary | api/security_utils.py:83-86 | *.vercel.app accepts https://evilvercel.app |
| Security.BuildCorsHeaders | api/security_utils.py:139-159 | a valid origin is echoed with credentials; otherwise the first allowed origin without them; an empty list gives no headers |
| Security.CreateTelegramSafeMessage | api/security_utils.py:180-214 | the kind's heading, the escaped title, the sanitised link and the escaped or default closing line |
| Security.MessageFieldsAreInert | api/security_utils.py:180-183 | no field brings a raw angle bracket or quote into the message |
| Formatters.SplitOn | frontend/src/lib/utils.ts:33 | the maximal space-free runs, empty ones included |
| Formatters.JoinSplit | frontend/src/lib/utils.ts:33 | joining the segments gives the text back |
| Formatters.SplitJoin | frontend/src/lib/utils.ts:48 | splitting joined space-free segments gives them back |
| Formatters.Capitalize | frontend/src/lib/utils.ts:34 | the first character upper-cased, the rest kept |
| Formatters.FormatProjectTitle | frontend/src/lib/utils.ts:29-36 | "" for empty input; segments recased and rejoined |
| Formatters.FormatPersonName | frontend/src/lib/utils.ts:43-55 | the same, particles kept lower case |
| Formatters.SegmentsOfFormat | frontend/src/lib/utils.ts:31-35 | the result splits into the recased segments, so the segment count is kept |
| Formatters.LowerOfFormat | frontend/src/lib/utils.ts:29-55 | over ASCII, lower-casing the result gives the lower-cased input |
| Formatters.FormatIdempotent | frontend/src/lib/utils.ts:29-55 | over ASCII, the length is kept and formatting twice is formatting once |
| Formatters.ProjectTitleLaws | frontend/src/lib/utils.ts:29-36 | over ASCII, length kept, idempotent, every non-initial character lower case |
| Formatters.PersonNameLaws | frontend/src/lib/utils.ts:43-55 | the same for person names |
| Formatters.TailsAreLower | frontend/src/lib/utils.ts:29-55 | every character after a segment's first is lower case |
| Formatters.ParticleStaysLower | frontend/src/lib/utils.ts:45-52 | "MARIA DA SILVA" becomes "Maria da Silva" |
| Formatters.ThreeWordName | frontend/src/lib/utils.ts:43-55 | a name that lower-cases to three space-free words is the three recased words joined by spaces |
| Contact.JsTrim | frontend/src/components/TelegramFloatingButton.tsx:21-25 | empty exactly when every character is white space |
| Contact.Submit | frontend/src/components/WhatsAppFloatingButton.tsx:21-25 | refused exactly for a blank field; otherwise the trimmed, non-empty field is sent |
| Contact.FormatPhoneNumber | frontend/src/components/WhatsAppFloatingButton.tsx:62-78 | the mask by digit count, at most 15 characters, and its digits are the first 11 of the input |
| Contact.PhoneIdempotent | frontend/src/components/WhatsAppFloatingButton.tsx:62-78 | masking a masked number changes nothing |
| Contact.PhoneSubmitRefusedIffNoDigits | frontend/src/components/WhatsAppFloatingButton.tsx:21-25 | sending is refused exactly when no digit was typed |
| Contact.FormatTelegramId | frontend/src/components/TelegramFloatingButton.tsx:63-84 | a numeric id cut to 15 digits, else an @username of at most 33 characters, only id characters |
| Contact.TelegramIdempotent | frontend/src/components/TelegramFloatingButton.tsx:63-84 | formatting a formatted id changes nothing |
| Contact.TelegramShapes | frontend/src/components/TelegramFloatingButton.tsx:68-83 | digits up to 15, empty, or an @ name up to 33 |
| Contact.TelegramEmpty | frontend/src/components/TelegramFloatingButton.tsx:65 | empty exactly when no id character was typed |
| Contact.TelegramSubmitRefusedIffEmpty | frontend/src/components/TelegramFloatingButton.tsx:21-25 | sending is refused exactly when no id character was typed; otherwise the id is sent as formatted |
| ViewSession.MarkViewed | frontend/src/hooks/useViewSession.ts:79-99 | true exactly for a first view; afterwards the id is viewed and nothing else changed |
| ViewSession.HasViewed | frontend/src/hooks/useViewSession.ts:68-73 | true exactly when the id is among the viewed ids |
| ViewSession.ClearViewed | frontend/src/hooks/useViewSession.ts:104-111 | nothing is viewed afterwards |
| ViewSession.MarkTwice | frontend/src/hooks/useViewSession.ts:79-99 | a second mark reports false |
| ViewSession.MarkAfterClear | frontend/src/hooks/useViewSession.ts:104-111 | after a clear any mark reports true |
| ViewSession.SessionStats | frontend/src/hooks/useViewSession.ts:116-127 | viewedCount is the number of distinct viewed ids |
| ViewSession.FormatDuration | frontend/src/hooks/useViewSession.ts:141-153 | hours and minutes, minutes and seconds, or seconds, parts taken mod 60 |
| ViewSession.DurationParts | frontend/src/hooks/useViewSession.ts:141-153 | the printed parts recombine into the whole minutes and seconds |
| ViewSession.OnOpen | frontend/src/pages/Index.tsx:167-171 | a view is counted exactly when a bolsa is open and not yet viewed |
| ViewSession.CountedOnce | frontend/src/pages/Index.tsx:167-171 | without a clear, each bolsa is counted at most once, never when already viewed |

## Left out

- The literal examples of backend/tests/test_utils.py are not proved as literals; the laws they illustrate (accents, structural punctuation, other punctuation, whitespace, case) are proved for all inputs.
- `list(set(...))` has no fixed order in Python; Store.Dedupe keeps first occurrences. Any other order gives the same set of names.
- Exceptions other than the modelled error paths (a failed read, a failed upsert, a malformed stored date) are not modelled.
- Notifications after a batch run (backend/database_optimized.py:210-229) are external delivery and are left out.
- A failed `get_all_orientadores` returns `[]`, which the model treats like an empty projects table.
- Matching.KnownAdvisorResolves: the advisor itself is among the names only when five other keys scoring 1 do not fill the top five, since get_close_matches stops at five.
- Similarity.ValidRatio: difflib's Ratcliff/Obershelp ratio is a parameter; only its range and `ratio(a, a) == 1` are assumed.
- The batch engine groups the advisors' projects by advisor in the order of the resolved names; that order follows Store.Dedupe's choice.
- The row-by-row count rises when `update_response.data` is truthy; the model takes it as always truthy, since the update targets an existing id.
- Batch.RerunSkipsFilled: requires the draft's candidate name to be non-empty, because an empty name is not stored as a filled candidate.
- Upsert.UpsertEdital: the `handle_edital_upsert` RPC is an opaque function of the payload; its own behaviour on repeated ids is not modelled.
- Gemini calls, PDF text extraction, JSON-from-LLM cleanup, retries and sleeps in backend/parser.py are left out; pages arrive as headers and rows.
- Case-insensitive matching (`re.IGNORECASE`, `lower()`, `upper()`) follows the character table, which is exact for ASCII and Latin-1 only.
- The end date of an inscription notice, taken from the PDF or the title, is an input of Parser.ParseNoticia.
- A `detalhe_bolsas` that is None is not modelled; the bolsas of a parsed project are a list.
- The key functions the parser's advisor correction uses are parameters of Parser.CorrectAdvisor.
- The locale-dependent `strptime` attempt is a parameter of Scraper.PublicationDate.
- `strptime` accepts only ASCII digits in the model.
- The two `time.time()` readings of a rate-limit check are one value `now`.
- Link texts arrive already stripped of their HTML.
- The day-first example "15 de março de 2025" is not read by the manual fallback, which takes the first token as the month: the model gives None for it, as the code does (Scraper.DayFirstExample), and only the locale-dependent `strptime` attempt could read it.
- Store.ProjectsOf: keeps the rows in the order they are given; the `.in_('orientador', ...)` read has no ORDER BY (backend/database.py:249), so the database chooses the order, and with it which project the cascade's first-hit layers and the Jaccard and fuzzy tie-breaks pick.
- Batch.OwnedBy: keeps table order; the `select('*')` of the projects has no ORDER BY (backend/database_optimized.py:36), so the database chooses the order the batch cascade sees.
- Store.FilledCandidates: keeps table order; the read of filled candidates has no ORDER BY (backend/database.py:320), so the database chooses the order of the names tested for duplicates.
- Upsert.FindEdital: takes the first row; `response.data[0]['id']` reads a query with no ORDER BY (backend/database.py:99-100), so with several editais under one link the database chooses which id is returned.
- Values.Json: floats and booleans are not modelled; a perfil or field stored as `1.0` or `True` would give `str(...)` "1.0" or "True", which `zfill(2)` leaves alone. The model's values are null, integers and strings.
- VercelLimiter.RetryAfterBounds: the upper bound of a window and a second needs the oldest kept call not to be later than now; a stamp from the future (a clock that moved back) gives a longer delay, as the code computes.
- Store.FirstAvailable: takes the first fitting slot in table order; the query's `.limit(1)` has no ORDER BY (backend/database.py:334), so the database chooses the row.
- Batch.RunBatch: reports the number of queued updates; the code reports `len(response.data)` of the upsert, which the model takes to echo every written row (backend/database_optimized.py:199-200).
- `get_allowed_origins` (environment variables and DEBUG) is not modelled; the allowed list is a parameter.
- sessionStorage, uuid generation, `Date.now` and JSON serialisation of the view session are left out.
- The page effect runs once per opening of a bolsa's details; React's re-rendering is abstracted as one event per opening.
- JavaScript strings are taken as sequences of code points; UTF-16 surrogate pairs are not modelled.
- The serverless limiter's dict is lost on a cold start; the model passes the state in and out, and `now` is a parameter.
- JavaScript `toLowerCase` and `toUpperCase` use the same character table, exact for ASCII and Latin-1.
- Formatters.FormatIdempotent: stated over ASCII only, because `ß` upper-cases to two characters and `ÿ` to a character outside Latin-1.
- React rendering, fetch and the request sent by the widgets are left out; a sent request is the `Sent` outcome.
- VercelLimiter.Step: requires a limit of at least one call; every configured limit allows at least five.
