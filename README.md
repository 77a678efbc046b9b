# EHS-mentor: a verified model of its rule core

EHS-mentor assigns environment, health and safety trainings to workers.
Regulatory PDFs are uploaded and mapped to catalogue courses. Courses are
assigned per user and tracked to completion. A learner page, an admin page
with a safety-assistant chat, and a meditation widget sit on top. This project
models the rules of that system in Dafny and proves what they promise. The
database, the PDF reader, the language model and the browser's timers are
replaced by inputs, tables and events.

One module per source file:

- `Urgency` (update_urgency.py): the five-level due-date classifier and the nightly re-labelling job.
- `Chunking` and `Requirements` (app/routers/ai_process.py): page chunking with overlap and a global cap; merging requirements by normalised title; keyword-to-course mapping with a bounded confidence; the guards and steps of `process_document`.
- `Recommender` (app.py): role canonicalisation, risk tags from equipment and incidents, optional modules, the policy checklist, the quiz and `compute_recommend`.
- `Mappers` (app/ai/mappers.py): the post-match step of the regex course mapper, with a hit-count confidence, excerpt windows, and de-duplication that keeps the highest confidence.
- `Docs` (app/routers/docs.py): text normalisation, the tokenizer and course score, the mapping upsert that never lowers a confidence, and SHA-idempotent ingest with the `pathlib` join of the data root and the file name. The ORM session is the `DocsStore` class.
- `Assignments` (app/routers/assignments.py): create, reassign, list and sync over a table keyed by (user, course). This is the `AssignmentsDb` class.
- `Reports` (app/routers/reports.py): the training history with its status tallies and completion rate, ordered by the completion timestamp.
- `Documents` (app/routers/documents.py): map, promote, extract and process, with their inserted/skipped counters, over tables keyed by their unique constraints.
- `Learner` (src/pages/Learner.tsx): progress, next pending training, completed-last ordering in place, priority badge and icon.
- `Meditation` (src/components/MeditationApp.tsx): the countdown and breath cycle as the `MeditationApp` class, and `formatTime`.
- `AdminChat` (src/pages/Admin.tsx): the chat's submit, 429 countdown and one-shot automatic retry as the `ChatBox` class, plus the assignment-button guards.
- `UploadWizard` (src/pages/Upload.tsx): the upload, processing and result wizard as the `Wizard` class.

Shared modules hold what the sources take from their libraries:

- `Wrappers`: Option and Result.
- `Text`: strip, lower, split and join, substring tests, order-keeping de-duplication.
- `Lex`: code-point string order.
- `Numbers`: decimal rendering and its inverse.
- `Sorting`: a stable sort standing for `sorted` and `ORDER BY`.
- `Dicts`: insertion-ordered dicts.
- `Tables`: the rows of the document tables.

Each long-running operation that loops in the source is a method with loop
invariants. Its `ensures` ties the result to a specification function, and
the properties are proved about that function as lemmas.

## Model

| member | source | states |
|---|---|---|
| Urgency.ClassifyRanges | update_urgency.py:24-39 | each level holds for exactly one range of days until due: none without a due date, overdue below 0, urgent 0 to 7, soon 8 to 30, normal above 30 |
| Urgency.ClassifyMonotone | update_urgency.py:30-39 | a later due date never yields a more pressing level |
| Urgency.ClassifyExamples | test_urgency_proof.py:138-143 | the check script's cases: 5 days ago is overdue, in 3 days urgent, in 15 soon, in 60 normal, no date none |
| Urgency.PendingRows | update_urgency.py:50-55 | the job selects exactly the rows whose status is not `completed` |
| Urgency.RelabelAll | update_urgency.py:64-73 | one relabelled row per selected row |
| Urgency.UpdateUrgencyLevels | update_urgency.py:41-77 | the loop's tallies, UPDATE statements and resulting rows equal those of the per-row specification over the selected rows, and `updated_count` is the number of UPDATEs |
| Urgency.JobStep | update_urgency.py:59-74 | one more row adds its level to the tallies, adds an UPDATE only when its stored level differs, and appends its relabelled row |
| Urgency.CountsSumToRows | update_urgency.py:44-65 | the five tallies add up to the number of rows processed |
| Urgency.UpdatesCountStaleRows | update_urgency.py:67-74 | exactly one UPDATE per row whose stored level differs from the computed one |
| Urgency.UpdatesComeFromStaleRows | update_urgency.py:68-73 | every UPDATE names a stale row and writes its computed level |
| Urgency.RelabelChangesOnlyStale | update_urgency.py:68-73 | a row changes iff it is stale, and only its level changes |
| Urgency.RerunIsNoOp | update_urgency.py:59-74 | a second run the same day issues no UPDATE, counts the same, and leaves the rows as they are |
| Chunking.Window | app/routers/ai_process.py:64 | a window is at most 8000 characters long |
| Chunking.AppendPageChunks | app/routers/ai_process.py:63-73 | the inner loop appends the page's non-blank windows in order, each with the id `p<page>_c<i//8000>` as written, and stops at the first 16 chunks |
| Chunking.AddPage | app/routers/ai_process.py:54-76 | one page adds its chunks with the ids as written (none for a blank page), capped at 16 in total |
| Chunking.ExtractChunks | app/routers/ai_process.py:46-82 | the result is the first 16 chunks of all pages' chunks in page order, with the ids as written (`i//8000`) |
| Chunking.AllChunksShape | app/routers/ai_process.py:53-69 | every chunk carries a page number from 1 to the page count and non-blank text of at most 8000 characters |
| Chunking.PageChunksShape | app/routers/ai_process.py:63-69 | every chunk of a page names that page and is a non-blank text of at most 8000 characters |
| Chunking.CapBound | app/routers/ai_process.py:72-76 | at most 16 chunks are returned, 16 being the first count whose 8000-character total exceeds 120000 |
| Chunking.PageChunksReach | app/routers/ai_process.py:57-63 | on single-spaced text the windows, 7500 apart, cover the page to its end |
| Chunking.PageChunksWindows | app/routers/ai_process.py:57-69 | on single-spaced text chunk `k` of a page is exactly the window starting at `7500*k`, with the id that the chosen divisor gives that offset (`8000` as written) |
| Chunking.WindowNotBlank | app/routers/ai_process.py:57-65 | a window starting inside single-spaced text is never blank |
| Chunking.PageChunksOfPage | app/routers/ai_process.py:55-69 | chunk `k` of a page with text is the 8000-character window of its normalised text at `7500*k`, named `p<page>_c<7500*k // divisor>` (`8000` as written) |
| Chunking.ChunkIdOfInjective | app/routers/ai_process.py:69 | the id `p<page>_c<n>` determines both its page and its number |
| Chunking.ChunkIdAsWrittenCollides | app/routers/ai_process.py:69 | as written, the windows at offsets 0 and 7500 of one page get the same id |
| Chunking.ExtractedIdsCollide | app/routers/ai_process.py:46-82 | as written, a document whose first page has more than 7500 characters of normalised text comes back with two chunks named `p1_c0` |
| Chunking.LongPageCollides | app/routers/ai_process.py:57-69 | as written, a page with more than 7500 characters of normalised text has at least two chunks, and the first two are both named `c0` |
| Chunking.PageIds | app/routers/ai_process.py:63-69 | chunk `x` of a page names the page and the number `7500*x // divisor`: `7500*x // 8000` as written, `x` when numbered by window |
| Chunking.AllIdsNamePages | app/routers/ai_process.py:53-69 | under either divisor, every chunk's id names the chunk's own page |
| Chunking.PrependPageDistinct | app/routers/ai_process.py:53-69 | numbered by window, a page's chunks put before later pages' chunks keep all ids distinct (the corrected numbering of the Findings row) |
| Chunking.ChunkIdsDistinct | app/routers/ai_process.py:53-69 | with the corrected numbering `i//7500`, no two chunks of a document share an id |
| Chunking.ExtractedIdsDistinct | app/routers/ai_process.py:46-82 | with the corrected numbering `i//7500`, the capped result has pairwise distinct ids; the extraction as written does not (ExtractedIdsCollide) |
| Chunking.PageRenumber | app/routers/ai_process.py:63-69 | on a page, the two numberings give the same chunks, in the same order, apart from their ids |
| Chunking.Renumber | app/routers/ai_process.py:53-76 | over a document, the corrected numbering extracts the same texts of the same pages as the code as written; only the ids differ |
| Requirements.Keys | app/routers/ai_process.py:165-166 | one key per requirement: its title stripped and lower-cased |
| Requirements.GroupMembers | app/routers/ai_process.py:165-181 | a title's group holds exactly the requirements with that normalised title |
| Requirements.GroupEmptyIff | app/routers/ai_process.py:168-181 | a title's group is empty iff no requirement has that title |
| Requirements.DedupSpec | app/routers/ai_process.py:160-197 | the merged list has one entry per distinct normalised title |
| Requirements.DedupStepSeen | app/routers/ai_process.py:168-179 | a title seen before: its kept entry absorbs the requirement, and the loop state stays the reference one |
| Requirements.DedupStepNew | app/routers/ai_process.py:180-181 | a new title: it joins the order with the requirement as its entry |
| Requirements.Deduplicate | app/routers/ai_process.py:160-197 | the loop over `seen` returns exactly the reference merge: one entry per title in first-seen order, each folding its group |
| Requirements.DedupFinal | app/routers/ai_process.py:185-195 | once all requirements are in, the entries of `seen` in insertion order are the reference result |
| Requirements.CombineProperties | app/routers/ai_process.py:170-176 | a folded group keeps its first title, the least page of the group and the highest severity of the group (each one of the group's own) |
| Requirements.CombineTags | app/routers/ai_process.py:179 | a folded group's tags are exactly the union of the group's tags |
| Requirements.GroupHead | app/routers/ai_process.py:168-181 | a group starts with the first requirement that has its title |
| Requirements.DedupTitlesUnique | app/routers/ai_process.py:162-185 | the merged titles are pairwise distinct, in first-occurrence order, and every input title is represented |
| Requirements.SummaryHead | app/routers/ai_process.py:170-181 | a merged entry keeps the title of its group's first requirement |
| Requirements.SummaryBounds | app/routers/ai_process.py:171-176 | a merged entry has the least page and the highest severity of its group, each taken from a member |
| Requirements.SummaryTags | app/routers/ai_process.py:179 | a merged entry's tags are the union of its group's tags |
| Requirements.DedupMerges | app/routers/ai_process.py:160-197 | each returned requirement carries the first title, least page, highest severity and all the tags of its group |
| Requirements.MatchCount | app/routers/ai_process.py:143-152 | the matches never exceed the number of requirements |
| Requirements.KeywordMappingIdsDistinct | app/routers/ai_process.py:38-44 | `KEYWORD_MAPPING` names each course once |
| Requirements.MatchCounts | app/routers/ai_process.py:142-152 | each course's count is the number of requirements mentioning one of its keywords |
| Requirements.MapRequirementsToCourses | app/routers/ai_process.py:138-158 | the nested loops return exactly the reference mapping: positive-count courses, each with its confidence rounded to two places, highest rounded confidence first and ties in `KEYWORD_MAPPING` order |
| Requirements.MatchCountPositive | app/routers/ai_process.py:146-154 | a course has matches iff some requirement mentions one of its keywords |
| Requirements.ConfidenceRange | app/routers/ai_process.py:155-156 | with matches between 1 and the total, the value before rounding is `0.6 + matches/total*0.35`, in (0.6, 0.95], so the cap never applies; the rounded confidence lies in [0.6, 0.95] within half a hundredth of it |
| Requirements.Round2Near | app/routers/ai_process.py:156 | `round(x, 2)` moves a value by at most half a hundredth |
| Requirements.Round2Monotone | app/routers/ai_process.py:156 | rounding to two places never reverses the order of two values |
| Requirements.Round2Hundredths | app/routers/ai_process.py:156 | a value with two decimal places is kept by the rounding |
| Requirements.ConfidenceTies | app/routers/ai_process.py:155-158 | out of 100 requirements, 2 and 3 matches both round to 0.61, so the sort keeps their `KEYWORD_MAPPING` order; 1 match rounds to 0.6 itself |
| Requirements.CandidatesConfidence | app/routers/ai_process.py:154-156 | every candidate's rounded confidence lies in [0.6, 0.95] |
| Requirements.CandidatesFromTable | app/routers/ai_process.py:142-156 | every candidate is a table course with a positive count |
| Requirements.CandidatesCoverTable | app/routers/ai_process.py:142-156 | every table course with a positive count is a candidate |
| Requirements.CandidatesDistinct | app/routers/ai_process.py:142-156 | no course is a candidate twice |
| Requirements.MappingWithOrdered | app/routers/ai_process.py:154-158 | the mapping is sorted by falling rounded confidence, every confidence in [0.6, 0.95], no course twice |
| Requirements.MappingWithIds | app/routers/ai_process.py:142-156 | a course is mapped iff its match count is positive |
| Requirements.MappingWithCourses | app/routers/ai_process.py:142-156 | a course is mapped iff some requirement mentions one of its keywords |
| Requirements.MappingProperties | app/routers/ai_process.py:38-44 | for `KEYWORD_MAPPING`: each course at most once, exactly those some requirement mentions, rounded confidence in [0.6, 0.95], highest first (also lines 138-158) |
| Requirements.RowsFor | app/routers/ai_process.py:241-245 | one `doc_course_map` row per mapped course, with its id, confidence and `Mapped from <n> requirements` |
| Requirements.AnalyzeChunks | app/routers/ai_process.py:228-231 | the requirements of every chunk, concatenated in chunk order |
| Requirements.StoreMappings | app/routers/ai_process.py:240-246 | the inserted rows are exactly one row per mapped course |
| Requirements.ProcessDocument | app/routers/ai_process.py:199-256 | 404 for an unknown document, 409 once it has mappings, 500 for an unreadable PDF, 400 with no chunk; otherwise, and exactly then, success, with the merged requirements, their mapping and one inserted row per mapped course |
| Requirements.SecondRunRefused | app/routers/ai_process.py:216-246 | after a run that mapped a course, the document has mappings, so a second run is refused with 409 |
| Mappers.ConfidenceSteps | app/ai/mappers.py:37-38 | one match gives 0.5, two 0.75, three or more 1.0; always within [0.5, 1.0] |
| Mappers.ConfidenceMonotone | app/ai/mappers.py:38 | more matches never lower the confidence |
| Mappers.Window | app/ai/mappers.py:40-41 | the window contains the match and reaches 120 characters either side, clamped to the text |
| Mappers.ExcerptShape | app/ai/mappers.py:42-43 | an excerpt has at most 500 characters, no line break, and no more than its window |
| Mappers.Candidates | app/ai/mappers.py:33-43 | per rule, no entry without a match and the rule's entry otherwise |
| Mappers.CollectMatches | app/ai/mappers.py:31-43 | the first loop collects exactly the entries of the matching rules, in rule order |
| Mappers.FoundSpec | app/ai/mappers.py:33-43 | a collected entry is the entry of a rule that matched, and every rule that matched contributes its entry |
| Mappers.BestSpec | app/ai/mappers.py:46-48 | the entry kept for a course id is one of its entries, has the highest confidence among them, and is the first to reach it |
| Mappers.DedupSpec | app/ai/mappers.py:45-49 | one entry per distinct course id |
| Mappers.DedupStepNew | app/ai/mappers.py:47-48 | a new course id becomes a new key at the end of the dict |
| Mappers.DedupStepSeen | app/ai/mappers.py:47-48 | a known course id is replaced only by a strictly higher confidence |
| Mappers.Dedup | app/ai/mappers.py:45-49 | the second loop and `list(dedup.values())` return the reference de-duplication |
| Mappers.DedupIds | app/ai/mappers.py:45-49 | the result's ids are the input's distinct ids in first-appearance order, each once |
| Mappers.DedupKeepsMax | app/ai/mappers.py:46-48 | each kept entry is an input entry with the highest confidence for its course id |
| Mappers.DedupNoRepeats | app/ai/mappers.py:45-49 | without repeated course ids the de-duplication changes nothing |
| Mappers.RulesDistinct | app/ai/mappers.py:5-23 | the rules name seventeen distinct courses |
| Mappers.FoundIdsDistinct | app/ai/mappers.py:33-43 | the collected entries repeat no course id |
| Mappers.MapTextToCourses | app/ai/mappers.py:25-49 | the result is the de-duplication of the entries of the matching rules |
| Mappers.EntryShape | app/ai/mappers.py:37-43 | each entry names its rule's course, has the confidence of its match count within [0.5, 1.0], and an excerpt of at most 500 characters without a line break |
| Mappers.FoundNeedsNoDedup | app/ai/mappers.py:44-49 | since the rules name distinct courses, the de-duplication never merges anything |
| Mappers.MapTextProperties | app/ai/mappers.py:25-49 | the result repeats no course id and holds exactly the entries of the rules that matched |
| Recommender.ModuleOf | app.py:187 | `MODULES[mid]` is the catalogue entry with that id |
| Recommender.BulletsSpec | app.py:188-199 | the bullets are exactly the stripped texts after `- ` of the bullet lines, never more than the lines |
| Recommender.PolicyBullets | app.py:188-190 | the inner loop collects the bullet texts of one policy in order |
| Recommender.FirstOccurrences | app.py:191-194 | the `not in out` loop keeps the first occurrence of each line, in order |
| Recommender.ReadBullets | app.py:187-190 | the bullet texts of the policy file of the module |
| Recommender.CollectLines | app.py:185-190 | the first loop collects the bullet texts of the selected modules, module by module |
| Recommender.BuildChecklist | app.py:184-195 | the checklist is the first six distinct bullet texts of the selected modules |
| Recommender.ChecklistProperties | app.py:184-195 | at most six lines, no duplicates, each a bullet of a selected module, and every such bullet when fewer than six |
| Recommender.LinesUpToSpec | app.py:186-190 | a text is a collected line iff it is a bullet of one of the modules so far |
| Recommender.ChecklistLinesFromPolicies | app.py:186-190 | a collected line comes from a bullet line of a selected module's policy, and each such bullet is collected |
| Recommender.Basename | app.py:211 | the base name is a suffix of the path without a `/` |
| Recommender.Distractors | app.py:203 | the two distractors are the second bullet and the third one or `Not applicable` |
| Recommender.Arrange | app.py:205 | a shuffle keeps three options |
| Recommender.ArrangePermutes | app.py:205 | shuffling keeps the options, each as often as before |
| Recommender.Choices | app.py:204-206 | three shuffled options |
| Recommender.ChoicesSpec | app.py:202-206 | the options are the first bullet and its distractors in some order, and the letter names the first bullet |
| Recommender.QuizOfOptions | app.py:202-212 | the question's options are the first bullet and its distractors, and its letter names the first bullet |
| Recommender.QuizFromModule | app.py:197-213 | no question iff the policy has no bullet; otherwise the question about its first bullet |
| Recommender.QuizOptions | app.py:197-213 | a module with bullets yields a question whose correct option is its first bullet |
| Recommender.FindRole | app.py:219-224 | the first role from the start point that matches, or none when no later role matches |
| Recommender.CanonicalRole | app.py:215-225 | the two loops return the reference canonical role |
| Recommender.CanonicalRoleCases | app.py:215-225 | an empty role is kept; else the first exact name or alias match, else the first containment match, else the input |
| Recommender.TagsFromEquipment | app.py:227-232 | the set of all map entries of the stripped, lower-cased equipment names |
| Recommender.EquipTagsUpToSpec | app.py:229-231 | a tag is collected iff the map entry of an item so far holds it |
| Recommender.EquipTagsSpec | app.py:227-232 | a tag comes from the equipment iff the map entry of some item holds it |
| Recommender.UnknownEquipmentAddsNothing | app.py:231 | equipment not in the map adds no tag |
| Recommender.TagsFromIncidents | app.py:234-242 | the loop's set is the union of each incident's tags |
| Recommender.IncidentTagsSpec | app.py:237-241 | each tag is present iff its keyword occurs in the lower-cased incident; no other tag |
| Recommender.IncidentTagsIgnoreCase | app.py:237 | an incident and its lower-cased form add the same tags |
| Recommender.IncidentTagsOfSpec | app.py:235-242 | the incident tags are the union of the tags of each incident |
| Recommender.RoleDefOf | app.py:273 | the role's catalogue entry, or the empty role definition |
| Recommender.KnownOnly | app.py:274-275 | the filter never lengthens the list |
| Recommender.KnownOnlySpec | app.py:274-275 | kept exactly the listed ids that name catalogue modules |
| Recommender.AddOptionalSpec | app.py:282-285 | the loop only appends; an appended module shares a tag and was neither required nor optional; every module sharing a tag ends up required or optional |
| Recommender.QuizzesOf | app.py:288-291 | at most one question per selected module |
| Recommender.AutoAddOptional | app.py:282-285 | the optional-module loop returns the reference list |
| Recommender.BuildQuiz | app.py:288-291 | the quiz loop returns one question per selected module with bullets, in order |
| Recommender.ComputeRecommend | app.py:271-295 | the canonical role, its known required modules, two micro-modules from the optional list with the tag-matched ones appended, the checklist of the required and first optional module, the quiz of the first of each, and the matched tags sorted without repeats |
| Recommender.RecommendBounds | app.py:287-294 | at most two micro-modules and two questions, all modules from the catalogue |
| Docs.NormalizeTextShape | app/routers/docs.py:29-32 | a normalised text has no whitespace at either end, never two whitespace characters in a row, no carriage return, and only plain spaces |
| Docs.WordsOfJoin | app/routers/docs.py:32 | splitting a space-joined list of words gives the words back |
| Docs.NormalizeKeepsWords | app/routers/docs.py:29-32 | normalisation keeps exactly the words of the text after the bullet, line-break and hyphenation rewrites, in order |
| Docs.TokenLen | app/routers/docs.py:128 | the leading token run is maximal: all its characters are token characters and the next one is not |
| Docs.Runs | app/routers/docs.py:128 | every run is a non-empty string of token characters |
| Docs.RunsKeep | app/routers/docs.py:128 | the runs, put together, are exactly the token characters of the input in order |
| Docs.TokenizeSpec | app/routers/docs.py:126-128 | the tokens are non-empty runs of the character class that together are the token characters of the lower-cased name |
| Docs.LongTokens | app/routers/docs.py:131 | only tokens longer than two characters remain |
| Docs.HitsOfLongTokens | app/routers/docs.py:131 | tokens of one or two characters contribute nothing to the hit count |
| Docs.HitsSnoc | app/routers/docs.py:131 | one more token adds its occurrence count when longer than two characters, nothing otherwise |
| Docs.ScoreSpec | app/routers/docs.py:130-132 | the score lies in [0, 1], is 1 iff there are at least ten hits, and is a tenth of the hits below that |
| Docs.ScoreMonotone | app/routers/docs.py:132 | more hits never lower the score |
| Docs.FindPair | app/routers/docs.py:152-157 | the found row is the first row of the pair from the start point; none means no row of the pair |
| Docs.Scores | app/routers/docs.py:146-150 | one score per course |
| Docs.ScoresAt | app/routers/docs.py:148-150 | entry `i` is course `i` with the score of its tokenised name |
| Docs.UpsertSpec | app/routers/docs.py:150-169 | an upsert keeps pairs unique and every row in place, adds `Creates` rows, changes a row only when its pair scored at least the threshold and strictly above the stored confidence, and adds a row only for a new pair that reached the threshold |
| Docs.UpsertAt | app/routers/docs.py:158-161 | a changed row is the pair's row raised to a strictly higher confidence with the heuristic method; no row's confidence goes down |
| Docs.UpsertAdded | app/routers/docs.py:162-169 | at most one row is added, for a pair that had none and scored at least the threshold |
| Docs.UpsertKeeps | app/routers/docs.py:150-169 | an upsert never removes a row, changes a pair or lowers a confidence |
| Docs.UpsertCovers | app/routers/docs.py:151-169 | after an upsert that reached the threshold the pair has a row with at least that confidence |
| Docs.MapUpToKeeps | app/routers/docs.py:148-169 | the table after the loop keeps pairs unique and the old rows, and grows by exactly `created` rows |
| Docs.MapUpToStep | app/routers/docs.py:148-169 | one more course is one more upsert and adds its `Creates` to `created` |
| Docs.MapUpToChanges | app/routers/docs.py:148-161 | every old row is either unchanged or raised to a strictly higher score of its course that reached the threshold |
| Docs.MapUpToAdds | app/routers/docs.py:162-169 | every added row is for a pair the table did not have, of this document, with the heuristic method and a threshold-reaching score of its course |
| Docs.MapUpToCovers | app/routers/docs.py:148-169 | every course that scored at least the threshold ends with a row of at least its score |
| Docs.UpsertCovered | app/routers/docs.py:158-161 | upserting a pair that already has a row of at least that confidence changes nothing and creates nothing |
| Docs.MapDocRerun | app/routers/docs.py:148-171 | running `map_doc` again over its own result changes no row and reports zero created |
| Docs.FindSha | app/routers/docs.py:47 | the found document has the digest; none means no document has it |
| Docs.FindDoc | app/routers/docs.py:137 | the found document has the id; none means no document has it |
| Docs.PageRows | app/routers/docs.py:79 | one page row per text, numbered from 1 and carrying that text |
| Docs.PageRowsNumbered | app/routers/docs.py:73-79 | the pages of a new document are numbered 1 to n, each once |
| Docs.NormalizePages | app/routers/docs.py:61-63 | one normalised text per page, an empty text for a page without one |
| Docs.PagesOf | app/routers/docs.py:141-143 | only the document's own pages are selected |
| Docs.DocsStore.constructor | app/routers/docs.py:34-171 | the tables start empty apart from the course catalogue |
| Docs.Segments | app/routers/docs.py:42 | the components `PurePosixPath` keeps: none is empty, `.` or holds a slash |
| Docs.SegmentsOfJoin | app/routers/docs.py:42 | components joined by slashes split back into the same components |
| Docs.NormalPath | app/routers/docs.py:68 | a root of one or two slashes followed by components is in normal form: `str(Path(p))` gives it back |
| Docs.SegmentsUnder | app/routers/docs.py:42 | under a one-component directory a relative name keeps its components after that directory |
| Docs.PathUnder | app/routers/docs.py:42 | a relative name joined under a one-component directory is that directory then the name's components |
| Docs.PlainUnder | app/routers/docs.py:42 | a plain file name joined under a one-component directory is appended as is |
| Docs.DataPathRelative | app/routers/docs.py:16-42 | a relative name is stored as `/data/` followed by its own components; a plain file name as `/data/<name>` |
| Docs.DataPathAbsolute | app/routers/docs.py:16-42 | an absolute name replaces `/data`: the stored path has the name's own root and components |
| Docs.DataPathNormal | app/routers/docs.py:42-68 | the stored path is absolute and in normal form |
| Docs.DataPathKeepsAbsolute | app/routers/docs.py:42-68 | `/<a>/<b>` is stored as given, without `/data` |
| Docs.SegmentsDropDot | app/routers/docs.py:42 | a leading `./` adds no component |
| Docs.SegmentsDropEmpty | app/routers/docs.py:42 | a doubled slash adds no component |
| Docs.DataPathDropsDot | app/routers/docs.py:42-68 | `./<a>` is stored as `/data/<a>` |
| Docs.DataPathDropsEmpty | app/routers/docs.py:42-68 | `<a>//<b>` is stored as `/data/<a>/<b>` |
| Docs.DocsStore.Ingest | app/routers/docs.py:34-94 | 404 without the file at `str(DATA_ROOT / filename)`; a known digest returns the stored document as `already_ingested` and changes nothing; a read failure is a 500 that changes nothing; otherwise one new document with that path, page_count n and pages numbered 1..n of normalised text, `ingested`, answered with the given filename and source |
| Docs.DocsStore.MapDoc | app/routers/docs.py:134-171 | 404 for an unknown document and no change; otherwise the table after upserting every course's score and `mapped_created` equal to the number of rows added |
| Docs.DocsStore.MapCourses | app/routers/docs.py:146-169 | the loop over the courses yields the reference table and count |
| Docs.DocsStore.UpsertCourse | app/routers/docs.py:150-169 | the loop body yields the reference upsert and adds 1 exactly when it inserts |
| Assignments.CreateRejectsStatus | app/routers/assignments.py:64-66 | a create fails with 400 exactly when the status is outside the allow-list, and then changes nothing |
| Assignments.CreateUpserts | app/routers/assignments.py:68-80 | a successful create leaves exactly one row for the pair, carrying the new status and the given due date or today + 365; every other row stays |
| Assignments.CreateSucceeds | app/routers/assignments.py:63-80 | a create succeeds exactly for an allowed status on an existing user and course |
| Assignments.CreateIdempotent | app/routers/assignments.py:70-77 | repeating the same create gives the same table and answer |
| Assignments.ReassignErrors | app/routers/assignments.py:178-200 | a bad status is 400 and a missing pair 404, and neither changes the table |
| Assignments.ReassignDeadline | app/routers/assignments.py:202-219 | a successful reassign rewrites only the pair's status and due date; the deadline becomes today + 365 and `auto_extended` is true exactly when a completed row is set to assigned or in progress, otherwise the old deadline stays |
| Assignments.ReassignSameStatus | app/routers/assignments.py:205-208 | reassigning to the current status never extends the deadline |
| Assignments.ReassignIdempotent | app/routers/assignments.py:176-220 | a second identical reassign changes nothing and reports no extension |
| Assignments.FindCourse | app/routers/assignments.py:110 | the joined course row has the id; none means no course has it |
| Assignments.PairsWith | app/routers/assignments.py:151 | one pair of the user with each course, in course order |
| Assignments.CrossMembers | app/routers/assignments.py:151-163 | a pair is scanned iff its user and its course exist |
| Assignments.CrossDistinct | app/routers/assignments.py:151-163 | with distinct users and courses every pair is scanned once |
| Assignments.MissingMembers | app/routers/assignments.py:152-167 | a pair is a candidate iff it is scanned, in scope and without an assignment |
| Assignments.MissingDistinct | app/routers/assignments.py:153-156 | distinct scanned pairs give distinct candidates |
| Assignments.SyncBounded | app/routers/assignments.py:157-170 | sync inserts at most 5 rows for one user and at most 20 for everyone, and no more than the missing pairs |
| Assignments.SyncOnlyMissing | app/routers/assignments.py:148-169 | sync keeps every existing row, and each added row is a missing pair of a known user in scope and a known course, assigned, due a year from today, by the system |
| Assignments.PicksFresh | app/routers/assignments.py:148-169 | with distinct users and courses the inserted pairs are distinct and had no row |
| Assignments.InsertAllKeys | app/routers/assignments.py:149-150 | the table afterwards has exactly the old keys and the inserted ones |
| Assignments.SyncCountsRows | app/routers/assignments.py:170-172 | with distinct users and courses the reported count is the number of rows added |
| Assignments.MissingNone | app/routers/assignments.py:153-156 | nothing is inserted once every scanned in-scope pair has a row |
| Assignments.SyncCompletes | app/routers/assignments.py:148-172 | a sync that stays below its limit leaves every in-scope pair assigned, so a second sync adds nothing |
| Assignments.AssignmentsDb.constructor | db_migrations/versions/0004_fix_assignments.py:11-15 | an empty table over distinct users and courses satisfies the key and reference invariant |
| Assignments.AssignmentsDb.CreateAssignment | app/routers/assignments.py:62-88 | the new table and answer are those of the create rule, and the invariant holds |
| Assignments.AssignmentsDb.ReassignAssignment | app/routers/assignments.py:176-220 | the new table and answer are those of the reassign rule, and the invariant holds |
| Assignments.AssignmentsDb.ListAssignments | app/routers/assignments.py:94-137 | 400 iff the user id is empty; otherwise every course of the user once, in ascending course id, with its status, due date, title and category, and a count equal to the number of items |
| Assignments.AssignmentsDb.SyncAssignments | app/routers/assignments.py:142-172 | the new table and count are those of the sync rule, and the invariant holds |
| Reports.OfUser | app/routers/reports.py:43 | the filter never lengthens the table |
| Reports.FindCourse | app/routers/reports.py:42 | the joined course row has the id; none means no course has it |
| Reports.Day | app/routers/reports.py:37-40 | `completed_at::date`: the day whose seconds contain the timestamp |
| Reports.DateOf | app/routers/reports.py:37-40 | the date of a nullable timestamp, null exactly when it is null |
| Reports.Midnight | app/routers/reports.py:49-53 | a due date promoted to a timestamp by the CASE has that date again |
| Reports.DisplayDate | app/routers/reports.py:35-38 | `display_date` is the date of the row's ORDER BY key |
| Reports.DayMonotone | app/routers/reports.py:37-51 | a later timestamp never falls on an earlier day |
| Reports.DateOfDesc | app/routers/reports.py:35-53 | timestamps ordered latest first have their dates ordered latest first |
| Reports.ItemsOf | app/routers/reports.py:32-40 | one item per row, each the row's selected columns, with dates taken from the timestamps |
| Reports.TrainingHistory | app/routers/reports.py:26-94 | 400 iff the user id is empty; otherwise the query's items, a total equal to their number, the three tallies and the completion rate |
| Reports.Tally | app/routers/reports.py:61-81 | the loop keeps every item and counts completed, in_progress, and any other status as assigned |
| Reports.TalliesPartition | app/routers/reports.py:66-83 | completed + in_progress + assigned equals the number of items |
| Reports.OthersAreTheRest | app/routers/reports.py:76-81 | assigned is the number of items left after completed and in_progress, and is zero iff every item is one of those two |
| Reports.RateRange | app/routers/reports.py:84 | the rate is 0 without items, lies in [0, 100], and is 100 exactly when every item is completed |
| Reports.ReportRateInRange | app/routers/reports.py:83-84 | the report's rate lies in [0, 100] whatever the rows |
| Reports.HistoryLeTotal | app/routers/reports.py:44-53 | the ORDER BY keys form a total preorder |
| Reports.QueryOrdered | app/routers/reports.py:44-54 | rows completed first, then in progress, then the rest; completed rows by the full `completed_at` timestamp, latest first, the others by due date, latest first, undated last; the items' displayed dates in the same order |
| Reports.LaterCompletionFirst | app/routers/reports.py:44-54 | of two completions of the user, the later timestamp is listed first, also when both fall on the same day |
| Reports.OfUserRows | app/routers/reports.py:43 | the user's rows, and only those, each as often as in the table |
| Reports.QueryRows | app/routers/reports.py:31-54 | every row of the user appears as often as in the table, and each item is the selected columns of one of the user's rows |
| Documents.SliceStop | app/routers/documents.py:58 | a slice never has more elements than the list |
| Documents.PagesReadSpec | app/routers/documents.py:58 | a null or zero limit reads every page, a positive one at most that many, a negative one all but that many (also lines 146, 213) |
| Documents.WithoutDoc | app/routers/documents.py:68 | the delete never adds rows |
| Documents.MatchRows | app/routers/documents.py:69-73 | one row per match with its course, confidence and the excerpt cut to 1000 characters |
| Documents.Suggestions | app/routers/documents.py:79-82 | one suggestion per match, the excerpt cut to 240 characters |
| Documents.MapDocument | app/routers/documents.py:45-83 | 404 for an unknown document and 500 for an unreadable PDF, both without change; otherwise the document's old rows are replaced by one row per match, or the whole transaction fails with 500 on a course outside the catalogue |
| Documents.WithoutDocRows | app/routers/documents.py:68 | after the delete the document has no rows and every other document keeps its rows |
| Documents.RowsOfOneDoc | app/routers/documents.py:69-73 | rows of one document belong to no other |
| Documents.MapDocumentReplaces | app/routers/documents.py:67-74 | the document's mappings become exactly the new matches, in order, and every other document's mappings stay |
| Documents.StoreMatches | app/routers/documents.py:161-176 | the loop over the matches yields the reference table, counters and kept ids (also lines 240-257) |
| Documents.StoreTallies | app/routers/documents.py:163-175 | every catalogue match is inserted or skipped, others are neither, and each insert adds one row (also lines 243-256) |
| Documents.StoreAppendsFresh | app/routers/documents.py:165-175 | storing only appends, and every appended row maps the document to a catalogue course the LLM suggested that had no row before (also lines 245-256) |
| Documents.StoreKeepsPairsUnique | app/routers/documents.py:167-175 | storing never makes a `(doc_id, course_id)` pair occur twice (also lines 248-256) |
| Documents.StoreCovers | app/routers/documents.py:163-175 | afterwards every catalogue course among the matches has a row for the document, and the kept ids are exactly those courses, each once (also lines 243-256) |
| Documents.StoreWhenCovered | app/routers/documents.py:167-170 | when every catalogue match already has a row, storing changes and inserts nothing (also lines 248-251) |
| Documents.StoreRerun | app/routers/documents.py:161-176 | storing the same matches again inserts nothing and leaves the table as it was |
| Documents.LlmSuggestions | app/routers/documents.py:182-185 | at most the first 20 matches, each with its course and the evidence cut to 240 characters |
| Documents.ExtractDocumentCourses | app/routers/documents.py:133-186 | 404 for an unknown document, 500 for an unreadable PDF or a failing LLM call, all without change; otherwise the stored table, the two counters and at most 20 suggestions |
| Documents.InsertRules | app/routers/documents.py:113-123 | the rule loop yields the reference rules and counters (also lines 275-284) |
| Documents.RulesTallies | app/routers/documents.py:119-122 | every course id is counted once, as inserted or skipped, and each insert adds exactly one new rule (also lines 281-284) |
| Documents.RuleStepTally | app/routers/documents.py:114-122 | one insert counts once, and counts as inserted exactly when its key was new |
| Documents.RuleStepEffect | app/routers/documents.py:114-118 | one insert keeps every rule and adds at most the rule of its own key |
| Documents.RulesKeep | app/routers/documents.py:113-123 | existing rules are untouched, and afterwards every course id has a rule for the role and region |
| Documents.RulesNew | app/routers/documents.py:114-118 | every new rule is an active rule of the role and region, with the given frequency, for one of the course ids |
| Documents.RulesWhenPresent | app/routers/documents.py:117-122 | when every course already has its rule, inserting changes nothing and inserts nothing |
| Documents.EnsureRole | app/routers/documents.py:95 | afterwards the role exists |
| Documents.PromoteDocumentCourses | app/routers/documents.py:91-127 | the role is ensured; the reply counts the rule inserts and skips over the document's mapped courses and echoes them, and the rules are the reference result |
| Documents.PromoteTallies | app/routers/documents.py:105-124 | inserted + skipped is the number of mapped courses and the course list is echoed; with none both counts are zero and no rule changes |
| Documents.PromoteRerun | app/routers/documents.py:113-122 | a second identical promote inserts nothing and skips every course |
| Documents.EnsureRoleSpec | app/routers/documents.py:95-100 | an existing role keeps its id, a new role gets the fresh id, and no other role changes |
| Documents.ApplyRoles | app/routers/documents.py:260-285 | the role loop yields the reference rules, counters and applied roles |
| Documents.RolesApplied | app/routers/documents.py:264-273 | the applied roles are exactly the detected roles with confidence at least 0.6 that exist in the roles table |
| Documents.RolesTallies | app/routers/documents.py:275-284 | every kept course of every applied role is counted once, as inserted or skipped |
| Documents.RolesEffect | app/routers/documents.py:264-284 | old rules are untouched, and every new rule belongs to an applied role, a kept course and the region |
| Documents.ProcessDocument | app/routers/documents.py:194-285 | 404 for an unknown document, 500 without roles, for an unreadable PDF or a non-throttling LLM error, all without change; a throttled call counts as no matches; otherwise the stored mappings, then the rules of the qualifying roles, with their counters |
| Documents.ProcessRulesOnlyForKept | app/routers/documents.py:243-284 | every rule process creates ties a detected role of confidence at least 0.6 that exists to a catalogue course the LLM suggested, in the request's region |
| Documents.PagesRead | app/routers/documents.py:58 | never more pages than the document has (also lines 146, 213) |
| Learner.CurrentUser | src/pages/Learner.tsx:12 | the given non-empty user id, or `u001` when it is absent or empty; never empty |
| Learner.Group | src/pages/Learner.tsx:19-23 | a filter never lengthens the list |
| Learner.ProgressNearest | src/pages/Learner.tsx:21 | the percentage is the integer nearest to 100·completed/total, a half rounded up |
| Learner.ProgressRange | src/pages/Learner.tsx:19-21 | the percentage lies in 0..100, is 0 with nothing completed and 100 with everything completed |
| Learner.ProgressMonotone | src/pages/Learner.tsx:21 | completing one more training never lowers the percentage |
| Learner.PageProgressInRange | src/pages/Learner.tsx:19-21 | on a list reply, whose count is its number of items, the page's percentage lies in 0..100 |
| Learner.GroupLength | src/pages/Learner.tsx:19-23 | every item lands in exactly one of the two filters |
| Learner.GroupMembers | src/pages/Learner.tsx:19-23 | a filter holds exactly the items with its key |
| Learner.GroupMultiset | src/pages/Learner.tsx:19-23 | the two filters together are a rearrangement of the items |
| Learner.PendingDoneSplit | src/pages/Learner.tsx:19-23 | pending holds exactly the items not completed, done exactly the completed ones, and together they are the items |
| Learner.NextIsFirstPending | src/pages/Learner.tsx:23-24 | the next assignment is the first item not completed, and is undefined exactly when every item is completed |
| Learner.NextOfItems | src/pages/Learner.tsx:23-24 | the next assignment depends only on the items |
| Learner.GroupConcat | src/pages/Learner.tsx:23 | filtering a concatenation filters each part |
| Learner.GroupIdempotent | src/pages/Learner.tsx:23 | filtering again keeps a filtered list whole, and the other filter empties it |
| Learner.SortCompletedLast | src/pages/Learner.tsx:395-400 | the array is rearranged in place into the pending items followed by the completed ones, each group in its old order |
| Learner.CompletedLastPermutes | src/pages/Learner.tsx:395-400 | the sorted list is a rearrangement of the items |
| Learner.CompletedLastOrdered | src/pages/Learner.tsx:395-400 | every pending item comes before every completed one, each group keeps its order, and so the pending list and next assignment are unchanged |
| Learner.PendingFirstSplits | src/pages/Learner.tsx:397-398 | a list with pending items first is its pending part followed by its completed part |
| Learner.AllDone | src/pages/Learner.tsx:23 | with every item completed nothing is pending |
| Learner.CompletedLastUnique | src/pages/Learner.tsx:395-400 | any arrangement with pending first that keeps both groups' orders is the sorted list |
| Learner.PriorityGroups | src/pages/Learner.tsx:49-61 | high for chemical, biosafety and radiation; low for general and ergonomics; medium for everything else, a null category included |
| Learner.IconFromSpec | src/pages/Learner.tsx:26-46 | the answer is the icon of the first keyword from the position on that the title contains, and the default when there is none |
| Learner.DefaultIconDistinct | src/pages/Learner.tsx:27-46 | the default icon is no keyword's icon |
| Learner.IconSpec | src/pages/Learner.tsx:26-47 | a title gets the icon of the first keyword it contains, and the default icon exactly when it contains none |
| Learner.SafetyShadowsFire | src/pages/Learner.tsx:28-30 | since `Safety` is checked before `Fire`, a fire-safety title gets the warning icon's literal (`WarningIcon`, kept code point by code point as the page writes it) |
| Learner.CardIcon | src/pages/Learner.tsx:26-27 | `None`, standing for the TypeError that `title.includes` throws, exactly for a null title; otherwise the title's icon |
| Meditation.Settle | src/components/MeditationApp.tsx:28-39 | at zero the session ends and is paused; with time left nothing changes; the clock itself never changes |
| Meditation.TwoDigits | src/components/MeditationApp.tsx:79-80 | two decimal digits that read back as the number of seconds |
| Meditation.MeditationApp.constructor | src/components/MeditationApp.tsx:8-13 | no session, paused, 300 seconds on the clock, inhale, no breaths, five minutes selected |
| Meditation.MeditationApp.SelectDuration | src/components/MeditationApp.tsx:22 | one of the offered durations becomes the selected one and nothing else changes (also lines 194-197) |
| Meditation.MeditationApp.Start | src/components/MeditationApp.tsx:58-64 | the chosen session runs with the selected minutes on the clock, from an inhale with no breaths counted |
| Meditation.MeditationApp.OnSecond | src/components/MeditationApp.tsx:28-39 | the clock state becomes one tick of the old one; the breath state and the selection stay |
| Meditation.MeditationApp.OnBreath | src/components/MeditationApp.tsx:43-56 | while the breathing session runs, one breath step; otherwise nothing changes |
| Meditation.MeditationApp.PauseResume | src/components/MeditationApp.tsx:28-68 | with time left running is toggled and the session stays; on an empty clock the session ends |
| Meditation.MeditationApp.Reset | src/components/MeditationApp.tsx:70-75 | paused with the selected minutes back on the clock, the breath count cleared and inhale; the session stays |
| Meditation.MeditationApp.Back | src/components/MeditationApp.tsx:314-315 | no session is shown and the clock and breath state stay |
| Meditation.TickSpec | src/components/MeditationApp.tsx:28-39 | a tick takes one second off a running clock and ends the session at zero; a paused clock does not move |
| Meditation.TicksCountDown | src/components/MeditationApp.tsx:28-39 | left running, `k` ticks before the end take exactly `k` seconds off and change nothing else |
| Meditation.TicksEnd | src/components/MeditationApp.tsx:28-39 | a running session with `n` seconds left ends after exactly `n` ticks |
| Meditation.PausedStays | src/components/MeditationApp.tsx:30 | any number of ticks leave a paused clock as it is |
| Meditation.BreathCycle | src/components/MeditationApp.tsx:43-56 | after `n` steps from an inhale the phase is the `n mod 3`-th and `n div 3` breaths more are counted |
| Meditation.BreathCountsOnlyOnExhale | src/components/MeditationApp.tsx:47-52 | every step changes the phase, three steps return to it, and only the step from exhale counts a breath |
| Meditation.FormatTimeRoundTrip | src/components/MeditationApp.tsx:77-81 | the shown `m:ss` text reads back as the number of seconds |
| Meditation.FormatTimeInjective | src/components/MeditationApp.tsx:77-81 | different times never show the same text |
| Meditation.StartShowsMinutes | src/components/MeditationApp.tsx:60-81 | a session of `d` minutes starts showing `d:00` |
| AdminChat.Ceil | src/pages/Admin.tsx:105 | the smallest whole number of seconds not below the waiting time |
| AdminChat.CountdownOf | src/pages/Admin.tsx:123-124 | a countdown exactly for a message with the rate-limit prefix, and never a countdown of zero seconds |
| AdminChat.AnswerText | src/pages/Admin.tsx:115 | the reply when it is a non-empty text, otherwise the fallback text; never empty |
| AdminChat.SubmitMessage | src/pages/Admin.tsx:147-149 | nothing is sent exactly when the trimmed input is empty, a countdown runs or a reply is awaited; otherwise the trimmed input, which is not empty |
| AdminChat.RetryMessage | src/pages/Admin.tsx:156-157 | nothing is sent exactly when there is no last message or a countdown runs; otherwise the last message |
| AdminChat.CountStep | src/pages/Admin.tsx:131-139 | a count of one or less stops at zero and schedules the resend; any other count goes down by one |
| AdminChat.Recent | src/pages/Admin.tsx:1145 | the last ten exchanges at most, newest first, all taken from the history |
| AdminChat.CreateAssignmentRequest | src/pages/Admin.tsx:267-271 | a request exactly when both a user and a course are selected, and it names those two |
| AdminChat.SyncUserRequest | src/pages/Admin.tsx:277-281 | a request exactly when a user is selected, and it names that user |
| AdminChat.ChatBox.constructor | src/pages/Admin.tsx:30-35 | an empty input and history, no countdown, no last message, the automatic retry available, nothing in flight |
| AdminChat.ChatBox.TypeInput | src/pages/Admin.tsx:1097 | the input takes the typed text and nothing else changes |
| AdminChat.ChatBox.Submit | src/pages/Admin.tsx:147-154 | sends what the guard allows; a sent message becomes the last message, re-arms the automatic retry, clears the input and awaits a reply; a refused one changes nothing |
| AdminChat.ChatBox.Retry | src/pages/Admin.tsx:156-160 | `handleRetry` as defined (no control on the page calls it, so the page never fires this event): sends what the guard allows; a resend re-arms the automatic retry and awaits a reply; the history and last message stay |
| AdminChat.ChatBox.OnResponse | src/pages/Admin.tsx:112-144 | a reply is appended under the last message; a rate limit starts a countdown of the decoded seconds only while the automatic retry is unspent, and spends it; other errors change only the awaiting flag |
| AdminChat.ChatBox.OnSecond | src/pages/Admin.tsx:130-141 | a running countdown takes one step; when it stops, the captured message is queued for resending; a stopped countdown does not move |
| AdminChat.ChatBox.FireResend | src/pages/Admin.tsx:134-136 | the oldest queued message is sent and leaves the queue, and a reply is awaited |
| AdminChat.ChatBox.ClearHistory | src/pages/Admin.tsx:1190 | the history is emptied and nothing else changes |
| AdminChat.SegmentOfDigits | src/pages/Admin.tsx:124 | a text of digits alone is read whole |
| AdminChat.RateLimitRoundTrip | src/pages/Admin.tsx:105-124 | the text thrown for a wait of `n` seconds decodes to a countdown of `n`, or of 30 for zero |
| AdminChat.RefusalCountdown | src/pages/Admin.tsx:101-124 | a 429 always yields a countdown of the rounded-up wait, 30 without a usable value; any other status yields none; the wait used is positive |
| AdminChat.CountdownRuns | src/pages/Admin.tsx:130-141 | a countdown from `n` shows n, n-1, ..., 1 and schedules the resend on exactly the n-th tick |
| AdminChat.RecentAfterAppend | src/pages/Admin.tsx:116-120 | after a reply the new exchange is shown first and the others move down by one (also line 1145) |
| UploadWizard.FormOf | src/pages/Upload.tsx:75-84 | a form exactly when a file is chosen, holding that file, the source `ADMIN_UPLOAD` and the file's name as title |
| UploadWizard.AfterUpload | src/pages/Upload.tsx:42-55 | a new document (no duplicate flag, or a false one) moves to processing and is the only case that sends a process request, with its id and the chosen role, region and frequency; a duplicate moves to the result |
| UploadWizard.Wizard.constructor | src/pages/Upload.tsx:24-30 | the upload step, no file or results, and the default role `warehouse_worker`, region `US-CA` and frequency `annual` |
| UploadWizard.Wizard.ChooseFile | src/pages/Upload.tsx:130 | the chosen file, or none, replaces the old one and nothing else changes |
| UploadWizard.Wizard.ChooseRole | src/pages/Upload.tsx:154 | the role takes the selected value and nothing else changes |
| UploadWizard.Wizard.ChooseRegion | src/pages/Upload.tsx:176 | the region takes the selected value and nothing else changes |
| UploadWizard.Wizard.ChooseFrequency | src/pages/Upload.tsx:197 | the frequency takes the selected value and nothing else changes |
| UploadWizard.Wizard.HandleUpload | src/pages/Upload.tsx:75-84 | the form of the chosen file, or nothing without one |
| UploadWizard.Wizard.OnUploadSuccess | src/pages/Upload.tsx:42-55 | the result is kept and the step and process request are those of the upload outcome; the selections stay |
| UploadWizard.Wizard.OnProcessSuccess | src/pages/Upload.tsx:69-72 | the processing result is kept and the result step is shown |
| UploadWizard.Wizard.Reset | src/pages/Upload.tsx:86-91 | no file, no results, the upload step; the role, region and frequency stay |
| UploadWizard.HappyPaths | src/pages/Upload.tsx:42-72 | a new document reaches the result through processing, a duplicate reaches it at once |
| UploadWizard.FailureKeepsStep | src/pages/Upload.tsx:39 | a failed request leaves the step as it was, and from processing only the processing reply moves on (also lines 66, 246-276) |
| UploadWizard.ForwardOnly | src/pages/Upload.tsx:111 | along the events each step offers, the wizard never moves back except through reset (also lines 246, 278, 376-377) |

## Left out

- SQL, psycopg and SQLAlchemy: tables are maps or lists keyed by the unique constraints of the migrations. A query failure is not modelled, so these paths are absent: the 500 "Sync error" of `sync_assignments`, the 500 "Database error" of the reports router, and the 502 "AI processing failed" of ai_process.py.
- Requirements.ProcessDocument: always stores its doc_course_map rows. The source answers 502 when an insert fails, and that is not only a transient failure: the foreign key `fk_doc_map_course` (db_migrations/versions/0003_docs.py:20) rejects every mapped `KEYWORD_MAPPING` id that is missing from `courses`. For example ai_process.py uses "HAZCOM-1910" (app/routers/ai_process.py:43), while the rule mapper uses "HAZCOM-1910.1200" (app/ai/mappers.py:7). The model does not check the `courses` table here.
- app/models is not part of this model. The column types come from the migrations; `Numeric(5,2)` storage rounding of confidences is not modelled.
- PDF reading, file existence and hashing, and the Bedrock language model: their outputs are inputs. These are the page texts, a `None` page list when the reader fails, the SHA, and functions from text to requirements, course suggestions or roles.
- Regular expressions (`re.finditer` in the mapper, `re.findall` in the tokenizer): match positions and hit counts are inputs, or the tokenizer is given by its specification.
- Floating point: confidences and rates are reals. The `round(..., 2)` of the mapped confidences in ai_process.py is modelled on the exact value with a half rounded up (`Requirements.Round2`); Python rounds the binary double, so at an exact half, such as 0.605 for 1 match in 70, the source may round down where the model rounds up, and the sort order of such a tie can differ. The other `round(..., 2)` and `round(..., 1)` calls and display formatting are not modelled.
- Lower-casing covers ASCII only: `Text.Lower` maps `A`-`Z` and leaves every other character alone, whereas Python's `lower()` and JavaScript's `toLowerCase()` use the Unicode tables. Whitespace is Python's `isspace` set (`Text.IsSpace`) and JavaScript's `trim` set (`Text.IsJsSpace`).
- SQL collation: `ORDER BY course_id` is code-point order.
- Reports.Query: rows equal on both ORDER BY keys (status rank, then `completed_at` or `due_date`) have no defined order in SQL. The model's stable sort keeps them in table order. `Reports.QueryOrdered` states only what the ORDER BY guarantees.
- The clock: "today" is a parameter and dates are day numbers. The reports router's `completed_at` is a timestamp without time zone, held in seconds (`Reports.Day` gives its date), so same-day completions sort by their time. The md5/date requirement ids `R-{date}-{hash}` and chat timestamps are not modelled.
- Python set iteration order is modelled as first-occurrence order, for the `list(set(...))` of merged tags and for the `kept_ids` set. For `kept_ids` the counts and tables do not depend on it.
- Requirements.Deduplicate / Requirements.ProcessDocument: the merged tags' order can decide a match, and with it the mapping and its stored rows. `map_requirements_to_courses` matches keywords as substrings of `title + ' ' + ' '.join(tags)` (app/routers/ai_process.py:146-147), and PPE-201 has the two-word keywords "face shield" and "safety glasses". Two requirements titled "Eye protection" with tags `["face"]` and `["shield"]` merge into `list(set(["face", "shield"]))`. In the order face, shield the text contains "face shield" and PPE-201 is mapped, with a confidence and a doc_course_map row; in the order shield, face it is not. The model always takes the first order.
- Serial database ids: a fresh document id or role id is a parameter that methods require to be unused.
- `random.shuffle` is an arbitrary permutation given as a parameter; the random slogan is not modelled.
- Recommender.QuizFromModule: requires that the policy does not have exactly one bullet. With one bullet the source fails on `opts[2]`, and that crash is not modelled. `QuizzesOf`, `BuildQuiz`, `RecommendBounds` and `ComputeRecommend` require the same of every module in the catalogue (`QuizSafe`).
- The persistence of `compute_recommend` in `rec_logs` is not modelled.
- `register_document`, `get_doc` and `get_doc_pages` are not modelled; they only read or insert single rows.
- Step 7 of `process_document` is not modelled. This is the INSERT ... SELECT that syncs assignments across users, roles, rules and user courses. Its summary string is not modelled either.
- The commit that psycopg makes when `promote_document_courses` returns early after its role upsert is modelled; the 500 "Cannot resolve role_id" cannot be reached and is not modelled.
- Timers and asynchrony: `setInterval`, `setTimeout` and request completion are discrete events (`OnSecond`, `OnBreath`, `FireResend`, `OnResponse`, `OnUploadSuccess`, `OnProcessSuccess`). Interleavings of promises and React's batching of state updates are not modelled.
- `parseInt` of leading whitespace or a sign, and a negative or non-numeric `retry_after`, are not modelled: the waiting time is a non-negative real.
- Learner.PriorityGroups: the table lookup is a map. JavaScript's inherited object keys (such as `constructor`), which the source would return instead of `medium`, are not modelled.
- `SortCompletedLast` writes the result of the engine's stable sort; the sort algorithm itself is not modelled.
- The uploaded file's content and size display, the admin page's own upload form and its other queries, and every style and rendering detail are not modelled.
- Learner.Progress: the percentage is the exact fraction rounded half up, `(200*completed + total) div (2*total)`. The source rounds the double `(completed / total) * 100`, which can fall just below an exact half: for 23 of 40 the double is 57.49999999999999, so the source shows 57 and the model 58 (likewise 46 of 80, 69 of 120 and 29 of 200).
- ProgressNearest: states the exact half-up rounding above, not the double rounding of `Math.round`; the two differ only on such exact halves.
- Learner.CardIcon: for a null title the source's `title.includes` throws inside `renderTrainingCard`, and the whole page fails to render. The model marks that case with `None` and does not model the failed render. A null title occurs when `list_assignments` falls back to its query without the courses join.
- SyncAssignments: `sync_assignments` inserts with `LIMIT 5` or `LIMIT 20` and no `ORDER BY`, so the database chooses which missing pairs are inserted. The model (`Assignments.Picks` over `Cross`) takes the first missing pairs in a scan of users in table order, each with the courses in table order. The count and the facts that only missing pairs are inserted and that nothing is missed below the limit do not depend on that choice.
- Requirements without tags: when the first requirement with some title has no `tags` key, `existing['tags']` raises a KeyError on the next requirement with that title, and the route answers 502. The model's `Requirement` always carries a tag list, so that failure is not modelled.
- UploadWizard.Wizard.HandleUpload: the upload button is disabled while an upload is pending. The model has no pending flag, so it allows a second upload form while one is in flight.

## Findings

| source | as written | input that shows it | evidently intended | confidence | as-written member | corrected member |
|---|---|---|---|---|---|---|
| app/routers/ai_process.py:69 | the chunk id numbers a window `i // chunk_size`, with windows starting every `chunk_size - overlap` characters | a page whose normalised text is longer than 7500 characters: the windows at offsets 0 and 7500 both get the id `p1_c0` | each window of a page gets its own number, `i // (chunk_size - overlap)` | not executed | Chunking.ExtractedIdsCollide | Chunking.ExtractedIdsDistinct |

`Chunking.ExtractChunks` keeps the ids as written, because nothing else in the system reads `chunk_id`. The chunk functions take the divisor of the id as a parameter: `ChunkSize` (8000) as written, `Step` (7500) for the corrected numbering. The texts and pages of the chunks are the same under both.
