# Book recommender: matching engine and catalog maintenance scripts

A Dafny model of the book recommender service
(`book_recommender_api`):

- The matching engine (`app/recommender.py`). It normalises text and
  measures how much of the reader's stated genres, themes and emotion tags a
  book covers. It compares tone, style and age range, and scores the book's
  personality tags against the reader's five personality dimensions with a
  fixed rule chain. It weights everything into one score in [0, 1] and
  writes a one-sentence explanation.
- The recommendation endpoint (`app/books_controller.py`). A minimum-match
  gate needs two of the three tag facets shared. Surviving books are scored,
  zero scores are dropped, and the highest-scoring book wins; on a tie the
  earliest book in the catalog wins, because the sort is stable. Scores
  are exact: the program compares scores rounded to four decimals, and
  "## Left out" says where that makes a difference. The two
  not-found errors and the title/author projection of the listing endpoint
  are modelled too.
- Eight catalog maintenance scripts (`utils/`), run over the parsed JSON
  catalog:
  - the field audit (`fields_adjustments.py`);
  - duplicate removal (`eliminar_duplicados_json.py`);
  - batch insertion (`insertar_nuevos_libros.py`);
  - the backup comparison (`comparar_backup_eliminados.py`);
  - three genre cleaners: against a fixed master list
    (`clean_genres_against_master.py`), against a Markdown taxonomy with
    Unicode normalisation (`normalize_and_clean_genres.py`), and against a
    taxonomy with lower-casing only (`audit_and_clean_genres.py`);
  - the case-variant corrector (`apply_field_corrections.py`).

Layout, one module per file:

| file | module | what |
|---|---|---|
| wrappers.dfy | Wrappers | `Option`, `Result` |
| unicode.dfy | Unicode | character classes and the character-level case and decomposition tables |
| text.dfy | Text | `lower`, `casefold`, NFKD, ASCII filtering, `strip`, `in`, `join`, `splitlines`, `split`, and the two regular-expression rewrites of the scripts |
| seqs.dfy | Seqs | sets of sequences, filter, map, subsequence |
| recommender.dfy | Recommender | `recommender.py` |
| controller.dfy | Controller | `books_controller.py` |
| catalog.dfy | Catalog | JSON values, the `(title, author)` key, flattening of nested lists |
| admission.dfy | Admission | first-seen-key admission, shared by deduplication and insertion |
| dedup.dfy | Dedup | `eliminar_duplicados_json.py` |
| insert_books.dfy | InsertBooks | `insertar_nuevos_libros.py` |
| backup_diff.dfy | BackupDiff | `comparar_backup_eliminados.py` |
| genre_cleaning.dfy | GenreCleaning | the per-book genre loop shared by the two taxonomy cleaners |
| genre_master.dfy | GenreMaster | `clean_genres_against_master.py` |
| taxonomy.dfy | Taxonomy | reading the Markdown taxonomy: header skipping, list bullets, parenthesised notes |
| normalized_genres.dfy | NormalizedGenres | `normalize_and_clean_genres.py` |
| audited_genres.dfy | AuditedGenres | `audit_and_clean_genres.py` |
| field_audit.dfy | FieldAudit | `fields_adjustments.py` |
| corrections.dfy | FieldCorrections | `apply_field_corrections.py` |

Where the code and its surrounding documentation disagree, the model
follows the code:

- `match_personality` tests for a label with a case-sensitive substring
  test.
- A missing tone, style or age range on both sides counts as a match,
  because both normalise to "".
- Age range shares the 0.05 weight with style.
- A personality tag that matches no rule still counts in the denominator.
- The explanation never names personality or age range.
- The gate threshold is two of three shared facets.
- Ties in the recommendation go to catalog order, not to any other key.

The engine's `normalize` has no sentinel handling. Only the field audit
treats "n/a", "na", "null" and "none" as missing.

Where the scripts raise on malformed data, the model takes the shape as a
precondition:

- The title or author of a dictionary is not a string: `.strip()` raises.
  This is `Catalog.DictsKeyed`. `InsertBooks.InsertNewBooks` asks it of
  the catalog and the batch only when the batch passes `validar_formato`,
  because a batch that fails validation raises before any key is computed.
- `genres` is null, a number or a boolean: iterating it raises. A
  dictionary does not raise, but it is excluded too (see "## Left out").
  This is `GenreCleaning.IsCleanable`.
- Against the master list, `genres` is null, a number or a boolean, or a
  genre entry is not a string. A dictionary is excluded as above. This is
  `GenreMaster.IsScreenable`.
- In `audit_and_clean_genres.py`, a genre entry is not a string. This is
  `AuditedGenres.Auditable`.
- In `apply_field_corrections.py`, a list entry is not hashable (`set.update`
  raises), or a non-string entry reaches `.casefold()`. This is
  `FieldCorrections.Correctable`.

The controller's own `normalize` and `normalize_list`
(`app/books_controller.py:14-21`) are identical to the engine's. They are
modelled once, by `Recommender.Normalize` and `Recommender.NormalizeList`.

## Model

| member | source | states |
|---|---|---|
| Recommender.Normalize | book_recommender_api/app/recommender.py:11-14 | falsy text normalises to ""; every result is stripped of surrounding whitespace |
| Recommender.NormalizeFacts | book_recommender_api/app/recommender.py:14 | a normal form is pure ASCII with no capital letter: accents go because NFKD splits them off as non-ASCII marks |
| Recommender.NormalizeIdempotent | book_recommender_api/app/recommender.py:11-14 | normalising a normal form gives it back |
| Recommender.NormalizeFixes | book_recommender_api/app/recommender.py:11-14 | a stripped lower-case ASCII word is its own normal form |
| Recommender.NormalizeKeepsPrefix | book_recommender_api/app/recommender.py:14 | text that starts with an ASCII word starts, once normalised, with that word lower-cased |
| Recommender.NormalizeListValues | book_recommender_api/app/recommender.py:17-18 | the set of the normalised list is exactly the set of normal forms of the non-empty entries |
| Recommender.NormalizeListGrows | book_recommender_api/app/recommender.py:17-18 | appending an entry never removes a normalised value |
| Recommender.OverlapBound | book_recommender_api/app/recommender.py:45-47 | the number of shared values is at most the length of the profile's normalised list |
| Recommender.Coverage | book_recommender_api/app/recommender.py:45-51 | a tag facet's coverage lies in [0, 1] and is 0 exactly when book and profile share no normalised value |
| Recommender.CoverageFull | book_recommender_api/app/recommender.py:45-51 | coverage is 1 exactly when the profile states at least one value, states none twice, and the book has all of them |
| Recommender.CoverageValue | book_recommender_api/app/recommender.py:49-51 | coverage is the shared count over the length of the normalised profile list (at least 1); the `if genre_match > 0` guard gives the same 0 |
| Recommender.CoverageMonotone | book_recommender_api/app/recommender.py:45-51 | adding a value to the book never lowers its coverage |
| Recommender.Ratio | book_recommender_api/app/recommender.py:49-51 | a ratio of m to d with m <= d lies in [0, 1], is 0 iff m = 0 and is 1 iff m = d |
| Recommender.ScalarMatch | book_recommender_api/app/recommender.py:53-55 | tone, style and age match (1.0, else 0.0) exactly when the normal forms are equal, so two absent values match |
| Recommender.ChainHit | book_recommender_api/app/recommender.py:81-101 | the `elif` chain adds at most one per tag |
| Recommender.ChainHitFires | book_recommender_api/app/recommender.py:81-101 | the chain scores a tag exactly when some rule fires for it: label inside the tag and the trait past its threshold |
| Recommender.TagHit | book_recommender_api/app/recommender.py:81-101 | with the ten rules of the source (>= 60 high, <= 40 low), a tag scores exactly when it matches the personality |
| Recommender.HitCount | book_recommender_api/app/recommender.py:81-101 | the number of scoring tags is at most the number of tags |
| Recommender.HitCountExtremes | book_recommender_api/app/recommender.py:81-101 | every tag scores exactly when the count equals the tag count; none scores exactly when the count is 0 |
| Recommender.MatchPersonality | book_recommender_api/app/recommender.py:76-103 | personality affinity lies in [0, 1] and is 0.0 for no tags |
| Recommender.MatchPersonalityExtremes | book_recommender_api/app/recommender.py:76-103 | affinity is 1 exactly when there are tags and all of them match, and 0 exactly when none matches |
| Recommender.UnknownTagDilutes | book_recommender_api/app/recommender.py:103 | a tag that matches no rule adds nothing to the count but one to the denominator |
| Recommender.ComputeScore | book_recommender_api/app/recommender.py:25-69 | the weighted score lies in [0, 1], is 0 exactly when no component matches, and is 1 exactly when every component is full |
| Recommender.ScoreBook | book_recommender_api/app/recommender.py:136-137 | `score_book` is `compute_score` with its arguments swapped, so it lies in [0, 1] |
| Recommender.SharedTagGivesPositiveScore | book_recommender_api/app/recommender.py:60-67 | one shared genre, theme or emotion makes the score positive |
| Recommender.AbsentScalarsMatch | book_recommender_api/app/recommender.py:53-65 | when tone, style and age are absent on both sides the score is at least 0.15 + 0.05 |
| Recommender.NamedIffCredited | book_recommender_api/app/recommender.py:113-122 | the explanation's test of a facet agrees with the score's: shared values for a tag facet, equal normal forms for tone and style |
| Recommender.MatchedFacets | book_recommender_api/app/recommender.py:111-122 | at most five facets are named |
| Recommender.MatchedFacetsExact | book_recommender_api/app/recommender.py:111-122 | the named facets are exactly the facets the score credits |
| Recommender.MatchedFacetsOrdered | book_recommender_api/app/recommender.py:111-122 | the named facets come once each, in the order genres, themes, emotions, tone, style |
| Recommender.Labels | book_recommender_api/app/recommender.py:125 | one label per named facet |
| Recommender.Sentence | book_recommender_api/app/recommender.py:124-127 | the fallback sentence comes exactly when nothing matched; otherwise the sentence starts with the fixed prefix and ends with "." |
| Recommender.SentenceNames | book_recommender_api/app/recommender.py:125 | the sentence contains the label of every named facet |
| Recommender.ExplanationNamesCreditedFacets | book_recommender_api/app/recommender.py:110-129 | the explanation falls back exactly when the score credits no nameable facet, and otherwise contains the label of every credited facet |
| Recommender.HalfShared | book_recommender_api/app/recommender.py:49-51 | sharing one of two stated values gives coverage one half |
| Recommender.TwoOfThree | book_recommender_api/app/recommender.py:76-103 | two matching tags out of three give 2/3 |
| Recommender.DifferentLeads | book_recommender_api/app/recommender.py:11-14 | texts whose leading ASCII words differ in lower case have different normal forms |
| Recommender.MissingCharDefeats | book_recommender_api/app/recommender.py:81-101 | a tag that lacks a character of every label whose threshold passes scores nothing |
| Recommender.MockPairScore | book_recommender_api/tests/test_recommender.py:52-56 | the test's book and profile score exactly 0.75, which lies in [0, 1] and exceeds 0.3 |
| Recommender.MockPersonalityScore | book_recommender_api/tests/test_recommender.py:59-63 | the three test tags against O=75, C=55, E=80, A=50, N=30 give exactly 2/3 |
| Recommender.MockExplanation | book_recommender_api/tests/test_recommender.py:66-74 | the test pair's explanation contains all five labels |
| Recommender.UnrelatedProfileScore | book_recommender_api/tests/test_recommender.py:83-85 | the unrelated profile scores exactly 0.0 against the test book |
| Recommender.UnrelatedExplanation | book_recommender_api/tests/test_recommender.py:88-91 | against the unrelated profile the explanation is the fallback sentence |
| Controller.HasMinimumMatch | book_recommender_api/app/books_controller.py:41-55 | the gate passes exactly when at least two of genres, themes and emotions share a normalised value |
| Controller.GateIgnoresScalars | book_recommender_api/app/books_controller.py:41-55 | the gate reads only the three tag facets |
| Controller.GatePassImpliesPositive | book_recommender_api/app/books_controller.py:69-74 | a book past the gate has a positive exact score; the program tests its score rounded to four decimals, which can be 0.0 |
| Controller.Candidates | book_recommender_api/app/books_controller.py:67-74 | at most one retained entry per catalog book |
| Controller.CandidatesSound | book_recommender_api/app/books_controller.py:67-74 | every retained entry is a catalog book past the gate, paired with its positive score |
| Controller.CandidatesComplete | book_recommender_api/app/books_controller.py:67-74 | every catalog book past the gate is retained with its score |
| Controller.CandidatesInOrder | book_recommender_api/app/books_controller.py:67-74 | retained entries keep catalog order |
| Controller.BestIndex | book_recommender_api/app/books_controller.py:79-81 | the head of the stable descending sort: a maximal score, with every earlier entry strictly lower |
| Controller.Recommend | book_recommender_api/app/books_controller.py:60-87 | "no books" exactly for an empty catalog; a recommended book is in the catalog, passes the gate and carries its explanation |
| Controller.Select | book_recommender_api/app/books_controller.py:76-82 | "no match" exactly when nothing was retained; otherwise the best retained entry and its explanation |
| Controller.NoMatchIffNoneGated | book_recommender_api/app/books_controller.py:64-77 | for a non-empty catalog, "no match" comes exactly when no book passes the gate |
| Controller.WinnerIsBest | book_recommender_api/app/books_controller.py:72-81 | the winner's score is its own positive score, and no book past the gate scores higher |
| Controller.WinnerIsFirstBest | book_recommender_api/app/books_controller.py:79-81 | every retained entry before the winner scores strictly less |
| Controller.CleanProjection | book_recommender_api/app/books_controller.py:25-29 | the projection has exactly the keys title and author, copies present values and fills in "Sin título" and "Desconocido" |
| Catalog.KeyOf | book_recommender_api/utils/eliminar_duplicados_json.py:27-30 | a missing title or author keys as "" |
| Catalog.CleanEmpty | book_recommender_api/utils/eliminar_duplicados_json.py:27-29 | a cleaned title or author is empty exactly when it was all whitespace |
| Catalog.FlattenMembers | book_recommender_api/utils/eliminar_duplicados_json.py:14-19 | flattening keeps exactly the top-level dictionaries and the members of top-level lists |
| Catalog.FlattenConcat | book_recommender_api/utils/insertar_nuevos_libros.py:151-156 | flattening works item by item |
| Catalog.FlattenFlat | book_recommender_api/utils/insertar_nuevos_libros.py:151-156 | a list of dictionaries flattens to itself |
| Admission.AdmitInOrder | book_recommender_api/utils/insertar_nuevos_libros.py:165-170 | the admitted entries are a subsequence of the input |
| Admission.AdmitFresh | book_recommender_api/utils/insertar_nuevos_libros.py:165-170 | admitted keys are new to the seen set and pairwise distinct |
| Admission.AdmitComplete | book_recommender_api/utils/insertar_nuevos_libros.py:165-170 | together with the seen set, the admitted keys cover every input key |
| Admission.AdmitKeepsFirst | book_recommender_api/utils/eliminar_duplicados_json.py:30-33 | the first entry with an unseen key is admitted |
| Admission.AdmitNothingNew | book_recommender_api/utils/insertar_nuevos_libros.py:165-170 | when every key is already seen, nothing is admitted |
| Dedup.FlattenItems | book_recommender_api/utils/eliminar_duplicados_json.py:14-19 | the loop computes the flattened catalog |
| Dedup.KeepFirst | book_recommender_api/utils/eliminar_duplicados_json.py:21-33 | the loop keeps the first complete dictionary per cleaned (title, author) key |
| Dedup.RemoveDuplicates | book_recommender_api/utils/eliminar_duplicados_json.py:9-36 | reports the flattened count and returns the deduplicated catalog |
| Dedup.DeduplicateInOrder | book_recommender_api/utils/eliminar_duplicados_json.py:21-33 | the result is a subsequence of the flattened catalog, made only of dictionaries with a non-empty title and author |
| Dedup.DeduplicateKeys | book_recommender_api/utils/eliminar_duplicados_json.py:21-33 | no key appears twice in the result, and every complete key of the input does |
| Dedup.DeduplicateKeepsFirst | book_recommender_api/utils/eliminar_duplicados_json.py:29-33 | the first entry of each key survives |
| InsertBooks.ValidateFormat | book_recommender_api/utils/insertar_nuevos_libros.py:10-16 | accepts exactly a list of dictionaries; otherwise reports the first failing check in source order: not a list, a nested list, a non-dictionary |
| InsertBooks.ValidatedIsFlat | book_recommender_api/utils/insertar_nuevos_libros.py:10-16 | a validated batch is already flat |
| InsertBooks.InsertNewBooks | book_recommender_api/utils/insertar_nuevos_libros.py:143-177 | fails exactly when validation fails; otherwise the catalog is the flattened file followed by the added books, a subsequence of the batch |
| InsertBooks.InsertAdmits | book_recommender_api/utils/insertar_nuevos_libros.py:159-170 | the added books are the batch books admitted against the file's keys |
| InsertBooks.InsertAddsFreshKeys | book_recommender_api/utils/insertar_nuevos_libros.py:165-170 | added keys are new to the file and pairwise distinct |
| InsertBooks.InsertCoversBatch | book_recommender_api/utils/insertar_nuevos_libros.py:159-177 | the new catalog's keys are the file's keys plus the batch's keys |
| InsertBooks.InsertKeepsFirst | book_recommender_api/utils/insertar_nuevos_libros.py:165-170 | the first batch book with a key new to the file is added |
| InsertBooks.AddedAreBooks | book_recommender_api/utils/insertar_nuevos_libros.py:177 | flattening the new catalog adds nothing beyond the flattened file and the added books |
| InsertBooks.CatalogCarriesBatch | book_recommender_api/utils/insertar_nuevos_libros.py:159-177 | every batch key is in the new catalog |
| InsertBooks.InsertTwiceAddsNothing | book_recommender_api/utils/insertar_nuevos_libros.py:170 | running the insertion again on its own output adds nothing |
| InsertBooks.InsertKeepsFlat | book_recommender_api/utils/insertar_nuevos_libros.py:177 | a flat file stays flat |
| BackupDiff.Removed | book_recommender_api/utils/comparar_backup_eliminados.py:18-19 | no more reported entries than backup entries |
| BackupDiff.RemovedExactly | book_recommender_api/utils/comparar_backup_eliminados.py:15-19 | an entry is reported exactly when it is a backup dictionary whose key no current dictionary carries; backup order is kept |
| BackupDiff.NothingRemoved | book_recommender_api/utils/comparar_backup_eliminados.py:18-19 | nothing is reported when every backup key is still present |
| BackupDiff.AfterDedupOnlyIncomplete | book_recommender_api/utils/comparar_backup_eliminados.py:15-19 | against its own deduplicated output, a flat catalog reports exactly its dictionaries missing a title or author |
| GenreCleaning.GenreEntries | book_recommender_api/utils/normalize_and_clean_genres.py:67-69 | a missing genres field reads as no entries |
| GenreCleaning.CleanedMembers | book_recommender_api/utils/normalize_and_clean_genres.py:71 | a cleaned genre is exactly a valid genre that is the normal form of some entry |
| GenreCleaning.CleanedInOrder | book_recommender_api/utils/normalize_and_clean_genres.py:71 | the cleaned genres keep entry order |
| GenreCleaning.CleanBook | book_recommender_api/utils/normalize_and_clean_genres.py:66-75 | only genres can change; the book is rewritten exactly when the cleaned list differs from the entries |
| GenreCleaning.CleanBookAccepted | book_recommender_api/utils/normalize_and_clean_genres.py:71-74 | after cleaning, every genre entry is a valid string |
| GenreCleaning.CleanAll | book_recommender_api/utils/normalize_and_clean_genres.py:66-75 | the catalog keeps its length |
| GenreCleaning.CleanAllInPlace | book_recommender_api/utils/normalize_and_clean_genres.py:66-75 | each book is cleaned on its own |
| GenreCleaning.CleanAllCount | book_recommender_api/utils/normalize_and_clean_genres.py:64-75 | the modified count is at most the catalog size, and 0 exactly when no book changes |
| GenreCleaning.CleanBookSettles | book_recommender_api/utils/normalize_and_clean_genres.py:66-75 | when every valid genre is its own normal form, a cleaned book is left as is |
| GenreCleaning.CleanAllSettles | book_recommender_api/utils/normalize_and_clean_genres.py:66-75 | under the same condition, a second run changes nothing and counts 0 |
| GenreMaster.WhitelistIsClean | book_recommender_api/utils/clean_genres_against_master.py:45 | every whitelisted genre is its own stripped lower-case form |
| GenreMaster.Visited | book_recommender_api/utils/clean_genres_against_master.py:56-58 | a missing field yields nothing; a string field yields its characters one by one; a list yields its entries |
| GenreMaster.KeptExactly | book_recommender_api/utils/clean_genres_against_master.py:58-61 | the kept genres are the entries whose cleaned form is whitelisted, as written and in order |
| GenreMaster.RejectedCount | book_recommender_api/utils/clean_genres_against_master.py:58-63 | every entry is either kept or counted as invalid |
| GenreMaster.RejectedMembers | book_recommender_api/utils/clean_genres_against_master.py:59-63 | the invalid counter holds exactly the cleaned forms not whitelisted |
| GenreMaster.ScreenBook | book_recommender_api/utils/clean_genres_against_master.py:55-65 | genres becomes the list of kept entries and every other field is untouched |
| GenreMaster.ScreenBookSettles | book_recommender_api/utils/clean_genres_against_master.py:55-65 | screening a screened book changes nothing and rejects nothing |
| GenreMaster.Screen | book_recommender_api/utils/clean_genres_against_master.py:55-65 | the catalog keeps its length and stays screenable |
| GenreMaster.ScreenWithMaster | book_recommender_api/utils/clean_genres_against_master.py:12-65 | the script's run with its fixed master list keeps the catalog length |
| GenreMaster.ScreenInPlace | book_recommender_api/utils/clean_genres_against_master.py:55-65 | each book is screened on its own |
| GenreMaster.ScreenAccounts | book_recommender_api/utils/clean_genres_against_master.py:55-65 | kept genres plus the invalid count equal the genres visited |
| GenreMaster.ScreenSettles | book_recommender_api/utils/clean_genres_against_master.py:55-65 | a second run returns the same catalog with an empty invalid counter |
| Taxonomy.MentionsHeaderNeedsInitial | book_recommender_api/utils/normalize_and_clean_genres.py:39-40 | a line mentioning a skipped header contains a header's initial letter |
| Taxonomy.BulletRun | book_recommender_api/utils/normalize_and_clean_genres.py:32 | the longest run of bullet characters opening the line |
| Taxonomy.BulletTextOf | book_recommender_api/utils/normalize_and_clean_genres.py:32 | bullets, whitespace, then text: the captured group is the text |
| Taxonomy.IndexOf | book_recommender_api/utils/audit_and_clean_genres.py:37 | the first occurrence of a character, or the length |
| Taxonomy.DropParenGroupsFacts | book_recommender_api/utils/audit_and_clean_genres.py:37 | removing parenthesised notes keeps characters in order and leaves text without "(" unchanged |
| NormalizedGenres.NonEmpty | book_recommender_api/utils/normalize_and_clean_genres.py:45-50 | only a non-empty normal form is added |
| NormalizedGenres.LineGenreWith | book_recommender_api/utils/normalize_and_clean_genres.py:35-50 | a line yields a genre only when it is not blank, not a heading or quote, and mentions no header |
| NormalizedGenres.ListItemRead | book_recommender_api/utils/normalize_and_clean_genres.py:41-46 | a bulleted item yields the normal form of its text |
| NormalizedGenres.ListItemIsValid | book_recommender_api/utils/normalize_and_clean_genres.py:30-51 | the normal form of a bulleted item of the taxonomy is a valid genre |
| NormalizedGenres.Normalize | book_recommender_api/utils/normalize_and_clean_genres.py:19-25 | a string and only a string has a normal form: stripped, of word characters and plain spaces |
| NormalizedGenres.ValidGenresAreNormal | book_recommender_api/utils/normalize_and_clean_genres.py:30-51 | every valid genre is non-empty, stripped, and made of word characters and spaces |
| NormalizedGenres.CleanDataset | book_recommender_api/utils/normalize_and_clean_genres.py:56-75 | the catalog keeps its length |
| NormalizedGenres.CleanDatasetKeepsValid | book_recommender_api/utils/normalize_and_clean_genres.py:66-75 | after cleaning, a book's genres are valid strings and every other field is untouched |
| NormalizedGenres.NormalizeNotIdempotent | book_recommender_api/utils/normalize_and_clean_genres.py:22-25 | "a & b" normalises to "a  b", which normalises to "a b" |
| NormalizedGenres.OneItemTaxonomy | book_recommender_api/utils/normalize_and_clean_genres.py:30-51 | the taxonomy "- a & b" has the single valid genre "a  b" |
| NormalizedGenres.SecondRunDropsGenre | book_recommender_api/utils/normalize_and_clean_genres.py:66-75 | with that taxonomy, a first run turns "a & b" into "a  b" and a second run drops it |
| NormalizedGenres.CanonicalFormIdempotent | book_recommender_api/utils/normalize_and_clean_genres.py:19-25 | the corrected normaliser, which collapses spaces again after dropping punctuation, is idempotent |
| NormalizedGenres.CanonicalGenresAreCanonical | book_recommender_api/utils/normalize_and_clean_genres.py:30-51 | under the corrected normaliser every valid genre is canonical |
| NormalizedGenres.CanonicalCleaningSettles | book_recommender_api/utils/normalize_and_clean_genres.py:56-75 | with the corrected normaliser, a second run changes nothing and counts 0 |
| AuditedGenres.LineGenre | book_recommender_api/utils/audit_and_clean_genres.py:27-41 | a line yields a genre only when it is not skipped and mentions no header; a line opening with "*" never does |
| AuditedGenres.ListItemRead | book_recommender_api/utils/audit_and_clean_genres.py:33-38 | a bulleted item yields its text without notes, stripped and lower-cased |
| AuditedGenres.NoteDropped | book_recommender_api/utils/audit_and_clean_genres.py:37 | "name (note)" yields the lower-cased name |
| AuditedGenres.ValidGenresAreClean | book_recommender_api/utils/audit_and_clean_genres.py:22-42 | every valid genre is its own stripped lower-case form |
| AuditedGenres.CleanEntry | book_recommender_api/utils/audit_and_clean_genres.py:49-50 | a cleaned genre is stripped and lower-case |
| AuditedGenres.Audit | book_recommender_api/utils/audit_and_clean_genres.py:52-66 | the catalog keeps its length |
| AuditedGenres.AuditKeepsValid | book_recommender_api/utils/audit_and_clean_genres.py:53-66 | after the audit, a book's genres are valid strings and every other field is untouched |
| AuditedGenres.AuditKeepsCleanBook | book_recommender_api/utils/audit_and_clean_genres.py:58-66 | a book is left alone exactly when all its genres are already valid and clean |
| AuditedGenres.AuditSettles | book_recommender_api/utils/audit_and_clean_genres.py:52-66 | a second audit changes nothing and counts 0 |
| FieldAudit.Normalize | book_recommender_api/utils/fields_adjustments.py:12-19 | no normal form exactly for a non-string, or a string that cleans to "" or a sentinel; otherwise a kept normal form |
| FieldAudit.NormalizeList | book_recommender_api/utils/fields_adjustments.py:21-24 | a non-list gives []; otherwise at most one normal form per entry, all kept normal forms |
| FieldAudit.NormalFormsExact | book_recommender_api/utils/fields_adjustments.py:24 | the list holds exactly the entries' normal forms, in entry order |
| FieldAudit.FieldIssue | book_recommender_api/utils/fields_adjustments.py:51-70 | the four anomaly kinds, each exactly when its branch fires: empty or invalid list, empty or invalid string, absent value, unexpected type |
| FieldAudit.Contribution | book_recommender_api/utils/fields_adjustments.py:53-64 | a list or a valid string contributes normal forms to the field's value set |
| FieldAudit.ScanAnomalies | book_recommender_api/utils/fields_adjustments.py:49-70 | an anomaly is reported exactly for a book index, an audited field and that field's issue; at most 8 per book |
| FieldAudit.ScanOrder | book_recommender_api/utils/fields_adjustments.py:49-50 | anomalies come by book, then in the order of the field list |
| FieldAudit.FieldRank | book_recommender_api/utils/fields_adjustments.py:40-43 | the position of a field in the audited list |
| FieldAudit.ScanValues | book_recommender_api/utils/fields_adjustments.py:49-64 | a field has a value set exactly when some book reaches a list or string branch for it, and the set holds exactly what those branches add |
| FieldAudit.CollectedAreNormal | book_recommender_api/utils/fields_adjustments.py:53-64 | every collected value is a kept normal form |
| FieldCorrections.PrecedesStrictTotal | book_recommender_api/utils/apply_field_corrections.py:60 | code-point order on strings is irreflexive, asymmetric and total |
| FieldCorrections.SortUnique | book_recommender_api/utils/apply_field_corrections.py:60 | `sorted(set(...))` keeps exactly the elements |
| FieldCorrections.SortUniqueSorted | book_recommender_api/utils/apply_field_corrections.py:60 | and orders them strictly |
| FieldCorrections.SortedByElements | book_recommender_api/utils/apply_field_corrections.py:60 | two strictly sorted lists with the same elements are equal |
| FieldCorrections.LastVariant | book_recommender_api/utils/apply_field_corrections.py:40-43 | the variant an original maps to is a corrected value differing from it only in case; there is none exactly when no corrected value is such a variant |
| FieldCorrections.LastVariantIsLast | book_recommender_api/utils/apply_field_corrections.py:40-43 | the last matching corrected value wins |
| FieldCorrections.ReverseMap | book_recommender_api/utils/apply_field_corrections.py:25-43 | every corrected value is a key; every target is a corrected value; a key maps to itself exactly when it is not an original with a variant |
| FieldCorrections.ReverseMapEntries | book_recommender_api/utils/apply_field_corrections.py:27-43 | the keys are exactly the corrected values and the originals that have a variant |
| FieldCorrections.BuildReverseIsReverseMap | book_recommender_api/utils/apply_field_corrections.py:27-43 | the loops compute the map whatever the order of the originals |
| FieldCorrections.CorrectedLookup | book_recommender_api/utils/apply_field_corrections.py:58-64 | `mapping.get(v, v)` gives the last variant for an original that has one, and v otherwise |
| FieldCorrections.OriginalsHold | book_recommender_api/utils/apply_field_corrections.py:32-38 | every string of a book's field is an original |
| FieldCorrections.SortedList | book_recommender_api/utils/apply_field_corrections.py:60 | a strictly sorted list of strings with the same elements |
| FieldCorrections.CorrectValue | book_recommender_api/utils/apply_field_corrections.py:55-67 | unchanged unless mapping changes it; a changed string is replaced by its mapping; a changed list by the sorted set of its mapped entries |
| FieldCorrections.CorrectBook | book_recommender_api/utils/apply_field_corrections.py:52-67 | same keys; fields without a mapping are untouched; mapped fields are corrected |
| FieldCorrections.CorrectBooks | book_recommender_api/utils/apply_field_corrections.py:51-69 | one corrected copy per book, in order |
| FieldCorrections.ModifiedCount | book_recommender_api/utils/apply_field_corrections.py:59-67 | at most one count per book, and 0 exactly when no book's field changes |
| FieldCorrections.Counts | book_recommender_api/utils/apply_field_corrections.py:49-67 | a field is counted exactly when some book's field changes, with that number |
| FieldCorrections.CorrectAllWith | book_recommender_api/utils/apply_field_corrections.py:25-69 | length and keys are kept; fields without corrections are untouched; counts lie between 1 and the catalog size |
| FieldCorrections.CorrectStringMeaning | book_recommender_api/utils/apply_field_corrections.py:63-67 | a string changes exactly when it has a variant, and becomes its correction |
| FieldCorrections.CorrectListMeaning | book_recommender_api/utils/apply_field_corrections.py:57-61 | a list changes exactly when an entry has a variant, and becomes the strictly sorted set of the corrections |
| FieldCorrections.CorrectValueSettles | book_recommender_api/utils/apply_field_corrections.py:55-67 | with no two corrected spellings of one value, a corrected field holds no further variant |
| FieldCorrections.CorrectAllSettles | book_recommender_api/utils/apply_field_corrections.py:25-69 | under that condition a second run changes nothing and counts nothing |
| FieldCorrections.SwapLookup | book_recommender_api/utils/apply_field_corrections.py:27-43 | two listed spellings of one value each map to the other, overriding their self entries |
| FieldCorrections.SwappedCase | book_recommender_api/utils/apply_field_corrections.py:25-69 | with "A" and "a" both listed, two books holding them trade spellings and both count |
| FieldCorrections.ApplyCorrectionsSettles | book_recommender_api/utils/apply_field_corrections.py:25-69 | with `casefold` and no two spellings of one value listed, the script settles after one run |

## Left out

- I/O is left out: the FastAPI router, the MongoDB collection, file reads and
  writes, backups, `print` reports and the `__main__` guards. Each script is
  modelled as a function from the parsed JSON (and the taxonomy text) to
  what it would write and count.
- `round(score, 4)` in `compute_score` and `match_personality` is left out.
  Scores are exact reals, so tests phrased with rounding are stated on the
  exact values.
- Controller.GatePassImpliesPositive, Controller.CandidatesComplete,
  Controller.NoMatchIffNoneGated, Controller.WinnerIsBest and
  Controller.WinnerIsFirstBest hold for exact scores. The endpoint filters
  and sorts on `round(score, 4)` (`recommender.py` lines 69 and 103,
  `books_controller.py` lines 72-81), so they differ in two cases:
  - A gated book whose exact score is below 0.00005 rounds to 0.0, and
    `score > 0` drops it. An example is a profile with more than 10,000
    themes and more than 10,000 emotions, sharing one of each, with a
    different tone, style and age range.
  - Two books whose exact scores differ but round to the same value tie
    in the program, which picks the earlier one. The model picks the
    exact maximum.
- The 404 errors are modelled as the `NoBooksAvailable` and `NoBookMatches`
  results, carrying their detail strings. `RecommendationResponse` and
  `BookOut` are not modelled.
- The Unicode tables are exact only for U+0000-U+00FF. That covers
  `str.lower`, `str.casefold`, NFKD, `\s`, `\w` and `\d`. Above U+00FF,
  lower-casing and decomposition are the identity. `\w` there is every
  character except combining marks U+0300-U+036F, General Punctuation
  U+2000-U+206F and whitespace.
- The `difflib.get_close_matches` report in `fields_adjustments.py`
  (lines 99-104) only prints, so it is left out. The same goes for the
  sorted text dumps (lines 76-93).
- FieldAudit.Message: the type name that `fields_adjustments.py` appends to
  "TIPO INESPERADO" is not modelled; the message is the fixed prefix.
- GenreCleaning.IsCleanable and GenreMaster.IsScreenable exclude a
  dictionary-valued `genres`. The three genre scripts would iterate the
  dictionary's keys, then replace the field with a list, which never
  equals a dictionary, so the book would count as modified. A JSON object
  is modelled as an unordered `map`, so the order of those keys, and with
  it the order of the cleaned list, cannot be expressed.
- `Counter.most_common()` ordering of the invalid-genre report is left out.
  GenreMaster keeps the counter as a multiset.
- Reading the catalog through a `list(...)` of a Mongo cursor is modelled
  as a sequence in collection order.
- The personality dimensions are unbounded integers. The request models
  (`app/models.py`) are not part of this model, so no range is assumed.
- Recommender.Book has typed fields. `genres`, `themes`, `emotion_tags`
  and `personality_match` are lists of strings. Tone, style and age range
  are strings or absent. Other JSON shapes are outside the model.
  - These raise in the program. A truthy non-string tone, style or age
    range fails at `.lower()` (`recommender.py` line 14). A null, numeric
    or boolean tag list fails in `normalize_list`'s iteration (line 18). A
    truthy non-string entry of a tag list fails at `.lower()`. A numeric
    personality tag fails at `in` (line 82).
  - These are read differently from anything the model can express, and
    are excluded. A string-valued tag list or `personality_match` is
    iterated character by character (lines 18 and 81). The genre cleaners
    keep an already clean string genre as a string, so this shape does
    occur in practice. A dictionary-valued list field is iterated by its
    keys. A list or dictionary personality tag is tested for membership,
    not for a substring.
  - These behave like shapes the model has. A falsy tone, style or age
    range (`0`, `False`, `""`, `[]`, null) normalises to "", exactly as
    an absent one (`None`) does (lines 12-13). Falsy entries of a list
    are skipped, as "" is. A null `personality_match` gives 0.0, as the
    empty list does (lines 78-79).
- The scripts that only print statistics are not part of this model. They
  are `analyze_books_tags.py`, `inspect_genres.py`, `extract_fields.py` and
  `field_correction_tool.py`. The same goes for the user controller and the
  Streamlit front end.

## Findings

| source | as written | input that shows it | evidently intended | confidence | as-written member | corrected member |
|---|---|---|---|---|---|---|
| book_recommender_api/utils/normalize_and_clean_genres.py:22-25 | `normalize` collapses separators before it drops punctuation, so punctuation between two spaces leaves a double space, and the result is not a fixed point of `normalize` | the taxonomy "- a & b" and a book with genres ["a & b"]: the first run stores "a  b"; a second run over that output normalises it to "a b", which is not in the taxonomy, so the genre is dropped. The script reads `data/books_openlibrary_enriched.json` (line 12) and writes `data/books_openlibrary_cleaned.json` (line 14), so the second run needs its output fed back in as input by hand | the normal form is stable: normalising a stored genre gives it back, and re-running the cleaner on its own output changes nothing | not executed | NormalizedGenres.SecondRunDropsGenre | NormalizedGenres.CanonicalCleaningSettles |
