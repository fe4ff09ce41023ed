# Student records pipeline — a Dafny model

The pipeline cleans and merges yearly student registration spreadsheets into
one table of students and one table of registrations. This project models
its core as pure functions over an immutable data frame and proves
properties of them. It covers four parts:

- **The student entity-resolution engine** (`student_code_manager.py`). It
  standardises identity fields and builds six optional candidate keys. It
  chains rows that share a key by smallest-label propagation, where only
  the weak key `np_composante_mention` is guarded by a strong-contradiction
  check on `cin` and `naissance_date`. It gives every group an
  `ETU<year>_<seq>` code and consolidates identity fields within groups.
- **The value cleaners** (`data_cleaner.py`): text cleanup, academic year,
  sex, track, programme identifier (`id_Parcours`), national identity card
  number (CIN), phone number and registration number.
- **The per-semester registration pass**
  (`inscription_semestre_code_manager.py`). It explodes each row into one
  row per enrolled semester, keeps the first row per constraint key, and
  builds the registration code from a two-digit short year.
- **The yearly registration pass** (`inscription_code_manager.py`). It hashes
  a composite key and keeps the first row per hashed code.

Data model (`tables.dfy`):

- A cell is `Option<string>`, where `None` is pandas' missing value.
- A row is a `map` from column name to cell.
- A frame is `Table(columns, rows)`.
- Reading a column a row lacks gives `None`.

Where the source turns a missing cell into text through `astype(str)` and
concatenates it into a de-duplication key, the model renders it as `"nan"`.
The normalisers instead keep a missing cell missing; "## Left out" names
where the source does otherwise.

Modules:

- `Text`: character classes, upper-casing, trimming, filtering, splitting and joining, digits and `zfill`.
- `Tables`: the frame, column operations and keep-first de-duplication.
- `StudentKeys`: standardised fields, candidate keys and the strong-contradiction check.
- `Clustering`: the chaining loop.
- `StudentCodes`: start years, sequence numbers, codes and consolidation.
- `StudentPipeline`: the whole step.
- `DataCleaner`: the value cleaners.
- `SemesterCodes`: the per-semester pass.
- `InscriptionCodes`: the yearly pass.

## Model

| member | source | states |
|---|---|---|
| StudentKeys.StandardField | student_code_manager.py:25-32 | A standardised field is missing for a missing input. A present one is exactly the `[A-Z0-9]` characters of the upper-cased input, in order, and is never empty. It is present exactly when the upper-cased input holds such a character. |
| StudentKeys.StandardFieldIdempotent | student_code_manager.py:25-32 | Standardising a standardised field changes nothing. |
| StudentKeys.NameKey | student_code_manager.py:34-43 | `nom_prenoms_standard` is present exactly when the standardised surname is. It is the surname followed by the standardised given names, or by nothing when those are missing, and is non-empty `[A-Z0-9]` text. |
| StudentKeys.CandidateKey | student_code_manager.py:47-88 | A key is present exactly when the name and every other component are present. Splitting a present key at `'_'` gives back the component texts: upper-cased, and reduced to `[A-Z0-9-]` for date, CIN and phone. |
| StudentKeys.SharedKeyIffSameComponents | student_code_manager.py:63-86 | Two rows with all components present share a key exactly when their component texts are equal. |
| StudentKeys.KeyColumns | student_code_manager.py:7-14 | The key table has six columns, one per candidate key, each with one entry per row. |
| StudentKeys.TwoValuesIffDisagree | student_code_manager.py:94-98 | More than one distinct non-missing value exactly when two tested rows hold different non-missing values. |
| StudentKeys.StrongContradiction | student_code_manager.py:90-100 | True exactly when some strong column has two different non-missing values among the tested rows. |
| Clustering.CanonIsGroupMinimum | student_code_manager.py:139-141 | The canonical label of a row is the smallest label among the rows sharing its key value, and some such row carries it. |
| Clustering.GroupMinima | student_code_manager.py:133-141 | Computes the canonical label of every row with a present key. Rows with a missing key keep their label. |
| Clustering.MembersOf | student_code_manager.py:165-167 | Lists exactly the rows labelled with the current or the target label. |
| Clustering.StepResult | student_code_manager.py:143-179 | After one key step no label grows. A label drops exactly when its row's proposal is accepted. |
| Clustering.SettledIffClosed | student_code_manager.py:132-184 | For an unguarded key, "nothing left to merge" is the same as "rows sharing a key value share a label". |
| Clustering.WeakSeparationJustified | student_code_manager.py:151-175 | When the weak key is settled, two rows that share its value but not a label have some proposal into their group minimum that meets a strong contradiction. More generally, once the weak key is settled, every proposal meets a strong contradiction with its target, so no target enters `groupes_valides_cible_id`. |
| Clustering.ValidTargets | student_code_manager.py:157-170 | The validated target set holds exactly the targets some cross-group proposal into which has no strong contradiction. |
| Clustering.ApplyMask | student_code_manager.py:178-180 | The selected rows take their new label and the others keep theirs. The count is zero exactly when no row is selected. |
| Clustering.ApplyProposals | student_code_manager.py:144-180 | The relabelling equals `StepResult`, and no merge is counted exactly when the key is settled. |
| Clustering.KeyStep | student_code_manager.py:132-180 | One key relabels as `StepResult` does. It reports zero merges exactly when the key is settled. |
| Clustering.SumMonotone | student_code_manager.py:178-179 | Lowering labels pointwise lowers their sum, and strictly when any label drops. This is the loop's termination measure. |
| Clustering.StepKeepsBounds | student_code_manager.py:178-179 | Labels stay between 1 and the row's index plus one. |
| Clustering.Round | student_code_manager.py:125-184 | One round is exactly the six key steps in order, each on the labels the previous one produced (`RoundResult`). It keeps labels in bounds. It makes no merge exactly when it changes no label, and then every key is settled. With merges, the label sum strictly drops. |
| Clustering.Fixpoint | student_code_manager.py:115-189 | Repeating rounds from given labels ends, and keeps one label per row with row `i`'s label in `1..i+1`. |
| Clustering.FixpointStable | student_code_manager.py:115-189 | The labels that repeated rounds end in are left unchanged by a further round, which is the loop's exit condition `nouvelles_fusions == 0`. |
| Clustering.FixedRoundSettled | student_code_manager.py:182-184 | A round that changes no label finds all six keys settled. |
| Clustering.StepKeepsLinked | student_code_manager.py:132-148 | A key step moves a row only to the label of a row holding the same present value of that key. So every row stays linked, by a chain of shared key values, to the row its label came from. |
| Clustering.SameLabelLinked | student_code_manager.py:115-189 | Two rows with the same label are connected by a chain of shared present key values. |
| Clustering.IsolatedRowStaysAlone | student_code_manager.py:115-189 | A row sharing no present key value with any other row keeps its own label `index + 1`, and no other row carries it. |
| Clustering.Resolve | student_code_manager.py:115-189 | The loop terminates, and its labels are exactly `Fixpoint` from `index + 1`. So each weak-key merge is one the guard accepted in the round it happened. At exit, rows sharing any of the five unguarded keys share a label, and the weak key is settled. Conversely, rows share a label only when a chain of shared key values connects them. |
| StudentCodes.StartYear | student_code_manager.py:199 | A missing academic year gives the fallback 9999. |
| StudentCodes.StartYearOfRange | student_code_manager.py:199 | The academic year `A-B` starts in year `A`. |
| StudentCodes.MinYearOfGroup | student_code_manager.py:202-203 | The group's minimum year is attained by a row of the group, is at most every member's year, and is shared by all members. |
| StudentCodes.SortByYear | student_code_manager.py:208 | Yields a permutation of the group representatives, sorted by minimum year with ties in row order. |
| StudentCodes.DecodeStudentCodeRoundTrip | student_code_manager.py:219-225 | Reading back `ETU<year>_<zfill(6) seq>` gives the year and sequence number. |
| StudentCodes.StudentCodeInjective | student_code_manager.py:219-225 | Two codes are equal exactly when their years and sequence numbers are. |
| StudentCodes.SequenceNumbersDense | student_code_manager.py:208-216 | Sequence numbers run from 1 to the number of groups without gaps. Two rows get the same number exactly when they are in the same group. |
| StudentCodes.SequenceNumbersFollowYears | student_code_manager.py:207-214 | A group with an older minimum year gets a smaller sequence number. |
| StudentCodes.AssignCodes | student_code_manager.py:194-228 | Numbers are dense, follow the years, and identify the group. Each code is built from the group's minimum year and its number. Two rows share a code exactly when they share a group. |
| StudentCodes.FirstFilled | student_code_manager.py:245-247 | Missing exactly when every row of the group is missing or `''`. Otherwise it is the value of the group's first filled row. |
| StudentCodes.Consolidate | student_code_manager.py:232-250 | Keeps columns and row count. Unlisted columns are untouched, and listed columns are uniform within a group. |
| StudentCodes.ConsolidateTakesFirstFilled | student_code_manager.py:245-247 | Each consolidated cell is the group's first filled value. |
| StudentCodes.ConsolidateIdempotent | student_code_manager.py:241-247 | Consolidating twice changes nothing more. |
| StudentPipeline.WithCodes | student_code_manager.py:195-228 | Adds the identifier columns, the default academic year and the code column, and leaves every other cell as it was. |
| StudentPipeline.Assemble | student_code_manager.py:255-257 | The result has one row per input row and exactly the kept columns, with no working column left. |
| StudentPipeline.AssembleConsolidates | student_code_manager.py:232-250 | Listed identity fields in the result are uniform within a group. |
| StudentPipeline.AssembleKeepsOthers | student_code_manager.py:255-257 | Every other non-working input column is unchanged. A frame without an academic year gets `NON_SPECIFIEE`. |
| StudentPipeline.CodeAndAssemble | student_code_manager.py:190-258 | For given labels: two rows share a code exactly when they share a group. Each code decodes to its group's minimum year and sequence number. The numbers run `1 .. K` without gaps, and an older group gets a smaller one. Each listed identity field holds its group's first filled value in row order. Other columns are kept, and no working column remains. |
| StudentPipeline.AssembleTakesFirstFilled | student_code_manager.py:241-256 | After assembly, each listed identity field is the group's first filled value in the input. |
| StudentPipeline.ManageStudentCodes | student_code_manager.py:104-264 | A frame without rows or without columns (`df.empty`) is returned as is. Otherwise the labels are `Resolve`'s: the loop's fixed point, closed under the unguarded keys, settled on the weak key, and shared only along chains of shared key values. All of `CodeAndAssemble` holds: codes name the group's minimum year and a dense, year-ordered sequence number, and identity fields take their group's first filled value. |
| Tables.DropColumns | student_code_manager.py:256-257 | The listed columns are gone and every other cell is unchanged. |
| Tables.KeepFirst | inscription_code_manager.py:78 | The kept positions are increasing, each is the first occurrence of its key, every key is kept, no key is kept twice, and no more rows are kept than were given. |
| Tables.GroupMinIsMinimum | student_code_manager.py:141 | The group minimum is absent exactly when no row has the key. Otherwise some row of the group attains it and no member is smaller. |
| DataCleaner.CleanTextAsWritten | data_cleaner.py:64-76 | The cleanup as written: every `nan` substring is removed, then the text is stripped. Missing stays missing and a result is trimmed. |
| DataCleaner.CleanTextAsWrittenAltersNames | data_cleaner.py:70 | The as-written cleanup turns the clean name `Andrianantenaina` into `Andriatenaina`. The corrected cleanup keeps it. |
| DataCleaner.CleanText | data_cleaner.py:64-76 | The corrected cleanup. Missing stays missing. A present cell becomes missing exactly when its stripped text is `''` or `nan`, and otherwise becomes its stripped text, which is trimmed, non-empty and not `nan`. |
| DataCleaner.CleanTextKeepsCleanValues | data_cleaner.py:64-76 | An already clean value is left as it is. |
| DataCleaner.CleanTextIdempotent | data_cleaner.py:64-76 | Cleaning twice changes nothing more. |
| DataCleaner.CleanTextColumns | data_cleaner.py:66-75 | The corrected column pass: each cell of a text column becomes its `CleanText` value, so only a cell whose whole text is `''` or `nan` becomes missing, and no cell is left as `''`. Every other cell is unchanged. |
| DataCleaner.CleanTextColumnsAsWritten | data_cleaner.py:66-75 | The column pass as written: each cell of a text column goes through the substring removal of `nan` and the strip, and a resulting `''` becomes missing. Every other cell is unchanged. |
| DataCleaner.ColumnPassesDisagreeOnNames | data_cleaner.py:70 | On a text column holding `Andrianantenaina`, the pass as written gives `Andriatenaina` while the corrected pass keeps the name. |
| DataCleaner.CleanAcademicYear | data_cleaner.py:85-92 | Missing stays missing. A present value becomes its non-whitespace characters upper-cased, and is missing exactly when that is `''` or `NAN`. A result is free of whitespace and lower-case letters. |
| DataCleaner.CleanAcademicYearIdempotent | data_cleaner.py:85-92 | Cleaning an academic year twice changes nothing more. |
| DataCleaner.CleanAcademicYearIgnoresSpaces | data_cleaner.py:87-90 | Whitespace anywhere in the input makes no difference. |
| DataCleaner.CleanAcademicYears | data_cleaner.py:78-103 | Rewrites only `annee_universitaire`, when present. |
| DataCleaner.StandardSex | data_cleaner.py:165-178 | Missing exactly for a missing value or `NAN`. Otherwise the result is `Masculin` or `Féminin`, and it is `Féminin` exactly when the upper-cased value contains `F`. |
| DataCleaner.StandardSexIdempotent | data_cleaner.py:165-178 | Standardising twice changes nothing more. |
| DataCleaner.StandardizeSex | data_cleaner.py:163-185 | Rewrites only `sexe`, when present, and removes the working column. |
| DataCleaner.TrackFormation | data_cleaner.py:191-200 | A `hybride` that reads `C` once upper-cased and stripped gives `CLASSIQUE`, one that reads `H` gives `HYBRIDE`, and any other value, or a missing one, leaves `formation` unchanged. |
| DataCleaner.TrackFormationNormalisesCode | data_cleaner.py:193 | The `hybride` code is read stripped and upper-cased. |
| DataCleaner.ApplyTrack | data_cleaner.py:187-208 | Applies only when both columns are present, then removes `hybride`. Other cells are unchanged. |
| DataCleaner.TidyParcours | data_cleaner.py:254 | The result is the non-empty pieces between underscores joined by a single `_`. So it has no leading or trailing `_` and no two adjacent `_`. |
| Text.JoinPiecesOfTidy | data_cleaner.py:254 | A text with no separator at either end and none doubled is the join of its non-empty pieces. |
| Text.PiecesIgnoreRuns | data_cleaner.py:254 | Collapsing runs of the separator leaves the non-empty pieces unchanged. |
| DataCleaner.TidyParcoursContent | data_cleaner.py:248-252 | Tidying only removes underscores: the other characters stay, in order. |
| DataCleaner.ImputedParcours | data_cleaner.py:239-257 | The imputed identifier is the non-empty underscore-separated pieces of the upper-cased, stripped `composante`, `mention` and `parcours`, in order, joined by single `_`. It is missing exactly when the joined text has nothing but underscores. A present result has no lower-case letter. |
| DataCleaner.ParcoursPiecesOfJoined | data_cleaner.py:251 | Joining the three fields with `_` gives exactly the fields' own pieces, in order. |
| DataCleaner.ImputedParcoursContent | data_cleaner.py:239-252 | The imputed identifier holds the joined text's characters other than `_`, in order. |
| DataCleaner.ImputeParcoursIds | data_cleaner.py:235-264 | Without the required columns the frame is unchanged. Only missing `id_Parcours` cells change, and only to the imputed value. |
| DataCleaner.CinTextRoundTrip | data_cleaner.py:282-288 | Formatting 12 digits gives `DDD-DDD-DDD-DDD`, and deleting the dashes gives the digits back. |
| DataCleaner.FormatCin | data_cleaner.py:276-291 | Missing exactly when the input has fewer than 12 digits. Otherwise the result is `DDD-DDD-DDD-DDD` holding the first 12 digits in order. |
| DataCleaner.FormatCinIdempotent | data_cleaner.py:276-291 | Formatting a formatted CIN changes nothing. |
| DataCleaner.FormatCins | data_cleaner.py:266-302 | Rewrites only `cin`, when present, and removes the working columns. |
| DataCleaner.NormalizeNumber | data_cleaner.py:323-341 | Present exactly when the local part (one leading `261` stripped) has 9 or 10 digits. A 9-digit local part gets a leading `0`, and a 10-digit one is kept as it is. |
| DataCleaner.PhoneTextRoundTrip | data_cleaner.py:342-344 | The 3-2-3-2 spaced form, with its spaces deleted, gives back the 10 digits. |
| DataCleaner.FormatPhone | data_cleaner.py:320-344 | Missing exactly when normalisation fails. Otherwise the result is the spaced form of the normalised number. |
| DataCleaner.PhoneInternationalMatchesLocal | data_cleaner.py:330-338 | `+261` followed by 9 digits formats like `0` followed by the same digits. |
| DataCleaner.PhoneColumn | data_cleaner.py:309-313 | Picks `telephone` over `tel`, and nothing when neither is present. |
| DataCleaner.FormatPhones | data_cleaner.py:304-355 | Rewrites only the chosen phone column and removes the working column. |
| DataCleaner.RegistrationColumn | data_cleaner.py:368-373 | Priority `numero_inscription` > `num_inscription` > `inscription`. Absent exactly when none is present. |
| DataCleaner.CleanNumber | data_cleaner.py:395-405 | The cleaned number is the upper-cased text with whitespace, `-`, `/` and `.` removed, and `''` when that reads `NAN`. It holds no lower-case letter. |
| DataCleaner.CleanNumberIdempotent | data_cleaner.py:395-405 | Cleaning a cleaned number changes nothing. |
| DataCleaner.MentionPrefix | data_cleaner.py:379-390 | The prefix is empty exactly when the mention is missing or reads `''` or `NAN` once upper-cased and stripped. Otherwise it is that upper-cased, stripped mention followed by `_`. |
| DataCleaner.CleanRegistration | data_cleaner.py:395-417 | Missing stays missing. The result is `''` exactly when the cleaned number is. Otherwise it is the prefix followed by the cleaned number. |
| DataCleaner.CleanRegistrations | data_cleaner.py:357-427 | Rewrites only the chosen registration column. |
| SemesterCodes.PresentSemesters | inscription_semestre_code_manager.py:22-26 | Lists exactly the `S01`..`S16` columns the frame holds, in order. It is non-empty exactly when the guard's `any` holds. |
| SemesterCodes.PresentSemestersWhenComplete | inscription_semestre_code_manager.py:38-43 | With all sixteen columns present, the list is the full `S01`..`S16`. |
| SemesterCodes.MeltColumnsAsWritten | inscription_semestre_code_manager.py:38-43 | The melt as written succeeds exactly when all sixteen semester columns are present. |
| SemesterCodes.ManageSemesterCodesAsWritten | inscription_semestre_code_manager.py:26-43 | As written, a frame passing the guard fails exactly when some semester column is absent. |
| SemesterCodes.PartialSemestersRejected | inscription_semestre_code_manager.py:26-43 | A frame with the base columns and only `S01` passes the guard, yet the as-written melt fails. |
| SemesterCodes.SlotsFacts | inscription_semestre_code_manager.py:38-46 | The exploded slots are exactly the (row, semester) pairs whose cell is `1`, ordered semester-major as `melt` orders them. |
| SemesterCodes.SameKeySameSemester | inscription_semestre_code_manager.py:56-61 | Equal constraint keys with same-length semester names mean the same semester. |
| SemesterCodes.ShortYear | inscription_semestre_code_manager.py:77-85 | Missing gives `NA_A`. The result is `ERR_A` exactly when the value has no `-`. |
| SemesterCodes.ShortYearOfRange | inscription_semestre_code_manager.py:81-83 | `A-B` gives the last two characters of `A`, then `-`, then those of `B`. |
| SemesterCodes.RegistrationCode | inscription_semestre_code_manager.py:90-95 | The code starts with the student code, `_`, the short year and `_`, and ends with `_` and the semester. |
| SemesterCodes.RegistrationCodeMiddle | inscription_semestre_code_manager.py:90-95 | Between that head and that tail the code holds `id_Parcours` as text. |
| SemesterCodes.OutputColumnsKept | inscription_semestre_code_manager.py:100-101 | The output has `semestre_id` and `code_inscription` and none of the dropped columns. |
| SemesterCodes.ExplodeAndDeduplicate | inscription_semestre_code_manager.py:36-95 | Each output row is built from an enrolled slot, in melt order. No two output rows share a constraint key, every enrolled slot's key is kept, and each kept slot is the first with its key. |
| SemesterCodes.ManageSemesterCodes | inscription_semestre_code_manager.py:6-114 | Returns the frame unchanged when the guard fails. Otherwise it explodes over the semester columns present, de-duplicates as above, with each kept slot the first in melt order with its key, and drops the working and semester columns. |
| InscriptionCodes.Algorithm | inscription_code_manager.py:17-22 | MD5 exactly for the name `MD5`, and SHA-256 otherwise. |
| InscriptionCodes.GenerateHash | inscription_code_manager.py:9-24 | Missing exactly for a missing or empty input. Otherwise the result is the first `longueur` characters of the digest of the stripped, upper-cased input, or the whole digest when it is shorter. |
| InscriptionCodes.HashInputIdempotent | inscription_code_manager.py:14 | Normalising a normalised text changes nothing. |
| InscriptionCodes.GenerateHashNormalises | inscription_code_manager.py:11-24 | A value whose stripped text is non-empty hashes like its normalised form. A whitespace-only value is hashed, but its normalised form `''` gives a missing code, so it is excluded. |
| InscriptionCodes.OutputCoversCodes | inscription_code_manager.py:78 | Every input row's code is held by some kept row. |
| InscriptionCodes.Deduplicate | inscription_code_manager.py:51-87 | The kept rows are an order-preserving subsequence, each with its code added and the temporary key removed. No two share a code, every input code is kept, and each kept row is the first with its code. |
| InscriptionCodes.ManageRegistrationCodes | inscription_code_manager.py:31-95 | Returns the frame unchanged when a required column is absent. Otherwise it behaves as `Deduplicate`: distinct codes, every code kept, and each kept row the first with its code. |
| Text.SplitJoin | student_code_manager.py:82-84 | Joining texts free of the separator, then splitting, gives the texts back. |
| Text.ZFillRoundTrip | student_code_manager.py:219 | Parsing a zero-filled number gives the number back. |

## Left out

- Loading and combining the Excel files (`charger_et_combiner_fichiers`), the
  date and baccalaureate-year parsers, the institutional constant columns,
  `nettoyer_donnees`, `main.py` and `config.py`. They are file I/O, library
  date and number parsing, or orchestration.
- The SHA-256 and MD5 functions are a parameter (`Digest`) about which
  nothing is assumed. The `except` branch of `generer_hash` is not modelled,
  since the parameter is total.
- Progress bars, logging, `convert_dtypes` and the dtype of each column.
  Text columns are given explicitly to `CleanTextColumns` rather than found
  through the object dtype.
- Missing cells converted to text appear as `"nan"` wherever the source
  concatenates them. Pandas can also render `<NA>` or `None`, depending on the
  dtype.
- DataCleaner.CleanTextColumns: this is the corrected pass, which removes
  `nan` only when it is a cell's whole text; it does not reproduce data_cleaner.py:70. The pass as
  written, which also removes it from inside names, is
  `CleanTextColumnsAsWritten`.
- StudentCodes.StartYear: the year is the parsed digits before the first `-`,
  or 9999. The case where `astype(int, errors='ignore')` leaves the whole
  column as text is not modelled.
- StudentCodes.SortByYear: ties in minimum year are ordered by first row.
  `sort_values` does not promise a stable order.
- Column order and the row index are not modelled. A frame holds a set of
  columns, and rows are in index order.
- SemesterCodes.IsEnrolled: the source compares the semester cell with the
  number 1. The model compares it with the text `1`.
- SemesterCodes.ExplodeAndDeduplicate: an input column already named
  `semestre_id` or `inscrit` is overwritten, not rejected as pandas' `melt`
  would reject it.
- Characters are classified by Python's `isspace` set, ASCII digits and
  Latin-1 upper-casing. Other Unicode digits, and upper-casing that changes
  length (`ß`) or leaves Latin-1 (`ÿ`), are not modelled.
- Clustering.WeakSeparationJustified: validity is recorded per target label,
  as in the source. So several groups can join one target in a round even
  when only one of them was checked against it. The model states this and
  does not claim more.
- DataCleaner.FormatPhone: a formatted number is not a fixed point. Its local
  part can begin with `261` again, so it is not claimed idempotent.
- StudentKeys.StandardField: a missing `nom`, `prenoms`, `cin_lieu`, `mail`,
  `composante` or `mention` stays missing. The source's `astype(str)` at
  student_code_manager.py:27 turns it into the text `NAN` (or `NA` from
  `<NA>`). There a row without a surname still gets `nom_prenoms_standard`,
  and such rows can share keys and merge. The model keeps them apart, as
  absent keys.
- DataCleaner.MentionPrefix: a missing mention gives no prefix, as a `NaN`
  does once rendered `nan` and upper-cased. A `pd.NA` mention, rendered
  `<NA>`, gives the prefix `<NA>_` in the source; that rendering is not
  modelled.
- DataCleaner.StandardSex: a missing cell stays missing, as a `NaN` does once
  rendered `nan` and upper-cased. A `pd.NA` rendered `<NA>` would become
  `Masculin` in the source; that rendering is not modelled.

## Findings

| source | as written | input that shows it | evidently intended | confidence | as-written member | corrected member |
|---|---|---|---|---|---|---|
| data_cleaner.py:70 | `str.replace('nan', '')` removes every occurrence of `nan` inside a text, not only the missing marker | the surname `Andrianantenaina` becomes `Andriatenaina` | only a cell whose whole text is `nan` becomes missing | high, not executed | DataCleaner.CleanTextAsWritten (DataCleaner.CleanTextAsWrittenAltersNames, DataCleaner.CleanTextColumnsAsWritten, DataCleaner.ColumnPassesDisagreeOnNames) | DataCleaner.CleanText (DataCleaner.CleanTextKeepsCleanValues, DataCleaner.CleanTextIdempotent, DataCleaner.CleanTextColumns) |
| inscription_semestre_code_manager.py:26-43 | the guard accepts a frame with any `S01`..`S16` column, but `melt` is given all sixteen, so a frame with only some of them raises `KeyError` | base columns plus `S01` only | explode over the semester columns the frame holds | high, not executed | SemesterCodes.ManageSemesterCodesAsWritten (SemesterCodes.PartialSemestersRejected) | SemesterCodes.ManageSemesterCodes (SemesterCodes.PresentSemesters) |
