# ARMR clinical-note pipeline: verified model of the text-processing core

ARMR records a physician's dictated note. The note is transcribed and cut into
the sections of a clinical note. Diseases and medications are found in each
section and shown to the physician for review. The reviewed entities are then
stored as annotation rows, and once a week the rows are turned into training
data for the entity recogniser. That retraining step saves the recogniser
under a new version.

This project models the deterministic part of that pipeline in Dafny:

- **Sections** (`sections.dfy`): `categorize_note`. The header-phrase matches
  are sorted by start token. Each header owns the original-case text from its
  end to the next header's start, or to the end of the note. The result has
  exactly the twelve vocabulary keys, and a header that never occurs keeps
  the text `"None"`.
- **Entities** (`entities.dfy`): `parse_entities` and `parse_medication`.
  Diseases are the recogniser spans labelled DISEASE. Matcher hits that share
  a start token are coalesced into one run. Each run is shaped into a
  medication record by its length, and records whose name contains `.` are
  dropped.
- **Versioning** (`versioning.dfy`): the tail of `train`. The version suffix
  `a.b.c` becomes `0.(b+1).0`. The new directory is written before the old
  one is removed.
- **Ingest** (`ingest.dfy`): `process_transcription`. The queue rows with
  null content are visited in ascending timestamp order. A row whose audio
  file is present is transcribed, its file is deleted, and its content is
  set.
- **Review** (`review.dfy`), from `routes.py`:
  - the upload checks;
  - the display strings of the review form;
  - the reconciliation of the edited form into annotation rows: lines are
    split, searched in the lower-cased section text, and the self-referential
    span is the fallback.
- **Records** (`records.dfy`): `Data.__repr__`, which joins ten fields with
  `/col/`, and the three password predicates.
- **TrainingSet** (`trainingset.dfy`): `format_data` and `get_data`'s weekly
  window and split.

Supporting modules:

- `text.dfy`: Python's `split`, `join`, `rstrip`, `lower`, `upper`, `title`,
  `int()` and `str()`, with the usual laws proved (split/join round trip,
  `int(str(n)) == n`, length of a decimal numeral).
- `sorting.dfy`: a sort by key, proved to be a permutation, sorted and stable.
- `doc.dfy`: a spaCy token sequence, Python slices of it, and a span's text.
- `wrappers.dfy`: `Option` and `Result`.

Where the source mutates state, the model is imperative:

- The loops of `categorize_note`, `parse_entities`, the display strings,
  reconciliation, `__repr__` and `format_data` are methods with loop
  invariants. Each is proved equal to a specification function, and the
  properties are lemmas about those functions.
- The model directory is a class with a map field.
- The ingest queue is a class with the queue and file-set fields.

Python exceptions are modelled as `Err` values or as an `aborted` flag.

Behaviour of the code worth noting:

- The version bump forces the first component to `0`, increments the
  second and resets the third. Every older major version is lost.
- The medical record number (mrn) check looks only at `len(str(mrn))`. So a
  negative six-digit mrn such as `-123456` is accepted, and the `.wav` check
  is made first.
- `process_transcription` catches nothing. A failing transcription or note
  preparation ends the whole tick. If preparation fails, the audio file has
  already been deleted and the row stays pending for good.
- `format_data` records no triple for the first row of each text.
- Reconciliation searches for the whole lower-cased line in the lower-cased
  section text. A line that is not found replaces the stored text with
  itself.
- The `/col/` round trip does not follow from "no field contains `/col/`".
  A text ending in `/col` followed by the separator leaves an earlier cut.
  The model proves the round trip under a sufficient condition (no field
  contains `/`, or more generally each field is "separable"). It also proves
  that a text ending in `/col` breaks it (`Records.TextEndingInColBreaksRoundTrip`,
  `Records.SlashColExample`).

## Model

| member | source | states |
|---|---|---|
| Sorting.SortByStable | code/app/nlp.py:62 | the sort is stable: elements with equal keys come out in their input order |
| Sections.SortByStartCorrect | code/app/nlp.py:58-62 | the sorted results are a permutation of the matcher's hits, in ascending start-token order |
| Sections.CategorizeNote | code/app/nlp.py:38-73 | the dictionary the loop builds is the one obtained by assigning each sorted match its owned text in turn, starting from all twelve headers at "None" |
| Sections.InitialLiteral | code/app/nlp.py:40-51 | the twelve-entry dictionary literal is the vocabulary with every header at "None" |
| Sections.FillSections | code/app/nlp.py:63-72 | the loop over sorted matches leaves the dictionary obtained by assigning each match, in order, the text it owns |
| Sections.StoreSection | code/app/nlp.py:64-72 | one turn stores under the match's phrase the text from its end to the next match's start, or to the end of the note when there is no next match or it starts at token 0 |
| Sections.TerminologyDistinct | code/app/nlp.py:13-18 | the header vocabulary has twelve distinct phrases |
| Sections.AssignKeys | code/app/nlp.py:63-72 | after any number of assignments the keys are the vocabulary plus the phrases assigned so far |
| Sections.CategorizeKeys | code/app/nlp.py:40-72 | when every match is a vocabulary phrase the result has exactly the twelve vocabulary keys |
| Sections.AssignLastOccurrence | code/app/nlp.py:63-72 | after assigning the first k matches, a phrase holds the text assigned at its last position among them |
| Sections.AssignUnmatched | code/app/nlp.py:40-72 | a phrase not among the first k matches still holds its initial value |
| Sections.CategorizeLastOccurrence | code/app/nlp.py:63-72 | a header matched several times holds the text owned by its last occurrence in start order |
| Sections.CategorizeUnmatched | code/app/nlp.py:40-72 | a header that is never matched keeps the literal text "None" |
| Sections.NextAtZeroOwnsRest | code/app/nlp.py:67-72 | when the next match starts at token 0 (falsy), a section owns the note to its end |
| Sections.SectionsTile | code/app/nlp.py:63-72 | for sorted, non-overlapping headers, headers and owned texts tile the note from the first header to the end, with no gap or overlap; tokens before the first header are in no section |
| Entities.ParseMedication | code/app/nlp.py:121-132 | a 4- or 3-token span gives name, amount and unit from tokens 0-2, and its method is null iff the last token is "."; otherwise it is that last token, which for a 3-token span is the unit; any other length gives only a name |
| Entities.DiseasesExact | code/app/nlp.py:97-99 | a disease record is listed iff some recogniser span labelled DISEASE has its text |
| Entities.DiseasesAppend | code/app/nlp.py:97-99 | recogniser order is kept: the diseases of two concatenated span lists are concatenated |
| Entities.Runs | code/app/nlp.py:106-115 | every run is one of the hits, and the last run is the last hit |
| Entities.ParseEntities | code/app/nlp.py:76-118 | the two lists returned are the DISEASE spans in recogniser order and the assembled medication runs |
| Entities.CollectDiseases | code/app/nlp.py:97-99 | the first loop returns exactly the diseases of the recogniser spans |
| Entities.CollectMedications | code/app/nlp.py:103-117 | the second loop, tracking only the open run's start and end, returns the records of all runs in order, dotted names dropped |
| Entities.MedicationStep | code/app/nlp.py:106-114 | the hit at i either starts a new run, appending the closed run's record unless its name is dotted, or extends the open run, leaving the records unchanged |
| Entities.OpenRunStep | code/app/nlp.py:106-114 | a hit with a new start closes the open run (emitting its record unless the name is dotted); a hit with the same start extends it |
| Entities.CloseLastRun | code/app/nlp.py:115-117 | after the loop the open run is the last hit's range, and emitting it completes the list |
| Entities.RunsOnePerBlock | code/app/nlp.py:103-117 | the runs' starts are the hits' starts with consecutive repeats removed: exactly one run per block of hits sharing a start |
| Entities.RunsMaximal | code/app/nlp.py:106-114 | consecutive runs have different starts |
| Entities.RunsAreBlockEnds | code/app/nlp.py:106-117 | the runs are exactly the hits that end their block of equal starts, so each record spans its block's shared start to the end of the block's last hit, and every block yields one |
| Entities.RunsHead | code/app/nlp.py:106-114 | the first run begins where the first hit begins |
| Entities.AssembleKeepsDotless | code/app/nlp.py:110-117 | no emitted record has "." in its name, and every run whose first token has no "." is emitted |
| Entities.CoalescingExamples | code/app/nlp.py:106-114 | two hits with one start make one run; with different starts, two |
| Versioning.NewVersion | code/app/nlp.py:180-182 | a bumped version is at least five characters, starts with "0." and ends with ".0" |
| Versioning.BumpIndexError | code/app/nlp.py:180 | the bump raises IndexError exactly when the suffix has no "." |
| Versioning.BumpValueError | code/app/nlp.py:182 | the bump raises ValueError exactly when there is a second component and it is not an integer |
| Versioning.BumpShape | code/app/nlp.py:180-182 | the new version splits into the components "0", str(b+1) and "0" |
| Versioning.BumpMinor | code/app/nlp.py:180-182 | the new version's second component reads back as b+1 |
| Versioning.BumpThree | code/app/nlp.py:180-182 | a suffix of three dot-free components whose second reads as n is bumped to "0.(n+1).0" |
| Versioning.BumpChanges | code/app/nlp.py:182-192 | the new version differs from the old, so the directory removed is not the one written |
| Versioning.BumpFirstExample | code/app/nlp.py:180-182 | "0.1.0" becomes "0.2.0" |
| Versioning.BumpSecondExample | code/app/nlp.py:180-182 | "3.9.7" becomes "0.10.0": the major version is not kept |
| Versioning.BumpIndexExample | code/app/nlp.py:180 | "7" raises IndexError |
| Versioning.BumpValueExample | code/app/nlp.py:182 | "0.x.0" raises ValueError |
| Versioning.ModelStore.SaveAndReplace | code/app/nlp.py:183-192 | a bad suffix changes nothing; otherwise the new directory is made if absent and written, then the old one is removed, or FileNotFoundError is reported with the new one kept; at every step the old or the new weights are present |
| Versioning.ModelStore.Replace | code/app/nlp.py:185-192 | the new directory is made if absent and written before the old one is removed; a missing old directory raises FileNotFoundError after the write; every intermediate state holds the old or the new directory |
| Versioning.OnlyNewRemains | code/app/nlp.py:185-192 | replacing the only model directory leaves exactly the new version |
| Ingest.NullContentExact | code/app/nlp.py:209 | the query returns each row with null content exactly once and no other row |
| Ingest.PendingOrderCorrect | code/app/nlp.py:209-210 | the rows visited are exactly the null-content rows, once each, in ascending timestamp order |
| Ingest.IngestQueue.ProcessTranscription | code/app/nlp.py:207-221 | the new queue and file set, and whether a raise ended the tick, are those of the tick's specification |
| Ingest.Visit | code/app/nlp.py:211-221 | one visit changes at most the visited row, only when it is not aborted, giving it content and removing only its file; once aborted nothing changes |
| Ingest.RunAbortedStays | code/app/nlp.py:211-221 | once a raise has ended the tick, further rows change nothing |
| Ingest.RunFrame | code/app/nlp.py:211-221 | the queue keeps its length; rows not visited are unchanged; a changed row has content and its file is gone; only files of visited rows are removed; a file no visited row names survives |
| Ingest.AbsentFileUntouched | code/app/nlp.py:216 | a row whose audio file is absent stays pending and unchanged |
| Ingest.ProcessedFileRemoved | code/app/nlp.py:216-220 | a row the tick changed has content set and its file removed |
| Ingest.UniqueFileProcessed | code/app/nlp.py:211-221 | a pending row visited once whose file is present and unshared gets content, unless the tick was aborted |
| Ingest.TickProcessesUniqueFiles | code/app/nlp.py:209-221 | a null-content row with a present, unshared file gets content in a tick that is not aborted |
| Ingest.TickSkipsDone | code/app/nlp.py:209-212 | a row that already has content is untouched |
| Review.ValidateUpload | code/app/routes.py:95-98 | an upload gets past the file-type check only when its name ends in ".wav", and is accepted iff it also has str(mrn) of seven characters |
| Review.ValidateUploadExact | code/app/routes.py:95-98 | the file-type error is reported iff the last four characters are not ".wav"; an upload is accepted iff it ends in ".wav" and str(mrn) has seven characters (seven digits, or a minus and six) |
| Review.UploadExamples | code/app/routes.py:95-98 | ".wav" is checked before the mrn; "-123456" passes the length check |
| Review.DiseaseString | code/app/routes.py:210-211 | the disease field is each title-cased name followed by a newline |
| Review.MedicationString | code/app/routes.py:213-222 | the medication field is one line per record: title-cased name, then " "+amount, " "+unit, " "+method each only when truthy |
| Review.KeepEntities | code/app/routes.py:148-150 | the kept pieces have no upper-case letters |
| Review.KeepEntitiesLength | code/app/routes.py:148-150 | at most one line per piece, exactly one when no piece is empty |
| Review.EntityLines | code/app/routes.py:148-150 | the entity lines of an edited field have no upper-case letters |
| Review.CarriageReturnLine | code/app/routes.py:148-150 | a lone "\r" piece is kept and becomes an empty entity |
| Review.EmptyField | code/app/routes.py:148-150 | an empty field gives no entity lines |
| Review.KeepPlainLines | code/app/routes.py:148-150 | non-empty lines without "\r" or "\n" are kept, lower-cased, one per line |
| Review.LinesRoundTrip | code/app/routes.py:148-150 | splitting a newline-terminated block gives back its lines, filtered and lower-cased |
| Review.DiseaseRoundTrip | code/app/routes.py:148-150 | an unedited disease field reads back as the lower-cased disease names |
| Review.MedicationRoundTrip | code/app/routes.py:154-156 | an unedited medication field reads back as the lower-cased medication lines |
| Review.Locate | code/app/routes.py:180-186 | in both branches 0 <= start <= end <= len(text) and text[start:end] is the entity; if found, text is the section text and start its first occurrence; otherwise text is the entity with span 0..len |
| Review.TitleKeys | code/app/routes.py:115-116 | one title-cased key per section, in order |
| Review.EditsUpTo | code/app/routes.py:146-157 | collecting the edited fields fails only with IndexError |
| Review.Mentions | code/app/routes.py:168-172 | one row entry per edited line, in line order, each carrying the title key, the lower-cased section text, the kind and the line |
| Review.MentionsUpTo | code/app/routes.py:165-172 | gathering row entries fails only with KeyError |
| Review.RowsOf | code/app/routes.py:174-198 | one row per entry, in order |
| Review.Reconcile | code/app/routes.py:144-199 | the rows stored, or the error raised, are those of the submission's specification |
| Review.CollectEdits | code/app/routes.py:144-157 | the loop over the form entries builds the two edit dictionaries, or the first IndexError |
| Review.CollectMentions | code/app/routes.py:165-172 | the loop over title keys lists each section's disease lines then its medication lines, or the first KeyError |
| Review.BuildRows | code/app/routes.py:174-198 | each entry becomes the row its located span gives |
| Review.ErrorStays | code/app/routes.py:146-157 | the first failing form entry decides the error |
| Review.MentionErrorStays | code/app/routes.py:165-172 | the first missing key decides the error |
| Review.SubmissionRows | code/app/routes.py:161-197 | all rows share user id, mrn, transcription id and timestamp; each span lies in its text and selects the entity; the category is "disease" or "medication" |
| Review.MentionKinds | code/app/routes.py:165-172 | every entry is a disease or a medication |
| Review.MentionsCount | code/app/routes.py:165-172 | there is one entry per kept line of each section visited |
| Review.SubmissionSucceeds | code/app/routes.py:144-199 | with one form entry per section and lower-case keys, the submission raises nothing |
| Review.EditsSucceed | code/app/routes.py:146-157 | with enough sections and medication entries every section key receives both edits |
| Review.MentionsSucceed | code/app/routes.py:165-172 | when every lower-cased title key has edits, no KeyError is raised |
| Review.SectionTextFound | code/app/routes.py:166 | every section key has a text |
| Review.SubmissionTooManyEntries | code/app/routes.py:146-151 | more disease entries than sections raises IndexError |
| Review.EditsFail | code/app/routes.py:146-151 | an entry beyond the last section raises IndexError |
| Records.Fields | code/app/classes.py:89-91 | ten fields, with text at index 3, start and end at 5 and 6, label at 7 |
| Records.Repr | code/app/classes.py:88-99 | the indexed loop produces the fields joined by "/col/", no leading or trailing separator |
| Records.RoundTrip | code/app/classes.py:88-99 | when each field splits back, splitting the text form on "/col/" gives the ten fields, with text, start, end and label where the training script reads them |
| Records.NoSlashSplitsBack | code/app/classes.py:88-99 | fields without "/" always split back |
| Records.TextEndingInColBreaksRoundTrip | code/app/classes.py:92-98 | a text ending in "/col" does not come back at index 3 |
| Records.SlashColExample | code/app/classes.py:92-98 | "a/col" contains no "/col/" yet does not come back at index 3 |
| Records.CheckPwdDigit | code/app/classes.py:40-41 | true iff some character is a digit |
| Records.CheckPwdUpper | code/app/classes.py:43-44 | true iff some character is upper case |
| Records.CheckPwdLength | code/app/classes.py:46-47 | true iff the password has more than seven characters |
| Records.PasswordChecksExtend | code/app/classes.py:40-47 | a password that meets the digit, upper-case or length check still meets it with characters appended |
| Records.PasswordExamples | code/app/classes.py:40-47 | "Secret12" passes all three checks; the seven-character "Secre12" fails the length check |
| Records.PasswordWithoutDigit | code/app/classes.py:40-44 | "Password" has an upper-case letter but no digit |
| Records.PasswordWithoutUpper | code/app/classes.py:43-44 | "secret12" has no upper-case letter |
| TrainingSet.NormalizeLabelProperties | code/retrain.py:82-84 | the label is upper-cased and "MEDICATION" becomes "CHEMICAL"; other labels pass upper-cased |
| TrainingSet.NormalizeLabelExamples | code/retrain.py:82-84 | "medication" becomes "CHEMICAL", "disease" becomes "DISEASE" |
| TrainingSet.ParseRow | code/retrain.py:79-84 | a parsed row has its text from field 3, start and end integer-parsed from fields 5 and 6, and normalised label from field 7; a row shorter than six raises IndexError |
| TrainingSet.ParseAll | code/retrain.py:78-84 | parsing all rows gives one entry per row |
| TrainingSet.ParseAllOk | code/retrain.py:78-84 | when every row parses, all rows parse, each to its own entry, in order |
| TrainingSet.ParseErrorStays | code/retrain.py:78-82 | the first bad row decides the error |
| TrainingSet.Group | code/retrain.py:85-88 | a text has a list in the dictionary exactly when it is among the recorded keys |
| TrainingSet.FormatData | code/retrain.py:70-94 | the two loops return the specification's examples or the first error |
| TrainingSet.AddRow | code/retrain.py:85-88 | one turn of the first loop: a new text gets an empty list and a new key, a known text gets the row's triple appended |
| TrainingSet.ListExamples | code/retrain.py:90-92 | one example per key, in key order, with the set of its triples |
| TrainingSet.GroupKeys | code/retrain.py:85-88 | the keys are each distinct text once, in order of first appearance |
| TrainingSet.GroupCollects | code/retrain.py:85-88 | a text's list holds exactly the triples of its rows after the first |
| TrainingSet.SingleRowNoEntities | code/retrain.py:85-88 | a text with a single row gets an empty entity list |
| TrainingSet.FormatSpecCorrect | code/retrain.py:77-94 | one example per distinct text, in order of first appearance and without repeats, whose entities are the triples collected for it |
| TrainingSet.Recent | code/retrain.py:64-65 | a row is kept iff its timestamp is strictly after one week before now |
| TrainingSet.GetData | code/retrain.py:65-66 | one split row per recent row |
| TrainingSet.ReadBack | code/retrain.py:66-82 | a stored row that splits back is read as its own text, range and normalised label |
| TrainingSet.GetDataReadsBack | code/retrain.py:62-82 | the week's rows, when each splits back and has a range, all parse, in query order, to their own text, range and label |

## Left out

- spaCy (model loading, tokenizer, PhraseMatcher, Matcher and the recogniser): its outputs are inputs. The tokens are given with their trailing whitespace; the phrase matches, the matcher hits and the recogniser spans are given as sequences.
- The regular expression in `re.search(entity, txt)`: modelled as literal substring search, as if the entity had no metacharacters.
- Review.ValidateUpload: `mrn` is taken to be an integer form field, as the integer `mrn` column of the `transcriptions` table suggests; the upload form in `code/app/forms.py` declares no `mrn` field, and with a string field any seven-character text would pass the length check.
- Case mapping and `isdigit`/`isupper`: ASCII only; `int()` accepts an optional sign and decimal digits, without surrounding whitespace or underscores.
- The NER training loop (shuffling, minibatches, dropout, losses): floating point and randomness.
- The fixed 97-character slicing of the model path: the directory name is a prefix plus the version suffix.
- Speech recognition and `prepare_note`: parameters of the ingest tick returning `None` where they raise; `prepare_note`'s composition of the other two functions is not modelled separately.
- The scheduler's timing, Flask routing, sessions, login, templates and WTForms, and the `secure_filename` and file save of `upload`.
- SQLAlchemy: tables are sequences in table order; a commit is the state change itself. `get_data`'s query is assumed to return rows in table order, and rows with equal timestamps in `process_transcription` keep table order (a stable sort).
- `Queue` audio files are identified by their file name; the directory join is not modelled.
- Dictionary insertion order of `categorize_note`'s result: it is a map; the review code takes the ordered section list as input.
- The entity list of `format_data`: a set, since `list(set(...))` has no specified order.
- Timestamps are integer seconds; `pytz` conversion and the datetime text in `__repr__` are modelled as the integer's decimal form.
- Password hashing, the SSH shutdown and deploy, `delete_old_save_new` and the empty `push_weights`.
- Records.RoundTrip: needs each field to be separable (for example, free of "/"), because "no field contains /col/" is not enough.
- Records: the count of nine separators is not stated as a count; the split into exactly ten pieces is proved instead.
