# EHC report assistant core, modelled in Dafny

This project models the deterministic core of "Jess", a Streamlit assistant for educational
psychologists. The assistant answers consultation questions and guides the user through writing
an Education, Health and Care (EHC) assessment report. The parts modelled are:

- **the report wizard** (`report_sections.py`). `save_and_navigate` merges a section's answers into
  the session, names the report once, and then moves the section cursor, saves and exits, or saves
  the report as completed and asks for the professional write-up. `render_navigation_buttons`
  decides which buttons a section offers. Module `ReportSections`.
- **the report store** (`db_manager.py`): generating ids, saving (upsert), loading, listing by
  recency and deleting. Module `ReportDatabase`.
- **the notes serialiser** that turns the collected answers into the text given to the language
  model (`report_generator.py:51-54`). Module `ReportGenerator`.
- **the response combiner** (`chains/response_combiner.py`): combining two replies, extracting
  follow-up questions, and the professional layout with a numbered question list. Module
  `ResponseCombiner`.
- **document export** (`document_export.py`). The line parser of `create_word_document` groups
  report text into headings and paragraphs, given as a sequence of blocks. The RTF export builds
  the document text. Module `DocumentExport`.
- **resource detection** (`main.py`): the keyword detector, the de-duplicating append into the
  list of mentioned resources, and the display of its last six entries. Module `Resources`.

Support modules:

- `Wrappers` provides `Option`.
- `PyDict` models Python's insertion-ordered `dict` as a sequence of entries with distinct keys.
- `Text` models the `str` methods the core uses: `strip`, `split`, `join`, `replace`, `lower`,
  `title`, `isupper`, `in`, and `str(n)`, all over ASCII.

The outside world of the wizard is passed in as parameters (`ReportSections.Env`):

- the MD5 hash, as a function returning 32 lower-case hex digits;
- the `datetime.now()` reading used in the id;
- how far the database clock moves during a save;
- the language model, as a function from the serialised notes to the report text.

The database is a value, `Db(rows, clock)`. `updated_at` and `created_at` are readings of an
abstract clock. What a wizard step does outside the session is recorded, in order, as a list of
`Effect`s. This makes "the completed report is saved before generation is requested" a stated
property.

## Model

| member | source | states |
|---|---|---|
| PyDict.Get | report_sections.py:12 | `dict.get` finds a value exactly when the key is present, and that value is the one stored under the key |
| PyDict.GetOr | report_sections.py:12 | the default comes back exactly when the key is missing; otherwise the stored value does |
| PyDict.Set | report_sections.py:7 | assigning an existing key keeps every key in its position; assigning a new key appends it at the end |
| PyDict.SetGet | report_sections.py:7 | after assigning a key, that key reads the new value and every other key reads what it read before |
| PyDict.SetUnique | report_sections.py:7 | assigning a key keeps the keys distinct |
| PyDict.UpdateKeepsOrder | report_sections.py:7 | `dict.update` keeps the existing keys, in their order, at the front |
| PyDict.UpdateUnique | report_sections.py:7 | `dict.update` keeps the keys distinct |
| PyDict.UpdateKeys | report_sections.py:7 | after `update`, a key is present exactly when it was present before or in the merged dict |
| PyDict.UpdateGet | report_sections.py:7 | after `update`, each key reads the merged dict's value when that dict has it, and the earlier value otherwise |
| PyDict.UpdateIdempotent | report_sections.py:7 | merging the same section twice gives the same map as merging it once |
| PyDict.UpdateAlreadyPresent | report_sections.py:7 | merging answers that are all already present changes nothing, order included |
| Text.StripWindowOf | chains/response_combiner.py:16 | `str.strip` keeps exactly the window of the text between a whitespace-only prefix and a whitespace-only suffix |
| Text.StripUnique | chains/response_combiner.py:16 | whitespace, then a trimmed text, then whitespace strips to that trimmed text |
| Text.StripIdempotent | chains/response_combiner.py:35 | stripping a stripped text changes nothing |
| Text.StripEmptyIffAllSpace | report_generator.py:53 | stripping leaves nothing exactly when every character is whitespace |
| Text.StripKeepsAbsent | chains/response_combiner.py:35 | stripping never introduces a character |
| Text.Split | chains/response_combiner.py:32 | `str.split(sep)` gives one more piece than there are separators, no piece holds the separator, and joining the pieces with it gives the text back |
| Text.SplitJoin | document_export.py:23 | splitting pieces that were joined with a separator they do not contain gives the pieces back |
| Text.SplitConcat | chains/response_combiner.py:32 | the pieces of `a + sep + b` are the pieces of `a` followed by the pieces of `b` |
| Text.LinesOfJoin | chains/response_combiner.py:69 | the lines of a newline-joined list are the lines of its parts, in order |
| Text.Lower | main.py:74 | `str.lower` maps each character to its lower-case form and keeps the length |
| Text.IsUpperTextMeaning | document_export.py:37 | `str.isupper` holds exactly when there is an upper-case letter and no lower-case one |
| Text.Title | report_generator.py:54 | `str.title` keeps non-letters, upper-cases a letter that starts a word, lower-cases every other letter, and keeps the length |
| Text.TitleIdempotent | report_generator.py:54 | title-casing twice is title-casing once |
| Text.LowerTitle | report_generator.py:54 | title-casing changes only the case of letters |
| Text.ReplaceCharAt | report_generator.py:54 | replacing one character by another changes exactly the positions that held it |
| Text.ReplaceRemovesChar | document_export.py:48 | `replace('#', '')` leaves no '#' |
| Text.RemoveChar | document_export.py:48 | deleting every occurrence of a character leaves none of it and never lengthens the text |
| Text.ReplaceByNothing | document_export.py:48 | `replace(c, '')` is the same as deleting every occurrence of `c` |
| Text.JoinAppend | chains/response_combiner.py:69 | joining two non-empty lists is joining each and putting one separator between them |
| Text.ContainsPrefix | main.py:77 | a text containing `needle + more` contains `needle` |
| Text.NatToStringRoundTrip | chains/response_combiner.py:67 | the decimal rendering of a number reads back as that number |
| ReportDatabase.EmptyStore | db_manager.py:12-32 | a freshly created table is well formed, loads nothing and lists nothing |
| ReportDatabase.GenerateReportId | db_manager.py:34-38 | the id is the first 8 characters of the MD5 hex digest of `"{child}_{type}_{timestamp}"`, so it is exactly 8 hex digits |
| ReportDatabase.SaveReport | db_manager.py:40-68 | the given id is returned; an unknown id adds one row holding the given type, child, data, section and flag, stamped with the new clock; a known id adds no row; the clock advances; unique ids and ordered time stamps are kept |
| ReportDatabase.LoadReport | db_manager.py:70-94 | `None` exactly when no row has the id |
| ReportDatabase.LoadAfterSave | db_manager.py:45-94 | loading after a save returns the saved data, section and flag and the new time stamp; type and child name are the first save's when the report already existed, and the given ones otherwise |
| ReportDatabase.SaveUpdatesInPlace | db_manager.py:52-58 | saving a known id rewrites that row in its place: data, section, flag and `updated_at` are the new ones; type, child name and `created_at` stay; every other row is unchanged |
| ReportDatabase.SaveKeepsOthers | db_manager.py:52-64 | a save leaves what every other id loads unchanged |
| ReportDatabase.Without | db_manager.py:127 | `DELETE ... WHERE id = ?` keeps exactly the rows with another id, and shrinks the table exactly when some row had the id |
| ReportDatabase.DeleteReport | db_manager.py:122-133 | the result is true exactly when a row with the id existed; afterwards the id loads as `None`; the clock is unchanged and unique ids are kept |
| ReportDatabase.WithoutUnique | db_manager.py:127 | deleting keeps the ids of a table distinct |
| ReportDatabase.DeleteKeepsOthers | db_manager.py:127 | deleting one id leaves what every other id loads unchanged |
| ReportDatabase.DeleteTwice | db_manager.py:127-133 | a second delete of the same id returns false |
| ReportDatabase.Insert | db_manager.py:104 | one insertion step keeps the rows ordered most recent first and adds only the inserted row |
| ReportDatabase.InsertPermutes | db_manager.py:104 | one insertion step adds exactly the inserted row and loses none |
| ReportDatabase.SortByRecency | db_manager.py:104 | `ORDER BY updated_at DESC` gives the same rows, most recent first |
| ReportDatabase.Limit | db_manager.py:105 | `LIMIT n` keeps the first `n` rows, all of them when there are fewer, and all of them for a negative `n` |
| ReportDatabase.ListReports | db_manager.py:96-120 | exactly `limit` summaries when the limit is below the row count (all of them otherwise), most recent first; as a multiset the listing is contained in the summaries of the stored rows, and equals them for a negative limit or one at least the row count |
| ReportDatabase.SummariesPermute | db_manager.py:104-115 | reordering the rows reorders their summaries and loses or adds none |
| ReportDatabase.LeftOutNoNewer | db_manager.py:104-105 | in a recency-sorted table, a row either is listed under the limit or is no more recent than every listed row |
| ReportDatabase.ListedAreMostRecent | db_manager.py:101-106 | a report left out of the listing is no more recent than any listed one |
| ReportDatabase.SavedReportListedFirst | db_manager.py:56-106 | when the clock moves, the report just saved heads the recency listing |
| ReportGenerator.HasContentIffNotAllSpace | report_generator.py:53 | a field is skipped exactly when its value is empty or whitespace only |
| ReportGenerator.Label | report_generator.py:54 | the label has the key's length and no '_' |
| ReportGenerator.LabelUpToCase | report_generator.py:54 | ignoring case, the label is the key with every '_' turned into a space |
| ReportGenerator.FormatNotes | report_generator.py:51-54 | the notes are empty exactly when no field has content (an empty map included) |
| ReportGenerator.Kept | report_generator.py:53 | the fields kept are exactly the fields with content |
| ReportGenerator.FormatNotesIsKeptBlocks | report_generator.py:51-54 | the notes are the `"{Label}: {value}\n\n"` blocks of exactly the fields with content, values unmodified, in map order |
| ReportGenerator.FormatNotesAppend | report_generator.py:52-54 | the notes of a map whose entries come in two runs are the notes of the first run followed by those of the second |
| ReportSections.ChildName | report_sections.py:12 | the child name falls back to "Unknown" when the key is missing |
| ReportSections.ChildNameOfPresentKey | report_sections.py:23 | a present `child_name` key, even with an empty value, gives its own value and not "Unknown" |
| ReportSections.ReportIdFor | report_sections.py:10-13 | a set id is kept; an unset one (missing or empty) is replaced by a fresh 8-hex-digit id |
| ReportSections.SaveAndNavigate | report_sections.py:4-49 | answers are merged on every button; the id is set and never replaced, and a fresh one is built from the merged answers' child name; Next and Previous move the cursor by exactly one and neither write nor request anything; Save & Exit saves once as not completed, leaves report mode and keeps the cursor; Generate saves as completed first, then requests the report from the serialised notes and stores the result; a valid store stays valid |
| ReportSections.MergeOverwrites | report_sections.py:7 | after any button each answer is the section's when the section has the key, and the earlier answer otherwise |
| ReportSections.SaveWritesSession | report_sections.py:19-38 | a save stores the merged answers, the current section and the button's completion flag under the session's id; a new report gets type "ehc_assessment" and the child name; no other report changes |
| ReportSections.IdIsStable | report_sections.py:10-13 | once the report has an id, no sequence of button presses changes it |
| ReportSections.Offered | report_sections.py:51-72 | Previous is offered exactly past the first section, Next exactly before the last, Generate exactly on the last (never together with Next), and Save & Exit always |
| ReportSections.OfferedStepInBounds | report_sections.py:55-68 | pressing an offered button keeps the cursor within `[0, total_sections)` |
| ReportSections.OfferedRunInBounds | report_sections.py:55-68 | pressing only offered buttons, the cursor never leaves `[0, total_sections)` |
| ReportSections.NextRunAdvances | report_sections.py:15-16 | `n` Next presses move the cursor by exactly `n`, write nothing and request nothing |
| Resources.Detect | main.py:71-99 | at most one entry per rule, each the name and link of a rule one of whose keywords occurs in the text |
| Resources.DetectInRuleOrder | main.py:73-97 | one entry per firing rule, and a firing rule's entry sits right after those of the firing rules before it, so the entries follow the order of the checks |
| Resources.FiredEarlierListedEarlier | main.py:77-97 | of two firing rules, the earlier check's entry comes first |
| Resources.DetectMember | main.py:77-97 | a rule's name is detected exactly when one of its keywords occurs |
| Resources.DetectUnique | main.py:73-97 | the detected names are distinct |
| Resources.DetectResources | main.py:71-99 | at most seven entries, distinct names, each one of the seven fixed name and link pairs |
| Resources.DetectIgnoresCase | main.py:74 | detection depends only on the lower-cased text |
| Resources.WiscDetected | main.py:83-84 | "WISC-V" is detected exactly when "wisc" occurs in the lower-cased text |
| Resources.SensoryProfileDetected | main.py:77-78 | "Sensory Profile-2" is detected exactly when "sensory profile" occurs in the lower-cased text |
| Resources.MergedKeepsPrefix | main.py:245-247 | merging never removes or reorders an existing entry; new ones go at the end |
| Resources.MergedDistinct | main.py:246 | distinct names stay distinct after merging |
| Resources.MergedListsFound | main.py:245-247 | after merging, every detected name is listed |
| Resources.MergedFromFound | main.py:245-247 | every listed entry was already listed or was detected |
| Resources.MergedIdempotent | main.py:245-247 | merging the same detection twice changes nothing more |
| Resources.AllListedMergeNothing | main.py:246 | when every detected name is already listed, the list is unchanged |
| Resources.MergeResources | main.py:245-247 | the loop computes the merge, keeps the old list as a prefix, and keeps names distinct |
| Resources.Shown | main.py:259 | the display is the last `min(6, n)` entries |
| Resources.NewlyAddedAreShown | main.py:245-259 | when at most six entries were added, every newly added one is displayed |
| ResponseCombiner.CombineResponses | chains/response_combiner.py:1-16 | the combined reply has no leading or trailing whitespace |
| ResponseCombiner.CombineTrimmedReplies | chains/response_combiner.py:14-16 | two non-empty trimmed replies are kept verbatim with one blank line between them |
| ResponseCombiner.CombineWithoutFactual | chains/response_combiner.py:14-16 | with no factual reply, the result is the engagement reply stripped |
| ResponseCombiner.CombineWithoutEngagement | chains/response_combiner.py:14-16 | with no engagement reply, the result is the factual reply stripped |
| ResponseCombiner.KeptMembers | chains/response_combiner.py:36-37 | a piece is kept exactly when it ends with '?' |
| ResponseCombiner.KeptInOrder | chains/response_combiner.py:34-37 | the kept pieces keep their order |
| ResponseCombiner.QuestionsMembers | chains/response_combiner.py:34-37 | a string is extracted exactly when some fragment strips to it and it ends with '?' |
| ResponseCombiner.QuestionsInOrder | chains/response_combiner.py:34-37 | the questions come in the order of the fragments |
| ResponseCombiner.QuestionsAreTrimmed | chains/response_combiner.py:35-37 | every question ends with '?' and has no leading or trailing whitespace |
| ResponseCombiner.QuestionsAvoid | chains/response_combiner.py:32-37 | a character no fragment holds appears in no question |
| ResponseCombiner.ExtractFollowUpQuestions | chains/response_combiner.py:18-39 | every question ends with '?', is trimmed and holds no '.'; there are at most one more than the '.' characters |
| ResponseCombiner.StripAllAt | chains/response_combiner.py:35 | each stripped fragment is the corresponding fragment stripped |
| ResponseCombiner.QuestionsCount | chains/response_combiner.py:34-37 | there are as many questions as fragments whose stripped form ends in '?' |
| ResponseCombiner.ExtractedQuestionsAreEndingPieces | chains/response_combiner.py:30-39 | the questions are exactly the stripped '.'-pieces ending in '?', in the order of the pieces, one per such piece |
| ResponseCombiner.TwoStatementsGiveNoQuestions | chains/response_combiner.py:32-37 | two '.'-terminated sentences whose pieces do not end in '?' give no question, even with a '?' inside a piece |
| ResponseCombiner.QuestionBeforeMoreTextIsMissed | chains/response_combiner.py:32-37 | "Hello there. How are you? I am fine." gives no question |
| ResponseCombiner.StatementThenQuestion | chains/response_combiner.py:32-37 | a statement, '.', then a piece ending in '?' gives exactly that piece, stripped |
| ResponseCombiner.QuestionAtEndIsFound | chains/response_combiner.py:32-37 | "Hello there. How are you?" gives exactly "How are you?" |
| ResponseCombiner.NumberedQuestions | chains/response_combiner.py:66-67 | the i-th item is `"{first + i}. {question i}"`, in input order |
| ResponseCombiner.FormatProfessionalResponse | chains/response_combiner.py:41-69 | the response begins with the factual content, and with no empathy and no follow-ups it is exactly the factual content |
| ResponseCombiner.FormatProfessionalText | chains/response_combiner.py:54-69 | for every input, the response is the factual content, then a blank line and the empathy when there is any, then a blank line, the header, a newline and the newline-joined questions numbered from 1 when there are follow-ups |
| ResponseCombiner.FormatProfessionalLines | chains/response_combiner.py:54-69 | for every input, line by line: the lines of the factual content; a blank line and the lines of the empathy when there is any; a blank line, the header and the lines of the numbered questions from 1 when there are follow-ups |
| ResponseCombiner.FollowUpsGiveHeader | chains/response_combiner.py:64-67 | whenever there are follow-ups, the questions header is a line of the response |
| ResponseCombiner.HeaderIffFollowUps | chains/response_combiner.py:64-67 | when neither the factual content nor the empathy has the header as a line, the header is a line of the response exactly when there are follow-ups |
| DocumentExport.NumberingIffPattern | document_export.py:39 | the numbering test accepts a line exactly when `^\d+\.` matches it |
| DocumentExport.HeadingText | document_export.py:48 | the heading text is the line with every '#' deleted and then stripped, so it holds no '#' and is trimmed |
| DocumentExport.Classify | document_export.py:26-40 | a line is blank exactly when it is all whitespace; otherwise its text is the stripped line, and it is a heading exactly when it is upper-case, starts with '#', starts with digits and a '.', or ends with ':' and is shorter than 100 |
| DocumentExport.NonBlankLinesTrimmed | document_export.py:27-29 | every kept line is stripped and not empty |
| DocumentExport.KindTextsOfLines | document_export.py:26-52 | the texts of the non-blank classified lines are the non-blank stripped lines, in order |
| DocumentExport.FlattenGroupFrom | document_export.py:26-56 | from any point of the loop, the chunks still to come hold the pending lines and then the remaining non-blank lines, in order |
| DocumentExport.LinesKeptInOrder | document_export.py:26-56 | every non-blank stripped line appears exactly once, as a heading or inside a paragraph, in its original order |
| DocumentExport.GroupWellFormed | document_export.py:29-56 | no paragraph is empty, and no paragraph holds a heading line |
| DocumentExport.BlankLineSplits | document_export.py:29-34 | a blank line splits the text into two independently parsed halves |
| DocumentExport.HeadingLineSplits | document_export.py:36-49 | a heading line splits the text too, and stands alone between the halves |
| DocumentExport.BodyRunIsOneParagraph | document_export.py:50-56 | consecutive body lines become one paragraph |
| DocumentExport.RenderedParagraphNonEmpty | document_export.py:32 | no paragraph made from the content is empty |
| DocumentExport.GroupLines | document_export.py:23-56 | the single-pass loop with a pending paragraph computes the grouping |
| DocumentExport.CreateWordDocument | document_export.py:4-56 | the title, the child heading, the report id line and a spacer come first, then the rendered chunks of the report's lines |
| DocumentExport.RtfEscape | document_export.py:77-78 | the escaped content holds no newline |
| DocumentExport.RtfEscapeSingleLine | document_export.py:77-78 | text without newlines is kept as it is |
| DocumentExport.RtfEscapeBlankLine | document_export.py:77 | a blank line between two lines becomes a double paragraph mark |
| DocumentExport.RtfEscapeLineBreak | document_export.py:78 | a lone newline becomes a single paragraph mark |
| DocumentExport.RtfEscapeParStep | document_export.py:77-78 | a first line followed by a blank line escapes to the line, a double paragraph mark, and the rest escaped on its own |
| DocumentExport.RtfEscapeLineStep | document_export.py:77-78 | a first line followed by a single newline (not the start of a blank line) escapes to the line, a paragraph mark, and the rest escaped on its own |
| DocumentExport.RtfEscapeThreeNewlines | document_export.py:77-78 | three newlines in a row give a double paragraph mark and then a single one |
| DocumentExport.CreateRichTextDocument | document_export.py:69-88 | the document starts with the fixed header, ends with '}', and ends with the escaped content followed by the footer |
| DocumentExport.RtfBodyIsOneLine | document_export.py:69-88 | after the header, the document holds no newline when the child name and id hold none |

## Left out

- All Streamlit rendering is left out as user interface. This covers widgets, `st.success`,
  `st.spinner`, `st.balloons`, `st.rerun`, the section forms (`report_sections.py:74` on) and the
  sidebar.
- `ui_components.py` is not part of this model. It is also user interface, including its resume
  and start-new buttons.
- The separate first-section form of `main.py:195-215` is left out. It merges the child
  information directly and moves to the next section without `save_and_navigate`.
- The language-model chains (`chains/claude_ep_chain.py`, `chains/simple_ep_chain.py`,
  `chains/factual_chain.py`, `chains/engagement_chain.py`, `zen_chat.py`) and the report prompt
  text are left out. The model of `generate_professional_report` is a total function `generate`
  of the serialised notes.
- SaveAndNavigate: does not model an exception from the language model or the database. The
  save that precedes the request is modelled, and a failure after it is not.
- SaveAndNavigate: a missing `current_report_id` session key is modelled as `None` and gets a
  fresh id. In the source the key is set only by `ui_components.py` (lines 127 and 152), not by
  the session set-up of `main.py:62-67`, so `report_sections.py:10` raises `AttributeError` when a
  wizard starts in a session where it was never set. In a session where a report was resumed
  before, the start button of `main.py:163-167` leaves that id in place, and the new report's
  saves then overwrite the resumed one. The model shows this second case: a set id is kept.
- SQLite connections and JSON encoding are left out. The data map is stored as the value itself,
  so the JSON round trip is the identity.
- `is_completed` is stored as a boolean, not as SQLite's 0/1.
- Time stamps are readings of an abstract clock, not `CURRENT_TIMESTAMP` strings. A save may
  leave the clock where it was (`elapsed = 0`), as two saves in the same second would.
- SortByRecency: SQLite does not fix the order of rows with equal `updated_at`. The model
  chooses insertion order.
- The MD5 hash and `datetime.now()` are parameters. The hash is only assumed to return 32
  lower-case hex digits.
- Characters are restricted to ASCII. `str.strip`, `str.isspace`, `str.lower`, `str.title` and
  `str.isupper` follow Python on ASCII only.
- `python-docx` is left out. The Word document is the sequence of blocks it would receive, not
  bytes, and the `ImportError` fallback to `None` is not modelled.
- CreateRichTextDocument: returns the document text before its UTF-8 encoding to bytes.
- `Text.ReplaceAll` requires a non-empty pattern. Python's `replace` with an empty pattern is
  never used by the core.
- ExtractFollowUpQuestions: the text is cut at every '.' before any '?' is looked for. A
  question followed by more text before the next '.' therefore ends a piece that does not end in
  '?', and it is not extracted. `QuestionBeforeMoreTextIsMissed` gives such an input.
- CreateWordDocument: the centre alignment of the title (`document_export.py:15`) is a
  formatting attribute of the Word heading and is left out. The title block carries only its
  text and level.
- GroupLines: classifies every line before the loop instead of stripping inside it. Each line's
  classification is the same, so the chunks are the same.
- Python dicts are modelled with distinct keys. This is why MergeOverwrites and
  PyDict.UpdateGet assume distinct keys in the merged dict, which a real dict always has.
