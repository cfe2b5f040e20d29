/**
  The report wizard of report_sections.py: `save_and_navigate` merges a section's answers into
  the session, names the report lazily, and then moves the section cursor, saves and leaves, or
  saves as completed and asks for the professional report; `render_navigation_buttons` decides
  which of those actions the page offers.

  The Streamlit session is a `Session` value; the store is a `ReportDatabase.Db`; the MD5 hash,
  the clock and the language model are the parameters collected in `Env`. What the call does to
  the outside world is listed, in order, as `Effect`s.
 */
module ReportSections {
  import opened Wrappers
  import opened PyDict
  import opened ReportDatabase
  import opened ReportGenerator

  /** The button the user pressed. */
  datatype Direction = Next | Previous | SaveExit | GenerateReport

  /** The part of `st.session_state` the wizard reads and writes. */
  datatype Session = Session(
    reportMode: Option<string>,
    reportData: Dict,
    currentSection: int,
    currentReportId: Option<string>,
    generatedReport: Option<string>)

  /** The outside world of one call: the hash behind the id, the `datetime.now()` reading used
      in the id, how far `CURRENT_TIMESTAMP` has moved, and the language model, which is given
      the serialised notes. */
  datatype Env = Env(md5: string -> Md5Hex, timestamp: string, elapsed: nat, generate: string -> string)

  /** What a call does outside the session, in order. */
  datatype Effect =
    | Saved(id: string, isCompleted: bool)
    | GenerationRequested(notes: string)

  datatype Outcome = Outcome(session: Session, db: Db, effects: seq<Effect>)

  /** The report type every wizard save uses. */
  const ReportType := "ehc_assessment"

  /** `not st.session_state.current_report_id`: no id yet, or the empty one. */
  predicate IdUnset(id: Option<string>) {
    id.None? || id.value == ""
  }

  /** `report_data.get("child_name", "Unknown")`. */
  function ChildName(data: Dict): (r: string)
    ensures "child_name" !in Keys(data) ==> r == "Unknown"
  {
    GetOr(data, "child_name", "Unknown")
  }

  /** The fallback name is used only when the key is missing: a present key, even with an empty
      value, gives its own value. */
  lemma ChildNameOfPresentKey(data: Dict, name: string)
    requires UniqueKeys(data) && Entry("child_name", name) in data
    ensures ChildName(data) == name
  {
    GetUnique(data, "child_name", name);
    var i := IndexOf(data, "child_name");
    assert Entry("child_name", ChildName(data)) in data;
    var j :| 0 <= j < |data| && data[j] == Entry("child_name", ChildName(data));
    var k :| 0 <= k < |data| && data[k] == Entry("child_name", name);
    assert j == k;
  }

  /** The id the wizard keeps: the session's own once set, otherwise a fresh one built from the
      merged data's child name. */
  function ReportIdFor(s: Session, data: Dict, env: Env): (id: string)
    ensures !IdUnset(s.currentReportId) ==> id == s.currentReportId.value
    ensures IdUnset(s.currentReportId) ==> |id| == 8 && IsHex(id)
  {
    if IdUnset(s.currentReportId) then GenerateReportId(ChildName(data), ReportType, env.timestamp, env.md5)
    else s.currentReportId.value
  }

  /** save_and_navigate. */
  function SaveAndNavigate(s: Session, sectionData: Dict, direction: Direction, db: Db, env: Env): (o: Outcome)
    // the answers are merged on every path, and the id is set and never replaced
    ensures o.session.reportData == Update(s.reportData, sectionData)
    ensures o.session.currentReportId.Some? && !IdUnset(o.session.currentReportId)
    ensures !IdUnset(s.currentReportId) ==> o.session.currentReportId == s.currentReportId
    // a fresh id is minted from the merged answers' child name, not the earlier ones
    ensures IdUnset(s.currentReportId) ==>
      o.session.currentReportId.value == GenerateReportId(ChildName(o.session.reportData), ReportType, env.timestamp, env.md5)
    // moving touches only the cursor
    ensures direction == Next ==> o.session.currentSection == s.currentSection + 1 && o.db == db && o.effects == []
    ensures direction == Previous ==> o.session.currentSection == s.currentSection - 1 && o.db == db && o.effects == []
    ensures direction in {Next, Previous} ==>
      o.session.reportMode == s.reportMode && o.session.generatedReport == s.generatedReport
    // saving does not move the cursor
    ensures direction in {SaveExit, GenerateReport} ==> o.session.currentSection == s.currentSection
    ensures direction == SaveExit ==>
      o.effects == [Saved(o.session.currentReportId.value, false)] && o.session.reportMode.None?
      && o.session.generatedReport == s.generatedReport
    ensures direction == GenerateReport ==>
      o.effects == [Saved(o.session.currentReportId.value, true), GenerationRequested(FormatNotes(o.session.reportData))]
      && o.session.reportMode == s.reportMode
      && o.session.generatedReport == Some(env.generate(FormatNotes(o.session.reportData)))
    ensures Valid(db) ==> Valid(o.db)
  {
    var data := Update(s.reportData, sectionData);
    var id := ReportIdFor(s, data, env);
    var named := s.(reportData := data, currentReportId := Some(id));
    match direction
    case Next =>
      Outcome(named.(currentSection := s.currentSection + 1), db, [])
    case Previous =>
      Outcome(named.(currentSection := s.currentSection - 1), db, [])
    case SaveExit =>
      var db' := SaveReport(db, id, ReportType, ChildName(data), data, s.currentSection, false, env.elapsed).0;
      Outcome(named.(reportMode := None), db', [Saved(id, false)])
    case GenerateReport =>
      var db' := SaveReport(db, id, ReportType, ChildName(data), data, s.currentSection, true, env.elapsed).0;
      var notes := FormatNotes(data);
      Outcome(named.(generatedReport := Some(env.generate(notes))), db', [Saved(id, true), GenerationRequested(notes)])
  }

  /** After any button, each answer is the section's when the section has the key, and the
      earlier one otherwise. */
  lemma MergeOverwrites(s: Session, sectionData: Dict, direction: Direction, db: Db, env: Env, key: string)
    requires UniqueKeys(sectionData)
    ensures var data := SaveAndNavigate(s, sectionData, direction, db, env).session.reportData;
      Get(data, key) == if key in Keys(sectionData) then Get(sectionData, key) else Get(s.reportData, key)
  {
    UpdateGet(s.reportData, sectionData, key);
  }

  /** What a save writes: the row under the session's id holds the merged answers, the section
      the user is on and the completion flag of the button, and no other report changes. */
  lemma SaveWritesSession(s: Session, sectionData: Dict, direction: Direction, db: Db, env: Env, other: string)
    requires direction in {SaveExit, GenerateReport}
    ensures var o := SaveAndNavigate(s, sectionData, direction, db, env);
      var id := o.session.currentReportId.value;
      var r := LoadReport(o.db, id);
      r.Some? && r.value.data == o.session.reportData && r.value.currentSection == s.currentSection
      && r.value.isCompleted == (direction == GenerateReport)
      && (LoadReport(db, id).None? ==> r.value.reportType == ReportType && r.value.childName == ChildName(o.session.reportData))
      && (other != id ==> LoadReport(o.db, other) == LoadReport(db, other))
  {
    var data := Update(s.reportData, sectionData);
    var id := ReportIdFor(s, data, env);
    var completed := direction == GenerateReport;
    LoadAfterSave(db, id, ReportType, ChildName(data), data, s.currentSection, completed, env.elapsed);
    if other != id {
      SaveKeepsOthers(db, id, ReportType, ChildName(data), data, s.currentSection, completed, env.elapsed, other);
    }
  }

  /** Once a report has an id, no button changes it, however many are pressed. */
  lemma {:induction false} IdIsStable(s: Session, clicks: seq<Click>, db: Db)
    requires !IdUnset(s.currentReportId)
    ensures Run(s, db, clicks).session.currentReportId == s.currentReportId
    decreases |clicks|
  {
    if |clicks| > 0 {
      var o := SaveAndNavigate(s, clicks[0].sectionData, clicks[0].direction, db, clicks[0].env);
      IdIsStable(o.session, clicks[1..], o.db);
    }
  }

  // ---------------------------------------------------------------------------
  // The navigation buttons

  /** The buttons render_navigation_buttons makes pressable: Previous past the first section;
      Next before the last one and Generate on it; Save & Exit always. */
  function Offered(currentSection: int, totalSections: int): (r: set<Direction>)
    ensures Previous in r <==> currentSection > 0
    ensures Next in r <==> currentSection < totalSections - 1
    ensures GenerateReport in r <==> currentSection >= totalSections - 1
    ensures SaveExit in r
    ensures Next in r <==> GenerateReport !in r
  {
    (if currentSection > 0 then {Previous} else {})
    + (if currentSection < totalSections - 1 then {Next} else {GenerateReport})
    + {SaveExit}
  }

  /** One press of a button with the section's answers, in its environment. */
  datatype Click = Click(sectionData: Dict, direction: Direction, env: Env)

  /** A sequence of presses, one after the other. */
  function Run(s: Session, db: Db, clicks: seq<Click>): (o: Outcome)
    ensures Valid(db) ==> Valid(o.db)
    decreases |clicks|
  {
    if |clicks| == 0 then Outcome(s, db, [])
    else
      var o := SaveAndNavigate(s, clicks[0].sectionData, clicks[0].direction, db, clicks[0].env);
      var rest := Run(o.session, o.db, clicks[1..]);
      Outcome(rest.session, rest.db, o.effects + rest.effects)
  }

  /** Every press in the run was of a button the page offered at that moment. */
  predicate AllOffered(s: Session, db: Db, clicks: seq<Click>, totalSections: int)
    decreases |clicks|
  {
    |clicks| == 0 ||
    (clicks[0].direction in Offered(s.currentSection, totalSections)
     && var o := SaveAndNavigate(s, clicks[0].sectionData, clicks[0].direction, db, clicks[0].env);
     AllOffered(o.session, o.db, clicks[1..], totalSections))
  }

  /** One offered press keeps the cursor on a section. */
  lemma OfferedStepInBounds(s: Session, click: Click, db: Db, totalSections: int)
    requires 0 <= s.currentSection < totalSections
    requires click.direction in Offered(s.currentSection, totalSections)
    ensures var o := SaveAndNavigate(s, click.sectionData, click.direction, db, click.env);
      0 <= o.session.currentSection < totalSections
  {
  }

  /** Pressing only offered buttons, the cursor never leaves `[0, totalSections)`. */
  lemma {:induction false} OfferedRunInBounds(s: Session, db: Db, clicks: seq<Click>, totalSections: int)
    requires 0 <= s.currentSection < totalSections
    requires AllOffered(s, db, clicks, totalSections)
    ensures 0 <= Run(s, db, clicks).session.currentSection < totalSections
    decreases |clicks|
  {
    if |clicks| > 0 {
      OfferedStepInBounds(s, clicks[0], db, totalSections);
      var o := SaveAndNavigate(s, clicks[0].sectionData, clicks[0].direction, db, clicks[0].env);
      OfferedRunInBounds(o.session, o.db, clicks[1..], totalSections);
    }
  }

  /** A run of Next presses only advances the cursor, one section per press, and writes nothing. */
  lemma {:induction false} NextRunAdvances(s: Session, db: Db, clicks: seq<Click>)
    requires forall i :: 0 <= i < |clicks| ==> clicks[i].direction == Next
    ensures Run(s, db, clicks).session.currentSection == s.currentSection + |clicks|
    ensures Run(s, db, clicks).effects == []
    ensures Run(s, db, clicks).db == db
    decreases |clicks|
  {
    if |clicks| > 0 {
      var o := SaveAndNavigate(s, clicks[0].sectionData, clicks[0].direction, db, clicks[0].env);
      NextRunAdvances(o.session, o.db, clicks[1..]);
    }
  }
}
