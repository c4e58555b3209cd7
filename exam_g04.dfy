/**
  The older command-line script for sheet G04: confirm the two pre-flight
  questions, load the set of identities drawn before from a JSON list, draw
  a third of the present students of week 4, and save the updated set.
*/
module ExamG04 {

  import opened Common
  import opened Sheets
  import opened OneThird
  import opened PreFlight
  import RandomExam

  const SHEET_NAME := "G04"
  const PRESENCE_COLUMN := "SEMAINE 4"

  /**
    The draw as this script writes it: the sample size is the quota itself,
    with no `min`, so pandas raises when fewer students are eligible.
  */
  function DrawSelection(rows: seq<Row>, column: string, already: set<string>, order: seq<nat>)
    : (r: Result<seq<string>, ExamError>)
    requires IsOrdering(order, |Eligible(rows, column, already)|)
    ensures var quota, eligible := Quota(|PresentRows(rows, column)|), Eligible(rows, column, already);
      && (r.Err? <==> |eligible| < quota)
      && (r.Err? ==> r.error == SampleLargerThanPopulation(quota, |eligible|))
      && (r.Ok? ==> |r.value| == quota && r.value != [])
    ensures r.Ok? ==> forall x :: x in r.value ==>
              x !in already && exists row :: row in rows && IsPresent(row, column) && Identity(row) == x
    ensures r.Ok? ==> DrawnFrom(r.value, Eligible(rows, column, already))
    ensures r.Ok? && UniqueIdentities(rows) ==> Distinct(r.value) && |Elements(r.value)| == |r.value|
  {
    var eligible := Eligible(rows, column, already);
    var quota := Quota(|PresentRows(rows, column)|);
    if quota > 0 then
      if quota > |eligible| then
        Err(SampleLargerThanPopulation(quota, |eligible|))
      else
        SampleFromEligible(rows, column, already, order, quota);
        SampleDrawnFrom(eligible, order, quota);
        if UniqueIdentities(rows) then
          EligibleKeepsUnique(rows, column, already);
          SampleDistinct(eligible, order, quota);
          Ok(Sample(eligible, order, quota))
        else
          Ok(Sample(eligible, order, quota))
    else
      Ok([])
  }

  /**
    Once every present student of the sheet has been drawn, the script fails
    instead of reporting that nobody is left, while the page's selector returns
    an empty selection.
  */
  lemma AllDrawnFails(rows: seq<Row>, column: string, already: set<string>)
    requires exists r :: r in rows && IsPresent(r, column)
    requires forall r :: r in rows && IsPresent(r, column) ==> Identity(r) in already
    ensures Eligible(rows, column, already) == []
    ensures DrawSelection(rows, column, already, [])
              == Err(SampleLargerThanPopulation(Quota(|PresentRows(rows, column)|), 0))
    ensures RandomExam.DrawSelection(rows, column, already, []) == []
  {
    NobodyLeft(rows, column, already);
  }

  /** Three present students, all drawn before: a quota of one and no eligible row. */
  lemma ExhaustedRosterFails()
    ensures var rows := [
              Row("A", "Ana", map[PRESENCE_COLUMN := PRESENT]),
              Row("B", "Bo", map[PRESENCE_COLUMN := PRESENT]),
              Row("C", "Cy", map[PRESENCE_COLUMN := PRESENT])];
            var already := {"Ana A", "Bo B", "Cy C"};
            && Eligible(rows, PRESENCE_COLUMN, already) == []
            && DrawSelection(rows, PRESENCE_COLUMN, already, []) == Err(SampleLargerThanPopulation(1, 0))
  {
    var rows := [
      Row("A", "Ana", map[PRESENCE_COLUMN := PRESENT]),
      Row("B", "Bo", map[PRESENCE_COLUMN := PRESENT]),
      Row("C", "Cy", map[PRESENCE_COLUMN := PRESENT])];
    var already := {"Ana A", "Bo B", "Cy C"};
    assert Identity(rows[0]) == "Ana A" && Identity(rows[1]) == "Bo B" && Identity(rows[2]) == "Cy C";
    assert rows[1..] == [rows[1], rows[2]] && rows[1..][1..] == [rows[2]] && rows[1..][1..][1..] == [];
    assert IsPresent(rows[0], PRESENCE_COLUMN) && IsPresent(rows[1], PRESENCE_COLUMN)
           && IsPresent(rows[2], PRESENCE_COLUMN);
    assert PresentRows(rows[1..][1..], PRESENCE_COLUMN) == [rows[2]];
    assert PresentRows(rows[1..], PRESENCE_COLUMN) == [rows[1], rows[2]];
    assert |PresentRows(rows, PRESENCE_COLUMN)| == 3;
    AllDrawnFails(rows, PRESENCE_COLUMN, already);
  }

  /**
    `load_students_from_excel` of the script: check the columns, then draw and
    add the drawn identities to `already` in place (a new set when none is given).
  */
  method LoadStudents(sheet: Sheet, already: SelectedSet?, presence: string, order: seq<nat>)
    returns (r: Result<seq<string>, ExamError>, updated: SelectedSet)
    requires IsOrdering(order, |Eligible(sheet.rows, presence, Chosen(already))|)
    modifies already
    ensures already != null ==> updated == already
    ensures already == null ==> fresh(updated)
    ensures !RandomExam.HasRequiredColumns(sheet, Some(presence)) ==>
              r == Err(MissingColumns(sheet.name, Some(presence)))
    ensures RandomExam.HasRequiredColumns(sheet, Some(presence)) ==>
              r == DrawSelection(sheet.rows, presence, old(Chosen(already)), order)
    ensures r.Err? ==> updated.members == old(Chosen(already))
    ensures r.Ok? ==> updated.members == old(Chosen(already)) + Elements(r.value)
  {
    if already == null {
      updated := new SelectedSet({});
    } else {
      updated := already;
    }
    if !RandomExam.HasRequiredColumns(sheet, Some(presence)) {
      return Err(MissingColumns(sheet.name, Some(presence))), updated;
    }
    var eligible := Eligible(sheet.rows, presence, updated.members);
    var quota := Quota(|PresentRows(sheet.rows, presence)|);
    if quota > 0 {
      if quota > |eligible| {
        return Err(SampleLargerThanPopulation(quota, |eligible|)), updated;
      }
      var selected := Sample(eligible, order, quota);
      updated.Update(selected);
      return Ok(selected), updated;
    } else {
      return Ok([]), updated;
    }
  }

  /** `load_history`: the set of the stored list, or the empty set when there is no file. */
  function LoadHistory(file: Option<seq<string>>): set<string>
  {
    if file.Some? then Elements(file.value) else {}
  }

  /** `save_history`: the set written out as a list, in whatever order the set iterates. */
  method SaveHistory(history: set<string>) returns (content: seq<string>)
    ensures LoadHistory(Some(content)) == history
    ensures Distinct(content) && |content| == |history|
  {
    content := [];
    var rest := history;
    while rest != {}
      invariant rest !! Elements(content)
      invariant rest + Elements(content) == history
      invariant Distinct(content)
      decreases rest
    {
      var x :| x in rest;
      content := content + [x];
      rest := rest - {x};
    }
    DistinctElementsCount(content);
  }

  /**
    The whole script on the G04 sheet: the pre-flight questions, then (only
    when both were confirmed) load, draw and save. An error of the draw leaves
    the file alone.
  */
  method RunScript(answers: seq<string>, file: Option<seq<string>>, sheet: Sheet, order: seq<nat>)
    returns (verdict: Verdict, r: Option<Result<seq<string>, ExamError>>, saved: Option<seq<string>>)
    requires sheet.name == SHEET_NAME
    requires IsOrdering(order, |Eligible(sheet.rows, PRESENCE_COLUMN, LoadHistory(file))|)
    ensures verdict == Proceed <==> Confirmed(answers)
    ensures verdict != Proceed ==> r == None && saved == file
    ensures verdict == Proceed ==>
              r == Some(if RandomExam.HasRequiredColumns(sheet, Some(PRESENCE_COLUMN))
                        then DrawSelection(sheet.rows, PRESENCE_COLUMN, LoadHistory(file), order)
                        else Err(MissingColumns(SHEET_NAME, Some(PRESENCE_COLUMN))))
    ensures r.Some? && r.value.Err? ==> saved == file
    ensures r.Some? && r.value.Ok? ==>
              && RandomExam.HasRequiredColumns(sheet, Some(PRESENCE_COLUMN))
              && r.value == DrawSelection(sheet.rows, PRESENCE_COLUMN, LoadHistory(file), order)
              && saved.Some? && Distinct(saved.value)
              && LoadHistory(saved) == LoadHistory(file) + Elements(r.value.value)
  {
    var consumed;
    verdict, consumed := PreExecutionQuestions(answers);
    if verdict != Proceed {
      return verdict, None, file;
    }
    var alreadySelected := new SelectedSet(LoadHistory(file));
    var selected;
    selected, alreadySelected := LoadStudents(sheet, alreadySelected, PRESENCE_COLUMN, order);
    r := Some(selected);
    saved := file;
    if selected.Ok? {
      var content := SaveHistory(alreadySelected.members);
      saved := Some(content);
    }
  }
}
