/**
  The oral-exam page: pick a sheet and a week column, draw a third of the
  present students not drawn before for that sheet, and append them to the
  single history file that holds (identity, sheet) entries for all sheets.
*/
module RandomExam {

  import opened Common
  import opened Sheets
  import opened OneThird

  const WEEK_PREFIX := "SEMAINE"

  /** The columns offered as presence columns: those whose name starts with "SEMAINE". */
  function WeekColumns(columns: seq<string>): (r: seq<string>)
    ensures |r| <= |columns|
    ensures forall c :: c in r <==> c in columns && WEEK_PREFIX <= c
  {
    if columns == [] then []
    else (if WEEK_PREFIX <= columns[0] then [columns[0]] else []) + WeekColumns(columns[1..])
  }

  /** The filter keeps column order: filtering a concatenation filters each part. */
  lemma {:induction false} WeekColumnsKeepOrder(a: seq<string>, b: seq<string>)
    ensures WeekColumns(a + b) == WeekColumns(a) + WeekColumns(b)
  {
    if a == [] {
      assert a + b == b;
    } else {
      assert (a + b)[1..] == a[1..] + b;
      WeekColumnsKeepOrder(a[1..], b);
    }
  }

  /** NOM, PRÉNOM and the chosen presence column are all columns of the sheet. */
  predicate HasRequiredColumns(sheet: Sheet, presence: Option<string>)
  {
    HasNameColumns(sheet) && presence.Some? && presence.value in sheet.columns
  }

  /**
    What the selector draws: `min(quota, |eligible|)` eligible students, or
    nobody when no present student is left.
  */
  function DrawSelection(rows: seq<Row>, column: string, already: set<string>, order: seq<nat>)
    : (ids: seq<string>)
    requires IsOrdering(order, |Eligible(rows, column, already)|)
    ensures |ids| == Min(Quota(|PresentRows(rows, column)|), |Eligible(rows, column, already)|)
    ensures ids == [] <==> Eligible(rows, column, already) == []
    ensures forall x :: x in ids ==>
              x !in already && exists r :: r in rows && IsPresent(r, column) && Identity(r) == x
    ensures DrawnFrom(ids, Eligible(rows, column, already))
    ensures UniqueIdentities(rows) ==> Distinct(ids) && |Elements(ids)| == |ids|
  {
    var eligible := Eligible(rows, column, already);
    var quota := Quota(|PresentRows(rows, column)|);
    if quota > 0 && eligible != [] then
      var n := Min(quota, |eligible|);
      SampleFromEligible(rows, column, already, order, n);
      SampleDrawnFrom(eligible, order, n);
      if UniqueIdentities(rows) then
        EligibleKeepsUnique(rows, column, already);
        SampleDistinct(eligible, order, n);
        Sample(eligible, order, n)
      else
        Sample(eligible, order, n)
    else
      assert DrawnFrom([], eligible) by { assert Distinct<nat>([]); }
      []
  }

  /**
    With no earlier draw for the sheet and someone present, exactly the quota
    of distinct students is drawn (9 present give 3).
  */
  lemma FirstDrawTakesQuota(rows: seq<Row>, column: string, order: seq<nat>)
    requires UniqueIdentities(rows)
    requires PresentRows(rows, column) != []
    requires IsOrdering(order, |PresentRows(rows, column)|)
    ensures (EligibleFromScratch(rows, column);
             |Elements(DrawSelection(rows, column, {}, order))| == Quota(|PresentRows(rows, column)|))
  {
    EligibleFromScratch(rows, column);
  }

  /**
    `load_students_from_excel` of the page: check the columns, then draw and add
    the drawn identities to `already` in place (a new set when none is given).
  */
  method LoadStudents(sheet: Sheet, already: SelectedSet?, presence: Option<string>, order: seq<nat>)
    returns (r: Result<seq<string>, ExamError>, updated: SelectedSet)
    requires presence.Some? ==> IsOrdering(order, |Eligible(sheet.rows, presence.value, Chosen(already))|)
    modifies already
    ensures already != null ==> updated == already
    ensures already == null ==> fresh(updated)
    ensures r.Err? <==> !HasRequiredColumns(sheet, presence)
    ensures r.Err? ==> r.error == MissingColumns(sheet.name, presence)
                       && updated.members == old(Chosen(already))
    ensures r.Ok? ==> r.value == DrawSelection(sheet.rows, presence.value, old(Chosen(already)), order)
                      && updated.members == old(Chosen(already)) + Elements(r.value)
  {
    if already == null {
      updated := new SelectedSet({});
    } else {
      updated := already;
    }
    if !HasRequiredColumns(sheet, presence) {
      return Err(MissingColumns(sheet.name, presence)), updated;
    }
    var column := presence.value;
    var eligible := Eligible(sheet.rows, column, updated.members);
    var quota := Quota(|PresentRows(sheet.rows, column)|);
    if quota > 0 && eligible != [] {
      var selected := Sample(eligible, order, Min(quota, |eligible|));
      updated.Update(selected);
      return Ok(selected), updated;
    } else {
      return Ok([]), updated;
    }
  }

  /** One line of the exam history file. */
  datatype Entry = Entry(identite: string, feuille: string)

  /** `load_history`: the stored entries, or none when the file does not exist. */
  function LoadHistory(file: Option<seq<Entry>>): seq<Entry>
  {
    if file.Some? then file.value else []
  }

  /** The identities already drawn for one sheet; entries of other sheets do not count. */
  function AlreadySelectedFor(history: seq<Entry>, sheetName: string): set<string>
  {
    set e | e in history && e.feuille == sheetName :: e.identite
  }

  /** The entries recorded for a selection, one per identity, in selection order. */
  function EntriesFor(ids: seq<string>, sheetName: string): (es: seq<Entry>)
    ensures |es| == |ids|
  {
    seq(|ids|, i requires 0 <= i < |ids| => Entry(ids[i], sheetName))
  }

  /** Recording a selection adds exactly its identities to the sheet's drawn set. */
  lemma RecordedForSheet(history: seq<Entry>, ids: seq<string>, sheetName: string)
    ensures AlreadySelectedFor(history + EntriesFor(ids, sheetName), sheetName)
            == AlreadySelectedFor(history, sheetName) + Elements(ids)
  {
    var added := EntriesFor(ids, sheetName);
    var after := history + added;
    forall x | x in Elements(ids) ensures x in AlreadySelectedFor(after, sheetName) {
      var i :| 0 <= i < |ids| && ids[i] == x;
      assert after[|history| + i] == Entry(x, sheetName);
    }
    forall x | x in AlreadySelectedFor(after, sheetName)
      ensures x in AlreadySelectedFor(history, sheetName) + Elements(ids)
    {
      var e :| e in after && e.feuille == sheetName && e.identite == x;
      if e !in history {
        var i :| 0 <= i < |added| && added[i] == e;
      }
    }
  }

  /** Recording a selection for one sheet leaves the drawn set of every other sheet as it was. */
  lemma RecordedForOtherSheet(history: seq<Entry>, ids: seq<string>, sheetName: string, other: string)
    requires other != sheetName
    ensures AlreadySelectedFor(history + EntriesFor(ids, sheetName), other)
            == AlreadySelectedFor(history, other)
  {
  }

  /** The loop that appends one `{Identité, Feuille}` entry per selected identity. */
  method RecordSelection(raw: seq<Entry>, selected: seq<string>, sheetName: string)
    returns (history: seq<Entry>)
    ensures history == raw + EntriesFor(selected, sheetName)
  {
    history := raw;
    for i := 0 to |selected|
      invariant history == raw + EntriesFor(selected[..i], sheetName)
    {
      assert EntriesFor(selected[..i + 1], sheetName) == EntriesFor(selected[..i], sheetName) + [Entry(selected[i], sheetName)];
      history := history + [Entry(selected[i], sheetName)];
    }
    assert selected[..|selected|] == selected;
  }

  /**
    The "draw" button: load the history, take the sheet's drawn set, select,
    and save the history with the new entries only when someone was selected.
    An error leaves the file as it was.
  */
  method RunSelection(file: Option<seq<Entry>>, sheet: Sheet, presence: Option<string>, order: seq<nat>)
    returns (r: Result<seq<string>, ExamError>, saved: Option<seq<Entry>>)
    requires presence.Some? ==>
               IsOrdering(order, |Eligible(sheet.rows, presence.value,
                                           AlreadySelectedFor(LoadHistory(file), sheet.name))|)
    ensures r.Err? <==> !HasRequiredColumns(sheet, presence)
    ensures r.Err? ==> r.error == MissingColumns(sheet.name, presence) && saved == file
    ensures r.Ok? ==> r.value == DrawSelection(sheet.rows, presence.value,
                                               AlreadySelectedFor(LoadHistory(file), sheet.name), order)
    ensures r.Ok? && r.value == [] ==> saved == file
    ensures r.Ok? && r.value != [] ==> saved == Some(LoadHistory(file) + EntriesFor(r.value, sheet.name))
    ensures r.Ok? ==> AlreadySelectedFor(LoadHistory(saved), sheet.name)
                      == AlreadySelectedFor(LoadHistory(file), sheet.name) + Elements(r.value)
  {
    var rawHistory := LoadHistory(file);
    var alreadySelected := new SelectedSet(AlreadySelectedFor(rawHistory, sheet.name));
    var selected;
    selected, alreadySelected := LoadStudents(sheet, alreadySelected, presence, order);
    saved := file;
    r := selected;
    if selected.Ok? && selected.value != [] {
      var history := RecordSelection(rawHistory, selected.value, sheet.name);
      saved := Some(history);
      RecordedForSheet(rawHistory, selected.value, sheet.name);
    }
  }
}
