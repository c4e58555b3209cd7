/**
  The reading-group page: load the roster of a sheet, shuffle it and split it
  round-robin into groups until the split differs from every earlier drawing
  of that sheet (at most 100 shuffles), then append it to the sheet's history.
*/
module ReadingGroup {

  import opened Common
  import opened Sheets
  import opened Shuffle
  import opened RoundRobin

  /** One drawing: the groups in order, each an ordered list of identities. */
  type Grouping = seq<seq<string>>

  const MAX_ATTEMPTS: nat := 100
  const HISTORY_BASE := "group_history_"
  const NO_RAPPORTEUR := "Aucun"

  datatype GroupError =
    | MissingNameColumns        // the sheet lacks NOM or PRÉNOM
    | UniqueGroupingNotFound    // every attempt reproduced an earlier drawing

  /** The roster of a sheet: one identity per row, in row order. */
  function LoadStudents(sheet: Sheet): (r: Result<seq<string>, GroupError>)
    ensures r.Err? <==> NOM !in sheet.columns || PRENOM !in sheet.columns
    ensures r.Err? ==> r.error == MissingNameColumns
    ensures r.Ok? ==> |r.value| == |sheet.rows|
    ensures r.Ok? ==> forall i :: 0 <= i < |sheet.rows| ==>
                        r.value[i] == sheet.rows[i].prenom + " " + sheet.rows[i].nom
  {
    if !HasNameColumns(sheet) then Err(MissingNameColumns) else Ok(Identities(sheet.rows))
  }

  /** The list of earlier drawings of one sheet, which the generator appends to. */
  class GroupHistory {
    var drawings: seq<Grouping>

    constructor (drawings: seq<Grouping>)
      ensures this.drawings == drawings
    {
      this.drawings := drawings;
    }
  }

  datatype Generation = Generated(groups: Grouping) | Exhausted

  /**
    `generate_groups`: each attempt shuffles `students` in place with the next
    draw sequence and splits it into `numGroups` groups; the first split that
    is not in the history is appended to it and returned. `attempts` counts the
    shuffles that happened.
  */
  method GenerateGroups(students: array<string>, numGroups: nat, history: GroupHistory,
                        draws: seq<seq<nat>>, maxAttempts: nat)
    returns (r: Generation, ghost attempts: nat)
    requires |draws| >= maxAttempts && AllValidDraws(draws, students.Length)
    modifies students, history
    ensures attempts <= maxAttempts
    ensures students[..] == ShuffledTimes(old(students[..]), draws, attempts)
    ensures forall t :: 0 < t < attempts ==>
              Split(ShuffledTimes(old(students[..]), draws, t), numGroups) in old(history.drawings)
    ensures r.Generated? ==>
              && 0 < attempts
              && r.groups == Split(students[..], numGroups)
              && r.groups !in old(history.drawings)
              && history.drawings == old(history.drawings) + [r.groups]
    ensures r.Exhausted? ==>
              && attempts == maxAttempts
              && (0 < maxAttempts ==> Split(students[..], numGroups) in old(history.drawings))
              && history.drawings == old(history.drawings)
  {
    ghost var roster := students[..];
    var count: nat := 0;
    while count < maxAttempts
      invariant count <= maxAttempts
      invariant history.drawings == old(history.drawings)
      invariant students[..] == ShuffledTimes(roster, draws, count)
      invariant forall t :: 0 < t <= count ==>
                  Split(ShuffledTimes(roster, draws, t), numGroups) in history.drawings
    {
      count := count + 1;
      ShuffleInPlace(students, draws[count - 1]);
      var groups := Split(students[..], numGroups);
      if groups !in history.drawings {
        history.drawings := history.drawings + [groups];
        return Generated(groups), count;
      }
    }
    return Exhausted, count;
  }

  /** The reporter shown for a group: its first member, or "Aucun" for an empty group. */
  function Rapporteur(group: seq<string>): string
  {
    if group != [] then group[0] else NO_RAPPORTEUR
  }

  /** The reporter of group i is the student at position i of the shuffled list. */
  lemma RapporteurOfGroup(s: seq<string>, k: nat, i: nat)
    requires i < k
    ensures Rapporteur(Split(s, k)[i]) == if i < |s| then s[i] else NO_RAPPORTEUR
  {
  }

  /** The history file of a sheet. */
  function HistoryPath(sheetName: string): string
  {
    HISTORY_BASE + sheetName + ".json"
  }

  /** `load_history`: the stored drawings, or none when the file does not exist. */
  function LoadHistory(files: map<string, seq<Grouping>>, path: string): seq<Grouping>
  {
    if path in files then files[path] else []
  }

  /** The history the generator starts from: empty when the reset box is ticked. */
  function PriorHistory(files: map<string, seq<Grouping>>, sheet: Sheet, reset: bool): seq<Grouping>
  {
    if reset then [] else LoadHistory(files, HistoryPath(sheet.name))
  }

  /**
    The "generate" button: load the roster, take the stored or empty history,
    generate, and save the updated history. Any error leaves the files as they were.
  */
  method GenerateForSheet(files: map<string, seq<Grouping>>, sheet: Sheet, numGroups: nat,
                          reset: bool, draws: seq<seq<nat>>)
    returns (r: Result<Grouping, GroupError>, saved: map<string, seq<Grouping>>)
    requires |draws| >= MAX_ATTEMPTS && AllValidDraws(draws, |sheet.rows|)
    ensures r.Err? ==> saved == files
    ensures r.Err? <==>
              || !HasNameColumns(sheet)
              || forall t :: 0 < t <= MAX_ATTEMPTS ==>
                   Split(ShuffledTimes(Identities(sheet.rows), draws, t), numGroups)
                     in PriorHistory(files, sheet, reset)
    ensures r.Err? ==> (r.error == MissingNameColumns <==> !HasNameColumns(sheet))
    ensures r.Ok? ==>
              && |r.value| == numGroups
              && (0 < numGroups ==> Members(r.value) == multiset(Identities(sheet.rows)))
              && r.value !in PriorHistory(files, sheet, reset)
              && saved == files[HistoryPath(sheet.name) := PriorHistory(files, sheet, reset) + [r.value]]
    ensures r.Ok? && reset ==> LoadHistory(saved, HistoryPath(sheet.name)) == [r.value]
    ensures r.Ok? ==>
              exists t :: (0 < t <= MAX_ATTEMPTS
                && r.value == Split(ShuffledTimes(Identities(sheet.rows), draws, t), numGroups)
                && forall t' :: 0 < t' < t ==>
                     Split(ShuffledTimes(Identities(sheet.rows), draws, t'), numGroups)
                       in PriorHistory(files, sheet, reset))
  {
    var students := LoadStudents(sheet);
    if students.Err? {
      return Err(students.error), files;
    }
    var ids := students.value;
    assert ids == Identities(sheet.rows);
    var path := HistoryPath(sheet.name);
    var history := new GroupHistory(PriorHistory(files, sheet, reset));
    var a := new string[|ids|](i requires 0 <= i < |ids| => ids[i]);
    assert a[..] == ids;
    var g: Generation;
    ghost var attempts: nat;
    g, attempts := GenerateGroups(a, numGroups, history, draws, MAX_ATTEMPTS);
    if g.Exhausted? {
      return Err(UniqueGroupingNotFound), files;
    }
    if 0 < numGroups {
      SplitMembers(a[..], numGroups);
    }
    r := Ok(g.groups);
    saved := files[path := history.drawings];
  }
}
