/**
  The one-third oral-exam selection shared by the web page and the G04 script:
  count the present rows, take a third of them (at least one), and draw that
  many students among the present rows not chosen before.
*/
module OneThird {

  import opened Common
  import opened Sheets

  datatype ExamError =
    /** NOM, PRÉNOM or the presence column is not a column of the named sheet. */
    | MissingColumns(sheet: string, presence: Option<string>)
    /** pandas refuses to sample more rows than there are (`replace=False`). */
    | SampleLargerThanPopulation(wanted: nat, available: nat)

  /** The rows marked "Présent" in the given column, in row order. */
  function PresentRows(rows: seq<Row>, column: string): (r: seq<Row>)
    ensures |r| <= |rows|
    ensures forall x :: x in r <==> x in rows && IsPresent(x, column)
  {
    if rows == [] then []
    else (if IsPresent(rows[0], column) then [rows[0]] else []) + PresentRows(rows[1..], column)
  }

  /** The filter keeps every copy of a present row and drops every copy of the others. */
  lemma {:induction false} PresentRowsCount(rows: seq<Row>, column: string)
    ensures forall x :: multiset(PresentRows(rows, column))[x] ==
              if IsPresent(x, column) then multiset(rows)[x] else 0
  {
    if rows != [] {
      assert rows == [rows[0]] + rows[1..];
      PresentRowsCount(rows[1..], column);
    }
  }

  /** `max(1, present // 3)`: a third of the present students, rounded down, but at least one. */
  function Quota(presentCount: nat): (q: nat)
    ensures 1 <= q
    ensures presentCount < 6 ==> q == 1
    ensures 3 <= presentCount ==> 3 * q <= presentCount < 3 * q + 3
    ensures 0 < presentCount ==> q <= presentCount
  {
    if presentCount / 3 > 1 then presentCount / 3 else 1
  }

  /** The present rows whose identity has not been chosen before, in row order. */
  function Eligible(rows: seq<Row>, column: string, already: set<string>): (r: seq<Row>)
    ensures |r| <= |PresentRows(rows, column)|
    ensures forall x :: x in r <==> x in rows && IsPresent(x, column) && Identity(x) !in already
  {
    if rows == [] then []
    else
      (if IsPresent(rows[0], column) && Identity(rows[0]) !in already then [rows[0]] else [])
      + Eligible(rows[1..], column, already)
  }

  /** Eligibility keeps every copy of a present, not yet chosen row and drops every copy of the others. */
  lemma {:induction false} EligibleCount(rows: seq<Row>, column: string, already: set<string>)
    ensures forall x :: multiset(Eligible(rows, column, already))[x] ==
              if IsPresent(x, column) && Identity(x) !in already then multiset(rows)[x] else 0
  {
    if rows != [] {
      assert rows == [rows[0]] + rows[1..];
      EligibleCount(rows[1..], column, already);
    }
  }

  /** With no earlier choice every present row is eligible. */
  lemma {:induction false} EligibleFromScratch(rows: seq<Row>, column: string)
    ensures Eligible(rows, column, {}) == PresentRows(rows, column)
  {
    if rows != [] {
      EligibleFromScratch(rows[1..], column);
    }
  }

  /** Once every present identity has been chosen, nobody is eligible. */
  lemma {:induction false} NobodyLeft(rows: seq<Row>, column: string, already: set<string>)
    requires forall r :: r in rows && IsPresent(r, column) ==> Identity(r) in already
    ensures Eligible(rows, column, already) == []
  {
    if rows != [] {
      assert forall r :: r in rows[1..] ==> r in rows;
      NobodyLeft(rows[1..], column, already);
    }
  }

  /** Eligibility keeps only some rows, so distinct identities stay distinct. */
  lemma {:induction false} EligibleKeepsUnique(rows: seq<Row>, column: string, already: set<string>)
    requires UniqueIdentities(rows)
    ensures UniqueIdentities(Eligible(rows, column, already))
  {
    if rows != [] {
      var tail := rows[1..];
      assert UniqueIdentities(tail) by {
        forall i, j | 0 <= i < j < |tail| ensures Identity(tail[i]) != Identity(tail[j]) {
          assert tail[i] == rows[i + 1] && tail[j] == rows[j + 1];
        }
      }
      EligibleKeepsUnique(tail, column, already);
      var rest := Eligible(tail, column, already);
      forall x | x in rest ensures Identity(x) != Identity(rows[0]) {
        var k :| 0 <= k < |tail| && tail[k] == x;
        assert tail[k] == rows[k + 1];
      }
    }
  }

  /**
    The random draw of pandas' `DataFrame.sample`, given as a parameter: an
    ordering of the m eligible positions, of which the sample takes the first n.
  */
  predicate IsOrdering(order: seq<nat>, m: nat)
  {
    |order| == m && (forall j :: 0 <= j < m ==> order[j] < m) && Distinct(order)
  }

  /** The identities of the first n rows of the ordering, in draw order. */
  function Sample(eligible: seq<Row>, order: seq<nat>, n: nat): (ids: seq<string>)
    requires IsOrdering(order, |eligible|) && n <= |eligible|
    ensures |ids| == n
    ensures forall j :: 0 <= j < n ==> ids[j] == Identity(eligible[order[j]])
  {
    seq(n, j requires 0 <= j < n => Identity(eligible[order[j]]))
  }

  /**
    `ids` names rows at pairwise different positions of `eligible`: sampling
    without replacement never takes the same row twice.
  */
  ghost predicate DrawnFrom(ids: seq<string>, eligible: seq<Row>)
  {
    exists pos: seq<nat> :: |pos| == |ids| && Distinct(pos) &&
      forall j :: 0 <= j < |ids| ==> pos[j] < |eligible| && ids[j] == Identity(eligible[pos[j]])
  }

  /** The sample takes the rows at the first n positions of the ordering, all different. */
  lemma SampleDrawnFrom(eligible: seq<Row>, order: seq<nat>, n: nat)
    requires IsOrdering(order, |eligible|) && n <= |eligible|
    ensures DrawnFrom(Sample(eligible, order, n), eligible)
  {
    var pos := order[..n];
    assert Distinct(pos);
  }

  /** A sample from rows with distinct identities has no repeated identity. */
  lemma SampleDistinct(eligible: seq<Row>, order: seq<nat>, n: nat)
    requires IsOrdering(order, |eligible|) && n <= |eligible|
    requires UniqueIdentities(eligible)
    ensures Distinct(Sample(eligible, order, n))
    ensures |Elements(Sample(eligible, order, n))| == n
  {
    var ids := Sample(eligible, order, n);
    forall i, j | 0 <= i < j < n ensures ids[i] != ids[j] {
      var a, b := order[i], order[j];
      assert a != b;
      if a < b {
        assert Identity(eligible[a]) != Identity(eligible[b]);
      } else {
        assert Identity(eligible[b]) != Identity(eligible[a]);
      }
    }
    DistinctElementsCount(ids);
  }

  /** Every sampled identity is that of a present row not chosen before. */
  lemma SampleFromEligible(rows: seq<Row>, column: string, already: set<string>, order: seq<nat>, n: nat)
    requires IsOrdering(order, |Eligible(rows, column, already)|)
    requires n <= |Eligible(rows, column, already)|
    ensures forall x :: x in Sample(Eligible(rows, column, already), order, n) ==>
              x !in already && exists r :: r in rows && IsPresent(r, column) && Identity(r) == x
  {
  }

  /** The identities chosen so far; a missing set (Python's `None`) is the empty set. */
  function Chosen(s: SelectedSet?): set<string>
    reads s
  {
    if s == null then {} else s.members
  }

  /** The set of already selected identities, which the selector updates in place. */
  class SelectedSet {
    var members: set<string>

    constructor (members: set<string>)
      ensures this.members == members
    {
      this.members := members;
    }

    /** `set.update(ids)`. */
    method Update(ids: seq<string>)
      modifies this
      ensures members == old(members) + Elements(ids)
    {
      members := members + Elements(ids);
    }
  }
}
