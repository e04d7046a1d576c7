/**
 * The two-column tables both scripts read: rows of (Participant_ID, Disease_Name).
 * Reading a file is not modelled; only its outcome is (see Validate.Reasons).
 */
module Tables {

  datatype Option<+T> = None | Some(value: T)

  /** One row of a predictions or goldstandard table. */
  datatype Row = Row(participantId: int, diseaseName: string)

  /** The Participant_ID column of a table, in row order. */
  function Ids(rows: seq<Row>): (ids: seq<int>)
    ensures |ids| == |rows|
    ensures forall i :: 0 <= i < |rows| ==> ids[i] == rows[i].participantId
  {
    seq(|rows|, i requires 0 <= i < |rows| => rows[i].participantId)
  }

  /** The set of values occurring in a sequence. */
  function Elems(s: seq<int>): (e: set<int>)
    ensures forall x :: x in e <==> x in s
  {
    set x | x in s
  }

  /** No value occurs twice. */
  predicate Distinct(s: seq<int>)
  {
    forall i, j :: 0 <= i < j < |s| ==> s[i] != s[j]
  }

  lemma {:induction false} DistinctCard(s: seq<int>)
    requires Distinct(s)
    ensures |Elems(s)| == |s|
  {
    if s != [] {
      var n := |s| - 1;
      assert Distinct(s[..n]);
      DistinctCard(s[..n]);
      assert s == s[..n] + [s[n]];
      assert Elems(s) == Elems(s[..n]) + {s[n]};
      assert s[n] !in Elems(s[..n]);
    }
  }
}
