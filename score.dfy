/**
 * The scorer: left-joins the predictions onto the goldstandard rows by
 * participant ID and reports the exact-match accuracy of the disease labels.
 */
module Score {
  import opened Tables

  /** A row of the joined table; a goldstandard row without a prediction has no predicted label. */
  datatype JoinedRow = JoinedRow(participantId: int, goldLabel: string, predLabel: Option<string>)

  /** The prediction rows for one participant, in predictions order. */
  function Matching(pred: seq<Row>, id: int): (m: seq<Row>)
    ensures forall r :: r in m <==> r in pred && r.participantId == id
  {
    if pred == [] then []
    else
      assert pred == [pred[0]] + pred[1..];
      (if pred[0].participantId == id then [pred[0]] else []) + Matching(pred[1..], id)
  }

  /** A participant has no predictions exactly when no prediction row carries its ID. */
  lemma MatchingEmptyIff(pred: seq<Row>, id: int)
    ensures Matching(pred, id) == [] <==> id !in Ids(pred)
  {
    var m := Matching(pred, id);
    if m != [] {
      assert m[0] in m;
      var i :| 0 <= i < |pred| && pred[i] == m[0];
      assert Ids(pred)[i] == id;
    }
    if id in Ids(pred) {
      var i :| 0 <= i < |pred| && Ids(pred)[i] == id;
      assert pred[i] in m;
    }
  }

  /** Every prediction row with the ID is kept, as often as it occurs. */
  lemma {:induction false} MatchingCount(pred: seq<Row>, id: int)
    ensures |Matching(pred, id)| == multiset(Ids(pred))[id]
  {
    if pred != [] {
      MatchingCount(pred[1..], id);
      MatchingHead(pred, id);
      IdCountHead(pred, id);
    }
  }

  /** How often an ID occurs: at the first prediction row, plus in the rest. */
  lemma IdCountHead(pred: seq<Row>, id: int)
    requires pred != []
    ensures multiset(Ids(pred))[id]
      == (if pred[0].participantId == id then 1 else 0) + multiset(Ids(pred[1..]))[id]
  {
    assert Ids(pred) == [pred[0].participantId] + Ids(pred[1..]);
  }

  /** The lookup keeps predictions order: looking up in a concatenation concatenates the lookups. */
  lemma {:induction false} MatchingAppend(a: seq<Row>, b: seq<Row>, id: int)
    ensures Matching(a + b, id) == Matching(a, id) + Matching(b, id)
  {
    if a == [] {
      assert a + b == b;
    } else {
      MatchingAppend(a[1..], b, id);
      var ab := a + b;
      assert ab[1..] == a[1..] + b && ab[0] == a[0];
      MatchingHead(ab, id);
      MatchingHead(a, id);
      var h := if a[0].participantId == id then [a[0]] else [];
      Reassociate(h, Matching(a[1..], id), Matching(b, id));
    }
  }

  /** One unfolding of the lookup at the first prediction row. */
  lemma MatchingHead(pred: seq<Row>, id: int)
    requires pred != []
    ensures Matching(pred, id)
      == (if pred[0].participantId == id then [pred[0]] else []) + Matching(pred[1..], id)
  {
  }

  lemma Reassociate<T>(x: seq<T>, y: seq<T>, z: seq<T>)
    ensures x + (y + z) == (x + y) + z
  {
  }

  /** A single prediction row is kept exactly when it carries the ID. */
  lemma MatchingOne(r: Row, id: int)
    ensures Matching([r], id) == if r.participantId == id then [r] else []
  {
    assert [r][1..] == [];
  }

  /** One joined row per prediction for `g`'s participant, carrying the predicted label. */
  function Predicted(g: Row, pred: seq<Row>): seq<JoinedRow>
  {
    if pred == [] then []
    else
      (if pred[0].participantId == g.participantId
       then [JoinedRow(g.participantId, g.diseaseName, Some(pred[0].diseaseName))] else [])
      + Predicted(g, pred[1..])
  }

  /** The joined rows one goldstandard row contributes: one per matching prediction, or one with no label. */
  function JoinRow(g: Row, pred: seq<Row>): seq<JoinedRow>
  {
    if Matching(pred, g.participantId) == [] then [JoinedRow(g.participantId, g.diseaseName, None)]
    else Predicted(g, pred)
  }

  /** `gold.join(pred.set_index("Participant_ID"))`: a left join in goldstandard order. */
  function LeftJoin(gold: seq<Row>, pred: seq<Row>): seq<JoinedRow>
  {
    Concat(gold, JoinRowsFor(pred))
  }

  function JoinRowsFor(pred: seq<Row>): Row -> seq<JoinedRow>
  {
    g => JoinRow(g, pred)
  }

  /** The rows `f` gives each goldstandard row, concatenated in goldstandard order. */
  function Concat(gold: seq<Row>, f: Row -> seq<JoinedRow>): seq<JoinedRow>
  {
    if gold == [] then []
    else Concat(gold[..|gold| - 1], f) + f(gold[|gold| - 1])
  }

  lemma {:induction false} ConcatAppend(a: seq<Row>, b: seq<Row>, f: Row -> seq<JoinedRow>)
    ensures Concat(a + b, f) == Concat(a, f) + Concat(b, f)
  {
    if b == [] {
      assert a + b == a;
    } else {
      var n := |b| - 1;
      ConcatAppend(a, b[..n], f);
      assert (a + b)[..|a + b| - 1] == a + b[..n];
      assert (a + b)[|a + b| - 1] == b[n];
    }
  }

  lemma LeftJoinSnoc(gold: seq<Row>, pred: seq<Row>)
    requires gold != []
    ensures LeftJoin(gold, pred) == LeftJoin(gold[..|gold| - 1], pred) + JoinRow(gold[|gold| - 1], pred)
  {
  }

  /**
   * Every joined row comes from a goldstandard row; its label, when present,
   * from a prediction row with the same ID; when absent, no prediction has that ID.
   */
  lemma {:induction false} JoinProvenance(gold: seq<Row>, pred: seq<Row>, r: JoinedRow)
    requires r in LeftJoin(gold, pred)
    ensures Row(r.participantId, r.goldLabel) in gold
    ensures r.predLabel.Some? ==> Row(r.participantId, r.predLabel.value) in pred
    ensures r.predLabel.None? ==> r.participantId !in Ids(pred)
  {
    var n := |gold| - 1;
    var g := gold[n];
    assert gold == gold[..n] + [g];
    if r in LeftJoin(gold[..n], pred) {
      JoinProvenance(gold[..n], pred, r);
    } else if Matching(pred, g.participantId) != [] {
      PredictedProvenance(g, pred, r);
    } else {
      MatchingEmptyIff(pred, g.participantId);
    }
  }

  lemma {:induction false} PredictedProvenance(g: Row, pred: seq<Row>, r: JoinedRow)
    requires r in Predicted(g, pred)
    ensures r.participantId == g.participantId && r.goldLabel == g.diseaseName
    ensures r.predLabel.Some? && Row(r.participantId, r.predLabel.value) in pred
  {
    var head := if pred[0].participantId == g.participantId
      then [JoinedRow(g.participantId, g.diseaseName, Some(pred[0].diseaseName))] else [];
    if r !in head {
      PredictedProvenance(g, pred[1..], r);
      assert pred == [pred[0]] + pred[1..];
    }
  }

  predicate IsCorrect(r: JoinedRow)
  {
    r.predLabel == Some(r.goldLabel)
  }

  /** The number of joined rows whose predicted label equals the goldstandard label. */
  function CountCorrect(j: seq<JoinedRow>): (c: nat)
    ensures c <= |j|
  {
    if j == [] then 0
    else CountCorrect(j[..|j| - 1]) + (if IsCorrect(j[|j| - 1]) then 1 else 0)
  }

  lemma {:induction false} CountCorrectAppend(a: seq<JoinedRow>, b: seq<JoinedRow>)
    ensures CountCorrect(a + b) == CountCorrect(a) + CountCorrect(b)
  {
    if b != [] {
      var n := |b| - 1;
      CountCorrectAppend(a, b[..n]);
      assert (a + b)[..|a + b| - 1] == a + b[..n];
    } else {
      assert a + b == a;
    }
  }

  /** `accuracy_score`: the fraction of correct joined rows; absent (NaN) when no row was joined. */
  function Accuracy(j: seq<JoinedRow>): (acc: Option<real>)
    ensures acc.None? <==> j == []
    ensures acc.Some? ==> 0.0 <= acc.value <= 1.0
    ensures acc.Some? ==> acc.value * (|j| as real) == CountCorrect(j) as real
    ensures acc.Some? ==> (acc.value == 1.0 <==> CountCorrect(j) == |j|)
  {
    if j == [] then None
    else
      var c := CountCorrect(j) as real;
      var n := |j| as real;
      assert c / n <= 1.0 by {
        assert c <= n;
      }
      assert c / n == 1.0 <==> c == n by {
        assert c / n * n == c;
      }
      Some(c / n)
  }

  /** The dictionary `score` returns. */
  datatype Scores = Scores(accuracy: Option<real>)

  /** `score`: the accuracy of the predictions over the left-joined table. */
  function Score(gold: seq<Row>, pred: seq<Row>): (s: Scores)
    ensures s.accuracy.None? <==> gold == []
    ensures s.accuracy.Some? ==> 0.0 <= s.accuracy.value <= 1.0
  {
    var j := LeftJoin(gold, pred);
    JoinedNonEmpty(gold, pred);
    Scores(Accuracy(j))
  }

  /** The JSON object written to the output file. */
  datatype ScoredResult = ScoredResult(submissionStatus: string, accuracy: Option<real>)

  /** `{"submission_status": "SCORED", **scores}`. */
  function Scored(scores: Scores): (r: ScoredResult)
    ensures r.submissionStatus == "SCORED"
    ensures r.accuracy == scores.accuracy
  {
    ScoredResult("SCORED", scores.accuracy)
  }

  /** The joined table follows the goldstandard rows: joining a concatenation concatenates the joins. */
  lemma {:induction false} LeftJoinAppend(a: seq<Row>, b: seq<Row>, pred: seq<Row>)
    ensures LeftJoin(a + b, pred) == LeftJoin(a, pred) + LeftJoin(b, pred)
  {
    ConcatAppend(a, b, JoinRowsFor(pred));
  }

  /** The predicted rows follow the matching predictions one for one. */
  lemma {:induction false} PredictedFollowsMatching(g: Row, pred: seq<Row>)
    ensures var m := Matching(pred, g.participantId);
      && |Predicted(g, pred)| == |m|
      && forall i :: 0 <= i < |m| ==>
           Predicted(g, pred)[i] == JoinedRow(g.participantId, g.diseaseName, Some(m[i].diseaseName))
  {
    if pred != [] {
      PredictedFollowsMatching(g, pred[1..]);
    }
  }

  /** Each goldstandard row contributes as many joined rows as it has predictions, and at least one. */
  lemma JoinRowSize(g: Row, pred: seq<Row>)
    ensures |JoinRow(g, pred)| == if Matching(pred, g.participantId) == [] then 1
                                  else |Matching(pred, g.participantId)|
  {
    PredictedFollowsMatching(g, pred);
  }

  /** Its correct joined rows are the predictions equal to the goldstandard row itself. */
  lemma JoinRowCorrect(g: Row, pred: seq<Row>)
    ensures CountCorrect(JoinRow(g, pred)) == multiset(pred)[g]
  {
    if Matching(pred, g.participantId) == [] {
      assert g !in pred;
    } else {
      PredictedCorrect(g, pred);
    }
  }

  lemma {:induction false} PredictedCorrect(g: Row, pred: seq<Row>)
    ensures CountCorrect(Predicted(g, pred)) == multiset(pred)[g]
  {
    if pred != [] {
      PredictedCorrect(g, pred[1..]);
      var head := if pred[0].participantId == g.participantId
        then [JoinedRow(g.participantId, g.diseaseName, Some(pred[0].diseaseName))] else [];
      CountCorrectAppend(head, Predicted(g, pred[1..]));
      assert pred == [pred[0]] + pred[1..];
      assert multiset(pred) == multiset{pred[0]} + multiset(pred[1..]);
      assert CountCorrect(head) == if pred[0] == g then 1 else 0 by {
        if head != [] {
          assert head[..0] == [];
        }
      }
    }
  }

  /** For each goldstandard row, the number of prediction rows identical to it, summed. */
  function Agreements(gold: seq<Row>, pred: seq<Row>): nat
  {
    if gold == [] then 0
    else Agreements(gold[..|gold| - 1], pred) + multiset(pred)[gold[|gold| - 1]]
  }

  /** For each goldstandard row, its number of predictions or 1 if it has none, summed. */
  function JoinedSize(gold: seq<Row>, pred: seq<Row>): nat
  {
    if gold == [] then 0
    else
      var m := Matching(pred, gold[|gold| - 1].participantId);
      JoinedSize(gold[..|gold| - 1], pred) + (if m == [] then 1 else |m|)
  }

  /** The accuracy's numerator and denominator, counted without building the joined table. */
  lemma {:induction false} LeftJoinCounts(gold: seq<Row>, pred: seq<Row>)
    ensures CountCorrect(LeftJoin(gold, pred)) == Agreements(gold, pred)
    ensures |LeftJoin(gold, pred)| == JoinedSize(gold, pred)
  {
    if gold != [] {
      var n := |gold| - 1;
      LeftJoinCounts(gold[..n], pred);
      LeftJoinSnoc(gold, pred);
      CountCorrectAppend(LeftJoin(gold[..n], pred), JoinRow(gold[n], pred));
      JoinRowCorrect(gold[n], pred);
      JoinRowSize(gold[n], pred);
    }
  }

  /** The accuracy is the number of agreeing predictions over the number of joined rows. */
  lemma ScoreFromCounts(gold: seq<Row>, pred: seq<Row>)
    requires gold != []
    ensures JoinedSize(gold, pred) >= |gold|
    ensures Score(gold, pred).accuracy
      == Some(Agreements(gold, pred) as real / JoinedSize(gold, pred) as real)
  {
    LeftJoinCounts(gold, pred);
    JoinedNonEmpty(gold, pred);
  }

  /** Every goldstandard row appears in the join, so the join is empty only for an empty goldstandard. */
  lemma {:induction false} JoinedNonEmpty(gold: seq<Row>, pred: seq<Row>)
    ensures |LeftJoin(gold, pred)| >= |gold|
  {
    if gold != [] {
      var n := |gold| - 1;
      JoinedNonEmpty(gold[..n], pred);
      JoinRowSize(gold[n], pred);
    }
  }

  /** With distinct prediction IDs there is one joined row per goldstandard row. */
  lemma {:induction false} UniqueIdsJoinOnePerRow(gold: seq<Row>, pred: seq<Row>)
    requires Distinct(Ids(pred))
    ensures |LeftJoin(gold, pred)| == |gold|
  {
    if gold != [] {
      var n := |gold| - 1;
      UniqueIdsJoinOnePerRow(gold[..n], pred);
      JoinRowSize(gold[n], pred);
      AtMostOneMatch(pred, gold[n].participantId);
    }
  }

  lemma {:induction false} AtMostOneMatch(pred: seq<Row>, id: int)
    requires Distinct(Ids(pred))
    ensures |Matching(pred, id)| <= 1
  {
    if pred != [] {
      var rest := pred[1..];
      assert Ids(rest) == Ids(pred)[1..];
      AtMostOneMatch(rest, id);
      if pred[0].participantId == id {
        assert Ids(pred)[0] !in Ids(rest);
        MatchingEmptyIff(rest, id);
      }
    }
  }

  /** A goldstandard row that no prediction covers is a mismatch in the joined table. */
  lemma UnpredictedRowIsMismatch(gold: seq<Row>, pred: seq<Row>, k: nat)
    requires k < |gold| && gold[k].participantId !in Ids(pred)
    ensures CountCorrect(LeftJoin(gold, pred)) < |LeftJoin(gold, pred)|
  {
    var pre := LeftJoin(gold[..k], pred);
    var one := JoinRow(gold[k], pred);
    var post := LeftJoin(gold[k + 1..], pred);
    UnpredictedJoinRow(gold[k], pred);
    LeftJoinAround(gold, pred, k);
    CountCorrectAppend(pre + one, post);
    CountCorrectAppend(pre, one);
  }

  /** An unpredicted goldstandard row joins to a single row without a label, which is a mismatch. */
  lemma UnpredictedJoinRow(g: Row, pred: seq<Row>)
    requires g.participantId !in Ids(pred)
    ensures JoinRow(g, pred) == [JoinedRow(g.participantId, g.diseaseName, None)]
    ensures CountCorrect(JoinRow(g, pred)) == 0
  {
    MatchingEmptyIff(pred, g.participantId);
    var one := JoinRow(g, pred);
    assert one[..0] == [];
  }

  /** The join splits around the goldstandard row at `k`. */
  lemma LeftJoinAround(gold: seq<Row>, pred: seq<Row>, k: nat)
    requires k < |gold|
    ensures LeftJoin(gold, pred)
      == LeftJoin(gold[..k], pred) + JoinRow(gold[k], pred) + LeftJoin(gold[k + 1..], pred)
  {
    var g := gold[k];
    LeftJoinSnoc([g], pred);
    assert [g][..0] == [];
    assert gold == gold[..k] + [g] + gold[k + 1..];
    LeftJoinAppend(gold[..k] + [g], gold[k + 1..], pred);
    LeftJoinAppend(gold[..k], [g], pred);
  }

  /** So the accuracy of such a submission is below 1. */
  lemma UnpredictedRowLowersAccuracy(gold: seq<Row>, pred: seq<Row>, k: nat)
    requires k < |gold| && gold[k].participantId !in Ids(pred)
    ensures Score(gold, pred).accuracy.Some? && Score(gold, pred).accuracy.value < 1.0
  {
    UnpredictedRowIsMismatch(gold, pred, k);
  }

  /** When every goldstandard row has exactly one prediction, carrying its own label, the accuracy is 1. */
  lemma {:induction false} PerfectPredictionsScoreOne(gold: seq<Row>, pred: seq<Row>)
    requires gold != []
    requires forall i :: 0 <= i < |gold| ==> Matching(pred, gold[i].participantId) == [gold[i]]
    ensures Score(gold, pred).accuracy == Some(1.0)
  {
    AllCorrect(gold, pred);
  }

  lemma {:induction false} AllCorrect(gold: seq<Row>, pred: seq<Row>)
    requires forall i :: 0 <= i < |gold| ==> Matching(pred, gold[i].participantId) == [gold[i]]
    ensures CountCorrect(LeftJoin(gold, pred)) == |LeftJoin(gold, pred)|
  {
    if gold != [] {
      var n := |gold| - 1;
      AllCorrect(gold[..n], pred);
      var g := gold[n];
      var one := JoinRow(g, pred);
      assert Matching(pred, g.participantId) == [g];
      PredictedFollowsMatching(g, pred);
      assert one == [JoinedRow(g.participantId, g.diseaseName, Some(g.diseaseName))];
      LeftJoinSnoc(gold, pred);
      assert forall i :: 0 <= i < n ==> gold[..n][i] == gold[i];
      CountCorrectAppend(LeftJoin(gold[..n], pred), one);
    }
  }

  /** Goldstandard [(1, "A"), (2, "B")] against predictions [(1, "A"), (2, "C")] scores 1/2. */
  lemma HalfCorrectExample()
    ensures Score([Row(1, "A"), Row(2, "B")], [Row(1, "A"), Row(2, "C")]) == Scores(Some(0.5))
    ensures Scored(Score([Row(1, "A"), Row(2, "B")], [Row(1, "A"), Row(2, "C")]))
      == ScoredResult("SCORED", Some(0.5))
  {
    HalfCorrectJoin();
    HalfCorrectCount();
  }

  /** Of those two joined rows, one is correct. */
  lemma HalfCorrectCount()
    ensures CountCorrect([JoinedRow(1, "A", Some("A"))] + [JoinedRow(2, "B", Some("C"))]) == 1
  {
    CountCorrectAppend([JoinedRow(1, "A", Some("A"))], [JoinedRow(2, "B", Some("C"))]);
  }

  /** The join of that example: one row per goldstandard row, each carrying its prediction's label. */
  lemma HalfCorrectJoin()
    ensures LeftJoin([Row(1, "A"), Row(2, "B")], [Row(1, "A"), Row(2, "C")])
      == [JoinedRow(1, "A", Some("A"))] + [JoinedRow(2, "B", Some("C"))]
  {
    var gold := [Row(1, "A"), Row(2, "B")];
    var pred := [Row(1, "A"), Row(2, "C")];
    assert Matching(pred, 1) == [Row(1, "A")];
    assert Matching(pred, 2) == [Row(2, "C")];
    assert JoinRow(gold[0], pred) == [JoinedRow(1, "A", Some("A"))];
    assert JoinRow(gold[1], pred) == [JoinedRow(2, "B", Some("C"))];
    assert gold[..1] == [gold[0]];
    LeftJoinSnoc(gold[..1], pred);
    assert gold[..1][..0] == [];
    LeftJoinSnoc(gold, pred);
  }
}
