/**
 * The submission validator: checks a predictions table against the
 * goldstandard's participant IDs and reports a status and an error string.
 */
module Validate {
  import opened Tables
  import opened IdSeqs
  import opened Text

  /** Which of the three ID checks a report comes from. */
  datatype Kind = Duplicate | Missing | Unknown

  /**
   * What one check found: nothing (its message is ""), or a count and the
   * list of offending IDs that its message spells out.
   */
  datatype Report = Clear | Found(kind: Kind, count: nat, ids: seq<int>)

  function KindWord(k: Kind): string
  {
    match k
    case Duplicate => "duplicate"
    case Missing => "missing"
    case Unknown => "unknown"
  }

  /** The message a check returns; only a clear report gives the empty string. */
  function Render(r: Report): (s: string)
    ensures s == "" <==> r == Clear
  {
    match r
    case Clear => ""
    case Found(k, n, ids) =>
      "Found " + NatToDecimal(n) + " " + KindWord(k) + " participant ID(s): " + ListRepr(ids)
  }

  /** The message for a predictions file whose columns or types could not be read. */
  const InvalidColumnsMessage: string :=
    "Invalid column names and/or types found. Expecting: "
    + "{'Participant_ID': <class 'numpy.int64'>, 'Disease_Name': <class 'str'>}."

  /** Predictions IDs whose value already occurred at an earlier row, in row order. */
  function CheckDups(pred: seq<Row>): (r: Report)
    ensures r == Clear <==> Distinct(Ids(pred))
    ensures r.Found? ==> r.kind == Duplicate && r.count == |r.ids| > 0
    ensures r.Found? ==> r.count == |pred| - |Elems(Ids(pred))|
  {
    var ids := Ids(pred);
    var duplicates := DuplicateMask(ids);
    NoDuplicateIff(ids);
    CountTruePositiveIff(duplicates);
    SelectLength(ids, duplicates);
    DuplicateCount(ids);
    if true in duplicates then Found(Duplicate, CountTrue(duplicates), Select(ids, duplicates))
    else Clear
  }

  /** `Index.any()`: some entry is truthy, that is, non-zero. */
  predicate AnyNonZero(s: seq<int>)
  {
    exists x :: x in s && x != 0
  }

  /** Every ID of `xs` that `ys` does not hold is 0: what a difference with no truthy entry means. */
  predicate OnlyZeroOutside(xs: seq<int>, ys: seq<int>)
  {
    forall x :: x in xs && x !in ys ==> x == 0
  }

  /** Goldstandard IDs that no prediction row carries. */
  function CheckMissingIds(gold: seq<int>, pred: seq<Row>): (r: Report)
    ensures r == Clear <==> OnlyZeroOutside(gold, Ids(pred))
    ensures r.Found? ==> r.kind == Missing && r.count == |r.ids| && StrictlySorted(r.ids)
    ensures r.Found? ==> forall x :: x in r.ids <==> x in gold && x !in Ids(pred)
  {
    var missing := SortedDifference(gold, Ids(pred));
    if AnyNonZero(missing) then Found(Missing, |missing|, missing) else Clear
  }

  /** Prediction IDs that the goldstandard does not list. */
  function CheckUnknownIds(gold: seq<int>, pred: seq<Row>): (r: Report)
    ensures r == Clear <==> OnlyZeroOutside(Ids(pred), gold)
    ensures r.Found? ==> r.kind == Unknown && r.count == |r.ids| && StrictlySorted(r.ids)
    ensures r.Found? ==> forall x :: x in r.ids <==> x in Ids(pred) && x !in gold
  {
    var unknown := SortedDifference(Ids(pred), gold);
    if AnyNonZero(unknown) then Found(Unknown, |unknown|, unknown) else Clear
  }

  /** The reported number of missing IDs is the size of the goldstandard set minus the prediction set. */
  lemma MissingCount(gold: seq<int>, pred: seq<Row>)
    requires CheckMissingIds(gold, pred).Found?
    ensures CheckMissingIds(gold, pred).count == |Elems(gold) - Elems(Ids(pred))|
  {
    SortedDifferenceSize(gold, Ids(pred));
  }

  /** The reported number of unknown IDs is the size of the prediction set minus the goldstandard set. */
  lemma UnknownCount(gold: seq<int>, pred: seq<Row>)
    requires CheckUnknownIds(gold, pred).Found?
    ensures CheckUnknownIds(gold, pred).count == |Elems(Ids(pred)) - Elems(gold)|
  {
    SortedDifferenceSize(Ids(pred), gold);
  }

  /** No ID is reported both as missing and as unknown. */
  lemma MissingUnknownDisjoint(gold: seq<int>, pred: seq<Row>)
    ensures CheckMissingIds(gold, pred).Found? && CheckUnknownIds(gold, pred).Found? ==>
      forall x :: x in CheckMissingIds(gold, pred).ids ==> x !in CheckUnknownIds(gold, pred).ids
  {
  }

  /** When the two tables carry the same set of IDs, neither set check reports anything. */
  lemma SameIdSetsAreClear(gold: seq<int>, pred: seq<Row>)
    requires Elems(gold) == Elems(Ids(pred))
    ensures CheckMissingIds(gold, pred) == Clear
    ensures CheckUnknownIds(gold, pred) == Clear
  {
    forall x | x in gold
      ensures x in Ids(pred)
    {
      assert x in Elems(gold);
    }
    forall x | x in Ids(pred)
      ensures x in gold
    {
      assert x in Elems(Ids(pred));
    }
  }

  /**
   * `.any()` tests truthiness, so a difference holding only the ID 0 gives no
   * message: a goldstandard ID 0 that no row predicts goes unreported.
   */
  lemma MissingZeroIdIsNotReported(pred: seq<Row>)
    requires 0 !in Ids(pred)
    ensures CheckMissingIds([0], pred) == Clear
  {
  }

  /** Likewise a prediction for the unknown ID 0 alone goes unreported. */
  lemma UnknownZeroIdIsNotReported(gold: seq<int>)
    requires 0 !in gold
    ensures CheckUnknownIds(gold, [Row(0, "A")]) == Clear
  {
    assert Ids([Row(0, "A")]) == [0];
  }

  /** Beside a non-zero ID, the ID 0 is counted and listed like any other. */
  lemma ZeroIdIsListedBesideOthers()
    ensures CheckMissingIds([5, 0], []) == Found(Missing, 2, [0, 5])
  {
    var ids: seq<int> := Ids([]);
    assert ids == [];
    var ms := SortedDifference([5, 0], ids);
    assert forall x :: x in ms <==> x == 0 || x == 5;
    StrictlySortedUnique(ms, [0, 5]);
    assert AnyNonZero(ms) by {
      assert ms[1] in ms;
    }
  }

  /**
   * The list `validate` returns: one message when the typed read of the
   * predictions failed (`pred` is None), otherwise the duplicate, missing
   * and unknown messages in that order, any of them possibly "".
   */
  function Reasons(gold: seq<int>, pred: Option<seq<Row>>): (errors: seq<string>)
    ensures pred.None? ==> errors == [InvalidColumnsMessage]
    ensures pred.Some? ==> |errors| == 3
  {
    match pred
    case None => [InvalidColumnsMessage]
    case Some(rows) =>
      [Render(CheckDups(rows)), Render(CheckMissingIds(gold, rows)), Render(CheckUnknownIds(gold, rows))]
  }

  /** Each of the three entries is "" exactly when its check finds nothing. */
  lemma ReasonsEntries(gold: seq<int>, rows: seq<Row>)
    ensures var errors := Reasons(gold, Some(rows));
      && (errors[0] == "" <==> Distinct(Ids(rows)))
      && (errors[1] == "" <==> OnlyZeroOutside(gold, Ids(rows)))
      && (errors[2] == "" <==> OnlyZeroOutside(Ids(rows), gold))
  {
    var dups := CheckDups(rows);
    var missing := CheckMissingIds(gold, rows);
    var unknown := CheckUnknownIds(gold, rows);
    assert Reasons(gold, Some(rows)) == [Render(dups), Render(missing), Render(unknown)];
    RenderedEntries(dups, missing, unknown);
  }

  /** Three rendered reports: each entry is "" exactly when its report is clear. */
  lemma RenderedEntries(a: Report, b: Report, c: Report)
    ensures var e := [Render(a), Render(b), Render(c)];
      (e[0] == "" <==> a == Clear) && (e[1] == "" <==> b == Clear) && (e[2] == "" <==> c == Clear)
  {
  }

  /** `validate`: collects the messages step by step into a list. */
  method Validate(gold: seq<int>, pred: Option<seq<Row>>) returns (errors: seq<string>)
    ensures errors == Reasons(gold, pred)
  {
    errors := [];
    match pred {
      case None =>
        errors := errors + [InvalidColumnsMessage];
      case Some(rows) =>
        var dups := Render(CheckDups(rows));
        var missing := Render(CheckMissingIds(gold, rows));
        var unknown := Render(CheckUnknownIds(gold, rows));
        assert Reasons(gold, pred) == [dups, missing, unknown];
        errors := errors + [dups];
        errors := errors + [missing];
        errors := errors + [unknown];
        AppendedThree(dups, missing, unknown);
    }
  }

  /** Three appends to an empty list give the list of the three. */
  lemma AppendedThree<T>(a: T, b: T, c: T)
    ensures [] + [a] + [b] + [c] == [a, b, c]
  {
  }

  datatype Status = Validated | Invalid

  datatype Outcome = Outcome(status: Status, errors: string)

  /** The largest error string that is sent on (the character limit for e-mail). */
  const ErrorLimit: nat := 500

  /** Cuts an over-long error string to its first 496 characters followed by "...". */
  function Truncate(s: string): (t: string)
    ensures |t| <= ErrorLimit
    ensures |s| <= ErrorLimit ==> t == s
    ensures |s| > ErrorLimit ==> |t| == 499 && t[..496] == s[..496] && t[496..] == "..."
  {
    if |s| > ErrorLimit then s[..496] + "..." else s
  }

  /** Truncation keeps emptiness, and truncating twice is truncating once. */
  lemma TruncateProperties(s: string)
    ensures Truncate(s) == "" <==> s == ""
    ensures Truncate(Truncate(s)) == Truncate(s)
  {
  }

  /**
   * The status and error string of a list of messages: the non-empty ones
   * joined by newlines; INVALID iff that join is non-empty; then truncated.
   */
  function OutcomeOf(reasons: seq<string>): (o: Outcome)
    ensures o.status == Invalid <==> exists i :: 0 <= i < |reasons| && reasons[i] != ""
    ensures o.status == Validated <==> o.errors == ""
    ensures |o.errors| <= ErrorLimit
  {
    var joined := JoinWith("\n", NonEmpty(reasons));
    JoinEmptyIff("\n", NonEmpty(reasons));
    assert NonEmpty(reasons) != [] <==> exists i :: 0 <= i < |reasons| && reasons[i] != "" by {
      if NonEmpty(reasons) != [] {
        assert NonEmpty(reasons)[0] in NonEmpty(reasons);
      }
      if i :| 0 <= i < |reasons| && reasons[i] != "" {
        assert reasons[i] in reasons;
      }
    }
    Outcome(if joined != "" then Invalid else Validated, Truncate(joined))
  }

  /** The end of `main`: join, decide the status, truncate. */
  method Summarize(reasons: seq<string>) returns (status: Status, errors: string)
    ensures Outcome(status, errors) == OutcomeOf(reasons)
  {
    errors := JoinWith("\n", NonEmpty(reasons));
    status := if errors != "" then Invalid else Validated;
    if |errors| > ErrorLimit {
      errors := errors[..496] + "...";
    }
  }

  /**
   * A submission is VALIDATED exactly when it could be read, its IDs are
   * distinct, and every missing or unknown ID is 0.
   */
  lemma ValidatedIff(gold: seq<int>, pred: Option<seq<Row>>)
    ensures OutcomeOf(Reasons(gold, pred)).status == Validated <==>
      && pred.Some?
      && Distinct(Ids(pred.value))
      && OnlyZeroOutside(gold, Ids(pred.value))
      && OnlyZeroOutside(Ids(pred.value), gold)
  {
    var rs := Reasons(gold, pred);
    var passes := OutcomeOf(rs).status == Validated;
    assert passes <==> forall i :: 0 <= i < |rs| ==> rs[i] == "";
    if pred.None? {
      assert rs[0] != "";
    } else {
      ReasonsEntries(gold, pred.value);
      assert passes <==> rs[0] == "" && rs[1] == "" && rs[2] == "";
    }
  }

  /** Predictions with distinct IDs covering exactly the goldstandard IDs pass with an empty error string. */
  lemma ExactIdsValidate(gold: seq<int>, pred: seq<Row>)
    requires Distinct(Ids(pred))
    requires Elems(gold) == Elems(Ids(pred))
    ensures OutcomeOf(Reasons(gold, Some(pred))) == Outcome(Validated, "")
  {
    SameIdSetsAreClear(gold, pred);
    ValidatedIff(gold, Some(pred));
  }

  /** An unreadable predictions file is always INVALID and its message is the whole error string. */
  lemma UnreadableIsInvalid(gold: seq<int>)
    ensures OutcomeOf(Reasons(gold, None)) == Outcome(Invalid, InvalidColumnsMessage)
  {
    var rs := Reasons(gold, None);
    assert rs[0] != "";
    NonEmptyKeepsNonEmpty(rs);
  }

  /** The mask of [1, 1, 2, 3] marks only the second row, so the duplicate list is [1]. */
  lemma DuplicateMaskExample()
    ensures var ids := [1, 1, 2, 3];
      Select(ids, DuplicateMask(ids)) == [1] && CountTrue(DuplicateMask(ids)) == 1
  {
    var ids := [1, 1, 2, 3];
    assert ids[..1] == [1] && ids[..2] == [1, 1] && ids[..3] == [1, 1, 2];
    var m := DuplicateMask(ids);
    assert m == [false, true, false, false];
    assert m[..1] == [false] && m[..2] == [false, true] && m[..3] == [false, true, false];
    assert Select(ids[..1], m[..1]) == [];
    assert Select(ids[..2], m[..2]) == [1];
    assert ids[..3][..2] == ids[..2] && m[..3][..2] == m[..2];
    assert Select(ids[..3], m[..3]) == [1];
    SelectLength(ids, m);
  }

  /** Goldstandard {1, 2, 3} against rows with ID 1 twice: one duplicate ID, 1; INVALID. */
  lemma DuplicateExample()
    ensures var pred := [Row(1, "X"), Row(1, "X"), Row(2, "Y"), Row(3, "Z")];
      && CheckDups(pred) == Found(Duplicate, 1, [1])
      && CheckMissingIds([1, 2, 3], pred) == Clear
      && CheckUnknownIds([1, 2, 3], pred) == Clear
      && OutcomeOf(Reasons([1, 2, 3], Some(pred))).status == Invalid
  {
    var pred := [Row(1, "X"), Row(1, "X"), Row(2, "Y"), Row(3, "Z")];
    var ids := Ids(pred);
    assert ids == [1, 1, 2, 3];
    DuplicateMaskExample();
    assert Elems([1, 2, 3]) == Elems(ids);
    SameIdSetsAreClear([1, 2, 3], pred);
    ReasonsEntries([1, 2, 3], pred);
    assert !Distinct(ids) by {
      assert ids[0] == ids[1];
    }
  }

  /** Goldstandard {1, 2, 3} against predictions for 1 and 2: one missing ID, 3; INVALID. */
  lemma MissingExample()
    ensures var pred := [Row(1, "X"), Row(2, "Y")];
      && CheckMissingIds([1, 2, 3], pred) == Found(Missing, 1, [3])
      && OutcomeOf(Reasons([1, 2, 3], Some(pred))).status == Invalid
  {
    var pred := [Row(1, "X"), Row(2, "Y")];
    MissingExampleReport();
    ReasonsEntries([1, 2, 3], pred);
    var rs := Reasons([1, 2, 3], Some(pred));
    assert 3 in [1, 2, 3] && 3 !in Ids(pred);
    assert rs[1] != "";
  }

  /** The report alone: the difference {1, 2, 3} minus {1, 2} is the list [3]. */
  lemma MissingExampleReport()
    ensures CheckMissingIds([1, 2, 3], [Row(1, "X"), Row(2, "Y")]) == Found(Missing, 1, [3])
  {
    var pred := [Row(1, "X"), Row(2, "Y")];
    var ids := Ids(pred);
    assert ids == [1, 2];
    var ms := SortedDifference([1, 2, 3], ids);
    assert forall x :: x in ms <==> x == 3;
    StrictlySortedUnique(ms, [3]);
    assert AnyNonZero(ms) by {
      assert ms[0] in ms;
    }
  }
}
