/**
 * The string operations the validator's messages are built from: Python's
 * `str` of an integer and of a list of integers, `sep.join(parts)` and
 * `filter(None, parts)` on a list of strings.
 */
module Text {

  predicate IsDigit(c: char)
  {
    '0' <= c <= '9'
  }

  function DigitChar(d: nat): (c: char)
    requires d < 10
    ensures IsDigit(c) && (c as int) - ('0' as int) == d
  {
    "0123456789"[d]
  }

  /** `str(n)` for a non-negative integer: its decimal digits, most significant first. */
  function NatToDecimal(n: nat): (s: string)
    ensures |s| >= 1
    ensures forall i :: 0 <= i < |s| ==> IsDigit(s[i])
  {
    if n < 10 then [DigitChar(n)] else NatToDecimal(n / 10) + [DigitChar(n % 10)]
  }

  function DigitValue(c: char): (d: nat)
    requires IsDigit(c)
    ensures d < 10
  {
    (c as int) - ('0' as int)
  }

  /** The value of a string of decimal digits. */
  function DecimalValue(s: string): nat
    requires forall i :: 0 <= i < |s| ==> IsDigit(s[i])
  {
    if s == [] then 0
    else DecimalValue(s[..|s| - 1]) * 10 + DigitValue(s[|s| - 1])
  }

  /** Reading back the digits of `n` gives `n`. */
  lemma {:induction false} DecimalRoundTrip(n: nat)
    ensures DecimalValue(NatToDecimal(n)) == n
  {
    if n >= 10 {
      DecimalRoundTrip(n / 10);
      var s := NatToDecimal(n);
      assert s[..|s| - 1] == NatToDecimal(n / 10);
    }
  }

  /** `str(x)` for an integer: a minus sign before the digits of a negative one. */
  function IntToDecimal(x: int): (s: string)
    ensures |s| >= 1
    ensures x < 0 <==> s[0] == '-'
  {
    if x < 0 then "-" + NatToDecimal(-x) else NatToDecimal(x)
  }

  /** `sep.join(parts)`. */
  function JoinWith(sep: string, parts: seq<string>): string
  {
    if parts == [] then ""
    else if |parts| == 1 then parts[0]
    else JoinWith(sep, parts[..|parts| - 1]) + sep + parts[|parts| - 1]
  }

  function TotalLength(parts: seq<string>): nat
  {
    if parts == [] then 0 else TotalLength(parts[..|parts| - 1]) + |parts[|parts| - 1]|
  }

  /** The joined string holds every part and one separator between each two neighbours. */
  lemma {:induction false} JoinLength(sep: string, parts: seq<string>)
    requires parts != []
    ensures |JoinWith(sep, parts)| == TotalLength(parts) + (|parts| - 1) * |sep|
  {
    var n := |parts| - 1;
    if n > 0 {
      var init := parts[..n];
      JoinLength(sep, init);
      assert JoinWith(sep, parts) == JoinWith(sep, init) + sep + parts[n];
      assert TotalLength(parts) == TotalLength(init) + |parts[n]|;
      assert (n - 1) * |sep| + |sep| == n * |sep|;
    } else {
      assert parts[..0] == [];
    }
  }

  /** Joining parts that are all non-empty is empty exactly when there are no parts. */
  lemma JoinEmptyIff(sep: string, parts: seq<string>)
    requires forall i :: 0 <= i < |parts| ==> parts[i] != ""
    ensures JoinWith(sep, parts) == "" <==> parts == []
  {
    if parts != [] {
      var last := parts[|parts| - 1];
      assert last != "";
      assert |JoinWith(sep, parts)| >= |last|;
    }
  }

  /** Python's `repr` of a list of integers, for example "[3, -1]". */
  function ListRepr(xs: seq<int>): (s: string)
    ensures |s| >= 2 && s[0] == '[' && s[|s| - 1] == ']'
  {
    "[" + JoinWith(", ", seq(|xs|, i requires 0 <= i < |xs| => IntToDecimal(xs[i]))) + "]"
  }

  /** Two lists as Python prints them. */
  lemma ListReprExample()
    ensures ListRepr([]) == "[]"
    ensures ListRepr([3, -1]) == "[3, -1]"
  {
    var none: seq<int> := [];
    assert seq(|none|, i requires 0 <= i < |none| => IntToDecimal(none[i])) == [];
    var xs := [3, -1];
    assert IntToDecimal(3) == "3";
    assert IntToDecimal(-1) == "-1" by {
      assert NatToDecimal(1) == "1";
    }
    var parts := seq(|xs|, i requires 0 <= i < |xs| => IntToDecimal(xs[i]));
    assert parts[0] == "3" && parts[1] == "-1";
    assert parts == ["3", "-1"];
    assert parts[..1] == ["3"];
    assert JoinWith(", ", parts) == "3" + ", " + "-1";
  }

  /** `list(filter(None, parts))`: the non-empty parts, in order. */
  function NonEmpty(parts: seq<string>): (r: seq<string>)
    ensures forall i :: 0 <= i < |r| ==> r[i] != ""
    ensures forall p :: p in r <==> p in parts && p != ""
    ensures |r| <= |parts|
  {
    if parts == [] then []
    else
      var n := |parts| - 1;
      assert parts == parts[..n] + [parts[n]];
      NonEmpty(parts[..n]) + (if parts[n] == "" then [] else [parts[n]])
  }

  /** Filtering keeps order: the filter of a concatenation is the concatenation of the filters. */
  lemma {:induction false} NonEmptyAppend(a: seq<string>, b: seq<string>)
    ensures NonEmpty(a + b) == NonEmpty(a) + NonEmpty(b)
  {
    if b == [] {
      assert a + b == a;
    } else {
      var n := |b| - 1;
      NonEmptyAppend(a, b[..n]);
      assert (a + b)[..|a + b| - 1] == a + b[..n];
      assert (a + b)[|a + b| - 1] == b[n];
    }
  }

  /** A single part is kept exactly when it is non-empty. */
  lemma NonEmptyOne(p: string)
    ensures NonEmpty([p]) == if p == "" then [] else [p]
  {
    assert [p][..0] == [];
  }

  /** Filtering keeps a list whose parts are all non-empty as it is. */
  lemma {:induction false} NonEmptyKeepsNonEmpty(parts: seq<string>)
    requires forall i :: 0 <= i < |parts| ==> parts[i] != ""
    ensures NonEmpty(parts) == parts
  {
    if parts != [] {
      var n := |parts| - 1;
      NonEmptyKeepsNonEmpty(parts[..n]);
      assert parts == parts[..n] + [parts[n]];
    }
  }
}
