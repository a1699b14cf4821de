/** Password validation of `day4.rs`: the digits of a candidate, zero-padded
    to at least six, the non-decreasing check, the two "double digit" checks,
    and the counts of valid candidates over an inclusive range read from
    "start-end". */
module Password {
  import opened Maybe

  // ---------------------------------------------------------------------------
  // Digits
  // ---------------------------------------------------------------------------

  /** The number a sequence of decimal digits denotes, most significant first. */
  function ValueOf(ds: seq<nat>): nat
  {
    if |ds| == 0 then 0 else ValueOf(ds[..|ds| - 1]) * 10 + ds[|ds| - 1]
  }

  predicate AllDigits(ds: seq<nat>)
  {
    forall i :: 0 <= i < |ds| ==> ds[i] <= 9
  }

  /** The shortest decimal representation of `x`, most significant first. */
  function DecimalDigits(x: nat): (ds: seq<nat>)
    ensures |ds| >= 1 && AllDigits(ds)
    ensures ValueOf(ds) == x
    ensures |ds| > 1 ==> ds[0] != 0
  {
    if x < 10 then [x]
    else
      var ds := DecimalDigits(x / 10) + [x % 10];
      assert ds[..|ds| - 1] == DecimalDigits(x / 10);
      ds
  }

  /** A digit sequence without a leading zero is the decimal representation
      of the number it denotes: `DecimalDigits` inverts `ValueOf`. */
  lemma {:induction false} DecimalDigitsOfValue(ds: seq<nat>)
    requires |ds| >= 1 && AllDigits(ds)
    requires |ds| > 1 ==> ds[0] != 0
    ensures DecimalDigits(ValueOf(ds)) == ds
    decreases |ds|
  {
    if |ds| > 1 {
      var front, last := ds[..|ds| - 1], ds[|ds| - 1];
      assert front[0] == ds[0];
      ValueOfLeading(front);
      DecimalDigitsOfValue(front);
      var v := ValueOf(ds);
      assert v == ValueOf(front) * 10 + last;
      assert v / 10 == ValueOf(front) && v % 10 == last;
      assert ds == front + [last];
    }
  }

  /** A digit sequence whose first digit is not zero denotes at least
      10^(|ds| - 1), so at least 10 when it has two digits or more. */
  lemma {:induction false} ValueOfLeading(ds: seq<nat>)
    requires |ds| >= 1 && ds[0] != 0
    ensures ValueOf(ds) >= 1
    ensures |ds| > 1 ==> ValueOf(ds) >= 10
    decreases |ds|
  {
    if |ds| > 1 {
      var front := ds[..|ds| - 1];
      assert front[0] == ds[0];
      ValueOfLeading(front);
    }
  }

  /** Appending a digit shifts the value one decimal place. */
  lemma ValueOfAppend(ds: seq<nat>, d: nat)
    ensures ValueOf(ds + [d]) == ValueOf(ds) * 10 + d
  {
    assert (ds + [d])[..|ds|] == ds;
  }

  /** The value of three digits, written out. */
  lemma ValueOfThree(a: nat, b: nat, c: nat)
    ensures ValueOf([a, b, c]) == a * 100 + b * 10 + c
  {
    assert ValueOf([a]) == a by { ValueOfAppend([], a); }
    ValueOfAppend([a], b);
    assert [a] + [b] == [a, b];
    ValueOfAppend([a, b], c);
    assert [a, b] + [c] == [a, b, c];
  }

  /** The value of six digits, written out. */
  lemma ValueOfSix(a: nat, b: nat, c: nat, d: nat, e: nat, f: nat)
    ensures ValueOf([a, b, c, d, e, f]) == a * 100000 + b * 10000 + c * 1000 + d * 100 + e * 10 + f
  {
    assert ValueOf([a]) == a by { ValueOfAppend([], a); }
    ValueOfAppend([a], b);
    assert [a] + [b] == [a, b];
    ValueOfAppend([a, b], c);
    assert [a, b] + [c] == [a, b, c];
    ValueOfAppend([a, b, c], d);
    assert [a, b, c] + [d] == [a, b, c, d];
    ValueOfAppend([a, b, c, d], e);
    assert [a, b, c, d] + [e] == [a, b, c, d, e];
    ValueOfAppend([a, b, c, d, e], f);
    assert [a, b, c, d, e] + [f] == [a, b, c, d, e, f];
  }

  /** A leading zero does not change the value. */
  lemma {:induction false} LeadingZero(ds: seq<nat>)
    ensures ValueOf([0] + ds) == ValueOf(ds)
  {
    if |ds| > 0 {
      assert ([0] + ds)[..|ds|] == [0] + ds[..|ds| - 1];
      LeadingZero(ds[..|ds| - 1]);
    }
  }

  /** `n` zeros. */
  function Zeros(n: nat): (z: seq<nat>)
    ensures |z| == n && forall i :: 0 <= i < n ==> z[i] == 0
  {
    seq(n, _ => 0)
  }

  /** Leading zeros do not change the value. */
  lemma {:induction false} LeadingZeros(n: nat, ds: seq<nat>)
    ensures ValueOf(Zeros(n) + ds) == ValueOf(ds)
  {
    if n == 0 {
      assert Zeros(n) + ds == ds;
    } else {
      LeadingZeros(n - 1, ds);
      LeadingZero(Zeros(n - 1) + ds);
      assert Zeros(n) + ds == [0] + (Zeros(n - 1) + ds);
    }
  }

  /** Left-pads with zeros to six digits, as `format!("{:06}")` does. */
  function PadTo6(ds: seq<nat>): (r: seq<nat>)
    requires AllDigits(ds)
    ensures |r| == if |ds| < 6 then 6 else |ds|
    ensures AllDigits(r) && ValueOf(r) == ValueOf(ds)
    ensures r[|r| - |ds|..] == ds
    ensures forall i :: 0 <= i < |r| - |ds| ==> r[i] == 0
  {
    if |ds| < 6 then
      LeadingZeros(6 - |ds|, ds);
      Zeros(6 - |ds|) + ds
    else ds
  }

  /** The digits of `x`, zero-padded to at least six: a sequence of decimal
      digits that denotes `x`, exactly six long unless `x` needs more, and
      then without a leading zero. */
  function Digits(x: nat): (ds: seq<nat>)
    ensures |ds| >= 6 && AllDigits(ds)
    ensures ValueOf(ds) == x
    ensures |ds| > 6 ==> ds[0] != 0
  {
    PadTo6(DecimalDigits(x))
  }

  /** A representation of at most six digits without a leading zero comes
      back from `Digits` padded with zeros. */
  lemma ShortDigits(ds: seq<nat>)
    requires 1 <= |ds| <= 6 && AllDigits(ds)
    requires |ds| > 1 ==> ds[0] != 0
    ensures Digits(ValueOf(ds)) == Zeros(6 - |ds|) + ds
  {
    DecimalDigitsOfValue(ds);
  }

  lemma DigitsExample(x: nat)
    requires x == 123
    ensures Digits(x) == [0, 0, 0, 1, 2, 3]
  {
    var ds := [1, 2, 3];
    ValueOfThree(1, 2, 3);
    assert ValueOf(ds) == x;
    assert Digits(x) == Zeros(3) + ds by { ShortDigits(ds); }
    var z := Zeros(3);
    assert z == [0, 0, 0] by { assert z[0] == z[1] == z[2] == 0; }
    assert [0, 0, 0] + ds == [0, 0, 0, 1, 2, 3];
  }

  // ---------------------------------------------------------------------------
  // The checks
  // ---------------------------------------------------------------------------

  /** Every digit is at most every later digit. */
  predicate Sorted(ds: seq<nat>)
  {
    forall i, j :: 0 <= i <= j < |ds| ==> ds[i] <= ds[j]
  }

  /** Sortedness peels off the front: a sequence is sorted exactly when its
      first two digits are in order and its tail is sorted. */
  lemma SortedCons(ds: seq<nat>)
    requires |ds| >= 2
    ensures Sorted(ds) <==> ds[0] <= ds[1] && Sorted(ds[1..])
  {
    if ds[0] <= ds[1] && Sorted(ds[1..]) {
      forall i, j | 0 <= i <= j < |ds|
        ensures ds[i] <= ds[j]
      {
        if i > 0 {
          assert ds[1..][i - 1] <= ds[1..][j - 1];
        } else if j > 0 {
          assert ds[1..][0] <= ds[1..][j - 1];
        }
      }
    }
    if Sorted(ds) {
      forall i, j | 0 <= i <= j < |ds[1..]|
        ensures ds[1..][i] <= ds[1..][j]
      {
        assert ds[i + 1] <= ds[j + 1];
      }
    }
  }

  /** `increasing`: every window of two adjacent digits is non-decreasing,
      checked from the front; the windowed check is exactly sortedness. */
  predicate Increasing(ds: seq<nat>): (b: bool)
    ensures b <==> Sorted(ds)
  {
    if |ds| < 2 then true
    else
      SortedCons(ds);
      ds[0] <= ds[1] && Increasing(ds[1..])
  }

  /** One descending window is enough to fail the check. */
  lemma DescentIsNotIncreasing(ds: seq<nat>, i: nat)
    requires i + 1 < |ds| && ds[i] > ds[i + 1]
    ensures !Increasing(ds)
  {
    assert !Sorted(ds);
  }

  lemma IncreasingExamples()
    ensures Increasing([1, 1, 1, 1])
    ensures Increasing([0, 1, 1])
    ensures !Increasing([2, 2, 3, 4, 5, 0])
  {
    assert [2, 2, 3, 4, 5, 0][4] > [2, 2, 3, 4, 5, 0][5];
  }

  /** Some digit value occurs twice, anywhere in the sequence. */
  predicate HasRepeat(ds: seq<nat>)
  {
    exists i, j :: 0 <= i < j < |ds| && ds[i] == ds[j]
  }

  /** Some adjacent pair of digits is equal. */
  predicate HasAdjacentPair(ds: seq<nat>)
  {
    exists i, j :: 0 <= i < |ds| && 0 <= j < |ds| && j == i + 1 && ds[i] == ds[j]
  }

  /** `has_doubles` does not look at adjacency, yet on a non-decreasing
      sequence a repeated digit is always an adjacent pair: the digits between
      two equal ones are squeezed to the same value. */
  lemma SortedRepeatIsAdjacent(ds: seq<nat>)
    requires Increasing(ds)
    ensures HasRepeat(ds) <==> HasAdjacentPair(ds)
  {
    if HasRepeat(ds) {
      var i, j :| 0 <= i < j < |ds| && ds[i] == ds[j];
      assert ds[i] <= ds[i + 1] <= ds[j];
      assert 0 <= i < |ds| && 0 <= i + 1 < |ds| && ds[i] == ds[i + 1];
    }
  }

  lemma NewDigitKeepsNoRepeat(ds: seq<nat>, d: nat)
    requires !HasRepeat(ds) && d !in ds
    ensures !HasRepeat(ds + [d])
  {
  }

  /** `has_doubles`: counts each digit as it is met and answers true as soon as
      one has been seen twice. */
  method HasDoubles(ds: seq<nat>) returns (b: bool)
    requires AllDigits(ds)
    ensures b <==> HasRepeat(ds)
  {
    var counts := seq(10, _ => 0);
    for k := 0 to |ds|
      invariant |counts| == 10
      invariant forall d :: 0 <= d < 10 ==> counts[d] <= 1
      invariant forall d :: 0 <= d < 10 ==> (counts[d] == 1 <==> d in ds[..k])
      invariant !HasRepeat(ds[..k])
    {
      var d := ds[k];
      if counts[d] == 1 {
        var i :| 0 <= i < k && ds[..k][i] == d;
        assert 0 <= i < k < |ds| && ds[i] == ds[k];
        return true;
      }
      assert ds[..k + 1] == ds[..k] + [d];
      NewDigitKeepsNoRepeat(ds[..k], d);
      counts := counts[d := 1];
      forall e | 0 <= e < 10
        ensures counts[e] == 1 <==> e in ds[..k + 1]
      {
        assert e in ds[..k + 1] <==> e in ds[..k] || e == d;
      }
    }
    assert ds[..|ds|] == ds;
    return false;
  }

  /** Some digit value occurs exactly twice. */
  predicate HasExactDouble(ds: seq<nat>)
  {
    exists d :: 0 <= d < 10 && multiset(ds)[d] == 2
  }

  /** `has_exact_double`: counts every digit, then looks for a count of two. */
  method HasExactDoubleMethod(ds: seq<nat>) returns (b: bool)
    requires AllDigits(ds)
    ensures b <==> HasExactDouble(ds)
  {
    var counts := seq(10, _ => 0);
    for k := 0 to |ds|
      invariant |counts| == 10
      invariant forall d :: 0 <= d < 10 ==> counts[d] == multiset(ds[..k])[d]
    {
      var d := ds[k];
      counts := counts[d := counts[d] + 1];
      assert ds[..k + 1] == ds[..k] + [d];
    }
    assert ds[..|ds|] == ds;
    b := false;
    for d := 0 to 10
      invariant b <==> exists e :: 0 <= e < d && multiset(ds)[e] == 2
    {
      if counts[d] == 2 {
        b := true;
      }
    }
  }

  lemma ExactDoubleExamples()
    ensures HasExactDouble([1, 1, 2, 2, 3, 3])
    ensures !HasExactDouble([1, 2, 3, 4, 4, 4])
    ensures HasExactDouble([1, 1, 1, 1, 2, 2])
  {
    assert multiset([1, 1, 2, 2, 3, 3])[1] == 2;
    assert multiset([1, 1, 1, 1, 2, 2])[2] == 2;
    var m := multiset([1, 2, 3, 4, 4, 4]);
    assert m == multiset{1, 2, 3, 4, 4, 4};
    forall d | 0 <= d < 10
      ensures m[d] != 2
    {
    }
  }

  /** An exact double is in particular a repeated digit. */
  lemma {:induction false} ExactDoubleIsRepeat(ds: seq<nat>, d: nat)
    requires multiset(ds)[d] >= 2
    ensures HasRepeat(ds)
  {
    assert ds == [ds[0]] + ds[1..];
    if ds[0] == d {
      assert d in multiset(ds[1..]);
      var j :| 0 <= j < |ds[1..]| && ds[1..][j] == d;
      assert 0 < j + 1 < |ds| && ds[0] == ds[j + 1];
    } else {
      ExactDoubleIsRepeat(ds[1..], d);
      var i, j :| 0 <= i < j < |ds[1..]| && ds[1..][i] == ds[1..][j];
      assert 0 <= i + 1 < j + 1 < |ds| && ds[i + 1] == ds[j + 1];
    }
  }

  // ---------------------------------------------------------------------------
  // Validity and counting over a range
  // ---------------------------------------------------------------------------

  /** `valid`: the digits never decrease and some digit repeats (what
      `has_doubles` computes, by `HasDoubles`); that is, the padded digits are
      sorted and two adjacent ones are equal. */
  predicate Valid(x: nat): (b: bool)
    ensures b <==> Sorted(Digits(x)) && HasAdjacentPair(Digits(x))
  {
    var ds := Digits(x);
    if Increasing(ds) then
      SortedRepeatIsAdjacent(ds);
      HasRepeat(ds)
    else false
  }

  /** The stricter rule of the second count: the digits never decrease and
      some digit occurs exactly twice.  Every candidate it accepts, the first
      rule accepts too. */
  predicate Valider(x: nat): (b: bool)
    ensures b <==> Sorted(Digits(x)) && HasExactDouble(Digits(x))
    ensures b ==> Valid(x)
  {
    var ds := Digits(x);
    if Increasing(ds) && HasExactDouble(ds) then
      var d :| 0 <= d < 10 && multiset(ds)[d] == 2;
      ExactDoubleIsRepeat(ds, d);
      true
    else false
  }

  /** Six digits with a non-zero lead are their own `Digits`. */
  lemma SixDigits(ds: seq<nat>)
    requires |ds| == 6 && AllDigits(ds) && ds[0] != 0
    ensures Digits(ValueOf(ds)) == ds
  {
    DecimalDigitsOfValue(ds);
  }

  // The examples take the candidate as a parameter fixed by `requires`, so
  // that the verifier reasons from the digit lemmas instead of evaluating
  // the digit functions on a literal.

  /** `Valid` read off a known digit sequence, keeping the digit functions
      folded. */
  lemma ValidByDigits(x: nat, ds: seq<nat>)
    requires Digits(x) == ds && Sorted(ds) && HasAdjacentPair(ds)
    ensures Valid(x)
  {
  }

  lemma ValidExample111111(x: nat)
    requires x == 111111
    ensures Valid(x)
  {
    var ds := [1, 1, 1, 1, 1, 1];
    ValueOfSix(1, 1, 1, 1, 1, 1);
    SixDigits(ds);
    assert Digits(x) == ds;
    assert Sorted(ds);
    assert HasAdjacentPair(ds) by { assert ds[0] == ds[1]; }
  }

  /** A five-digit representation comes back from `Digits` behind one zero. */
  lemma FiveDigits(ds: seq<nat>)
    requires |ds| == 5 && AllDigits(ds) && ds[0] != 0
    ensures Digits(ValueOf(ds)) == [0] + ds
  {
    ShortDigits(ds);
    var z := Zeros(1);
    assert z == [0] by { assert z[0] == 0; }
  }

  lemma DigitsOf11111(x: nat)
    requires x == 11111
    ensures Digits(x) == [0, 1, 1, 1, 1, 1]
  {
    var ds := [1, 1, 1, 1, 1];
    assert [0] + ds == [0, 1, 1, 1, 1, 1];
    assert ValueOf(ds) == x by {
      ValueOfSix(0, 1, 1, 1, 1, 1);
      LeadingZero(ds);
    }
    FiveDigits(ds);
  }

  lemma ValidExample11111(x: nat)
    requires x == 11111
    ensures Valid(x)
  {
    var padded := [0, 1, 1, 1, 1, 1];
    assert Digits(x) == padded by { DigitsOf11111(x); }
    assert Sorted(padded) by { assert Increasing(padded); }
    assert HasAdjacentPair(padded) by { assert padded[1] == padded[2]; }
    ValidByDigits(x, padded);
  }

  lemma InvalidExample223450(x: nat)
    requires x == 223450
    ensures !Valid(x)
  {
    var ds := [2, 2, 3, 4, 5, 0];
    ValueOfSix(2, 2, 3, 4, 5, 0);
    SixDigits(ds);
    assert Digits(x) == ds;
    DescentIsNotIncreasing(ds, 4);
  }

  lemma InvalidExample123789(x: nat)
    requires x == 123789
    ensures !Valid(x)
  {
    var ds := [1, 2, 3, 7, 8, 9];
    ValueOfSix(1, 2, 3, 7, 8, 9);
    SixDigits(ds);
    assert Digits(x) == ds;
    assert forall i :: 0 <= i < 5 ==> ds[i] < ds[i + 1];
  }

  // ---------------------------------------------------------------------------
  // The puzzle input "start-end"
  // ---------------------------------------------------------------------------

  /** The puzzle input: an inclusive range of candidates. */
  datatype Spec = Spec(start: nat, end: nat)

  predicate IsDigitChar(c: char)
  {
    '0' <= c <= '9'
  }

  function DigitChar(d: nat): (c: char)
    requires d <= 9
    ensures IsDigitChar(c)
  {
    ('0' as int + d) as char
  }

  /** The decimal text of `n`, without sign or leading zeros. */
  function Show(n: nat): (s: string)
    ensures |s| >= 1 && forall i :: 0 <= i < |s| ==> IsDigitChar(s[i])
  {
    var ds := DecimalDigits(n);
    seq(|ds|, i requires 0 <= i < |ds| => DigitChar(ds[i]))
  }

  /** Rust's `str::parse::<usize>` without the overflow check: an optional
      '+' followed by at least one decimal digit, anything else an error. */
  function ParseNat(s: string): Option<nat>
  {
    var t := if |s| > 0 && s[0] == '+' then s[1..] else s;
    if |t| > 0 && forall i :: 0 <= i < |t| ==> IsDigitChar(t[i]) then
      Some(ValueOf(seq(|t|, i requires 0 <= i < |t| => (t[i] as int - '0' as int) as nat)))
    else None
  }

  /** Position of the first `c` in `s`, if any. */
  function IndexOf(s: string, c: char): (r: Option<nat>)
    ensures r.None? <==> c !in s
    ensures r.Some? ==> r.value < |s| && s[r.value] == c && c !in s[..r.value]
  {
    if |s| == 0 then None
    else if s[0] == c then Some(0)
    else match IndexOf(s[1..], c)
      case None => None
      case Some(i) =>
        assert s[..i + 1] == [s[0]] + s[1..][..i];
        Some(i + 1)
  }

  /** `Spec::from_str`: the text before the first '-' is the start, the text
      after it up to the next '-' (or the end) is the end; a missing '-' or a
      field that is not a number would panic and is `None` here. */
  function ParseSpec(input: string): (r: Option<Spec>)
    ensures '-' !in input ==> r == None
    ensures r.Some? ==> exists i, k :: FieldsAt(input, i, k, r.value)
  {
    match IndexOf(input, '-')
    case None => None
    case Some(i) =>
      var rest := input[i + 1..];
      var second := match IndexOf(rest, '-') case None => rest case Some(j) => rest[..j];
      var k := i + 1 + |second|;
      assert second == input[i + 1..k];
      match (ParseNat(input[..i]), ParseNat(second))
      case (Some(start), Some(end)) =>
        assert FieldsAt(input, i, k, Spec(start, end));
        Some(Spec(start, end))
      case _ => None
  }

  /** The first '-' of `input` sits at `i`, the second field runs from just
      after it to `k`, which is the end of the input or the next '-', and
      the two fields read as the bounds of `spec`. */
  predicate FieldsAt(input: string, i: int, k: int, spec: Spec)
  {
    && 0 <= i < k <= |input| && input[i] == '-' && '-' !in input[..i]
    && '-' !in input[i + 1..k] && (k == |input| || input[k] == '-')
    && ParseNat(input[..i]) == Some(spec.start)
    && ParseNat(input[i + 1..k]) == Some(spec.end)
  }

  /** A first occurrence is the one `IndexOf` finds. */
  lemma IndexOfFirst(s: string, c: char, i: nat)
    requires i < |s| && s[i] == c && c !in s[..i]
    ensures IndexOf(s, c) == Some(i)
  {
  }

  /** The second field `ParseSpec` cuts after a '-' at `i` ends at `k` when
      `k` is the next '-' or the end of the input. */
  lemma SecondField(input: string, i: nat, k: nat)
    requires i < k <= |input| && '-' !in input[i + 1..k] && (k == |input| || input[k] == '-')
    ensures var rest := input[i + 1..];
            (match IndexOf(rest, '-') case None => rest case Some(j) => rest[..j]) == input[i + 1..k]
  {
    var rest := input[i + 1..];
    if k < |input| {
      assert rest[..k - i - 1] == input[i + 1..k];
      IndexOfFirst(rest, '-', k - i - 1);
    } else {
      assert rest == input[i + 1..k];
    }
  }

  /** Conversely, whenever the two fields around the first '-' are numbers,
      `ParseSpec` returns them, whatever the form of the text ("07-9",
      "+1-2", "1-2-3"). */
  lemma ParseSpecOfFields(input: string, i: int, k: int, spec: Spec)
    requires FieldsAt(input, i, k, spec)
    ensures ParseSpec(input) == Some(spec)
  {
    IndexOfFirst(input, '-', i);
    SecondField(input, i, k);
  }

  /** Reading back the decimal text of a number gives the number. */
  lemma ParseShow(n: nat)
    ensures ParseNat(Show(n)) == Some(n)
  {
    var s := Show(n);
    var ds := DecimalDigits(n);
    assert s[0] != '+';
    assert seq(|s|, i requires 0 <= i < |s| => (s[i] as int - '0' as int) as nat) == ds;
  }

  /** Writing a range as "start-end" and parsing it gives the range back. */
  lemma ParseSpecRoundTrip(spec: Spec)
    ensures ParseSpec(Show(spec.start) + "-" + Show(spec.end)) == Some(spec)
  {
    var a, b := Show(spec.start), Show(spec.end);
    var input := a + "-" + b;
    assert '-' !in a && '-' !in b;
    assert input[..|a|] == a && input[|a|] == '-';
    assert IndexOf(input, '-') == Some(|a|);
    assert input[|a| + 1..] == b;
    assert IndexOf(b, '-') == None;
    ParseShow(spec.start);
    ParseShow(spec.end);
  }

  lemma ShowOf231832()
    ensures Show(231832) == "231832"
  {
    assert DecimalDigits(231832) == [2, 3, 1, 8, 3, 2];
  }

  lemma ShowOf767346()
    ensures Show(767346) == "767346"
  {
    assert DecimalDigits(767346) == [7, 6, 7, 3, 4, 6];
  }

  lemma ParseSpecExample()
    ensures ParseSpec("231832-767346") == Some(Spec(231832, 767346))
  {
    ShowOf231832();
    ShowOf767346();
    assert Show(231832) + "-" + Show(767346) == "231832-767346";
    ParseSpecRoundTrip(Spec(231832, 767346));
  }

  /** `valid`: the windowed check and the counting check on the digits,
      answering exactly `Valid`. */
  method CheckValid(x: nat) returns (passes: bool)
    ensures passes == Valid(x)
  {
    var ds := Digits(x);
    var doubles := HasDoubles(ds);
    passes := Increasing(ds) && doubles;
  }

  /** The filter of `count_valider`: the windowed check and the exact-double
      check on the digits, answering exactly `Valider`. */
  method CheckValider(x: nat) returns (passes: bool)
    ensures passes == Valider(x)
  {
    var ds := Digits(x);
    var exact := HasExactDoubleMethod(ds);
    passes := Increasing(ds) && exact;
  }

  /** How many candidates `y` with `start <= y < stop` a rule accepts. */
  function Count(rule: nat -> bool, start: nat, stop: nat): nat
    decreases stop
  {
    if stop <= start then 0
    else Count(rule, start, stop - 1) + (if rule(stop - 1) then 1 else 0)
  }

  /** Widening a range by one candidate adds one exactly when that candidate
      passes. */
  lemma CountStep(rule: nat -> bool, start: nat, x: nat, passes: bool)
    requires start <= x && passes == rule(x)
    ensures Count(rule, start, x + 1) == Count(rule, start, x) + (if passes then 1 else 0)
  {
  }

  /** A rule that accepts less never counts more, over any range. */
  lemma {:induction false} CountMonotone(stricter: nat -> bool, rule: nat -> bool, start: nat, stop: nat)
    requires forall y :: stricter(y) ==> rule(y)
    ensures Count(stricter, start, stop) <= Count(rule, start, stop)
    decreases stop
  {
    if stop > start {
      CountMonotone(stricter, rule, start, stop - 1);
    }
  }

  /** The second count never exceeds the first, over any range. */
  lemma ValiderCountAtMostValidCount(start: nat, stop: nat)
    ensures Count(Valider, start, stop) <= Count(Valid, start, stop)
  {
    assert forall y :: Valider(y) ==> Valid(y);
    CountMonotone(Valider, Valid, start, stop);
  }

  /** The range walk both counts share: tests every candidate of
      `start..=end` in order and counts those the rule accepts. */
  method CountRange(rule: nat -> bool, start: nat, end: nat) returns (n: nat)
    ensures n == Count(rule, start, end + 1)
    ensures n <= if end < start then 0 else end + 1 - start
  {
    n := 0;
    var x := start;
    while x <= end
      invariant start <= x && (x <= end + 1 || x == start)
      invariant n == Count(rule, start, x)
      invariant n <= x - start
      decreases end + 1 - x
    {
      var passes := rule(x);
      CountStep(rule, start, x, passes);
      if passes {
        n := n + 1;
      }
      x := x + 1;
    }
  }

  /** `count_valid`: the number of valid candidates in `start..=end`. */
  method CountValid(spec: Spec) returns (n: nat)
    ensures n == Count(Valid, spec.start, spec.end + 1)
  {
    n := CountRange(Valid, spec.start, spec.end);
  }

  /** `count_valider`: the number of candidates in `start..=end` that are
      non-decreasing and have a digit occurring exactly twice. */
  method CountValider(spec: Spec) returns (n: nat)
    ensures n == Count(Valider, spec.start, spec.end + 1)
    ensures n <= Count(Valid, spec.start, spec.end + 1)
  {
    n := CountRange(Valider, spec.start, spec.end);
    ValiderCountAtMostValidCount(spec.start, spec.end + 1);
  }
}
