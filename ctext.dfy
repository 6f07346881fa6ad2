/**
 * The C and C++ library behaviour the engines rely on, in the "C" locale:
 * the <cctype> classifiers, `std::string::operator[]` at the end of a
 * string, and `std::stoi` (which is `strtol` in base 10 plus a range check).
 */
module CText {
  import opened Common

  predicate IsAlpha(c: char) { 'a' <= c <= 'z' || 'A' <= c <= 'Z' }

  predicate IsDigit(c: char) { '0' <= c <= '9' }

  predicate IsAlnum(c: char) { IsAlpha(c) || IsDigit(c) }

  /** `std::isspace`: blank, tab, newline, vertical tab, form feed, return. */
  predicate IsSpace(c: char) { c == ' ' || c == '\t' || c == '\n' || c == 11 as char || c == 12 as char || c == '\r' }

  /**
   * `s[i]` on a `std::string`: reading at `size()` yields the terminating
   * NUL. Reading further is undefined; the model reads NUL there as well.
   */
  function CharAt(s: string, i: nat): (c: char)
    ensures i < |s| ==> c == s[i]
    ensures |s| <= i ==> c == '\0'
  {
    if i < |s| then s[i] else '\0'
  }

  /** `std::string::find(c, from)`: the first position at or after `from` holding `c`; `None` is `npos`. */
  function FindChar(s: string, c: char, from: nat): (r: Option<nat>)
    requires from <= |s|
    decreases |s| - from
    ensures r.Some? ==> from <= r.value < |s| && s[r.value] == c
    ensures r.Some? ==> forall k :: from <= k < r.value ==> s[k] != c
    ensures r.None? ==> forall k :: from <= k < |s| ==> s[k] != c
  {
    if from == |s| then None
    else if s[from] == c then Some(from)
    else FindChar(s, c, from + 1)
  }

  /**
   * `std::string::substr(pos, count)`: at most `count` characters starting
   * at `pos`; `None` is `npos`, everything up to the end.
   */
  function Substr(s: string, pos: nat, count: Option<nat>): (r: string)
    requires pos <= |s|
    ensures count.None? ==> r == s[pos..]
    ensures count.Some? ==> |r| == (if pos + count.value <= |s| then count.value else |s| - pos)
    ensures forall k :: 0 <= k < |r| ==> r[k] == s[pos + k]
  {
    if count.Some? && pos + count.value <= |s| then s[pos..pos + count.value] else s[pos..]
  }

  /** What a numeric conversion does: a value, `std::invalid_argument`, or `std::out_of_range`. */
  datatype NumResult<T> = Converted(value: T) | InvalidArgument | OutOfRange

  /** The first position at or after `i` that is not white space. */
  function SkipSpace(s: string, i: nat): (r: nat)
    requires i <= |s|
    decreases |s| - i
    ensures i <= r <= |s|
    ensures forall k :: i <= k < r ==> IsSpace(s[k])
    ensures r < |s| ==> !IsSpace(s[r])
  {
    if i < |s| && IsSpace(s[i]) then SkipSpace(s, i + 1) else i
  }

  /** The end of the run of decimal digits that starts at `i`. */
  function DigitRun(s: string, i: nat): (r: nat)
    requires i <= |s|
    decreases |s| - i
    ensures i <= r <= |s|
    ensures forall k :: i <= k < r ==> IsDigit(s[k])
    ensures r < |s| ==> !IsDigit(s[r])
  {
    if i < |s| && IsDigit(s[i]) then DigitRun(s, i + 1) else i
  }

  /** The number a string of decimal digits denotes. */
  function DecimalValue(ds: string): nat
    requires forall k :: 0 <= k < |ds| ==> IsDigit(ds[k])
  {
    if ds == [] then 0
    else
      var last := ds[|ds| - 1];
      assert IsDigit(last);
      DecimalValue(ds[..|ds| - 1]) * 10 + (last as int - '0' as int)
  }

  /**
   * `std::stoi(s)`: skip leading white space, read an optional sign and the
   * longest run of decimal digits after it, ignore whatever follows. No digit
   * at all is `std::invalid_argument`; a value outside `int` is
   * `std::out_of_range`.
   */
  function Stoi(s: string): (r: NumResult<Int32>)
    ensures r.InvalidArgument? <==>
      var i := SkipSpace(s, 0);
      var j := if i < |s| && (s[i] == '+' || s[i] == '-') then i + 1 else i;
      j == |s| || !IsDigit(s[j])
  {
    var i := SkipSpace(s, 0);
    var negative := i < |s| && s[i] == '-';
    var j := if i < |s| && (s[i] == '+' || s[i] == '-') then i + 1 else i;
    var k := DigitRun(s, j);
    if k == j then InvalidArgument
    else
      var ds := s[j..k];
      assert forall t :: 0 <= t < |ds| ==> ds[t] == s[j + t];
      var magnitude: int := DecimalValue(ds);
      var v: int := if negative then -magnitude else magnitude;
      if -0x8000_0000 <= v <= 0x7fff_ffff then Converted(v) else OutOfRange
  }

  /** The decimal digits of a natural number, most significant first, without leading zeros. */
  function NatToDecimal(n: nat): (ds: string)
    ensures |ds| > 0 && forall k :: 0 <= k < |ds| ==> IsDigit(ds[k])
  {
    if n < 10 then [('0' as int + n) as char]
    else NatToDecimal(n / 10) + [('0' as int + n % 10) as char]
  }

  /** `std::to_string` of an `int`. */
  function IntToString(n: Int32): string
  {
    if n < 0 then "-" + NatToDecimal(-(n as int)) else NatToDecimal(n)
  }

  lemma {:induction false} DecimalValueOfNatToDecimal(n: nat)
    ensures DecimalValue(NatToDecimal(n)) == n
  {
    var ds := NatToDecimal(n);
    if n >= 10 {
      assert ds[..|ds| - 1] == NatToDecimal(n / 10);
      DecimalValueOfNatToDecimal(n / 10);
    }
  }

  /** Printing an `int` in decimal and converting it back with `stoi` gives the same `int`. */
  lemma StoiRoundTrip(n: Int32)
    ensures Stoi(IntToString(n)) == Converted(n)
  {
    var m: nat := if n < 0 then -(n as int) else n;
    DecimalValueOfNatToDecimal(m);
    if n < 0 {
      StoiOfDigits("-" + NatToDecimal(m), 1, NatToDecimal(m));
    } else {
      StoiOfDigits(NatToDecimal(m), 0, NatToDecimal(m));
    }
  }

  /** `stoi` of an optional minus sign followed by nothing but digits. */
  lemma StoiOfDigits(s: string, j: nat, ds: string)
    requires j <= 1 && j <= |s| && s[j..] == ds && |ds| > 0
    requires forall k :: 0 <= k < |ds| ==> IsDigit(ds[k])
    requires j == 1 ==> s[0] == '-'
    ensures var v: int := if j == 1 then -(DecimalValue(ds) as int) else DecimalValue(ds);
      Stoi(s) == if -0x8000_0000 <= v <= 0x7fff_ffff then Converted(v) else OutOfRange
  {
    assert SkipSpace(s, 0) == 0 by {
      assert s[j] == ds[0];
      assert IsDigit(ds[0]);
      if j == 1 { assert s[0] == '-'; } else { assert s[0] == ds[0]; }
    }
    assert DigitRun(s, j) == |s| by {
      forall k | j <= k < |s| ensures IsDigit(s[k]) { assert s[k] == ds[k - j]; }
      DigitRunToEnd(s, j);
    }
    assert s[j..|s|] == ds;
    if j == 0 { assert !(s[0] == '+' || s[0] == '-') by { assert IsDigit(s[0]); } }
  }

  lemma {:induction false} DigitRunToEnd(s: string, i: nat)
    requires i <= |s|
    requires forall k :: i <= k < |s| ==> IsDigit(s[k])
    decreases |s| - i
    ensures DigitRun(s, i) == |s|
  {
    if i < |s| { DigitRunToEnd(s, i + 1); }
  }

  /** `stoi` reads a numeric prefix and ignores the rest of the word. */
  lemma StoiReadsPrefix()
    ensures Stoi("12abc") == Converted(12)
  {
    assert DigitRun("12abc", 0) == 2 by {
      assert DigitRun("12abc", 2) == 2;
      assert DigitRun("12abc", 1) == 2;
    }
    assert "12abc"[0..2] == "12";
    assert DecimalValue("12") == 12 by { assert "12"[..1] == "1"; assert ""[..0] == ""; assert "1"[..0] == ""; }
  }

  lemma StoiSkipsSpaceAndSign()
    ensures Stoi(" -7") == Converted(-7)
  {
    assert SkipSpace(" -7", 0) == 1 by { assert SkipSpace(" -7", 1) == 1; }
    assert DigitRun(" -7", 2) == 3 by { assert DigitRun(" -7", 3) == 3; }
    assert " -7"[2..3] == "7";
    assert DecimalValue("7") == 7 by { assert "7"[..0] == ""; }
  }

  lemma StoiNeedsDigits()
    ensures Stoi("abc") == InvalidArgument
    ensures Stoi("-") == InvalidArgument
  {
    assert SkipSpace("abc", 0) == 0;
    assert SkipSpace("-", 0) == 0;
  }

  lemma StoiOverflows()
    ensures Stoi("4294967296") == OutOfRange
  {
    var big := "4294967296";
    assert SkipSpace(big, 0) == 0;
    DigitRunToEnd(big, 0);
    assert big[0..10] == big;
    assert DecimalValue(big) >= 1000000000 * 4 by {
      DecimalValueOfTwoTo32(big);
    }
  }

  /** The digits of 2^32 denote at least 4 * 10^9. */
  lemma DecimalValueOfTwoTo32(ds: string)
    requires ds == "4294967296"
    ensures DecimalValue(ds) >= 4000000000
  {
    assert ds[..9] == "429496729";
    assert "429496729"[..8] == "42949672";
    assert "42949672"[..7] == "4294967";
    assert "4294967"[..6] == "429496";
    assert "429496"[..5] == "42949";
    assert "42949"[..4] == "4294";
    assert "4294"[..3] == "429";
    assert "429"[..2] == "42";
    assert "42"[..1] == "4";
    assert "4"[..0] == "";
  }
}
