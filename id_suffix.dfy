/** `getIdNum`: the number a transaction id carries in its trailing
    decimal digits (the pattern `(\d+)$`), or 0 when it ends in anything
    else. New ids are "txn-" followed by a timestamp, so the number reads
    as the creation time. */
module IdSuffix {

  /** `\d`: an ASCII decimal digit. */
  predicate IsDigit(c: char) {
    '0' <= c <= '9'
  }

  predicate AllDigits(s: string) {
    forall i :: 0 <= i < |s| ==> IsDigit(s[i])
  }

  function DigitValue(c: char): nat
    requires IsDigit(c)
  {
    c as int - '0' as int
  }

  function DigitChar(d: nat): (c: char)
    requires d < 10
    ensures IsDigit(c) && DigitValue(c) == d
  {
    ('0' as int + d) as char
  }

  /** The exact decimal value of a string of digits, leading zeros
      ignored; a value below 10 to the power of the number of digits.
      `Number` gives the same value only while it is below 2^53. */
  function DecimalValue(digits: string): (n: nat)
    requires AllDigits(digits)
    ensures n < Pow10(|digits|)
    decreases |digits|
  {
    if |digits| == 0 then 0
    else 10 * DecimalValue(digits[..|digits| - 1]) + DigitValue(digits[|digits| - 1])
  }

  function Pow10(k: nat): nat {
    if k == 0 then 1 else 10 * Pow10(k - 1)
  }

  lemma {:induction false} Pow10Monotone(j: nat, k: nat)
    requires j <= k
    ensures Pow10(j) <= Pow10(k)
    decreases k
  {
    if j < k {
      Pow10Monotone(j, k - 1);
    }
  }

  /** The largest integer below which every integer is exactly a double:
      2^53. */
  const ExactIntegerLimit: nat := 9_007_199_254_740_992

  /** A trailing run of at most 15 digits is below 2^53, so `Number`
      reads it exactly and the exact `IdNum` is what the comparator sees.
      Ids made from `Date.now()` carry 13 digits. */
  lemma IdNumWithinExactRange(id: string)
    requires |id| - RunStart(id) <= 15
    ensures IdNum(id) < ExactIntegerLimit
  {
    IdNumMatchesPattern(id);
    Pow10Monotone(|id| - RunStart(id), 15);
    assert Pow10(15) == 1_000_000_000_000_000;
  }

  /** Where the maximal run of digits at the end of `s` begins: everything
      from there on is a digit and the character before it is not. */
  function RunStart(s: string): (k: nat)
    ensures k <= |s|
    ensures AllDigits(s[k..])
    ensures k == 0 || !IsDigit(s[k - 1])
    decreases |s|
  {
    if |s| == 0 || !IsDigit(s[|s| - 1]) then |s|
    else
      var k := RunStart(s[..|s| - 1]);
      assert s[k..] == s[..|s| - 1][k..] + [s[|s| - 1]];
      k
  }

  /** getIdNum: the value of the trailing digits, accumulated from the
      right end until the first character that is not a digit. */
  function IdNum(id: string): (n: nat)
    ensures |id| == 0 || !IsDigit(id[|id| - 1]) ==> n == 0
    decreases |id|
  {
    if |id| == 0 || !IsDigit(id[|id| - 1]) then 0
    else 10 * IdNum(id[..|id| - 1]) + DigitValue(id[|id| - 1])
  }

  /** `IdNum` is the value of the maximal trailing digit run (what the
      pattern `(\d+)$` captures), wherever that run is found to begin. */
  lemma {:induction false} IdNumIsTrailingRunValue(id: string, k: nat)
    requires k <= |id| && AllDigits(id[k..]) && (k == 0 || !IsDigit(id[k - 1]))
    ensures IdNum(id) == DecimalValue(id[k..])
    decreases |id|
  {
    if k < |id| {
      var init := id[..|id| - 1];
      assert init[k..] == id[k..][..|id| - 1 - k];
      IdNumIsTrailingRunValue(init, k);
    }
  }

  /** `id.match(/(\d+)$/)`: the match, when there is one, captures the
      digits from `RunStart(id)` on, and `IdNum` is `Number` of that
      capture, or 0 when there is no match. */
  lemma IdNumMatchesPattern(id: string)
    ensures IdNum(id) == if RunStart(id) == |id| then 0 else DecimalValue(id[RunStart(id)..])
  {
    IdNumIsTrailingRunValue(id, RunStart(id));
  }

  /** The decimal representation of `n`, as `${n}` writes it. */
  function ShowNat(n: nat): (s: string)
    ensures |s| > 0 && AllDigits(s)
    decreases n
  {
    if n < 10 then [DigitChar(n)] else ShowNat(n / 10) + [DigitChar(n % 10)]
  }

  /** Reading back the digits `ShowNat` writes gives the number. */
  lemma {:induction false} ShowNatRoundTrip(n: nat)
    ensures DecimalValue(ShowNat(n)) == n
  {
    if n >= 10 {
      var s := ShowNat(n);
      assert s[..|s| - 1] == ShowNat(n / 10);
      ShowNatRoundTrip(n / 10);
    }
  }

  /** An id built as a prefix not ending in a digit followed by a number
      (`txn-${Date.now()}`) yields that number back. */
  lemma IdNumOfGeneratedId(prefix: string, n: nat)
    requires |prefix| == 0 || !IsDigit(prefix[|prefix| - 1])
    ensures IdNum(prefix + ShowNat(n)) == n
  {
    var id := prefix + ShowNat(n);
    assert id[|prefix|..] == ShowNat(n);
    IdNumIsTrailingRunValue(id, |prefix|);
    ShowNatRoundTrip(n);
  }

  /** Four ids and their numbers: a plain suffix, a letter after the
      digits, leading zeros, and the empty id. */
  lemma IdNumExamples()
    ensures IdNum("txn-42") == 42
    ensures IdNum("txn-100b") == 0
    ensures IdNum("txn-007") == 7
    ensures IdNum("") == 0
  {
    var a := "txn-42";
    assert a[4..] == "42" && "42"[..1] == "4" && "4"[..0] == "";
    assert DecimalValue("4") == 4;
    assert DecimalValue("42") == 42;
    IdNumIsTrailingRunValue(a, 4);
    var c := "txn-007";
    assert c[4..] == "007" && "007"[..2] == "00" && "00"[..1] == "0" && "0"[..0] == "";
    assert DecimalValue("007") == 7;
    IdNumIsTrailingRunValue(c, 4);
  }
}
