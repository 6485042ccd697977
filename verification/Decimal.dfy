/** Decimal text: `to_string`, `atoi`, and the share request that glues two numbers together. */
module Decimal {
  import opened Bytes

  predicate IsDigit(c: byte) { 48 <= c <= 57 }

  /** `std::to_string` of a non-negative number. */
  function ToString(n: nat): (t: Str)
    ensures |t| >= 1 && forall i :: 0 <= i < |t| ==> IsDigit(t[i])
  {
    if n < 10 then [48 + n] else ToString(n / 10) + [48 + n % 10]
  }

  /** `atoi` from some digits on: reads digits up to the first other character. */
  function AtoiFrom(acc: nat, t: Str): nat
    decreases |t|
  {
    if t == [] || !IsDigit(t[0]) then acc else AtoiFrom(10 * acc + (t[0] - 48) as int, t[1..])
  }

  /** `atoi` of a text that starts with a digit. */
  function Atoi(t: Str): nat { AtoiFrom(0, t) }

  lemma {:induction false} AtoiConcat(acc: nat, x: Str, y: Str)
    requires forall i :: 0 <= i < |x| ==> IsDigit(x[i])
    ensures AtoiFrom(acc, x + y) == AtoiFrom(AtoiFrom(acc, x), y)
    decreases |x|
  {
    if x == [] {
      assert x + y == y;
    } else {
      assert (x + y)[1..] == x[1..] + y;
      AtoiConcat(10 * acc + (x[0] - 48) as int, x[1..], y);
    }
  }

  /** Reading back what was printed. */
  lemma {:induction false} AtoiOfToString(n: nat)
    ensures Atoi(ToString(n)) == n
  {
    if n >= 10 {
      AtoiOfToString(n / 10);
      AtoiConcat(0, ToString(n / 10), [48 + n % 10]);
      OneDigit(n / 10, n % 10);
    } else {
      OneDigit(0, n);
    }
  }

  lemma OneDigit(acc: nat, d: nat)
    requires d < 10
    ensures AtoiFrom(acc, [48 + d]) == 10 * acc + d
  {
    assert [48 + d][1..] == [];
    assert AtoiFrom(10 * acc + d, []) == 10 * acc + d;
  }

  /** The payload of a share request: the two numbers, one after the other. */
  function ShareRequest(numOfShare: nat, threshold: nat): Str {
    ToString(numOfShare) + ToString(threshold)
  }

  /** How the server reads it back: the last digit is the threshold. */
  function ReadShareRequest(t: Str): (nat, nat) {
    (Atoi(t) / 10, Atoi(t) % 10)
  }

  lemma {:induction false} AtoiGrows(acc: nat, t: Str)
    ensures AtoiFrom(acc, t) >= acc
    decreases |t|
  {
    if t != [] && IsDigit(t[0]) {
      AtoiGrows(10 * acc + (t[0] - 48) as int, t[1..]);
    }
  }

  /**
   * The receiving buffer has no terminator, so `atoi` reads on into whatever lies behind the request. The
   * round trip holds exactly when the threshold has one digit and what lies behind does not start with another,
   * unless everything read is zero.
   */
  lemma ShareRequestRoundTrip(numOfShare: nat, threshold: nat, behind: Str)
    requires Atoi(ShareRequest(numOfShare, threshold) + behind) < 0x8000_0000
    ensures ReadShareRequest(ShareRequest(numOfShare, threshold) + behind) == (numOfShare, threshold)
       <==> threshold <= 9 && (|| behind == [] || !IsDigit(behind[0])
                               || numOfShare == threshold == Atoi(behind) == 0)
  {
    hide ToString, AtoiFrom;
    if threshold <= 9 {
      var request, value := ShareRequest(numOfShare, threshold), 10 * numOfShare + threshold;
      ToStringOfDigit(threshold);
      AtoiOfToString(numOfShare);
      AtoiConcat(0, ToString(numOfShare), ToString(threshold));
      OneDigit(numOfShare, threshold);
      AtoiConcat(0, request, behind);
      AtoiBehind(value, behind);
    }
  }

  lemma ToStringOfDigit(d: nat)
    requires d <= 9
    ensures ToString(d) == [48 + d]
  {
  }

  /** Reading on changes the value at least tenfold, or not at all. */
  lemma AtoiBehind(value: nat, behind: Str)
    ensures if behind == [] || !IsDigit(behind[0]) then AtoiFrom(value, behind) == value
            else AtoiFrom(value, behind) >= 10 * value
  {
    if behind != [] && IsDigit(behind[0]) {
      AtoiGrows(10 * value + (behind[0] - 48) as int, behind[1..]);
    }
  }
}
