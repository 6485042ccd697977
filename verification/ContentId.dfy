/** Content ids: the second and the millisecond of capture, as `getCID` prints them. */
module ContentId {
  import opened Bits
  import opened Bytes
  import opened Decimal

  const SECOND_SIZE := 20
  const ID_SIZE := 23
  const ZERO: byte := 48

  /** `substr(0, n)`. */
  function Front(s: Str, n: nat): Str {
    if |s| > n then s[..n] else s
  }

  /**
   * `getCID`, for a second printed as in "2022-11-01_12:00:00." and the milliseconds of the clock: these have no
   * leading zeros, the result is cut to 23 characters and filled up with zeros on the right.
   */
  function GetCid(second: Str, millitm: nat): (cid: Str)
    requires |second| == SECOND_SIZE && millitm < 1000
    ensures |cid| == ID_SIZE && cid[..SECOND_SIZE] == second
    ensures second + ToString(millitm) <= cid
    ensures forall i :: |second + ToString(millitm)| <= i < 23 ==> cid[i] == '0' as int
    ensures NulFree(second) ==> NulFree(cid)
  {
    MillisecondDigits(millitm);
    var printed := second + ToString(millitm);
    var cut := Front(printed, ID_SIZE);
    if |cut| == 22 then cut + [ZERO] else if |cut| == 21 then cut + [ZERO, ZERO] else cut
  }

  lemma MillisecondDigits(m: nat)
    requires m < 1000
    ensures ToString(m) == if m < 10 then [48 + m] else if m < 100 then [48 + m / 10, 48 + m % 10]
                           else [48 + m / 100, 48 + m / 10 % 10, 48 + m % 10]
  {
    if m >= 10 {
      assert ToString(m) == ToString(m / 10) + [48 + m % 10];
      if m >= 100 {
        assert ToString(m / 10) == ToString(m / 100) + [48 + m / 10 % 10];
      }
    }
  }

  /** The last three characters, as a number. */
  function Shown(m: nat): nat
    requires m < 1000
  {
    if m < 10 then 100 * m else if m < 100 then 10 * m else m
  }

  lemma CidShows(second: Str, m: nat)
    requires |second| == SECOND_SIZE && m < 1000
    ensures Shown(m) < 1000
    ensures GetCid(second, m)[SECOND_SIZE..]
         == [48 + Shown(m) / 100, 48 + Shown(m) / 10 % 10, 48 + Shown(m) % 10]
  {
    MillisecondDigits(m);
  }

  lemma ThreeDigits(x: nat)
    ensures x == 100 * (x / 100) + 10 * (x / 10 % 10) + x % 10
  {
    var h, r := x / 100, x % 100;
    DivModUnique(x, 10, 10 * h + r / 10, r % 10);
    DivModUnique(x / 10, 10, h, r / 10);
  }

  lemma DigitsTell(x: nat, y: nat)
    requires x / 100 == y / 100 && x / 10 % 10 == y / 10 % 10 && x % 10 == y % 10
    ensures x == y
  {
    ThreeDigits(x);
    ThreeDigits(y);
  }

  lemma ShownAlike(m: nat, n: nat)
    requires m < n < 1000
    ensures Shown(m) == Shown(n) <==> m > 0 && (n == 10 * m || n == 100 * m)
  {
  }

  /** Which instants share an id: those of one second whose milliseconds differ by trailing zeros only. */
  lemma SameIdExactly(second: Str, m: nat, second': Str, n: nat)
    requires |second| == |second'| == SECOND_SIZE && m < n < 1000
    ensures GetCid(second, m) == GetCid(second', n)
       <==> second == second' && m > 0 && (n == 10 * m || n == 100 * m)
    ensures GetCid(second, m) == GetCid(second', m) <==> second == second'
  {
    hide GetCid, Shown;
    CidShows(second, m);
    CidShows(second', n);
    CidShows(second', m);
    ShownAlike(m, n);
    var x, y, z := GetCid(second, m), GetCid(second', n), GetCid(second', m);
    assert x == x[..SECOND_SIZE] + x[SECOND_SIZE..] && y == y[..SECOND_SIZE] + y[SECOND_SIZE..];
    assert z == z[..SECOND_SIZE] + z[SECOND_SIZE..];
    if x == y {
      var a, b := x[SECOND_SIZE..], y[SECOND_SIZE..];
      assert a[0] == b[0] && a[1] == b[1] && a[2] == b[2];
      DigitsTell(Shown(m), Shown(n));
    }
  }
}
