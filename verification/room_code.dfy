/**
 Room codes: `Math.floor(1000 + Math.random() * 9000).toString()`.

 The random draw is a parameter `rand` in [0, 1), the range `Math.random`
 promises; the float arithmetic is modelled over the reals.
 */
module RoomCode {

  /** The numeric code drawn from `rand`. */
  function GenerateRoomCode(rand: real): (n: int)
    requires 0.0 <= rand < 1.0
    ensures 1000 <= n <= 9999
  {
    (1000.0 + rand * 9000.0).Floor
  }

  /** Every four-digit code can be drawn. */
  lemma EveryCodeReachable(n: int)
    requires 1000 <= n <= 9999
    ensures exists rand: real :: 0.0 <= rand < 1.0 && GenerateRoomCode(rand) == n
  {
    var rand := (n - 1000) as real / 9000.0;
    assert 1000.0 + rand * 9000.0 == n as real;
    assert GenerateRoomCode(rand) == n;
  }

  function DigitChar(d: int): (c: char)
    requires 0 <= d < 10
  {
    ('0' as int + d) as char
  }

  predicate IsDigit(c: char)
  {
    '0' <= c <= '9'
  }

  function DigitValue(c: char): (d: nat)
    requires IsDigit(c)
  {
    c as int - '0' as int
  }

  /** `Number.prototype.toString()` of a non-negative integer: its decimal
      digits, most significant first, without leading zeros. */
  function DecimalString(n: nat): (s: string)
    ensures |s| >= 1
    ensures forall i :: 0 <= i < |s| ==> IsDigit(s[i])
    ensures n >= 10 ==> s[0] != '0'
  {
    if n < 10 then [DigitChar(n)]
    else DecimalString(n / 10) + [DigitChar(n % 10)]
  }

  /** The value of a string of decimal digits. */
  function ParseDecimal(s: string): (n: nat)
    requires forall i :: 0 <= i < |s| ==> IsDigit(s[i])
  {
    if |s| == 0 then 0
    else 10 * ParseDecimal(s[..|s| - 1]) + DigitValue(s[|s| - 1])
  }

  /** Parsing the decimal string gives the number back. */
  lemma {:induction false} ParseDecimalString(n: nat)
    ensures ParseDecimal(DecimalString(n)) == n
  {
    var s := DecimalString(n);
    if n >= 10 {
      ParseDecimalString(n / 10);
      assert s[..|s| - 1] == DecimalString(n / 10);
    }
  }

  /** Distinct numbers give distinct codes. */
  lemma DecimalStringInjective(m: nat, n: nat)
    requires DecimalString(m) == DecimalString(n)
    ensures m == n
  {
    ParseDecimalString(m);
    ParseDecimalString(n);
  }

  /** A number in 1000..9999 is written with exactly four digits. */
  lemma FourDigits(n: nat)
    requires 1000 <= n <= 9999
    ensures |DecimalString(n)| == 4
  {
    assert |DecimalString(n / 1000)| == 1;
    assert |DecimalString(n / 100)| == 2;
    assert |DecimalString(n / 10)| == 3;
  }

  /** The room code `create-room` hands out for `rand`. */
  function RoomCodeFor(rand: real): (code: string)
    requires 0.0 <= rand < 1.0
    ensures |code| == 4
    ensures forall i :: 0 <= i < |code| ==> IsDigit(code[i])
    ensures 1000 <= ParseDecimal(code) <= 9999
    ensures ParseDecimal(code) == GenerateRoomCode(rand)
    ensures code[0] != '0'
  {
    var n := GenerateRoomCode(rand);
    FourDigits(n);
    ParseDecimalString(n);
    DecimalString(n)
  }

  /** Every four-digit code string can be handed out by `create-room`. */
  lemma EveryRoomCodeReachable(n: int)
    requires 1000 <= n <= 9999
    ensures exists rand: real :: 0.0 <= rand < 1.0 && RoomCodeFor(rand) == DecimalString(n)
  {
    EveryCodeReachable(n);
    var rand: real :| 0.0 <= rand < 1.0 && GenerateRoomCode(rand) == n;
    assert RoomCodeFor(rand) == DecimalString(n);
  }
}
