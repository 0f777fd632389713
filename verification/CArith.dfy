/** C integer arithmetic as the time-zone code uses it: a 32-bit int, a 64-bit
    time_t, division truncating toward zero, and additions that report overflow. */
module CArith {
  const INT_MIN := -0x8000_0000
  const INT_MAX := 0x7fff_ffff
  const TIME_T_MIN := -0x8000_0000_0000_0000
  const TIME_T_MAX := 0x7fff_ffff_ffff_ffff

  predicate IsInt(i: int) {
    INT_MIN <= i <= INT_MAX
  }

  predicate IsTime(t: int) {
    TIME_T_MIN <= t <= TIME_T_MAX
  }

  // The C operators / and %, for a positive divisor.
  function Quot(a: int, b: int): int
    requires b > 0
  {
    if a >= 0 then a / b else -(-a / b)
  }

  function Rem(a: int, b: int): int
    requires b > 0
  {
    if a >= 0 then a % b else -(-a % b)
  }

  /** Adds j to the int i unless the sum leaves the range of int; the test itself
      never leaves that range. */
  method IncrementOverflow(i: int, j: int) returns (overflow: bool, sum: int)
    requires IsInt(i) && IsInt(j)
    ensures overflow <==> !IsInt(i + j)
    ensures sum == if overflow then i else i + j
  {
    sum := i;
    var room := if i >= 0 then INT_MAX - i else INT_MIN - i;
    assert IsInt(room);
    if if i >= 0 then j > room else j < room {
      return true, sum;
    }
    sum := i + j;
    overflow := false;
  }

  /** The same for a time_t. */
  method IncrementOverflowTime(t: int, j: int) returns (overflow: bool, sum: int)
    requires IsTime(t) && IsInt(j)
    ensures overflow <==> !IsTime(t + j)
    ensures sum == if overflow then t else t + j
  {
    sum := t;
    var bound := if j < 0 then TIME_T_MIN - j else TIME_T_MAX - j;
    assert IsTime(bound);
    if !(if j < 0 then bound <= t else t <= bound) {
      return true, sum;
    }
    sum := t + j;
    overflow := false;
  }
}
