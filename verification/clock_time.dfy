/** The 16-bit wrapping clock of include/zb_time.h.
    The stack stores only `Wrap(u)` of an ever-growing tick count `u`. */
module ClockTime {
  import opened Types

  const MAX_TIME_VAL: u16 := 65535
  const HALF_MAX_TIME_VAL: u16 := MAX_TIME_VAL / 2

  function Wrap(u: int): u16 { u % 0x1_0000 }

  function TimeAdd(a: u16, b: u16): u16 { (a + b) % 0x1_0000 }

  predicate TimeGe(a: u16, b: u16) { (a - b) % 0x1_0000 < HALF_MAX_TIME_VAL }

  function TimeSubtract(a: u16, b: u16): u16 {
    if (a - b) % 0x1_0000 < HALF_MAX_TIME_VAL then (a - b) % 0x1_0000 else (b - a) % 0x1_0000
  }

  function Abs(x: int): nat { if x < 0 then -x else x }

  /** Two tick counts are close enough for the comparison macro: less than half the range apart. */
  predicate Close(u: int, v: int) { Abs(u - v) < HALF_MAX_TIME_VAL }

  lemma WrapDifference(u: int, v: int)
    ensures (Wrap(u) - Wrap(v)) % 0x1_0000 == (u - v) % 0x1_0000
  {
    var k := u / 0x1_0000 - v / 0x1_0000;
    assert u - v == Wrap(u) - Wrap(v) + k * 0x1_0000;
  }

  lemma AddWraps(u: int, after: u16)
    ensures TimeAdd(Wrap(u), after) == Wrap(u + after)
  {
  }

  /** Within one turn of the counter, the comparison of wrapped values is right for exactly the
      differences -32769 .. 32766: one tick short of the documented half range at the top. */
  lemma TimeGeExact(u: int, v: int)
    requires Abs(u - v) < 0x1_0000
    ensures (TimeGe(Wrap(u), Wrap(v)) <==> u >= v) <==> -32769 <= u - v <= 32766
  {
    WrapDifference(u, v);
  }

  lemma TimeGeWhenClose(u: int, v: int)
    requires Close(u, v)
    ensures TimeGe(Wrap(u), Wrap(v)) <==> u >= v
  {
    TimeGeExact(u, v);
  }

  /** The sleep interval computed from wrapped values is the true distance of the two tick counts
      for the differences the comparison handles, and by accident for 32768; for no other one
      within a turn. */
  lemma TimeSubtractExact(u: int, v: int)
    requires Abs(u - v) < 0x1_0000
    ensures TimeSubtract(Wrap(u), Wrap(v)) == Abs(u - v)
            <==> -32769 <= u - v <= 32766 || u - v == 32768
  {
    WrapDifference(u, v);
    WrapDifference(v, u);
  }
}
