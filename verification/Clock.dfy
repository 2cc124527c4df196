/** Points in time as ktime_get reports them: a 64-bit second and a 32-bit nanosecond. */
module Clock {
  import opened Basics

  datatype Time = Time(second: int, nanosecond: int)

  /** a is b or before b. */
  predicate NotAfter(a: Time, b: Time) {
    a.second < b.second || (a.second == b.second && a.nanosecond <= b.nanosecond)
  }

  /** The value an int of 64 bits keeps of n. */
  function Int64(n: int): (r: int)
    ensures -0x8000_0000_0000_0000 <= r < 0x8000_0000_0000_0000
    ensures -0x8000_0000_0000_0000 <= n < 0x8000_0000_0000_0000 ==> r == n
  {
    (n + 0x8000_0000_0000_0000) % 0x1_0000_0000_0000_0000 - 0x8000_0000_0000_0000
  }

  /** The two halves are added apart: nanoseconds never carry into seconds. */
  function Plus(a: Time, b: Time): Time {
    Time(Int64(a.second + b.second), Int32(a.nanosecond + b.nanosecond))
  }

  /** A time in nanoseconds. */
  function Nanoseconds(t: Time): int {
    t.second * 1_000_000_000 + t.nanosecond
  }

  /** The comparison is that of time, as long as the nanoseconds are less than a second. */
  lemma NotAfterIff(a: Time, b: Time)
    requires 0 <= a.nanosecond < 1_000_000_000 && 0 <= b.nanosecond < 1_000_000_000
    ensures NotAfter(a, b) <==> Nanoseconds(a) <= Nanoseconds(b)
  {
  }

  /** A deadline is later than `now` by exactly the delay if and only if neither half overflows. */
  lemma PlusExactIff(now: Time, delay: Time)
    requires -0x8000_0000 <= now.nanosecond < 0x8000_0000 && -0x8000_0000 <= delay.nanosecond < 0x8000_0000
    ensures Nanoseconds(Plus(now, delay)) == Nanoseconds(now) + Nanoseconds(delay) <==>
              && -0x8000_0000_0000_0000 <= now.second + delay.second < 0x8000_0000_0000_0000
              && -0x8000_0000 <= now.nanosecond + delay.nanosecond < 0x8000_0000
  {
    var s, n := now.second + delay.second, now.nanosecond + delay.nanosecond;
    var q := (s + 0x8000_0000_0000_0000) / 0x1_0000_0000_0000_0000;
    assert Int64(s) == s - q * 0x1_0000_0000_0000_0000;
    var k: int := if n >= 0x8000_0000 then 1 else if n < -0x8000_0000 then -1 else 0;
    assert Int32(n) == n - k * 0x1_0000_0000;
  }
}
