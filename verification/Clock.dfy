// Fixed-width counters of the firmware: the free-running millisecond timer is read through
// 16-bit and 32-bit windows, and every age is a wrapping subtraction of two readings.
module Clock {

  const WRAP16: int := 0x1_0000
  const WRAP32: int := 0x1_0000_0000

  type u8 = x: int | 0 <= x < 0x100
  type u16 = x: int | 0 <= x < 0x1_0000
  type u32 = x: int | 0 <= x < 0x1_0000_0000

  // TIMER_DIFF_16: the unsigned difference reduced to 16 bits.
  function TimerDiff16(a: u16, b: u16): (d: u16)
  {
    if a >= b then a - b else a - b + WRAP16
  }

  // TIMER_DIFF_32 cast to int32_t: the signed distance from b to a on the 32-bit circle.
  function SignedDiff32(a: u32, b: u32): int {
    var d := if a >= b then a - b else a - b + WRAP32;
    if d < 0x8000_0000 then d else d - WRAP32
  }

  // The 16-bit readings of two instants less than one wrap apart still give their true distance.
  lemma TimerDiff16IsAge(later: nat, earlier: nat)
    requires earlier <= later < earlier + WRAP16
    ensures TimerDiff16(later % WRAP16, earlier % WRAP16) == later - earlier
  {
  }

  // The 32-bit readings of two instants less than half a wrap apart give their signed distance.
  lemma SignedDiff32IsDistance(a: int, b: int)
    requires -0x8000_0000 <= a - b < 0x8000_0000
    ensures SignedDiff32(a % WRAP32, b % WRAP32) == a - b
  {
  }
}
