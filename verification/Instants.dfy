/** Clocks and instants. Instants and system times are in nanoseconds, UNIX timestamps in whole seconds. */
module Instants {
  import opened Wrappers

  function Seconds(n: int): int { n * 1_000_000_000 }

  /** Instants are represented by 64-bit seconds and a fraction. */
  const MIN_INSTANT: int := Seconds(-0x8000_0000_0000_0000)
  const MAX_INSTANT: int := Seconds(0x8000_0000_0000_0000) - 1

  /** One reading of the monotonic clock and of the system clock. */
  datatype Clock = Clock(instant: int, system: nat) {
    /** The current UNIX timestamp. */
    function UnixNow(): nat { system / 1_000_000_000 }

    /** The system time at a given instant, while both clocks advance in step. */
    function SystemTimeAt(at: int): int { system + (at - instant) }
  }

  /** Checked addition of a duration. */
  function CheckedAdd(at: int, duration: int): Option<int> {
    if at + duration <= MAX_INSTANT then Some(at + duration) else None
  }
}
