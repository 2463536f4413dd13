/** The integer widths of the service, and its unit of time. */
module MachineInts {
  type int32 = x: int | -0x8000_0000 <= x < 0x8000_0000
  type int64 = x: int | -0x8000_0000_0000_0000 <= x < 0x8000_0000_0000_0000

  /** Instants and durations are counted in nanoseconds. */
  const SECOND := 1_000_000_000
}
