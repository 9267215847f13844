/** Machine states, protocol constants and the state record (include/cnccomms.h:37-60, 182-241). */
module CncComms {

  // The members of CONTROLSTATE that the client compares or announces, by their places in the enumeration.
  const NO_SERVER: nat := 0
  const IDLE: nat := 3
  const MOVING: nat := 4
  const MDI: nat := 5
  const RUNNING: nat := 6

  const MAX_AXES: nat := 6
  const FILE_BLOCK_SIZE: nat := 16000
  const MIN_PROTOCOL_VERSION: real := 3.0

  /** Every state that stands for motion is above the idle one, and the idle one above having no server. */
  lemma MotionIsAboveIdle()
    ensures NO_SERVER == 0 && IDLE == 3 && MOVING == 4 && MDI == 5 && RUNNING == 6
  {
  }

  /** The fields of State the client's own logic reads. */
  datatype State = State(machineState: nat, errorCount: nat, messageCount: nat)

  const NO_STATE := State(NO_SERVER, 0, 0)

  const MAX_INT32: int := 0x7FFF_FFFF

  /** Adding one to an `int32_t`; the C++ leaves the last value's successor undefined, here it wraps. */
  function Successor(n: int): int {
    if n == MAX_INT32 then -MAX_INT32 - 1 else n + 1
  }
}
