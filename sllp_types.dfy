/** The public types of the server library (libsllpserver/sllp_server.h):
    error codes, operations passed to the hook, and the variable and curve
    records that the embedding application registers. */
module SllpTypes {

  /** An unsigned 8-bit value (`uint8_t`). */
  type byte = x: int | 0 <= x < 0x100

  datatype Option<+T> = None | Some(value: T)

  datatype Result<+T> = Ok(value: T) | Err(error: SllpErr)

  /** `enum sllp_err`. */
  datatype SllpErr = Success | ParamInvalid | ParamOutOfRange | OutOfMemory

  /** `enum sllp_operation`: what the hook is told about. */
  datatype Op = Read | Write

  /** Identity of a registered `struct sllp_var` (its address in the source). */
  type VarRef = nat

  /** Identity of a registered `struct sllp_curve` (its address in the source). */
  type CurveRef = nat

  /** Identity of a hook function (its address in the source). */
  type HookId = nat

  /** Largest message payload, and with it one curve block plus its two
      addressing bytes (`SLLP_MAX_MESSAGE`). */
  const MAX_MESSAGE: nat := 16386

  /** Length of a packet header: command code and encoded size. */
  const HEADER_LEN: nat := 2

  /** A registered variable as the engine sees it: `id` is written by the
      engine at registration; `data` is the `size`-byte buffer it reads and
      writes in place. */
  datatype Variable = Variable(ref: VarRef, id: byte, writable: bool, size: byte, data: seq<byte>)

  /** A registered curve. `blocks` is the storage behind the application's
      `read_block`/`write_block` pair: block `b` is what `read_block(b)` yields,
      and `write_block(b, d)` replaces it. */
  datatype Curve = Curve(ref: CurveRef, id: byte, writable: bool, nblocks: byte,
                         checksum: seq<byte>, blocks: seq<seq<byte>>)

  /** What the application fills in before `sllp_register_variable`;
      `data == None` is a NULL data pointer. */
  datatype VarDesc = VarDesc(ref: VarRef, writable: bool, size: byte, data: Option<seq<byte>>)

  /** What the application fills in before `sllp_register_curve`;
      `hasReadBlock`/`hasWriteBlock` say whether the callbacks are non-NULL. */
  datatype CurveDesc = CurveDesc(ref: CurveRef, writable: bool, nblocks: byte, checksum: seq<byte>,
                                 hasReadBlock: bool, hasWriteBlock: bool, blocks: seq<seq<byte>>)

  /** One call of the registered hook: which hook, which operation, the
      ids of the variables it was handed, in order, and the variable table
      as the hook finds it when it runs. */
  datatype HookCall = HookCall(hook: HookId, op: Op, vars: seq<nat>, seen: seq<Variable>)
}
