/** What processing one request does (libsllpserver/message.c,
    `packet_process` and `message_process`), as functions from the registry
    before the request to the registry after it and the answer. The
    imperative handlers in module Message are proved to compute exactly
    these. */
module Protocol {
  import opened SllpTypes
  import opened SllpList
  import opened Common
  import opened Codec

  /** A 16-byte MD5 digest. */
  type Checksum = c: seq<byte> | |c| == CURVE_CSUM_SIZE witness seq(16, _ => 0)

  /** The MD5 digest of a byte stream (MD5Init, MD5Update for each part,
      MD5Final). */
  type Md5 = seq<byte> -> Checksum

  /** An answer: its command code and its payload. */
  datatype Response = Response(code: byte, payload: seq<byte>)

  datatype Outcome = Outcome(state: State, response: Response)

  /** `message_set_answer`: the answer carries `code` and no payload; the
      registry is left as it was. */
  function Answer(s: State, code: byte): Outcome
  {
    Outcome(s, Response(code, []))
  }

  function Flag(writable: bool): byte
  {
    if writable then WRITABLE else READ_ONLY
  }

  /** The GROUP_CREATED answer byte: the access flag plus the group id, as a
      `uint8_t`. */
  function CreatedByte(g: Group): byte
  {
    (Flag(g.writable) + g.id) % 0x100
  }

  /** The hook-call record after notifying the registered hook, if any, in
      state `s`: the hook sees the variable table of `s`. */
  function Notify(s: State, op: Op, ids: seq<nat>): seq<HookCall>
  {
    if s.hook.Some? then s.calls + [HookCall(s.hook.value, op, ids, s.vars)] else s.calls
  }

  // ---------------------------------------------------------------------
  // Answer payloads

  /** One byte per variable: access flag plus size, as a `uint8_t` sum. */
  function VarsListPayload(vars: seq<Variable>): seq<byte>
  {
    seq(|vars|, i requires 0 <= i < |vars| => (Flag(vars[i].writable) + vars[i].size) % 0x100)
  }

  /** One byte per group: access flag plus member count, as a `uint8_t` sum. */
  function GroupsListPayload(groups: seq<Group>): seq<byte>
  {
    seq(|groups|, i requires 0 <= i < |groups| => (Flag(groups[i].writable) + |groups[i].members|) % 0x100)
  }

  /** The ids of the variables `ms`, in order. */
  function MemberIds(vars: seq<Variable>, ms: seq<nat>): seq<byte>
    requires InRange(ms, |vars|)
  {
    seq(|ms|, k requires 0 <= k < |ms| => vars[ms[k]].id)
  }

  /** Writable flag (0 or 1), highest block index and checksum of a curve. */
  function CurveInfo(c: Curve): seq<byte>
  {
    [if c.writable then 1 else 0, c.nblocks] + c.checksum
  }

  function CurvesListPayload(curves: seq<Curve>): seq<byte>
  {
    if curves == [] then [] else CurvesListPayload(curves[..|curves| - 1]) + CurveInfo(curves[|curves| - 1])
  }

  /** The first `n` blocks, one after the other: what MD5Update is fed. */
  function BlocksFed(blocks: seq<seq<byte>>, n: nat): seq<byte>
    requires n <= |blocks|
  {
    if n == 0 then [] else BlocksFed(blocks, n - 1) + blocks[n - 1]
  }

  /** The variables after copying `bytes`, split in member order, into the
      members `ms`. */
  function WriteMembers(vars: seq<Variable>, ms: seq<nat>, bytes: seq<byte>): (r: seq<Variable>)
    requires InRange(ms, |vars|) && |bytes| == SumSizes(vars, ms)
    ensures |r| == |vars|
  {
    if ms == [] then vars
    else
      var pre, m := ms[..|ms| - 1], ms[|ms| - 1];
      var off := SumSizes(vars, pre);
      var r := WriteMembers(vars, pre, bytes[..off]);
      r[m := r[m].(data := bytes[off..])]
  }

  /** Building a group from a list of variable ids either yields the group
      or fails with an answer code. */
  datatype Build = Built(group: Group) | Failed(code: byte)

  /** The loop of CREATE_GROUP: start from `group_init(id, true)` and add the
      listed variables in order. An unknown id fails with INVALID_ID, a
      variable the group already holds with INSUFFICIENT_MEMORY (the list
      refuses it). */
  function BuildGroup(vars: seq<Variable>, ids: seq<byte>, id: byte): Build
  {
    if ids == [] then Built(GroupInit(id, true))
    else
      match BuildGroup(vars, ids[..|ids| - 1], id)
      case Failed(c) => Failed(c)
      case Built(g) =>
        var v := ids[|ids| - 1];
        match ListValueAt(vars, v)
        case Err(_) => Failed(CMD_ERR_INVALID_ID)
        case Ok(x) =>
          var (err, ms) := ListAdd(g.members, v as nat);
          if err != Success then Failed(CMD_ERR_INSUFFICIENT_MEMORY)
          else Built(Group(g.id, g.writable && x.writable, (g.dataSize + x.size) % 0x100, ms))
  }

  // ---------------------------------------------------------------------
  // Commands. Each first checks the payload size, then the id, then any
  // exact size, then the access; the first failing check decides the
  // answer and leaves the registry unchanged.

  function QueryVarsList(s: State, p: seq<byte>): Outcome
  {
    if !PayloadSizeOk(|p|, 0, false) then Answer(s, CMD_ERR_INVALID_PAYLOAD_SIZE)
    else Outcome(s, Response(CMD_VARS_LIST, VarsListPayload(s.vars)))
  }

  function QueryGroupsList(s: State, p: seq<byte>): Outcome
  {
    if !PayloadSizeOk(|p|, 0, false) then Answer(s, CMD_ERR_INVALID_PAYLOAD_SIZE)
    else Outcome(s, Response(CMD_GROUPS_LIST, GroupsListPayload(s.groups)))
  }

  function QueryGroup(s: State, p: seq<byte>): Outcome
    requires Invariant(s)
  {
    if !PayloadSizeOk(|p|, 1, false) then Answer(s, CMD_ERR_INVALID_PAYLOAD_SIZE)
    else
      match ListValueAt(s.groups, p[0])
      case Err(_) => Answer(s, CMD_ERR_INVALID_ID)
      case Ok(g) =>
        assert GroupWellFormed(s.vars, s.groups[p[0]], p[0]);
        Outcome(s, Response(CMD_GROUP, MemberIds(s.vars, g.members)))
  }

  function QueryCurvesList(s: State, p: seq<byte>): Outcome
  {
    if !PayloadSizeOk(|p|, 0, false) then Answer(s, CMD_ERR_INVALID_PAYLOAD_SIZE)
    else Outcome(s, Response(CMD_CURVES_LIST, CurvesListPayload(s.curves)))
  }

  /** READ_VAR: the hook is told before the bytes are taken. */
  function ReadVar(s: State, p: seq<byte>): Outcome
  {
    if !PayloadSizeOk(|p|, 1, false) then Answer(s, CMD_ERR_INVALID_PAYLOAD_SIZE)
    else
      match ListValueAt(s.vars, p[0])
      case Err(_) => Answer(s, CMD_ERR_INVALID_ID)
      case Ok(v) => Outcome(s.(calls := Notify(s, Read, [p[0] as nat])), Response(CMD_VAR_READING, v.data))
  }

  /** READ_GROUP: the hook is told about all members before their bytes are
      taken; the answer announces the group's `uint8_t` data size, so only
      that many of the members' bytes are sent. */
  function ReadGroup(s: State, p: seq<byte>): Outcome
    requires Invariant(s)
  {
    if !PayloadSizeOk(|p|, 1, false) then Answer(s, CMD_ERR_INVALID_PAYLOAD_SIZE)
    else
      match ListValueAt(s.groups, p[0])
      case Err(_) => Answer(s, CMD_ERR_INVALID_ID)
      case Ok(g) =>
        GroupBytesFit(s, p[0]);
        Outcome(s.(calls := Notify(s, Read, g.members)),
                Response(CMD_GROUP_READING, MemberBytes(s.vars, g.members)[..g.dataSize]))
  }

  /** WRITE_VAR: the bytes after the id replace the variable's bytes, then the
      hook is told. */
  function WriteVar(s: State, p: seq<byte>): Outcome
  {
    if !PayloadSizeOk(|p|, 2, true) then Answer(s, CMD_ERR_INVALID_PAYLOAD_SIZE)
    else
      match ListValueAt(s.vars, p[0])
      case Err(_) => Answer(s, CMD_ERR_INVALID_ID)
      case Ok(v) =>
        if !PayloadSizeOk(|p|, v.size + 1, false) then Answer(s, CMD_ERR_INVALID_PAYLOAD_SIZE)
        else if !v.writable then Answer(s, CMD_ERR_READ_ONLY)
        else
          var s' := s.(vars := s.vars[p[0] := v.(data := p[1..])]);
          Outcome(s'.(calls := Notify(s', Write, [p[0] as nat])), Response(CMD_OK, []))
  }

  /** WRITE_GROUP: the group is the one numbered by the first payload byte;
      the bytes after it are split over the members in order, then the hook
      is told. When the members' total size has wrapped in the `uint8_t`
      data size, a payload that passes the size check is too short for the
      members, and it is refused as a bad payload size. */
  function WriteGroup(s: State, p: seq<byte>): Outcome
    requires Invariant(s)
  {
    if !PayloadSizeOk(|p|, 2, true) then Answer(s, CMD_ERR_INVALID_PAYLOAD_SIZE)
    else
      match ListValueAt(s.groups, p[0])
      case Err(_) => Answer(s, CMD_ERR_INVALID_ID)
      case Ok(g) =>
        assert GroupWellFormed(s.vars, s.groups[p[0]], p[0]);
        if !PayloadSizeOk(|p|, g.dataSize + 1, false) then Answer(s, CMD_ERR_INVALID_PAYLOAD_SIZE)
        else if !g.writable then Answer(s, CMD_ERR_READ_ONLY)
        else if |p| - 1 != SumSizes(s.vars, g.members) then Answer(s, CMD_ERR_INVALID_PAYLOAD_SIZE)
        else
          var s' := s.(vars := WriteMembers(s.vars, g.members, p[1..]));
          Outcome(s'.(calls := Notify(s', Write, g.members)), Response(CMD_OK, []))
  }

  /** CREATE_GROUP: between one and as many ids as there are variables; the
      new group gets the next id and is appended; the answer is its id with
      the writable flag. */
  function CreateGroup(s: State, p: seq<byte>): Outcome
    requires |s.groups| <= MAX_GROUPS
  {
    if !PayloadSizeOk(|p|, 1, true) then Answer(s, CMD_ERR_INVALID_PAYLOAD_SIZE)
    else if PayloadSizeOk(|p|, |s.vars| + 1, true) then Answer(s, CMD_ERR_INVALID_PAYLOAD_SIZE)
    else if |s.groups| == MAX_GROUPS then Answer(s, CMD_ERR_INSUFFICIENT_MEMORY)
    else
      var b := BuildGroup(s.vars, p, |s.groups|);
      if b.Failed? then Answer(s, b.code)
      else Outcome(s.(groups := s.groups + [b.group]),
                   Response(CMD_GROUP_CREATED, [CreatedByte(b.group)]))
  }

  /** REMOVE_ALL_GROUPS: the group table is trimmed to the standard groups. */
  function RemoveAllGroups(s: State, p: seq<byte>): Outcome
  {
    if !PayloadSizeOk(|p|, 0, false) then Answer(s, CMD_ERR_INVALID_PAYLOAD_SIZE)
    else Outcome(s.(groups := ListTrim(s.groups, GROUP_STANDARD_COUNT).1), Response(CMD_OK, []))
  }

  /** CURVE_TRANSMIT: answers with the curve id, the block index and the
      block as `read_block` yields it. */
  function CurveTransmit(s: State, p: seq<byte>): Outcome
    requires Invariant(s)
  {
    if !PayloadSizeOk(|p|, 2, false) then Answer(s, CMD_ERR_INVALID_PAYLOAD_SIZE)
    else
      match ListValueAt(s.curves, p[0])
      case Err(_) => Answer(s, CMD_ERR_INVALID_ID)
      case Ok(c) =>
        if p[1] > c.nblocks then Answer(s, CMD_ERR_INVALID_VALUE)
        else
          assert CurveWellFormed(s.curves[p[0]], p[0]);
          Outcome(s, Response(CMD_CURVE_BLOCK, [c.id, p[1]] + c.blocks[p[1]]))
  }

  /** CURVE_BLOCK: `write_block` stores the block; a read-only curve, which
      has no `write_block`, is refused. The checksum is not touched. */
  function CurveBlock(s: State, p: seq<byte>): Outcome
    requires Invariant(s)
  {
    if !PayloadSizeOk(|p|, CURVE_BLOCK_PAYLOAD, false) then Answer(s, CMD_ERR_INVALID_PAYLOAD_SIZE)
    else
      match ListValueAt(s.curves, p[0])
      case Err(_) => Answer(s, CMD_ERR_INVALID_ID)
      case Ok(c) =>
        if p[1] > c.nblocks then Answer(s, CMD_ERR_INVALID_VALUE)
        else if !c.writable then Answer(s, CMD_ERR_READ_ONLY)
        else
          assert CurveWellFormed(s.curves[p[0]], p[0]);
          Outcome(s.(curves := s.curves[p[0] := c.(blocks := c.blocks[p[1] := p[2..]])]), Response(CMD_OK, []))
  }

  /** CURVE_RECALC_CSUM: blocks 0..nblocks are read in order and fed to MD5;
      the digest becomes the curve's checksum. */
  function CurveRecalcCsum(s: State, p: seq<byte>, md5: Md5): Outcome
    requires Invariant(s)
  {
    if !PayloadSizeOk(|p|, 1, false) then Answer(s, CMD_ERR_INVALID_PAYLOAD_SIZE)
    else
      match ListValueAt(s.curves, p[0])
      case Err(_) => Answer(s, CMD_ERR_INVALID_ID)
      case Ok(c) =>
        assert CurveWellFormed(s.curves[p[0]], p[0]);
        var sum := md5(BlocksFed(c.blocks, c.nblocks + 1));
        Outcome(s.(curves := s.curves[p[0] := c.(checksum := sum)]), Response(CMD_OK, []))
  }

  /** `message_process`: the command code selects the handler; any other
      code, the status query included, is not supported. */
  function Dispatch(s: State, code: byte, p: seq<byte>, md5: Md5): Outcome
    requires Invariant(s)
  {
    if code == CMD_QUERY_VARS_LIST then QueryVarsList(s, p)
    else if code == CMD_QUERY_GROUPS_LIST then QueryGroupsList(s, p)
    else if code == CMD_QUERY_GROUP then QueryGroup(s, p)
    else if code == CMD_QUERY_CURVES_LIST then QueryCurvesList(s, p)
    else if code == CMD_READ_VAR then ReadVar(s, p)
    else if code == CMD_READ_GROUP then ReadGroup(s, p)
    else if code == CMD_WRITE_VAR then WriteVar(s, p)
    else if code == CMD_WRITE_GROUP then WriteGroup(s, p)
    else if code == CMD_CREATE_GROUP then CreateGroup(s, p)
    else if code == CMD_REMOVE_ALL_GROUPS then RemoveAllGroups(s, p)
    else if code == CMD_CURVE_TRANSMIT then CurveTransmit(s, p)
    else if code == CMD_CURVE_BLOCK then CurveBlock(s, p)
    else if code == CMD_CURVE_RECALC_CSUM then CurveRecalcCsum(s, p, md5)
    else Answer(s, CMD_ERR_OP_NOT_SUPPORTED)
  }

  /** `packet_process`: a packet whose length disagrees with its header is
      answered MALFORMED_MESSAGE; otherwise the message is dispatched. */
  function Process(s: State, packet: seq<byte>, md5: Md5): Outcome
    requires Invariant(s)
  {
    if |packet| < HEADER_LEN || !IsSizeOk(|packet|, DecodeSize(packet[1])) then Answer(s, CMD_ERR_MALFORMED_MESSAGE)
    else Dispatch(s, packet[0], packet[HEADER_LEN..], md5)
  }
}
