/** The request handlers of libsllpserver/message.c as they run: each one
    fills the answer in the outgoing packet buffer and updates the registry
    in place, and is proved to compute exactly the function of module
    Protocol for its command. */
module Message {
  import opened SllpTypes
  import opened SllpList
  import opened Common
  import opened Codec
  import P = Protocol
  import L = ProtocolLemmas

  /** `memcpy(dst + at, src, |src|)`. */
  method Copy(dst: array<byte>, at: nat, src: seq<byte>)
    requires at + |src| <= dst.Length
    modifies dst
    ensures dst[at .. at + |src|] == src
    ensures dst[..at] == old(dst[..at])
    ensures forall i :: 0 <= i < dst.Length && !(at <= i < at + |src|) ==> dst[i] == old(dst[i])
  {
    forall i | 0 <= i < |src| {
      dst[at + i] := src[i];
    }
  }

  /** `struct message` for the answer: its command code, its payload size,
      and the outgoing packet, whose payload starts after the header. */
  class Answer {
    var code: byte
    var payloadSize: nat
    const packet: array<byte>

    ghost predicate Valid()
      reads this
    {
      HEADER_LEN + MAX_MESSAGE <= packet.Length && payloadSize <= MAX_MESSAGE
    }

    function Payload(): seq<byte>
      reads this, packet
      requires Valid()
    {
      packet[HEADER_LEN .. HEADER_LEN + payloadSize]
    }

    function Response(): P.Response
      reads this, packet
      requires Valid()
    {
      P.Response(code, Payload())
    }

    /** The answer is written into `buffer`; its code is not set yet. */
    constructor (buffer: array<byte>)
      requires HEADER_LEN + MAX_MESSAGE <= buffer.Length
      ensures Valid() && packet == buffer && payloadSize == 0
    {
      code := CMD_ERR_INTERNAL;
      payloadSize := 0;
      packet := buffer;
    }

    /** `message_set_answer`: the code, and no payload. */
    method SetAnswer(c: byte)
      modifies this
      ensures code == c && payloadSize == 0
    {
      code := c;
      payloadSize := 0;
    }

    /** The answer's header, in front of its payload: the code and the
        encoded payload size. Returns the length of the packet. */
    method PutHeader() returns (len: nat)
      requires Valid()
      modifies packet
      ensures len == HEADER_LEN + payloadSize
      ensures Payload() == old(Payload())
      ensures packet[..len] == Wire(code, Payload())
    {
      ghost var payload := Payload();
      packet[0] := code;
      packet[1] := EncodeSize(payloadSize);
      len := payloadSize + HEADER_LEN;
      assert Payload() == payload;
      assert packet[..len] == [packet[0], packet[1]] + Payload();
    }

    /** `is_payload_size_equal_to`: whether a payload of `recvSize` bytes has
        exactly `size` bytes (at least `size` when `atLeast` holds); when it
        has not, the answer becomes INVALID_PAYLOAD_SIZE. */
    method CheckPayloadSize(recvSize: nat, size: nat, atLeast: bool) returns (ok: bool)
      modifies this
      ensures ok == PayloadSizeOk(recvSize, size, atLeast)
      ensures ok ==> code == old(code) && payloadSize == old(payloadSize)
      ensures !ok ==> code == CMD_ERR_INVALID_PAYLOAD_SIZE && payloadSize == 0
    {
      if atLeast {
        if recvSize >= size {
          return true;
        }
      } else {
        if recvSize == size {
          return true;
        }
      }
      SetAnswer(CMD_ERR_INVALID_PAYLOAD_SIZE);
      ok := false;
    }
  }

  /** Records a call of the registered hook, if any. */
  method CallHook(sllp: Instance, op: Op, ids: seq<nat>)
    modifies sllp
    ensures sllp.Snapshot() == old(sllp.Snapshot()).(calls := P.Notify(old(sllp.Snapshot()), op, ids))
  {
    if sllp.hook.Some? {
      sllp.calls := sllp.calls + [HookCall(sllp.hook.value, op, ids, sllp.vars)];
    }
  }

  // ---------------------------------------------------------------------
  // Payload writers: the loops that fill the answer's payload, which starts
  // at `packet[HEADER_LEN]`.

  /** One byte per variable: its access flag plus its size. */
  method PutVarsList(packet: array<byte>, vars: seq<Variable>)
    requires HEADER_LEN + |vars| <= packet.Length
    modifies packet
    ensures packet[HEADER_LEN .. HEADER_LEN + |vars|] == P.VarsListPayload(vars)
  {
    var i := 0;
    while i < |vars|
      invariant 0 <= i <= |vars|
      invariant forall j :: 0 <= j < i ==>
                  packet[HEADER_LEN + j] == (P.Flag(vars[j].writable) + vars[j].size) % 0x100
    {
      var v := vars[i];
      packet[HEADER_LEN + i] := if v.writable then WRITABLE else READ_ONLY;
      packet[HEADER_LEN + i] := (packet[HEADER_LEN + i] + v.size) % 0x100;
      i := i + 1;
    }
  }

  /** One byte per group: its access flag plus its member count. */
  method PutGroupsList(packet: array<byte>, groups: seq<Group>)
    requires HEADER_LEN + |groups| <= packet.Length
    modifies packet
    ensures packet[HEADER_LEN .. HEADER_LEN + |groups|] == P.GroupsListPayload(groups)
  {
    var i := 0;
    while i < |groups|
      invariant 0 <= i <= |groups|
      invariant forall j :: 0 <= j < i ==>
                  packet[HEADER_LEN + j] == (P.Flag(groups[j].writable) + |groups[j].members|) % 0x100
    {
      var g := groups[i];
      packet[HEADER_LEN + i] := if g.writable then WRITABLE else READ_ONLY;
      packet[HEADER_LEN + i] := (packet[HEADER_LEN + i] + |g.members|) % 0x100;
      i := i + 1;
    }
  }

  /** The ids of the members, in order. */
  method PutMemberIds(packet: array<byte>, vars: seq<Variable>, ms: seq<nat>)
    requires InRange(ms, |vars|) && HEADER_LEN + |ms| <= packet.Length
    modifies packet
    ensures packet[HEADER_LEN .. HEADER_LEN + |ms|] == P.MemberIds(vars, ms)
  {
    var i := 0;
    while i < |ms|
      invariant 0 <= i <= |ms|
      invariant forall j :: 0 <= j < i ==> packet[HEADER_LEN + j] == vars[ms[j]].id
    {
      packet[HEADER_LEN + i] := vars[ms[i]].id;
      i := i + 1;
    }
  }

  /** One curve's entry at `packet[at]`: the writable flag, the highest
      block index and the checksum. */
  method PutCurveInfo(packet: array<byte>, at: nat, c: Curve)
    requires |c.checksum| == CURVE_CSUM_SIZE && HEADER_LEN <= at && at + CURVE_INFO_SIZE <= packet.Length
    modifies packet
    ensures packet[at .. at + CURVE_INFO_SIZE] == P.CurveInfo(c)
    ensures packet[HEADER_LEN .. at] == old(packet[HEADER_LEN .. at])
  {
    ghost var done := packet[HEADER_LEN .. at];
    packet[at] := if c.writable then 1 else 0;
    packet[at + 1] := c.nblocks;
    assert packet[HEADER_LEN .. at] == done;
    ghost var head := packet[..at + 2];
    Copy(packet, at + 2, c.checksum);
    assert packet[HEADER_LEN .. at] == packet[..at + 2][HEADER_LEN .. at] == head[HEADER_LEN .. at] == done;
    assert packet[at .. at + CURVE_INFO_SIZE] == packet[..at + 2][at..] + packet[at + 2 .. at + CURVE_INFO_SIZE];
  }

  /** Per curve, its entry: the curve entries one after the other. */
  method PutCurvesList(packet: array<byte>, curves: seq<Curve>)
    requires forall k :: 0 <= k < |curves| ==> |curves[k].checksum| == CURVE_CSUM_SIZE
    requires HEADER_LEN + CURVE_INFO_SIZE * |curves| <= packet.Length
    modifies packet
    ensures packet[HEADER_LEN .. HEADER_LEN + CURVE_INFO_SIZE * |curves|] == P.CurvesListPayload(curves)
  {
    var i, at := 0, HEADER_LEN;
    while i < |curves|
      invariant 0 <= i <= |curves|
      invariant at == HEADER_LEN + CURVE_INFO_SIZE * i
      invariant packet[HEADER_LEN .. at] == P.CurvesListPayload(curves[..i])
    {
      PutCurveInfo(packet, at, curves[i]);
      assert packet[HEADER_LEN .. at + CURVE_INFO_SIZE]
          == packet[HEADER_LEN .. at] + packet[at .. at + CURVE_INFO_SIZE];
      assert curves[..i + 1][..i] == curves[..i];
      at := at + CURVE_INFO_SIZE;
      i := i + 1;
    }
    assert curves[..i] == curves;
  }

  /** The bytes of the members, one after the other. */
  method PutMemberBytes(packet: array<byte>, vars: seq<Variable>, ms: seq<nat>)
    requires InRange(ms, |vars|)
    requires forall k :: 0 <= k < |vars| ==> |vars[k].data| == vars[k].size
    requires HEADER_LEN + SumSizes(vars, ms) <= packet.Length
    modifies packet
    ensures packet[HEADER_LEN .. HEADER_LEN + SumSizes(vars, ms)] == MemberBytes(vars, ms)
  {
    var i, at := 0, HEADER_LEN;
    while i < |ms|
      invariant 0 <= i <= |ms|
      invariant InRange(ms[..i], |vars|)
      invariant at == HEADER_LEN + SumSizes(vars, ms[..i]) <= HEADER_LEN + SumSizes(vars, ms)
      invariant packet[HEADER_LEN .. at] == MemberBytes(vars, ms[..i])
    {
      var v := vars[ms[i]];
      ghost var before, done := packet[..at], packet[HEADER_LEN .. at];
      assert done == before[HEADER_LEN..];
      assert ms[..i + 1] == ms[..i] + [ms[i]];
      SumSizesAppend(vars, ms[..i], ms[i]);
      SumSizesPrefix(vars, ms, i + 1);
      Copy(packet, at, v.data);
      assert packet[HEADER_LEN .. at] == packet[..at][HEADER_LEN..] == done;
      assert packet[HEADER_LEN .. at + v.size] == packet[HEADER_LEN .. at] + packet[at .. at + v.size];
      at := at + v.size;
      i := i + 1;
    }
    assert ms[..i] == ms;
  }

  // ---------------------------------------------------------------------
  // Queries

  method QueryVarsList(sllp: Instance, recv: seq<byte>, send: Answer)
    requires sllp.Valid() && send.Valid()
    modifies send, send.packet
    ensures send.Valid()
    ensures P.QueryVarsList(sllp.Snapshot(), recv) == P.Outcome(sllp.Snapshot(), send.Response())
  {
    var ok := send.CheckPayloadSize(|recv|, 0, false);
    if !ok {
      return;
    }
    send.SetAnswer(CMD_VARS_LIST);
    PutVarsList(send.packet, sllp.vars);
    send.payloadSize := |sllp.vars|;
  }

  method QueryGroupsList(sllp: Instance, recv: seq<byte>, send: Answer)
    requires sllp.Valid() && send.Valid()
    modifies send, send.packet
    ensures send.Valid()
    ensures P.QueryGroupsList(sllp.Snapshot(), recv) == P.Outcome(sllp.Snapshot(), send.Response())
  {
    var ok := send.CheckPayloadSize(|recv|, 0, false);
    if !ok {
      return;
    }
    send.SetAnswer(CMD_GROUPS_LIST);
    PutGroupsList(send.packet, sllp.groups);
    send.payloadSize := |sllp.groups|;
  }

  method QueryGroup(sllp: Instance, recv: seq<byte>, send: Answer)
    requires sllp.Valid() && send.Valid()
    modifies send, send.packet
    ensures send.Valid()
    ensures P.QueryGroup(sllp.Snapshot(), recv) == P.Outcome(sllp.Snapshot(), send.Response())
  {
    var ok := send.CheckPayloadSize(|recv|, 1, false);
    if !ok {
      return;
    }
    send.SetAnswer(CMD_GROUP);
    var r := ListValueAt(sllp.groups, recv[0]);
    if r.Err? {
      send.SetAnswer(CMD_ERR_INVALID_ID);
      return;
    }
    var g := r.value;
    assert GroupWellFormed(sllp.vars, g, recv[0] as nat);
    PutMemberIds(send.packet, sllp.vars, g.members);
    send.payloadSize := |g.members|;
  }

  method QueryCurvesList(sllp: Instance, recv: seq<byte>, send: Answer)
    requires sllp.Valid() && send.Valid()
    modifies send, send.packet
    ensures send.Valid()
    ensures P.QueryCurvesList(sllp.Snapshot(), recv) == P.Outcome(sllp.Snapshot(), send.Response())
  {
    var ok := send.CheckPayloadSize(|recv|, 0, false);
    if !ok {
      return;
    }
    send.SetAnswer(CMD_CURVES_LIST);
    assert forall k :: 0 <= k < |sllp.curves| ==> CurveWellFormed(sllp.curves[k], k);
    PutCurvesList(send.packet, sllp.curves);
    send.payloadSize := CURVE_INFO_SIZE * |sllp.curves|;
  }

  // ---------------------------------------------------------------------
  // Reads

  /** READ_VAR: the hook is called before the bytes are copied. */
  method ReadVar(sllp: Instance, recv: seq<byte>, send: Answer)
    requires sllp.Valid() && send.Valid()
    modifies sllp, send, send.packet
    ensures send.Valid()
    ensures P.ReadVar(old(sllp.Snapshot()), recv) == P.Outcome(sllp.Snapshot(), send.Response())
  {
    var ok := send.CheckPayloadSize(|recv|, 1, false);
    if !ok {
      return;
    }
    send.SetAnswer(CMD_VAR_READING);
    var r := ListValueAt(sllp.vars, recv[0]);
    if r.Err? {
      send.SetAnswer(CMD_ERR_INVALID_ID);
      return;
    }
    var v := r.value;
    assert VarWellFormed(v, recv[0] as nat);
    CallHook(sllp, Read, [recv[0] as nat]);
    send.payloadSize := v.size;
    Copy(send.packet, HEADER_LEN, v.data);
  }

  /** READ_GROUP: the hook is called with the members, then the members'
      bytes are copied one after the other; the answer announces the group's
      data size. */
  method ReadGroup(sllp: Instance, recv: seq<byte>, send: Answer)
    requires sllp.Valid() && send.Valid()
    modifies sllp, send, send.packet
    ensures send.Valid()
    ensures P.ReadGroup(old(sllp.Snapshot()), recv) == P.Outcome(sllp.Snapshot(), send.Response())
  {
    var ok := send.CheckPayloadSize(|recv|, 1, false);
    if !ok {
      return;
    }
    send.SetAnswer(CMD_GROUP_READING);
    var r := ListValueAt(sllp.groups, recv[0]);
    if r.Err? {
      send.SetAnswer(CMD_ERR_INVALID_ID);
      return;
    }
    var g := r.value;
    ghost var s := sllp.Snapshot();
    GroupBytesFit(s, recv[0] as nat);
    assert forall k :: 0 <= k < |sllp.vars| ==> VarWellFormed(sllp.vars[k], k);
    ghost var bytes := MemberBytes(s.vars, g.members);
    assert P.ReadGroup(s, recv)
        == P.Outcome(s.(calls := P.Notify(s, Read, g.members)), P.Response(CMD_GROUP_READING, bytes[..g.dataSize]));
    CallHook(sllp, Read, g.members);
    assert sllp.vars == s.vars;
    PutMemberBytes(send.packet, sllp.vars, g.members);
    send.payloadSize := g.dataSize;
    ghost var n := SumSizes(s.vars, g.members);
    assert send.packet[HEADER_LEN .. HEADER_LEN + n] == bytes;
    assert send.Payload() == send.packet[HEADER_LEN .. HEADER_LEN + n][..g.dataSize];
  }

  // ---------------------------------------------------------------------
  // Writes

  /** WRITE_VAR: the bytes after the id are copied into the variable, then
      the hook is called. */
  method WriteVar(sllp: Instance, recv: seq<byte>, send: Answer)
    requires sllp.Valid() && send.Valid()
    modifies sllp, send
    ensures send.Valid()
    ensures P.WriteVar(old(sllp.Snapshot()), recv) == P.Outcome(sllp.Snapshot(), send.Response())
  {
    var ok := send.CheckPayloadSize(|recv|, 2, true);
    if !ok {
      return;
    }
    send.SetAnswer(CMD_OK);
    var r := ListValueAt(sllp.vars, recv[0]);
    if r.Err? {
      send.SetAnswer(CMD_ERR_INVALID_ID);
      return;
    }
    var v := r.value;
    ok := send.CheckPayloadSize(|recv|, v.size + 1, false);
    if !ok {
      return;
    }
    if !v.writable {
      send.SetAnswer(CMD_ERR_READ_ONLY);
      return;
    }
    sllp.vars := sllp.vars[recv[0] := v.(data := recv[1..])];
    CallHook(sllp, Write, [recv[0] as nat]);
  }

  /** The loop of WRITE_GROUP: `bytes` is cut into pieces of the members'
      sizes, in member order, and each piece is copied into its member. */
  method WriteMembersInPlace(sllp: Instance, ms: seq<nat>, bytes: seq<byte>)
    requires InRange(ms, |sllp.vars|) && |bytes| == SumSizes(sllp.vars, ms)
    modifies sllp
    ensures sllp.vars == P.WriteMembers(old(sllp.vars), ms, bytes)
    ensures sllp.Snapshot() == old(sllp.Snapshot()).(vars := sllp.vars)
  {
    ghost var vars0 := sllp.vars;
    var i, at := 0, 0;
    while i < |ms|
      invariant 0 <= i <= |ms|
      invariant InRange(ms[..i], |vars0|)
      invariant at == SumSizes(vars0, ms[..i]) <= |bytes|
      invariant sllp.vars == P.WriteMembers(vars0, ms[..i], bytes[..at])
      invariant SameLayout(vars0, sllp.vars)
      modifies sllp`vars
    {
      var m := ms[i];
      var v := sllp.vars[m];
      assert v.size == vars0[m].size;
      L.WriteMembersExtend(vars0, ms, bytes, i);
      sllp.vars := sllp.vars[m := v.(data := bytes[at .. at + v.size])];
      at := at + v.size;
      i := i + 1;
    }
    assert ms[..i] == ms && bytes[..at] == bytes;
  }

  /** WRITE_GROUP: the bytes after the group id are split over the members in
      order, then the hook is called with the members. */
  method WriteGroup(sllp: Instance, recv: seq<byte>, send: Answer)
    requires sllp.Valid() && send.Valid()
    modifies sllp, send
    ensures send.Valid()
    ensures P.WriteGroup(old(sllp.Snapshot()), recv) == P.Outcome(sllp.Snapshot(), send.Response())
  {
    var ok := send.CheckPayloadSize(|recv|, 2, true);
    if !ok {
      return;
    }
    var r := ListValueAt(sllp.groups, recv[0]);
    if r.Err? {
      send.SetAnswer(CMD_ERR_INVALID_ID);
      return;
    }
    var g := r.value;
    assert GroupWellFormed(sllp.vars, g, recv[0] as nat);
    ok := send.CheckPayloadSize(|recv|, g.dataSize + 1, false);
    if !ok {
      return;
    }
    if !g.writable {
      send.SetAnswer(CMD_ERR_READ_ONLY);
      return;
    }
    // A data size that wrapped past 255 lets through a payload shorter than
    // the members' bytes; it is refused here.
    if |recv| - 1 != SumSizes(sllp.vars, g.members) {
      send.SetAnswer(CMD_ERR_INVALID_PAYLOAD_SIZE);
      return;
    }
    WriteMembersInPlace(sllp, g.members, recv[1..]);
    CallHook(sllp, Write, g.members);
    send.SetAnswer(CMD_OK);
  }

  // ---------------------------------------------------------------------
  // Group management

  /** The loop of CREATE_GROUP: each id is looked up and added to a new
      writable group with id `id`, whose data size grows by the variable's
      size; the first unknown id, or the first id the list refuses, ends the
      loop with the error answer. */
  method BuildGroupLoop(vars: seq<Variable>, ids: seq<byte>, id: byte) returns (b: P.Build)
    ensures b == P.BuildGroup(vars, ids, id)
  {
    var g := GroupInit(id, true);
    var i := 0;
    while i < |ids|
      invariant 0 <= i <= |ids|
      invariant P.BuildGroup(vars, ids[..i], id) == P.Built(g)
    {
      assert ids[..i + 1][..i] == ids[..i] && ids[..i + 1][i] == ids[i];
      var r := ListValueAt(vars, ids[i]);
      if r.Err? {
        L.BuildGroupFailurePersists(vars, ids, i + 1, id);
        return P.Failed(CMD_ERR_INVALID_ID);
      }
      var added := ListAdd(g.members, ids[i] as nat);
      if added.0 != Success {
        L.BuildGroupFailurePersists(vars, ids, i + 1, id);
        return P.Failed(CMD_ERR_INSUFFICIENT_MEMORY);
      }
      g := Group(g.id, g.writable && r.value.writable, (g.dataSize + r.value.size) % 0x100, added.1);
      i := i + 1;
    }
    assert ids[..i] == ids;
    b := P.Built(g);
  }

  /** CREATE_GROUP: the ids are added one by one to a new writable group
      with the next id; the first unknown id or repeated variable abandons
      the group. */
  method CreateGroup(sllp: Instance, recv: seq<byte>, send: Answer)
    requires sllp.Valid() && send.Valid()
    modifies sllp, send, send.packet
    ensures send.Valid()
    ensures P.CreateGroup(old(sllp.Snapshot()), recv) == P.Outcome(sllp.Snapshot(), send.Response())
  {
    var ok := send.CheckPayloadSize(|recv|, 1, true);
    if !ok {
      return;
    }
    if PayloadSizeOk(|recv|, |sllp.vars| + 1, true) {
      send.SetAnswer(CMD_ERR_INVALID_PAYLOAD_SIZE);
      return;
    }
    if |sllp.groups| == MAX_GROUPS {
      send.SetAnswer(CMD_ERR_INSUFFICIENT_MEMORY);
      return;
    }
    var b := BuildGroupLoop(sllp.vars, recv, |sllp.groups|);
    if b.Failed? {
      send.SetAnswer(b.code);
      return;
    }
    var g := b.group;
    sllp.groups := sllp.groups + [g];
    send.SetAnswer(CMD_GROUP_CREATED);
    send.payloadSize := 1;
    send.packet[HEADER_LEN] := if g.writable then WRITABLE else READ_ONLY;
    send.packet[HEADER_LEN] := (send.packet[HEADER_LEN] + g.id) % 0x100;
  }

  method RemoveAllGroups(sllp: Instance, recv: seq<byte>, send: Answer)
    requires sllp.Valid() && send.Valid()
    modifies sllp, send
    ensures send.Valid()
    ensures P.RemoveAllGroups(old(sllp.Snapshot()), recv) == P.Outcome(sllp.Snapshot(), send.Response())
  {
    var ok := send.CheckPayloadSize(|recv|, 0, false);
    if !ok {
      return;
    }
    send.SetAnswer(CMD_OK);
    var trimmed := ListTrim(sllp.groups, GROUP_STANDARD_COUNT);
    sllp.groups := trimmed.1;
  }

  // ---------------------------------------------------------------------
  // Curves

  /** CURVE_TRANSMIT: curve id and block index, then `read_block` fills the
      rest of the payload. */
  method CurveTransmit(sllp: Instance, recv: seq<byte>, send: Answer)
    requires sllp.Valid() && send.Valid()
    modifies send, send.packet
    ensures send.Valid()
    ensures P.CurveTransmit(sllp.Snapshot(), recv) == P.Outcome(sllp.Snapshot(), send.Response())
  {
    var ok := send.CheckPayloadSize(|recv|, 2, false);
    if !ok {
      return;
    }
    var r := ListValueAt(sllp.curves, recv[0]);
    if r.Err? {
      send.SetAnswer(CMD_ERR_INVALID_ID);
      return;
    }
    var c := r.value;
    var block := recv[1];
    if block > c.nblocks {
      send.SetAnswer(CMD_ERR_INVALID_VALUE);
      return;
    }
    assert CurveWellFormed(c, recv[0] as nat);
    send.SetAnswer(CMD_CURVE_BLOCK);
    send.packet[HEADER_LEN] := c.id;
    send.packet[HEADER_LEN + 1] := block;
    Copy(send.packet, HEADER_LEN + 2, c.blocks[block]);
    send.payloadSize := CURVE_BLOCK_PAYLOAD;
    assert send.Payload() == [c.id, block] + c.blocks[block];
  }

  /** CURVE_BLOCK: `write_block` stores the block. */
  method CurveBlock(sllp: Instance, recv: seq<byte>, send: Answer)
    requires sllp.Valid() && send.Valid()
    modifies sllp, send
    ensures send.Valid()
    ensures P.CurveBlock(old(sllp.Snapshot()), recv) == P.Outcome(sllp.Snapshot(), send.Response())
  {
    var ok := send.CheckPayloadSize(|recv|, CURVE_BLOCK_PAYLOAD, false);
    if !ok {
      return;
    }
    var id := recv[0];
    var r := ListValueAt(sllp.curves, id);
    if r.Err? {
      send.SetAnswer(CMD_ERR_INVALID_ID);
      return;
    }
    var c := r.value;
    var block := recv[1];
    if block > c.nblocks {
      send.SetAnswer(CMD_ERR_INVALID_VALUE);
      return;
    }
    if !c.writable {
      send.SetAnswer(CMD_ERR_READ_ONLY);
      return;
    }
    assert CurveWellFormed(c, id as nat);
    sllp.curves := sllp.curves[id := c.(blocks := c.blocks[block := recv[2..]])];
    send.SetAnswer(CMD_OK);
  }

  /** CURVE_RECALC_CSUM: blocks 0 to `nblocks` are read in order and fed to
      MD5, whose digest becomes the checksum. */
  method CurveRecalcCsum(sllp: Instance, recv: seq<byte>, send: Answer, md5: P.Md5)
    requires sllp.Valid() && send.Valid()
    modifies sllp, send
    ensures send.Valid()
    ensures P.CurveRecalcCsum(old(sllp.Snapshot()), recv, md5) == P.Outcome(sllp.Snapshot(), send.Response())
  {
    var ok := send.CheckPayloadSize(|recv|, 1, false);
    if !ok {
      return;
    }
    var id := recv[0];
    var r := ListValueAt(sllp.curves, id);
    if r.Err? {
      send.SetAnswer(CMD_ERR_INVALID_ID);
      return;
    }
    var c := r.value;
    assert CurveWellFormed(c, id as nat);
    var nblocks := c.nblocks + 1;
    var fed: seq<byte> := [];
    var i := 0;
    while i < nblocks
      invariant 0 <= i <= nblocks
      invariant fed == P.BlocksFed(c.blocks, i)
    {
      var block := c.blocks[i];
      fed := fed + block;
      i := i + 1;
    }
    sllp.curves := sllp.curves[id := c.(checksum := md5(fed))];
    send.SetAnswer(CMD_OK);
  }

  // ---------------------------------------------------------------------
  // Dispatch

  /** `message_process`: runs the handler the command code selects; any other
      code is not supported. The registry invariant is kept. */
  method MessageProcess(sllp: Instance, code: byte, recv: seq<byte>, send: Answer, md5: P.Md5)
    requires sllp.Valid() && send.Valid()
    modifies sllp, send, send.packet
    ensures sllp.Valid() && send.Valid()
    ensures P.Dispatch(old(sllp.Snapshot()), code, recv, md5) == P.Outcome(sllp.Snapshot(), send.Response())
  {
    L.DispatchKeepsInvariant(sllp.Snapshot(), code, recv, md5);
    if code == CMD_QUERY_VARS_LIST {
      QueryVarsList(sllp, recv, send);
    } else if code == CMD_QUERY_GROUPS_LIST {
      QueryGroupsList(sllp, recv, send);
    } else if code == CMD_QUERY_GROUP {
      QueryGroup(sllp, recv, send);
    } else if code == CMD_QUERY_CURVES_LIST {
      QueryCurvesList(sllp, recv, send);
    } else if code == CMD_READ_VAR {
      ReadVar(sllp, recv, send);
    } else if code == CMD_READ_GROUP {
      ReadGroup(sllp, recv, send);
    } else if code == CMD_WRITE_VAR {
      WriteVar(sllp, recv, send);
    } else if code == CMD_WRITE_GROUP {
      WriteGroup(sllp, recv, send);
    } else if code == CMD_CREATE_GROUP {
      CreateGroup(sllp, recv, send);
    } else if code == CMD_REMOVE_ALL_GROUPS {
      RemoveAllGroups(sllp, recv, send);
    } else if code == CMD_CURVE_TRANSMIT {
      CurveTransmit(sllp, recv, send);
    } else if code == CMD_CURVE_BLOCK {
      CurveBlock(sllp, recv, send);
    } else if code == CMD_CURVE_RECALC_CSUM {
      CurveRecalcCsum(sllp, recv, send, md5);
    } else {
      send.SetAnswer(CMD_ERR_OP_NOT_SUPPORTED);
    }
  }

  /** `packet_process`: checks the framing, processes the message and writes
      the answer's header; returns the answer packet's length. */
  method PacketProcess(sllp: Instance, request: seq<byte>, response: array<byte>, md5: P.Md5) returns (len: nat)
    requires sllp.Valid() && |request| < 0x1_0000
    requires HEADER_LEN + MAX_MESSAGE <= response.Length
    modifies sllp, response
    ensures sllp.Valid()
    ensures HEADER_LEN <= len <= HEADER_LEN + MAX_MESSAGE
    ensures response[..len] == Wire(response[0], response[HEADER_LEN .. len])
    ensures P.Process(old(sllp.Snapshot()), request, md5)
            == P.Outcome(sllp.Snapshot(), P.Response(response[0], response[HEADER_LEN .. len]))
  {
    ghost var s0 := sllp.Snapshot();
    var send := new Answer(response);
    if |request| < HEADER_LEN || !IsSizeOk(|request|, DecodeSize(request[1])) {
      send.SetAnswer(CMD_ERR_MALFORMED_MESSAGE);
      assert P.Process(s0, request, md5) == P.Answer(s0, CMD_ERR_MALFORMED_MESSAGE);
    } else {
      MessageProcess(sllp, request[0], request[HEADER_LEN..], send, md5);
      assert P.Process(s0, request, md5) == P.Dispatch(s0, request[0], request[HEADER_LEN..], md5);
    }
    assert P.Process(s0, request, md5) == P.Outcome(sllp.Snapshot(), send.Response());
    len := send.PutHeader();
    assert response[HEADER_LEN .. len] == response[..len][HEADER_LEN..];
  }
}
