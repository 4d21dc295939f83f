/** Properties of request processing (libsllpserver/message.c): the
    registry invariant is kept, answers fit a message, failed checks change
    nothing, and what each answer means. */
module ProtocolLemmas {
  import opened SllpTypes
  import opened SllpList
  import opened Common
  import opened Codec
  import opened Protocol

  // ---------------------------------------------------------------------
  // Facts about the helper functions

  /** The bytes of member `k` sit right after those of the members before it. */
  lemma {:induction false} MemberBytesAt(vars: seq<Variable>, ms: seq<nat>, k: nat)
    requires InRange(ms, |vars|) && k < |ms|
    requires forall i :: 0 <= i < |vars| ==> |vars[i].data| == vars[i].size
    ensures InRange(ms[..k], |vars|)
    ensures SumSizes(vars, ms[..k]) + vars[ms[k]].size <= |MemberBytes(vars, ms)|
    ensures MemberBytes(vars, ms)[SumSizes(vars, ms[..k]) .. SumSizes(vars, ms[..k]) + vars[ms[k]].size]
            == vars[ms[k]].data
  {
    var pre := ms[..|ms| - 1];
    MemberBytesLength(vars, pre);
    if k == |ms| - 1 {
      assert ms[..k] == pre;
    } else {
      MemberBytesAt(vars, pre, k);
      assert pre[..k] == ms[..k];
    }
  }

  /** Writing a group changes nothing but the bytes of its members, and
      gives each member as many bytes as its size. */
  lemma {:induction false} WriteMembersLayout(vars: seq<Variable>, ms: seq<nat>, bytes: seq<byte>)
    requires InRange(ms, |vars|) && |bytes| == SumSizes(vars, ms)
    ensures SameLayout(vars, WriteMembers(vars, ms, bytes))
    ensures forall j :: 0 <= j < |vars| && j !in ms ==> WriteMembers(vars, ms, bytes)[j] == vars[j]
    ensures forall j :: 0 <= j < |vars| && j in ms ==> |WriteMembers(vars, ms, bytes)[j].data| == vars[j].size
  {
    if ms != [] {
      var pre, m := ms[..|ms| - 1], ms[|ms| - 1];
      var off := SumSizes(vars, pre);
      WriteMembersLayout(vars, pre, bytes[..off]);
      assert ms == pre + [m];
      var r := WriteMembers(vars, pre, bytes[..off]);
      var w := WriteMembers(vars, ms, bytes);
      assert w == r[m := r[m].(data := bytes[off..])];
      forall j | 0 <= j < |vars| && j !in ms ensures w[j] == vars[j] {
        assert j !in pre && j != m;
      }
      forall j | 0 <= j < |vars| && j in ms ensures |w[j].data| == vars[j].size {
        if j != m {
          assert j in pre;
        }
      }
    }
  }

  /** The bytes of the first `i + 1` members end where the `i`-th member's
      piece ends, within the bytes. */
  lemma SumSizesNext(vars: seq<Variable>, ms: seq<nat>, i: nat)
    requires InRange(ms, |vars|) && i < |ms|
    ensures InRange(ms[..i], |vars|) && InRange(ms[..i + 1], |vars|)
    ensures ms[..i + 1] == ms[..i] + [ms[i]]
    ensures SumSizes(vars, ms[..i]) + vars[ms[i]].size == SumSizes(vars, ms[..i + 1]) <= SumSizes(vars, ms)
  {
    var m, pre, ms' := ms[i], ms[..i], ms[..i + 1];
    assert |ms'| == i + 1 && ms'[..i] == pre && ms'[i] == m;
    assert ms' == pre + [m];
    SumSizesPrefix(vars, ms, i);
    SumSizesAppend(vars, pre, m);
    SumSizesPrefix(vars, ms, i + 1);
  }

  /** One more member written: the `i`-th member takes the piece after the
      bytes of the members before it. */
  lemma WriteMembersExtend(vars: seq<Variable>, ms: seq<nat>, bytes: seq<byte>, i: nat)
    requires InRange(ms, |vars|) && |bytes| == SumSizes(vars, ms) && i < |ms|
    ensures InRange(ms[..i], |vars|) && InRange(ms[..i + 1], |vars|)
    ensures var at, size := SumSizes(vars, ms[..i]), vars[ms[i]].size;
            && at + size == SumSizes(vars, ms[..i + 1]) <= |bytes|
            && var cur := WriteMembers(vars, ms[..i], bytes[..at]);
               && WriteMembers(vars, ms[..i + 1], bytes[..at + size])
                  == cur[ms[i] := cur[ms[i]].(data := bytes[at .. at + size])]
               && SameLayout(vars, WriteMembers(vars, ms[..i + 1], bytes[..at + size]))
  {
    SumSizesNext(vars, ms, i);
    var m, pre, ms' := ms[i], ms[..i], ms[..i + 1];
    var at := SumSizes(vars, pre);
    var b := bytes[..at + vars[m].size];
    assert b[..at] == bytes[..at] && b[at..] == bytes[at .. at + vars[m].size];
    assert ms'[..|ms'| - 1] == pre && ms'[|ms'| - 1] == m;
    var cur := WriteMembers(vars, pre, bytes[..at]);
    assert WriteMembers(vars, ms', b) == cur[m := cur[m].(data := b[at..])];
    WriteMembersLayout(vars, ms', b);
  }

  /** Member `k` receives the `k`-th piece of the bytes: the piece that
      follows the bytes of the members before it. */
  lemma {:induction false} WriteMembersPiece(vars: seq<Variable>, ms: seq<nat>, bytes: seq<byte>, k: nat)
    requires InRange(ms, |vars|) && Distinct(ms) && |bytes| == SumSizes(vars, ms) && k < |ms|
    ensures InRange(ms[..k], |vars|)
    ensures SumSizes(vars, ms[..k]) + vars[ms[k]].size <= |bytes|
    ensures WriteMembers(vars, ms, bytes)[ms[k]].data
            == bytes[SumSizes(vars, ms[..k]) .. SumSizes(vars, ms[..k]) + vars[ms[k]].size]
  {
    var pre, m := ms[..|ms| - 1], ms[|ms| - 1];
    var off := SumSizes(vars, pre);
    if k == |ms| - 1 {
      assert ms[..k] == pre;
    } else {
      assert Distinct(pre);
      WriteMembersPiece(vars, pre, bytes[..off], k);
      assert ms[..k] == pre[..k] && ms[k] == pre[k];
      assert ms[k] != m;
    }
  }

  /** Every member receives its piece of the bytes. */
  lemma WriteMembersPieces(vars: seq<Variable>, ms: seq<nat>, bytes: seq<byte>)
    requires InRange(ms, |vars|) && Distinct(ms) && |bytes| == SumSizes(vars, ms)
    ensures forall k :: 0 <= k < |ms| ==>
              InRange(ms[..k], |vars|)
              && SumSizes(vars, ms[..k]) + vars[ms[k]].size <= |bytes|
              && WriteMembers(vars, ms, bytes)[ms[k]].data
                 == bytes[SumSizes(vars, ms[..k]) .. SumSizes(vars, ms[..k]) + vars[ms[k]].size]
  {
    forall k | 0 <= k < |ms|
      ensures InRange(ms[..k], |vars|)
      ensures SumSizes(vars, ms[..k]) + vars[ms[k]].size <= |bytes|
      ensures WriteMembers(vars, ms, bytes)[ms[k]].data
              == bytes[SumSizes(vars, ms[..k]) .. SumSizes(vars, ms[..k]) + vars[ms[k]].size]
    {
      WriteMembersPiece(vars, ms, bytes, k);
    }
  }

  /** Prefix failures are final: once adding some id fails, the whole build
      fails the same way. */
  lemma {:induction false} BuildGroupFailurePersists(vars: seq<Variable>, ids: seq<byte>, n: nat, id: byte)
    requires n <= |ids| && BuildGroup(vars, ids[..n], id).Failed?
    ensures BuildGroup(vars, ids, id) == BuildGroup(vars, ids[..n], id)
  {
    if n == |ids| {
      assert ids[..n] == ids;
    } else {
      var pre := ids[..|ids| - 1];
      assert pre[..n] == ids[..n];
      BuildGroupFailurePersists(vars, pre, n, id);
    }
  }

  /** The ids of a CREATE_GROUP payload, as group members. */
  function AsMembers(ids: seq<byte>): (ms: seq<nat>)
    ensures |ms| == |ids| && forall k :: 0 <= k < |ids| ==> ms[k] == ids[k]
  {
    seq(|ids|, k requires 0 <= k < |ids| => ids[k] as nat)
  }

  lemma AllWritableAppend(vars: seq<Variable>, ms: seq<nat>, m: nat)
    requires InRange(ms, |vars|) && m < |vars|
    ensures InRange(ms + [m], |vars|)
    ensures AllWritable(vars, ms + [m]) == (AllWritable(vars, ms) && vars[m].writable)
  {
    var t := ms + [m];
    assert forall k :: 0 <= k < |ms| ==> t[k] == ms[k];
    if AllWritable(vars, ms) && vars[m].writable {
      forall k | 0 <= k < |t| ensures vars[t[k]].writable {
        if k == |ms| {
          assert t[k] == m;
        }
      }
    } else if !vars[m].writable {
      assert t[|ms|] == m;
    } else {
      var k :| 0 <= k < |ms| && !vars[ms[k]].writable;
      assert t[k] == ms[k];
    }
  }

  /** One step of the CREATE_GROUP loop. */
  lemma BuildGroupStep(vars: seq<Variable>, ids: seq<byte>, id: byte)
    requires ids != []
    ensures var b, v := BuildGroup(vars, ids[..|ids| - 1], id), ids[|ids| - 1] as nat;
            BuildGroup(vars, ids, id)
            == if b.Failed? then b
               else if v >= |vars| then Failed(CMD_ERR_INVALID_ID)
               else if v in b.group.members then Failed(CMD_ERR_INSUFFICIENT_MEMORY)
               else Built(b.group.(writable := b.group.writable && vars[v].writable,
                                   dataSize := (b.group.dataSize + vars[v].size) % 0x100,
                                   members := b.group.members + [v]))
  {
  }

  lemma ByteSum(a: nat, b: nat)
    ensures (a % 0x100 + b) % 0x100 == (a + b) % 0x100
  {
  }

  /** Appending an id keeps the ids registered and distinct exactly when
      the earlier ones are and the new id is registered and not among them. */
  lemma IdsOkAppend(pre: seq<byte>, v: byte, n: nat)
    ensures AsMembers(pre + [v]) == AsMembers(pre) + [v as nat]
    ensures (InRange(AsMembers(pre + [v]), n) && Distinct(pre + [v]))
            <==> (InRange(AsMembers(pre), n) && Distinct(pre) && v < n && v as nat !in AsMembers(pre))
  {
    var ids, mp := pre + [v], AsMembers(pre);
    assert AsMembers(ids) == mp + [v as nat];
    if InRange(AsMembers(ids), n) && Distinct(ids) {
      forall k | 0 <= k < |pre| ensures mp[k] < n && mp[k] != v as nat {
        assert AsMembers(ids)[k] == mp[k] && ids[k] == pre[k] && ids[|pre|] == v;
      }
      forall a, c | 0 <= a < c < |pre| ensures pre[a] != pre[c] {
        assert ids[a] == pre[a] && ids[c] == pre[c];
      }
      assert AsMembers(ids)[|pre|] == v as nat;
    }
    if InRange(mp, n) && Distinct(pre) && v < n && v as nat !in mp {
      forall a, c | 0 <= a < c < |ids| ensures ids[a] != ids[c] {
        if c == |pre| {
          assert mp[a] == ids[a];
        } else {
          assert ids[a] == pre[a] && ids[c] == pre[c];
        }
      }
    }
  }

  /** A group is built exactly when every id names a variable and no id is
      repeated. */
  lemma {:induction false} BuildGroupSucceeds(vars: seq<Variable>, ids: seq<byte>, id: byte)
    ensures BuildGroup(vars, ids, id).Built? <==> InRange(AsMembers(ids), |vars|) && Distinct(ids)
    ensures BuildGroup(vars, ids, id).Built? ==> BuildGroup(vars, ids, id).group.members == AsMembers(ids)
  {
    if ids != [] {
      var pre, v := ids[..|ids| - 1], ids[|ids| - 1];
      BuildGroupSucceeds(vars, pre, id);
      BuildGroupStep(vars, ids, id);
      assert ids == pre + [v];
      IdsOkAppend(pre, v, |vars|);
    }
  }

  /** Adding variable `v` to a group whose data size is its members' total
      as a byte keeps it so. */
  lemma JoinKeepsDataSize(vars: seq<Variable>, ms: seq<nat>, dataSize: byte, v: nat)
    requires InRange(ms, |vars|) && v < |vars| && dataSize == SumSizes(vars, ms) % 256
    ensures InRange(ms + [v], |vars|)
    ensures (dataSize + vars[v].size) % 0x100 == SumSizes(vars, ms + [v]) % 256
  {
    SumSizesAppend(vars, ms, v);
    ByteSum(SumSizes(vars, ms), vars[v].size);
  }

  /** A built group has the requested id, is writable exactly when all its
      members are, and its data size is their total size as a byte; a failed
      build answers INVALID_ID or INSUFFICIENT_MEMORY. */
  lemma {:induction false} BuildGroupContents(vars: seq<Variable>, ids: seq<byte>, id: byte)
    ensures BuildGroup(vars, ids, id).Built? ==>
              var g := BuildGroup(vars, ids, id).group;
              && g.id == id
              && InRange(g.members, |vars|)
              && g.writable == AllWritable(vars, g.members)
              && g.dataSize == SumSizes(vars, g.members) % 256
    ensures BuildGroup(vars, ids, id).Failed? ==>
              BuildGroup(vars, ids, id).code in {CMD_ERR_INVALID_ID, CMD_ERR_INSUFFICIENT_MEMORY}
  {
    if ids != [] {
      var pre, v := ids[..|ids| - 1], ids[|ids| - 1] as nat;
      BuildGroupContents(vars, pre, id);
      BuildGroupStep(vars, ids, id);
      var b := BuildGroup(vars, pre, id);
      if b.Built? && v < |vars| && v !in b.group.members {
        AllWritableAppend(vars, b.group.members, v);
        JoinKeepsDataSize(vars, b.group.members, b.group.dataSize, v);
      }
    }
  }

  /** The curves list holds 18 bytes per curve: the writable flag (0 or 1),
      the highest block index, then the 16-byte checksum. */
  lemma {:induction false} CurvesListLayout(curves: seq<Curve>)
    requires forall i :: 0 <= i < |curves| ==> |curves[i].checksum| == CURVE_CSUM_SIZE
    ensures |CurvesListPayload(curves)| == CURVE_INFO_SIZE * |curves|
    ensures forall i :: 0 <= i < |curves| ==>
              CurvesListPayload(curves)[CURVE_INFO_SIZE * i .. CURVE_INFO_SIZE * i + CURVE_INFO_SIZE]
              == CurveInfo(curves[i])
  {
    if curves != [] {
      var pre := curves[..|curves| - 1];
      CurvesListLayout(pre);
      var pl, pp := CurvesListPayload(curves), CurvesListPayload(pre);
      assert pl == pp + CurveInfo(curves[|pre|]);
      forall i | 0 <= i < |curves|
        ensures pl[CURVE_INFO_SIZE * i .. CURVE_INFO_SIZE * i + CURVE_INFO_SIZE] == CurveInfo(curves[i])
      {
        var a := CURVE_INFO_SIZE * i;
        if i < |pre| {
          assert pl[a .. a + CURVE_INFO_SIZE] == pp[a .. a + CURVE_INFO_SIZE];
        } else {
          assert a == |pp|;
        }
      }
    }
  }

  // ---------------------------------------------------------------------
  // The registry invariant is kept

  lemma WriteVarKeepsInvariant(s: State, p: seq<byte>)
    requires Invariant(s)
    ensures Invariant(WriteVar(s, p).state)
  {
    var o := WriteVar(s, p);
    if o.response.code == CMD_OK {
      var i := p[0] as nat;
      var vars' := s.vars[i := s.vars[i].(data := p[1..])];
      forall j | 0 <= j < |vars'| ensures |vars'[j].data| == vars'[j].size {
        assert VarWellFormed(s.vars[j], j);
      }
      InvariantAfterDataChange(s, vars');
      InvariantIgnoresCalls(s.(vars := vars'), o.state.calls);
      assert o.state == s.(vars := vars').(calls := o.state.calls);
    }
  }

  lemma WriteGroupKeepsInvariant(s: State, p: seq<byte>)
    requires Invariant(s)
    ensures Invariant(WriteGroup(s, p).state)
  {
    var o := WriteGroup(s, p);
    if o.response.code == CMD_OK {
      var g := s.groups[p[0]];
      assert GroupWellFormed(s.vars, g, p[0] as nat);
      var vars' := WriteMembers(s.vars, g.members, p[1..]);
      WriteMembersLayout(s.vars, g.members, p[1..]);
      forall i | 0 <= i < |vars'| ensures |vars'[i].data| == vars'[i].size {
        assert VarWellFormed(s.vars[i], i);
      }
      InvariantAfterDataChange(s, vars');
      InvariantIgnoresCalls(s.(vars := vars'), o.state.calls);
      assert o.state == s.(vars := vars').(calls := o.state.calls);
    }
  }

  /** The hook record plays no part in the invariant. */
  lemma InvariantIgnoresCalls(s: State, calls: seq<HookCall>)
    requires Invariant(s)
    ensures Invariant(s.(calls := calls))
  {
    var t := s.(calls := calls);
    assert t.vars == s.vars && t.groups == s.groups && t.curves == s.curves;
  }

  /** Appending a well-formed user group keeps the invariant. */
  lemma GroupAppendKeepsInvariant(s: State, g: Group)
    requires Invariant(s) && |s.groups| < MAX_GROUPS
    requires GroupWellFormed(s.vars, g, |s.groups|)
    requires g.writable == AllWritable(s.vars, g.members)
    ensures Invariant(s.(groups := s.groups + [g]))
  {
    var gs := s.groups + [g];
    forall i | 0 <= i < |gs| ensures GroupWellFormed(s.vars, gs[i], i) {
      if i < |s.groups| {
        assert gs[i] == s.groups[i] && GroupWellFormed(s.vars, s.groups[i], i);
      }
    }
    forall i | GROUP_STANDARD_COUNT <= i < |gs| ensures AccessMatches(s.vars, gs[i]) {
      if i < |s.groups| {
        assert gs[i] == s.groups[i] && AccessMatches(s.vars, s.groups[i]);
      }
    }
  }

  lemma CreateGroupKeepsInvariant(s: State, p: seq<byte>)
    requires Invariant(s)
    ensures Invariant(CreateGroup(s, p).state)
  {
    var n := |s.groups|;
    var o := CreateGroup(s, p);
    if 1 <= |p| <= |s.vars| && n < MAX_GROUPS && BuildGroup(s.vars, p, n).Built? {
      var g := BuildGroup(s.vars, p, n).group;
      BuiltGroupKeepsInvariant(s, p, g);
      assert o.state == s.(groups := s.groups + [g]);
    } else {
      assert o.state == s;
    }
  }

  /** A group CREATE_GROUP builds from the payload is well formed and may
      be appended. */
  lemma BuiltGroupKeepsInvariant(s: State, p: seq<byte>, g: Group)
    requires Invariant(s) && |s.groups| < MAX_GROUPS && |p| <= |s.vars|
    requires BuildGroup(s.vars, p, |s.groups|) == Built(g)
    ensures Invariant(s.(groups := s.groups + [g]))
  {
    var n := |s.groups|;
    BuildGroupSucceeds(s.vars, p, n);
    BuildGroupContents(s.vars, p, n);
    assert Distinct(g.members) by {
      forall a, b | 0 <= a < b < |g.members| ensures g.members[a] != g.members[b] {
        assert p[a] != p[b];
      }
    }
    assert g.members == AsMembers(p) && |g.members| <= |s.vars|;
    assert GroupWellFormed(s.vars, g, n);
    GroupAppendKeepsInvariant(s, g);
  }

  lemma RemoveAllGroupsKeepsInvariant(s: State, p: seq<byte>)
    requires Invariant(s)
    ensures Invariant(RemoveAllGroups(s, p).state)
  {
  }

  lemma CurveBlockKeepsInvariant(s: State, p: seq<byte>)
    requires Invariant(s)
    ensures Invariant(CurveBlock(s, p).state)
  {
    var o := CurveBlock(s, p);
    if o.response.code == CMD_OK {
      var i := p[0] as nat;
      assert CurveWellFormed(s.curves[i], i);
      assert CurveWellFormed(o.state.curves[i], i);
    }
  }

  lemma CurveRecalcKeepsInvariant(s: State, p: seq<byte>, md5: Md5)
    requires Invariant(s)
    ensures Invariant(CurveRecalcCsum(s, p, md5).state)
  {
    var o := CurveRecalcCsum(s, p, md5);
    if o.response.code == CMD_OK {
      var i := p[0] as nat;
      assert CurveWellFormed(s.curves[i], i);
      assert CurveWellFormed(o.state.curves[i], i);
    }
  }

  /** Every request leaves the registry satisfying its invariant. */
  lemma DispatchKeepsInvariant(s: State, code: byte, p: seq<byte>, md5: Md5)
    requires Invariant(s)
    ensures Invariant(Dispatch(s, code, p, md5).state)
  {
    if code == CMD_WRITE_VAR {
      WriteVarKeepsInvariant(s, p);
    } else if code == CMD_WRITE_GROUP {
      WriteGroupKeepsInvariant(s, p);
    } else if code == CMD_CREATE_GROUP {
      CreateGroupKeepsInvariant(s, p);
    } else if code == CMD_REMOVE_ALL_GROUPS {
      RemoveAllGroupsKeepsInvariant(s, p);
    } else if code == CMD_CURVE_BLOCK {
      CurveBlockKeepsInvariant(s, p);
    } else if code == CMD_CURVE_RECALC_CSUM {
      CurveRecalcKeepsInvariant(s, p, md5);
    } else {
      var o := Dispatch(s, code, p, md5);
      assert o.state == s.(calls := o.state.calls);
      InvariantIgnoresCalls(s, o.state.calls);
    }
  }

  lemma ProcessKeepsInvariant(s: State, packet: seq<byte>, md5: Md5)
    requires Invariant(s)
    ensures Invariant(Process(s, packet, md5).state)
  {
    if !(|packet| < HEADER_LEN || !IsSizeOk(|packet|, DecodeSize(packet[1]))) {
      DispatchKeepsInvariant(s, packet[0], packet[HEADER_LEN..], md5);
    }
  }

  // ---------------------------------------------------------------------
  // Answers fit one message

  /** A packet answer is its payload behind a two-byte header. */
  lemma PacketAnswerLength(s: State, packet: seq<byte>, md5: Md5)
    requires Invariant(s)
    ensures |Process(s, packet, md5).response.payload| <= MAX_MESSAGE
    ensures var r := Process(s, packet, md5).response;
            |Wire(r.code, r.payload)| == |r.payload| + HEADER_LEN
  {
    if !(|packet| < HEADER_LEN || !IsSizeOk(|packet|, DecodeSize(packet[1]))) {
      DispatchWellBehaved(s, packet[0], packet[HEADER_LEN..], md5);
    }
  }

  // ---------------------------------------------------------------------
  // Framing and generic errors

  /** A packet shorter than its header, or whose length is not the announced
      payload size plus the header, is answered MALFORMED_MESSAGE with no
      payload and no effect, whatever its command code. */
  lemma MalformedPacket(s: State, packet: seq<byte>, md5: Md5)
    requires Invariant(s)
    requires |packet| < HEADER_LEN || |packet| != DecodeSize(packet[1]) + HEADER_LEN
    ensures Process(s, packet, md5) == Outcome(s, Response(CMD_ERR_MALFORMED_MESSAGE, []))
  {
  }

  /** The size rule each command checks first: exact size, or minimum size
      when the flag is set. */
  function SizeRule(code: byte): (nat, bool)
  {
    if code == CMD_QUERY_VARS_LIST || code == CMD_QUERY_GROUPS_LIST || code == CMD_QUERY_CURVES_LIST
       || code == CMD_REMOVE_ALL_GROUPS then (0, false)
    else if code == CMD_QUERY_GROUP || code == CMD_READ_VAR || code == CMD_READ_GROUP
       || code == CMD_CURVE_RECALC_CSUM then (1, false)
    else if code == CMD_WRITE_VAR || code == CMD_WRITE_GROUP then (2, true)
    else if code == CMD_CREATE_GROUP then (1, true)
    else if code == CMD_CURVE_TRANSMIT then (2, false)
    else (CURVE_BLOCK_PAYLOAD, false)
  }

  predicate Supported(code: byte)
  {
    code in {CMD_QUERY_VARS_LIST, CMD_QUERY_GROUPS_LIST, CMD_QUERY_GROUP, CMD_QUERY_CURVES_LIST,
             CMD_READ_VAR, CMD_READ_GROUP, CMD_WRITE_VAR, CMD_WRITE_GROUP, CMD_CREATE_GROUP,
             CMD_REMOVE_ALL_GROUPS, CMD_CURVE_TRANSMIT, CMD_CURVE_BLOCK, CMD_CURVE_RECALC_CSUM}
  }

  /** A supported command whose payload breaks its size rule is answered
      INVALID_PAYLOAD_SIZE with no payload and no effect. */
  lemma PayloadSizeCheckedFirst(s: State, code: byte, p: seq<byte>, md5: Md5)
    requires Invariant(s) && Supported(code)
    requires !PayloadSizeOk(|p|, SizeRule(code).0, SizeRule(code).1)
    ensures Dispatch(s, code, p, md5) == Outcome(s, Response(CMD_ERR_INVALID_PAYLOAD_SIZE, []))
  {
  }

  /** Any other command code, the status query among them, is answered
      OP_NOT_SUPPORTED with no payload and no effect. */
  lemma UnsupportedCommand(s: State, code: byte, p: seq<byte>, md5: Md5)
    requires Invariant(s) && !Supported(code)
    ensures Dispatch(s, code, p, md5) == Outcome(s, Response(CMD_ERR_OP_NOT_SUPPORTED, []))
  {
  }

  predicate IsError(code: byte)
  {
    CMD_ERR_MALFORMED_MESSAGE <= code <= CMD_ERR_INTERNAL
  }

  /** The hook operation a command reports. */
  function OpOf(code: byte): Op
  {
    if code in {CMD_READ_VAR, CMD_READ_GROUP} then Read else Write
  }

  /** What holds of every answer to command `code`: the hook registration is
      kept; the payload fits a message; an error carries no payload and has no
      effect; and the hook record grows only on a successful read or write,
      by one call to the registered hook reporting the command's operation. */
  ghost predicate WellBehaved(s: State, code: byte, o: Outcome)
  {
    && o.state.hook == s.hook
    && |o.response.payload| <= MAX_MESSAGE
    && (IsError(o.response.code) ==> o == Outcome(s, Response(o.response.code, [])))
    && (o.state.calls != s.calls ==>
          && code in {CMD_READ_VAR, CMD_READ_GROUP, CMD_WRITE_VAR, CMD_WRITE_GROUP}
          && o.response.code in {CMD_VAR_READING, CMD_GROUP_READING, CMD_OK}
          && s.hook.Some?
          && |o.state.calls| == |s.calls| + 1
          && o.state.calls[..|s.calls|] == s.calls
          && o.state.calls[|s.calls|].hook == s.hook.value
          && o.state.calls[|s.calls|].op == OpOf(code)
          && o.state.calls[|s.calls|].seen == o.state.vars)
  }

  lemma NotifyAppends(s: State, op: Op, ids: seq<nat>)
    ensures s.hook.None? ==> Notify(s, op, ids) == s.calls
    ensures s.hook.Some? ==>
              && |Notify(s, op, ids)| == |s.calls| + 1
              && Notify(s, op, ids)[..|s.calls|] == s.calls
              && Notify(s, op, ids)[|s.calls|] == HookCall(s.hook.value, op, ids, s.vars)
  {
    if s.hook.Some? {
      assert (s.calls + [HookCall(s.hook.value, op, ids, s.vars)])[..|s.calls|] == s.calls;
    }
  }

  lemma QueriesWellBehaved(s: State, code: byte, p: seq<byte>, md5: Md5)
    requires Invariant(s)
    requires code in {CMD_QUERY_VARS_LIST, CMD_QUERY_GROUPS_LIST, CMD_QUERY_GROUP, CMD_QUERY_CURVES_LIST}
    ensures WellBehaved(s, code, Dispatch(s, code, p, md5))
  {
    if !PayloadSizeOk(|p|, SizeRule(code).0, SizeRule(code).1) {
      PayloadSizeCheckedFirst(s, code, p, md5);
    } else if code == CMD_QUERY_VARS_LIST {
      VarsListAnswer(s, md5);
    } else if code == CMD_QUERY_GROUPS_LIST {
      GroupsListAnswer(s, md5);
    } else if code == CMD_QUERY_GROUP {
      QueryGroupAnswer(s, p[0], md5);
      assert [p[0]] == p;
      if p[0] as nat < |s.groups| {
        assert GroupWellFormed(s.vars, s.groups[p[0]], p[0] as nat);
      }
    } else {
      CurvesListAnswer(s, md5);
    }
  }

  lemma ReadsWellBehaved(s: State, code: byte, p: seq<byte>, md5: Md5)
    requires Invariant(s) && code in {CMD_READ_VAR, CMD_READ_GROUP}
    ensures WellBehaved(s, code, Dispatch(s, code, p, md5))
  {
    if !PayloadSizeOk(|p|, SizeRule(code).0, SizeRule(code).1) {
      PayloadSizeCheckedFirst(s, code, p, md5);
    } else if code == CMD_READ_VAR {
      ReadVarAnswer(s, p[0], md5);
      assert [p[0]] == p;
      NotifyAppends(s, Read, [p[0] as nat]);
    } else {
      ReadGroupAnswer(s, p[0], md5);
      assert [p[0]] == p;
      if p[0] as nat < |s.groups| {
        NotifyAppends(s, Read, s.groups[p[0]].members);
      }
    }
  }

  lemma WritesWellBehaved(s: State, code: byte, p: seq<byte>, md5: Md5)
    requires Invariant(s) && code in {CMD_WRITE_VAR, CMD_WRITE_GROUP}
    ensures WellBehaved(s, code, Dispatch(s, code, p, md5))
  {
    var vars' := Dispatch(s, code, p, md5).state.vars;
    if code == CMD_WRITE_VAR {
      WriteVarAnswer(s, p, md5);
      if |p| >= 2 {
        NotifyAppends(s.(vars := vars'), Write, [p[0] as nat]);
      }
    } else {
      WriteGroupAnswer(s, p, md5);
      if |p| >= 2 && p[0] as nat < |s.groups| {
        NotifyAppends(s.(vars := vars'), Write, s.groups[p[0]].members);
      }
    }
  }

  lemma GroupsWellBehaved(s: State, code: byte, p: seq<byte>, md5: Md5)
    requires Invariant(s) && code in {CMD_CREATE_GROUP, CMD_REMOVE_ALL_GROUPS}
    ensures WellBehaved(s, code, Dispatch(s, code, p, md5))
  {
    if code == CMD_CREATE_GROUP {
      CreateGroupAnswer(s, p, md5);
    } else if !PayloadSizeOk(|p|, SizeRule(code).0, SizeRule(code).1) {
      PayloadSizeCheckedFirst(s, code, p, md5);
    } else {
      RemoveAllGroupsAnswer(s, md5);
    }
  }

  lemma CurvesWellBehaved(s: State, code: byte, p: seq<byte>, md5: Md5)
    requires Invariant(s) && code in {CMD_CURVE_TRANSMIT, CMD_CURVE_BLOCK, CMD_CURVE_RECALC_CSUM}
    ensures WellBehaved(s, code, Dispatch(s, code, p, md5))
  {
    if !PayloadSizeOk(|p|, SizeRule(code).0, SizeRule(code).1) {
      PayloadSizeCheckedFirst(s, code, p, md5);
    } else if code == CMD_CURVE_TRANSMIT {
      CurveTransmitAnswer(s, p[0], p[1], md5);
      assert [p[0], p[1]] == p;
    } else if code == CMD_CURVE_BLOCK {
      CurveBlockAnswer(s, p, md5);
    } else {
      CurveRecalcAnswer(s, p[0], md5);
      assert [p[0]] == p;
    }
  }

  /** Every command, supported or not, answers as `WellBehaved` says. */
  lemma DispatchWellBehaved(s: State, code: byte, p: seq<byte>, md5: Md5)
    requires Invariant(s)
    ensures WellBehaved(s, code, Dispatch(s, code, p, md5))
  {
    if code in {CMD_QUERY_VARS_LIST, CMD_QUERY_GROUPS_LIST, CMD_QUERY_GROUP, CMD_QUERY_CURVES_LIST} {
      QueriesWellBehaved(s, code, p, md5);
    } else if code in {CMD_READ_VAR, CMD_READ_GROUP} {
      ReadsWellBehaved(s, code, p, md5);
    } else if code in {CMD_WRITE_VAR, CMD_WRITE_GROUP} {
      WritesWellBehaved(s, code, p, md5);
    } else if code in {CMD_CREATE_GROUP, CMD_REMOVE_ALL_GROUPS} {
      GroupsWellBehaved(s, code, p, md5);
    } else if code in {CMD_CURVE_TRANSMIT, CMD_CURVE_BLOCK, CMD_CURVE_RECALC_CSUM} {
      CurvesWellBehaved(s, code, p, md5);
    } else {
      UnsupportedCommand(s, code, p, md5);
    }
  }

  /** An error answer has no payload and leaves the registry, and the hook
      record, exactly as they were. */
  lemma ErrorsChangeNothing(s: State, packet: seq<byte>, md5: Md5)
    requires Invariant(s)
    requires IsError(Process(s, packet, md5).response.code)
    ensures Process(s, packet, md5) == Outcome(s, Response(Process(s, packet, md5).response.code, []))
  {
    if !(|packet| < HEADER_LEN || !IsSizeOk(|packet|, DecodeSize(packet[1]))) {
      DispatchWellBehaved(s, packet[0], packet[HEADER_LEN..], md5);
    }
  }

  /** Only successful reads and writes of variables or groups call the hook,
      once each, with READ for reads and WRITE for writes; with no hook
      registered nothing is recorded. */
  lemma HookCalledOnlyByReadsAndWrites(s: State, packet: seq<byte>, md5: Md5)
    requires Invariant(s)
    ensures var o := Process(s, packet, md5);
            && o.state.hook == s.hook
            && (s.hook.None? ==> o.state.calls == s.calls)
            && (o.state.calls != s.calls ==>
                  && |packet| > HEADER_LEN
                  && packet[0] in {CMD_READ_VAR, CMD_READ_GROUP, CMD_WRITE_VAR, CMD_WRITE_GROUP}
                  && o.response.code in {CMD_VAR_READING, CMD_GROUP_READING, CMD_OK}
                  && s.hook.Some?
                  && |o.state.calls| == |s.calls| + 1
                  && o.state.calls[..|s.calls|] == s.calls
                  && o.state.calls[|s.calls|].hook == s.hook.value
                  && o.state.calls[|s.calls|].op == OpOf(packet[0]))
  {
    var o := Process(s, packet, md5);
    if !(|packet| < HEADER_LEN || !IsSizeOk(|packet|, DecodeSize(packet[1]))) {
      var code, p := packet[0], packet[HEADER_LEN..];
      DispatchWellBehaved(s, code, p, md5);
      if o.state.calls != s.calls && |p| == 0 {
        PayloadSizeCheckedFirst(s, code, p, md5);
      }
    }
  }

  // ---------------------------------------------------------------------
  // Query answers

  /** QUERY_VARS_LIST: one byte per variable in id order, with the high bit
      set exactly for writable variables and the size in the low seven bits. */
  lemma VarsListAnswer(s: State, md5: Md5)
    requires Invariant(s)
    ensures var r := Dispatch(s, CMD_QUERY_VARS_LIST, [], md5).response;
            && r.code == CMD_VARS_LIST && |r.payload| == |s.vars|
            && forall i :: 0 <= i < |s.vars| ==>
                 (r.payload[i] >= 0x80 <==> s.vars[i].writable) && r.payload[i] % 0x80 == s.vars[i].size
  {
    var r := Dispatch(s, CMD_QUERY_VARS_LIST, [], md5).response;
    assert r == Response(CMD_VARS_LIST, VarsListPayload(s.vars));
    forall i | 0 <= i < |s.vars|
      ensures (r.payload[i] >= 0x80 <==> s.vars[i].writable) && r.payload[i] % 0x80 == s.vars[i].size
    {
      assert VarWellFormed(s.vars[i], i);
      assert r.payload[i] == Flag(s.vars[i].writable) + s.vars[i].size;
    }
  }

  /** QUERY_GROUPS_LIST: one byte per group, flag plus member count; for a
      group of fewer than 128 members the high bit is the writable flag and
      the low seven bits the count. */
  lemma GroupsListAnswer(s: State, md5: Md5)
    requires Invariant(s)
    ensures var r := Dispatch(s, CMD_QUERY_GROUPS_LIST, [], md5).response;
            && r.code == CMD_GROUPS_LIST && |r.payload| == |s.groups|
            && forall i :: 0 <= i < |s.groups| && |s.groups[i].members| < 0x80 ==>
                 (r.payload[i] >= 0x80 <==> s.groups[i].writable) && r.payload[i] % 0x80 == |s.groups[i].members|
  {
    var r := Dispatch(s, CMD_QUERY_GROUPS_LIST, [], md5).response;
    assert r == Response(CMD_GROUPS_LIST, GroupsListPayload(s.groups));
    forall i | 0 <= i < |s.groups| && |s.groups[i].members| < 0x80
      ensures (r.payload[i] >= 0x80 <==> s.groups[i].writable) && r.payload[i] % 0x80 == |s.groups[i].members|
    {
      assert r.payload[i] == Flag(s.groups[i].writable) + |s.groups[i].members|;
    }
  }

  /** With all 128 variables writable, the WRITE group is listed as 0x00:
      read-only with no members, since the flag plus the count wraps in a
      byte. */
  lemma GroupsListWrapsAt128(s: State, md5: Md5)
    requires Invariant(s) && |s.groups[GROUP_WRITE_ID].members| == MAX_VARIABLES
    ensures Dispatch(s, CMD_QUERY_GROUPS_LIST, [], md5).response.payload[GROUP_WRITE_ID] == 0
  {
  }

  /** QUERY_GROUP: the member ids in membership order, or INVALID_ID. */
  lemma QueryGroupAnswer(s: State, g: byte, md5: Md5)
    requires Invariant(s)
    ensures var r := Dispatch(s, CMD_QUERY_GROUP, [g], md5).response;
            if g as nat < |s.groups| then
              r.code == CMD_GROUP && |r.payload| == |s.groups[g].members|
              && forall k :: 0 <= k < |r.payload| ==> r.payload[k] == s.groups[g].members[k]
            else r == Response(CMD_ERR_INVALID_ID, [])
  {
    if g as nat < |s.groups| {
      var ms := s.groups[g].members;
      assert GroupWellFormed(s.vars, s.groups[g], g as nat);
      forall k | 0 <= k < |ms| ensures s.vars[ms[k]].id == ms[k] {
        assert VarWellFormed(s.vars[ms[k]], ms[k]);
      }
    }
  }

  /** QUERY_CURVES_LIST: 18 bytes per curve in id order: writable (0 or 1),
      highest block index, checksum. */
  lemma CurvesListAnswer(s: State, md5: Md5)
    requires Invariant(s)
    ensures var r := Dispatch(s, CMD_QUERY_CURVES_LIST, [], md5).response;
            && r.code == CMD_CURVES_LIST && |r.payload| == CURVE_INFO_SIZE * |s.curves|
            && forall i :: 0 <= i < |s.curves| ==>
                 && r.payload[CURVE_INFO_SIZE * i] == (if s.curves[i].writable then 1 else 0)
                 && r.payload[CURVE_INFO_SIZE * i + 1] == s.curves[i].nblocks
                 && r.payload[CURVE_INFO_SIZE * i + 2 .. CURVE_INFO_SIZE * i + CURVE_INFO_SIZE] == s.curves[i].checksum
  {
    assert forall i :: 0 <= i < |s.curves| ==> CurveWellFormed(s.curves[i], i);
    CurvesListLayout(s.curves);
    var pl := CurvesListPayload(s.curves);
    forall i | 0 <= i < |s.curves|
      ensures pl[CURVE_INFO_SIZE * i] == (if s.curves[i].writable then 1 else 0)
      ensures pl[CURVE_INFO_SIZE * i + 1] == s.curves[i].nblocks
      ensures pl[CURVE_INFO_SIZE * i + 2 .. CURVE_INFO_SIZE * i + CURVE_INFO_SIZE] == s.curves[i].checksum
    {
      var piece := pl[CURVE_INFO_SIZE * i .. CURVE_INFO_SIZE * i + CURVE_INFO_SIZE];
      assert piece == CurveInfo(s.curves[i]);
      assert piece[0] == pl[CURVE_INFO_SIZE * i] && piece[1] == pl[CURVE_INFO_SIZE * i + 1];
      assert piece[2..] == pl[CURVE_INFO_SIZE * i + 2 .. CURVE_INFO_SIZE * i + CURVE_INFO_SIZE];
    }
  }

  // ---------------------------------------------------------------------
  // Reads

  /** READ_VAR: an unknown id is answered INVALID_ID with no hook call;
      otherwise the hook is told (READ, [id]) and the answer is the
      variable's bytes. */
  lemma ReadVarAnswer(s: State, id: byte, md5: Md5)
    requires Invariant(s)
    ensures var o := Dispatch(s, CMD_READ_VAR, [id], md5);
            if id as nat < |s.vars| then
              && o.response == Response(CMD_VAR_READING, s.vars[id].data)
              && |o.response.payload| == s.vars[id].size
              && o.state == s.(calls := Notify(s, Read, [id as nat]))
            else o == Outcome(s, Response(CMD_ERR_INVALID_ID, []))
  {
    if id as nat < |s.vars| {
      assert VarWellFormed(s.vars[id], id as nat);
    }
  }

  /** READ_GROUP: an unknown id is answered INVALID_ID with no hook call;
      otherwise the hook is told (READ, members) and the answer holds the
      members' bytes in group order, cut to the group's `uint8_t` data size:
      all of them when they total less than 256 bytes. */
  lemma ReadGroupAnswer(s: State, g: byte, md5: Md5)
    requires Invariant(s)
    ensures var o := Dispatch(s, CMD_READ_GROUP, [g], md5);
            if g as nat < |s.groups| then
              var ms := s.groups[g].members;
              && InRange(ms, |s.vars|)
              && o.state == s.(calls := Notify(s, Read, ms))
              && o.response.code == CMD_GROUP_READING
              && |o.response.payload| == SumSizes(s.vars, ms) % 256
              && o.response.payload <= MemberBytes(s.vars, ms)
              && (SumSizes(s.vars, ms) < 256 ==> o.response.payload == MemberBytes(s.vars, ms))
            else o == Outcome(s, Response(CMD_ERR_INVALID_ID, []))
  {
    if g as nat < |s.groups| {
      GroupBytesFit(s, g as nat);
      assert GroupWellFormed(s.vars, s.groups[g], g as nat);
    }
  }

  /** The members' bytes, in group order: member `k`'s bytes follow those of
      the members before it. */
  lemma ReadGroupMemberBytes(s: State, g: byte, k: nat)
    requires Invariant(s) && g as nat < |s.groups| && k < |s.groups[g].members|
    ensures var ms := s.groups[g].members;
            && InRange(ms, |s.vars|)
            && InRange(ms[..k], |s.vars|)
            && var off := SumSizes(s.vars, ms[..k]);
               && off + s.vars[ms[k]].size <= |MemberBytes(s.vars, ms)|
               && MemberBytes(s.vars, ms)[off .. off + s.vars[ms[k]].size] == s.vars[ms[k]].data
  {
    assert GroupWellFormed(s.vars, s.groups[g], g as nat);
    assert forall i :: 0 <= i < |s.vars| ==> VarWellFormed(s.vars[i], i);
    MemberBytesAt(s.vars, s.groups[g].members, k);
  }

  // ---------------------------------------------------------------------
  // Writes

  /** WRITE_VAR succeeds exactly when the payload is the id plus the
      variable's size in bytes and the variable is writable; then the bytes
      after the id become the variable's bytes, nothing else changes, and
      the hook is told (WRITE, [id]) after the copy, so it sees the new
      bytes. A refusal carries the code of the first failing check: payload
      too short, unknown id, wrong size, read-only. */
  lemma WriteVarAnswer(s: State, p: seq<byte>, md5: Md5)
    requires Invariant(s)
    ensures var o := Dispatch(s, CMD_WRITE_VAR, p, md5);
            && (o.response.code == CMD_OK <==>
                  |p| >= 2 && p[0] as nat < |s.vars| && |p| == s.vars[p[0]].size + 1 && s.vars[p[0]].writable)
            && (o.response.code == CMD_OK ==>
                  && o.state.vars[p[0]].data == p[1..]
                  && SameLayout(s.vars, o.state.vars)
                  && (forall j :: 0 <= j < |s.vars| && j != p[0] as nat ==> o.state.vars[j] == s.vars[j])
                  && o.state == s.(vars := o.state.vars, calls := Notify(s.(vars := o.state.vars), Write, [p[0] as nat])))
            && (o.response.code != CMD_OK ==> o.state == s && o.response.payload == [])
            && (|p| < 2 ==> o.response.code == CMD_ERR_INVALID_PAYLOAD_SIZE)
            && (|p| >= 2 && p[0] as nat >= |s.vars| ==> o.response.code == CMD_ERR_INVALID_ID)
            && (|p| >= 2 && p[0] as nat < |s.vars| && |p| != s.vars[p[0]].size + 1 ==>
                  o.response.code == CMD_ERR_INVALID_PAYLOAD_SIZE)
            && (|p| >= 2 && p[0] as nat < |s.vars| && |p| == s.vars[p[0]].size + 1 && !s.vars[p[0]].writable ==>
                  o.response.code == CMD_ERR_READ_ONLY)
  {
  }

  /** A write to a read-only variable with a well-sized payload is answered
      READ_ONLY and changes nothing. */
  lemma WriteReadOnlyVar(s: State, p: seq<byte>, md5: Md5)
    requires Invariant(s) && |p| >= 2 && p[0] as nat < |s.vars|
    requires |p| == s.vars[p[0]].size + 1 && !s.vars[p[0]].writable
    ensures Dispatch(s, CMD_WRITE_VAR, p, md5) == Outcome(s, Response(CMD_ERR_READ_ONLY, []))
  {
  }

  /** WRITE_GROUP succeeds exactly when the group exists, is writable and the
      payload is its id plus exactly its members' bytes; then only the
      members' bytes change, each member keeps its size, and the hook is told
      (WRITE, members) after all copies. A refusal carries the code of the
      first failing check: payload too short, unknown group, size other than
      its data size, read-only, then a wrapped data size that disagrees with
      the members' total. */
  lemma WriteGroupAnswer(s: State, p: seq<byte>, md5: Md5)
    requires Invariant(s)
    ensures var o := Dispatch(s, CMD_WRITE_GROUP, p, md5);
            && (o.response.code == CMD_OK <==>
                  && |p| >= 2 && p[0] as nat < |s.groups| && s.groups[p[0]].writable
                  && InRange(s.groups[p[0]].members, |s.vars|)
                  && |p| == SumSizes(s.vars, s.groups[p[0]].members) + 1
                  && |p| == s.groups[p[0]].dataSize + 1)
            && (o.response.code == CMD_OK ==>
                  var ms := s.groups[p[0]].members;
                  && SameLayout(s.vars, o.state.vars)
                  && (forall j :: 0 <= j < |s.vars| && j !in ms ==> o.state.vars[j] == s.vars[j])
                  && o.state == s.(vars := o.state.vars, calls := Notify(s.(vars := o.state.vars), Write, ms)))
            && (o.response.code != CMD_OK ==> o.state == s && o.response.payload == [])
            && (|p| < 2 ==> o.response.code == CMD_ERR_INVALID_PAYLOAD_SIZE)
            && (|p| >= 2 && p[0] as nat >= |s.groups| ==> o.response.code == CMD_ERR_INVALID_ID)
            && (|p| >= 2 && p[0] as nat < |s.groups| ==>
                  var g := s.groups[p[0]];
                  && InRange(g.members, |s.vars|)
                  && (|p| != g.dataSize + 1 ==> o.response.code == CMD_ERR_INVALID_PAYLOAD_SIZE)
                  && (|p| == g.dataSize + 1 && !g.writable ==> o.response.code == CMD_ERR_READ_ONLY)
                  && (|p| == g.dataSize + 1 && g.writable && |p| != SumSizes(s.vars, g.members) + 1 ==>
                        o.response.code == CMD_ERR_INVALID_PAYLOAD_SIZE))
  {
    if |p| >= 2 && p[0] as nat < |s.groups| {
      var g := s.groups[p[0]];
      assert GroupWellFormed(s.vars, g, p[0] as nat);
      if g.writable && |p| == SumSizes(s.vars, g.members) + 1 {
        WriteMembersLayout(s.vars, g.members, p[1..]);
      }
    }
  }

  /** After a successful WRITE_GROUP, member `k` holds the `k`-th piece of
      the bytes after the group id: the piece that follows the bytes of the
      members before it. */
  lemma WriteGroupPieces(s: State, p: seq<byte>, md5: Md5)
    requires Invariant(s)
    requires Dispatch(s, CMD_WRITE_GROUP, p, md5).response.code == CMD_OK
    ensures |p| >= 2 && p[0] as nat < |s.groups|
    ensures var ms, bytes := s.groups[p[0]].members, p[1..];
            var vars' := Dispatch(s, CMD_WRITE_GROUP, p, md5).state.vars;
            && InRange(ms, |s.vars|) && |vars'| == |s.vars|
            && forall k :: 0 <= k < |ms| ==>
                 InRange(ms[..k], |s.vars|)
                 && SumSizes(s.vars, ms[..k]) + s.vars[ms[k]].size <= |bytes|
                 && vars'[ms[k]].data == bytes[SumSizes(s.vars, ms[..k]) .. SumSizes(s.vars, ms[..k]) + s.vars[ms[k]].size]
  {
    WriteGroupWrites(s, p, md5);
    var g := s.groups[p[0]];
    assert GroupWellFormed(s.vars, g, p[0] as nat);
    var vars' := Dispatch(s, CMD_WRITE_GROUP, p, md5).state.vars;
    assert vars' == WriteMembers(s.vars, g.members, p[1..]);
    WriteMembersPieces(s.vars, g.members, p[1..]);
  }

  lemma WriteGroupWrites(s: State, p: seq<byte>, md5: Md5)
    requires Invariant(s)
    requires Dispatch(s, CMD_WRITE_GROUP, p, md5).response.code == CMD_OK
    ensures |p| >= 2 && p[0] as nat < |s.groups|
    ensures InRange(s.groups[p[0]].members, |s.vars|)
    ensures |p| == SumSizes(s.vars, s.groups[p[0]].members) + 1
    ensures Dispatch(s, CMD_WRITE_GROUP, p, md5).state.vars == WriteMembers(s.vars, s.groups[p[0]].members, p[1..])
  {
    assert GroupWellFormed(s.vars, s.groups[p[0]], p[0] as nat);
  }

  /** ALL and READ are never writable: a well-sized write to them is
      answered READ_ONLY. */
  lemma StandardReadOnlyGroups(s: State, p: seq<byte>, md5: Md5)
    requires Invariant(s) && |p| >= 2 && p[0] in {GROUP_ALL_ID, GROUP_READ_ID}
    requires |p| == s.groups[p[0]].dataSize + 1
    ensures Dispatch(s, CMD_WRITE_GROUP, p, md5) == Outcome(s, Response(CMD_ERR_READ_ONLY, []))
  {
  }

  // ---------------------------------------------------------------------
  // Group management

  /** The CREATE_GROUP answer, stated on the command function itself. */
  lemma CreateGroupOutcome(s: State, p: seq<byte>)
    requires Invariant(s)
    ensures var o := CreateGroup(s, p);
            && (o.response.code == CMD_GROUP_CREATED <==>
                  1 <= |p| <= |s.vars| && |s.groups| < MAX_GROUPS
                  && InRange(AsMembers(p), |s.vars|) && Distinct(p))
            && (o.response.code == CMD_GROUP_CREATED ==>
                  && |o.state.groups| == |s.groups| + 1
                  && o.state.groups[..|s.groups|] == s.groups
                  && var g := o.state.groups[|s.groups|];
                     && g.id == |s.groups| && g.members == AsMembers(p)
                     && InRange(g.members, |s.vars|)
                     && g.writable == AllWritable(s.vars, g.members)
                     && o.response.payload == [(Flag(g.writable) + g.id) % 0x100]
                     && o.state == s.(groups := s.groups + [g]))
            && (o.response.code != CMD_GROUP_CREATED ==> o.state == s && o.response.payload == [])
  {
    var n := |s.groups|;
    if 1 <= |p| <= |s.vars| && n < MAX_GROUPS {
      BuildGroupSucceeds(s.vars, p, n);
      BuildGroupContents(s.vars, p, n);
      var b := BuildGroup(s.vars, p, n);
      if b.Built? {
        CreateGroupBuilt(s, p, b.group);
        assert (s.groups + [b.group])[..n] == s.groups;
      } else {
        assert CreateGroup(s, p) == Answer(s, b.code);
      }
    } else {
      assert CreateGroup(s, p).state == s && CreateGroup(s, p).response.payload == [];
      assert CreateGroup(s, p).response.code != CMD_GROUP_CREATED;
    }
  }

  /** A successful build appends the group and answers with its id and flag. */
  lemma CreateGroupBuilt(s: State, p: seq<byte>, g: Group)
    requires 1 <= |p| <= |s.vars| && |s.groups| < MAX_GROUPS
    requires BuildGroup(s.vars, p, |s.groups|) == Built(g)
    ensures CreateGroup(s, p) == Outcome(s.(groups := s.groups + [g]),
                                         Response(CMD_GROUP_CREATED, [CreatedByte(g)]))
  {
  }

  /** CREATE_GROUP succeeds exactly when it lists between one and as many
      ids as there are variables, fewer than 128 groups exist, and every id
      names a variable and occurs once; the new group is appended with the
      next id, those members, writable exactly when all of them are, and the
      answer is its id plus the writable flag. An empty list or more ids than
      variables is a payload-size error; otherwise, with room in the table,
      a refused build answers with the build's own code (see
      `BuildGroupStep`: INVALID_ID for an unknown id, INSUFFICIENT_MEMORY for
      a repeated one). */
  lemma CreateGroupAnswer(s: State, p: seq<byte>, md5: Md5)
    requires Invariant(s)
    ensures var o := Dispatch(s, CMD_CREATE_GROUP, p, md5);
            && (o.response.code == CMD_GROUP_CREATED <==>
                  1 <= |p| <= |s.vars| && |s.groups| < MAX_GROUPS
                  && InRange(AsMembers(p), |s.vars|) && Distinct(p))
            && (o.response.code == CMD_GROUP_CREATED ==>
                  && |o.state.groups| == |s.groups| + 1
                  && o.state.groups[..|s.groups|] == s.groups
                  && var g := o.state.groups[|s.groups|];
                     && g.id == |s.groups| && g.members == AsMembers(p)
                     && InRange(g.members, |s.vars|)
                     && g.writable == AllWritable(s.vars, g.members)
                     && o.response.payload == [(Flag(g.writable) + g.id) % 0x100]
                     && o.state == s.(groups := s.groups + [g]))
            && (o.response.code != CMD_GROUP_CREATED ==> o.state == s && o.response.payload == [])
            && (|p| == 0 || |p| > |s.vars| ==> o == Outcome(s, Response(CMD_ERR_INVALID_PAYLOAD_SIZE, [])))
            && (1 <= |p| <= |s.vars| && |s.groups| < MAX_GROUPS && BuildGroup(s.vars, p, |s.groups|).Failed? ==>
                  o == Outcome(s, Response(BuildGroup(s.vars, p, |s.groups|).code, [])))
  {
    CreateGroupOutcome(s, p);
    assert Dispatch(s, CMD_CREATE_GROUP, p, md5) == CreateGroup(s, p);
  }


  /** With 128 groups, a well-sized CREATE_GROUP is answered
      INSUFFICIENT_MEMORY and the table is unchanged. */
  lemma CreateGroupTableFull(s: State, p: seq<byte>, md5: Md5)
    requires Invariant(s) && |s.groups| == MAX_GROUPS && 1 <= |p| <= |s.vars|
    ensures Dispatch(s, CMD_CREATE_GROUP, p, md5) == Outcome(s, Response(CMD_ERR_INSUFFICIENT_MEMORY, []))
  {
  }

  /** REMOVE_ALL_GROUPS leaves exactly the three standard groups. */
  lemma RemoveAllGroupsAnswer(s: State, md5: Md5)
    requires Invariant(s)
    ensures var o := Dispatch(s, CMD_REMOVE_ALL_GROUPS, [], md5);
            && o.response == Response(CMD_OK, [])
            && |o.state.groups| == GROUP_STANDARD_COUNT
            && o.state == s.(groups := s.groups[..GROUP_STANDARD_COUNT])
  {
    if |s.groups| == GROUP_STANDARD_COUNT {
      assert s.groups[..GROUP_STANDARD_COUNT] == s.groups;
    }
  }

  // ---------------------------------------------------------------------
  // Curves

  /** CURVE_TRANSMIT: an unknown curve is INVALID_ID, a block past the last
      is INVALID_VALUE; otherwise the answer is the curve id, the block
      index and the 16384 bytes of the block, with no effect. */
  lemma CurveTransmitAnswer(s: State, c: byte, b: byte, md5: Md5)
    requires Invariant(s)
    ensures var o := Dispatch(s, CMD_CURVE_TRANSMIT, [c, b], md5);
            && o.state == s
            && (c as nat >= |s.curves| ==> o.response == Response(CMD_ERR_INVALID_ID, []))
            && (c as nat < |s.curves| && b > s.curves[c].nblocks ==> o.response == Response(CMD_ERR_INVALID_VALUE, []))
            && (c as nat < |s.curves| && b <= s.curves[c].nblocks ==>
                  && CurveWellFormed(s.curves[c], c as nat)
                  && o.response.code == CMD_CURVE_BLOCK
                  && |o.response.payload| == CURVE_BLOCK_PAYLOAD
                  && o.response.payload[0] == c && o.response.payload[1] == b
                  && o.response.payload[2..] == s.curves[c].blocks[b])
  {
    if c as nat < |s.curves| && b <= s.curves[c].nblocks {
      assert CurveWellFormed(s.curves[c], c as nat);
    }
  }

  /** CURVE_BLOCK: same id and block checks, then a read-only curve is
      refused; otherwise exactly that block is replaced and the checksum is
      left as it was. */
  lemma CurveBlockAnswer(s: State, p: seq<byte>, md5: Md5)
    requires Invariant(s) && |p| == CURVE_BLOCK_PAYLOAD
    ensures var o := Dispatch(s, CMD_CURVE_BLOCK, p, md5);
            && (p[0] as nat >= |s.curves| ==> o == Outcome(s, Response(CMD_ERR_INVALID_ID, [])))
            && (p[0] as nat < |s.curves| && p[1] > s.curves[p[0]].nblocks ==>
                  o == Outcome(s, Response(CMD_ERR_INVALID_VALUE, [])))
            && (p[0] as nat < |s.curves| && p[1] <= s.curves[p[0]].nblocks && !s.curves[p[0]].writable ==>
                  o == Outcome(s, Response(CMD_ERR_READ_ONLY, [])))
            && (p[0] as nat < |s.curves| && p[1] <= s.curves[p[0]].nblocks && s.curves[p[0]].writable ==>
                  && o.response == Response(CMD_OK, [])
                  && |o.state.curves| == |s.curves|
                  && CurveWellFormed(s.curves[p[0]], p[0] as nat)
                  && |o.state.curves[p[0]].blocks| == |s.curves[p[0]].blocks|
                  && o.state.curves[p[0]].blocks[p[1]] == p[2..]
                  && o.state.curves[p[0]].checksum == s.curves[p[0]].checksum
                  && (forall b :: 0 <= b < |s.curves[p[0]].blocks| && b != p[1] as nat ==>
                        o.state.curves[p[0]].blocks[b] == s.curves[p[0]].blocks[b])
                  && (forall i :: 0 <= i < |s.curves| && i != p[0] as nat ==> o.state.curves[i] == s.curves[i])
                  && o.state == s.(curves := o.state.curves))
  {
    if p[0] as nat < |s.curves| && p[1] <= s.curves[p[0]].nblocks {
      assert CurveWellFormed(s.curves[p[0]], p[0] as nat);
    }
  }

  /** CURVE_RECALC_CSUM: an unknown curve is INVALID_ID; otherwise the
      checksum becomes the digest of blocks 0..nblocks read in order. */
  lemma CurveRecalcAnswer(s: State, c: byte, md5: Md5)
    requires Invariant(s)
    ensures var o := Dispatch(s, CMD_CURVE_RECALC_CSUM, [c], md5);
            if c as nat < |s.curves| then
              && o.response == Response(CMD_OK, [])
              && |s.curves[c].blocks| == s.curves[c].nblocks + 1
              && o.state.curves == s.curves[c := s.curves[c].(checksum := md5(BlocksFed(s.curves[c].blocks, s.curves[c].nblocks + 1)))]
              && o.state == s.(curves := o.state.curves)
            else o == Outcome(s, Response(CMD_ERR_INVALID_ID, []))
  {
    if c as nat < |s.curves| {
      assert CurveWellFormed(s.curves[c], c as nat);
    }
  }

  /** The blocks are fed whole and in order. */
  lemma {:induction false} BlocksFedLayout(blocks: seq<seq<byte>>, n: nat, b: nat)
    requires n <= |blocks| && b < n
    requires forall i :: 0 <= i < |blocks| ==> |blocks[i]| == CURVE_BLOCK_DATA_SIZE
    ensures |BlocksFed(blocks, n)| == CURVE_BLOCK_DATA_SIZE * n
    ensures BlocksFed(blocks, n)[CURVE_BLOCK_DATA_SIZE * b .. CURVE_BLOCK_DATA_SIZE * (b + 1)] == blocks[b]
  {
    if b < n - 1 {
      BlocksFedLayout(blocks, n - 1, b);
      assert BlocksFed(blocks, n)[CURVE_BLOCK_DATA_SIZE * b .. CURVE_BLOCK_DATA_SIZE * (b + 1)]
          == BlocksFed(blocks, n - 1)[CURVE_BLOCK_DATA_SIZE * b .. CURVE_BLOCK_DATA_SIZE * (b + 1)];
    } else if n > 1 {
      BlocksFedLayout(blocks, n - 1, 0);
    }
  }

  /** Recomputing a checksum twice with no write in between changes nothing
      the second time: the digest depends only on the blocks. */
  lemma CurveRecalcIdempotent(s: State, c: byte, md5: Md5)
    requires Invariant(s)
    ensures Invariant(Dispatch(s, CMD_CURVE_RECALC_CSUM, [c], md5).state)
    ensures var s1 := Dispatch(s, CMD_CURVE_RECALC_CSUM, [c], md5).state;
            Dispatch(s1, CMD_CURVE_RECALC_CSUM, [c], md5) == Outcome(s1, Dispatch(s, CMD_CURVE_RECALC_CSUM, [c], md5).response)
  {
    DispatchKeepsInvariant(s, CMD_CURVE_RECALC_CSUM, [c], md5);
    var s1 := Dispatch(s, CMD_CURVE_RECALC_CSUM, [c], md5).state;
    if c as nat < |s.curves| {
      assert s1.curves[c].blocks == s.curves[c].blocks;
      assert s1.curves[c := s1.curves[c].(checksum := s1.curves[c].checksum)] == s1.curves;
    }
  }
}
