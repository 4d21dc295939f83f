/** The public entry points of libsllpserver/sllp_server.c: creating an
    instance, registering variables, curves and the hook, and processing a
    packet. Each registration is specified by a function on the registry's
    value (`VariableRegistration`, `CurveRegistration`, `HookRegistration`),
    whose effect and whose preservation of the registry invariant are proved
    below; the methods update an `Instance` in place and are proved to
    compute those functions. */
module SllpServer {
  import opened SllpTypes
  import opened SllpList
  import opened Common
  import opened Codec
  import P = Protocol
  import Message

  // ---------------------------------------------------------------------
  // Specification

  /** The registry right after `sllp_new`: no variables or curves, the three
      standard groups ALL (read-only), READ (read-only) and WRITE (writable),
      no hook and no hook calls. */
  function Initial(): (s: State)
    ensures Invariant(s)
    ensures s.vars == [] && s.curves == [] && s.hook == None && s.calls == []
    ensures |s.groups| == GROUP_STANDARD_COUNT
    ensures forall i :: 0 <= i < |s.groups| ==> s.groups[i].members == [] && s.groups[i].dataSize == 0
    ensures !s.groups[GROUP_ALL_ID].writable && !s.groups[GROUP_READ_ID].writable
    ensures s.groups[GROUP_WRITE_ID].writable
  {
    State([], [GroupInit(GROUP_ALL_ID, false), GroupInit(GROUP_READ_ID, false), GroupInit(GROUP_WRITE_ID, true)],
          [], None, [])
  }

  /** A group after the variable `id` of `size` bytes joins it: the id is
      appended and the `uint8_t` data size grows by the size. */
  function Join(g: Group, id: nat, size: byte): (g': Group)
    ensures g'.id == g.id && g'.writable == g.writable && g'.members == g.members + [id]
    ensures g'.dataSize == (g.dataSize + size) % 0x100
  {
    Group(g.id, g.writable, (g.dataSize + size) % 0x100, g.members + [id])
  }

  /** `sllp_register_variable` on a non-NULL variable description: the
      checks in source order, then the variable is appended with the next
      id, and joins ALL and either WRITE or READ, whose `uint8_t` data sizes
      grow by its size. */
  function VariableRegistration(s: State, d: VarDesc): (SllpErr, State)
    requires Invariant(s)
  {
    if d.size < VARIABLE_MIN_SIZE || d.size > VARIABLE_MAX_SIZE then (ParamOutOfRange, s)
    else if d.data.None? then (ParamInvalid, s)
    else if |s.vars| == MAX_VARIABLES then (OutOfMemory, s)
    else if d.ref in VarRefs(s.vars) then (OutOfMemory, s)
    else
      var id := |s.vars|;
      var w := if d.writable then GROUP_WRITE_ID else GROUP_READ_ID;
      var groups := s.groups[GROUP_ALL_ID := Join(s.groups[GROUP_ALL_ID], id, d.size)];
      var groups := groups[w := Join(s.groups[w], id, d.size)];
      (Success, s.(vars := s.vars + [Variable(d.ref, id, d.writable, d.size, d.data.value)], groups := groups))
  }

  /** `sllp_register_curve` on a non-NULL curve description: a read
      callback is required, a write callback exactly when the curve is
      writable; then the table's capacity and the curve's novelty are
      checked, and the curve is appended with the next id. */
  function CurveRegistration(s: State, d: CurveDesc): (SllpErr, State)
    requires Invariant(s)
  {
    if !d.hasReadBlock then (ParamInvalid, s)
    else if d.writable && !d.hasWriteBlock then (ParamInvalid, s)
    else if !d.writable && d.hasWriteBlock then (ParamInvalid, s)
    else if |s.curves| == MAX_CURVES then (OutOfMemory, s)
    else if d.ref in CurveRefs(s.curves) then (OutOfMemory, s)
    else (Success, s.(curves := s.curves + [Curve(d.ref, |s.curves|, d.writable, d.nblocks, d.checksum, d.blocks)]))
  }

  /** `sllp_register_hook` with a non-NULL instance: a NULL hook is refused
      and leaves the registry as it was, so a hook once registered cannot be
      removed; any other hook becomes the one the handlers call, and the
      tables are kept. */
  function HookRegistration(s: State, hook: Option<HookId>): (r: (SllpErr, State))
    ensures r.0 == Success <==> hook.Some?
    ensures hook.None? ==> r.0 == ParamInvalid && r.1 == s
    ensures hook.Some? ==> r.1.hook == hook && r.1.vars == s.vars && r.1.groups == s.groups
                           && r.1.curves == s.curves && r.1.calls == s.calls
    ensures Invariant(s) ==> Invariant(r.1)
  {
    if hook.None? then (ParamInvalid, s) else (Success, s.(hook := hook))
  }

  /** What the application promises about a variable description: the data
      buffer holds `size` bytes. */
  ghost predicate VarDescOk(d: VarDesc)
  {
    d.data.Some? ==> |d.data.value| == d.size
  }

  /** What the application promises about a curve description: a 16-byte
      checksum, and `nblocks + 1` blocks of `CURVE_BLOCK_DATA_SIZE` bytes
      behind its callbacks. */
  ghost predicate CurveDescOk(d: CurveDesc)
  {
    && |d.checksum| == CURVE_CSUM_SIZE
    && |d.blocks| == d.nblocks + 1
    && forall b :: 0 <= b < |d.blocks| ==> |d.blocks[b]| == CURVE_BLOCK_DATA_SIZE
  }

  // ---------------------------------------------------------------------
  // Properties of registration

  /** A variable is registered exactly when its size is in range, its data
      pointer is set, the table has room and it is not registered yet; each
      refusal carries the code of the first failing check and changes
      nothing. A registered variable gets the next id, the earlier ones are
      kept, and it joins ALL and the standard group of its access. */
  lemma VariableRegistrationEffect(s: State, d: VarDesc)
    requires Invariant(s)
    ensures var (err, s') := VariableRegistration(s, d);
            && (err == Success <==>
                  && VARIABLE_MIN_SIZE <= d.size <= VARIABLE_MAX_SIZE && d.data.Some?
                  && |s.vars| < MAX_VARIABLES
                  && forall i :: 0 <= i < |s.vars| ==> s.vars[i].ref != d.ref)
            && (!(VARIABLE_MIN_SIZE <= d.size <= VARIABLE_MAX_SIZE) ==> err == ParamOutOfRange)
            && (VARIABLE_MIN_SIZE <= d.size <= VARIABLE_MAX_SIZE && d.data.None? ==> err == ParamInvalid)
            && (VARIABLE_MIN_SIZE <= d.size <= VARIABLE_MAX_SIZE && d.data.Some? && err != Success ==> err == OutOfMemory)
            && (err != Success ==> s' == s && err in {ParamOutOfRange, ParamInvalid, OutOfMemory})
            && (err == Success ==>
                  && |s'.vars| == |s.vars| + 1 && s'.vars[..|s.vars|] == s.vars
                  && s'.vars[|s.vars|] == Variable(d.ref, |s.vars|, d.writable, d.size, d.data.value)
                  && |s'.groups| == |s.groups| && s'.groups[GROUP_STANDARD_COUNT..] == s.groups[GROUP_STANDARD_COUNT..]
                  && s'.groups[GROUP_ALL_ID].members == s.groups[GROUP_ALL_ID].members + [|s.vars|]
                  && s'.groups[GROUP_WRITE_ID].members
                     == s.groups[GROUP_WRITE_ID].members + (if d.writable then [|s.vars|] else [])
                  && s'.groups[GROUP_READ_ID].members
                     == s.groups[GROUP_READ_ID].members + (if d.writable then [] else [|s.vars|])
                  && s'.curves == s.curves && s'.hook == s.hook && s'.calls == s.calls)
  {
    var (err, s') := VariableRegistration(s, d);
    if err == Success {
      assert s'.vars[..|s.vars|] == s.vars;
      assert s'.groups[GROUP_STANDARD_COUNT..] == s.groups[GROUP_STANDARD_COUNT..];
    } else if VARIABLE_MIN_SIZE <= d.size <= VARIABLE_MAX_SIZE && d.data.Some? && |s.vars| < MAX_VARIABLES {
      var i :| 0 <= i < |s.vars| && VarRefs(s.vars)[i] == d.ref;
    }
  }

  /** Appending a variable leaves the sums over existing members alone. */
  lemma {:induction false} SumSizesExtend(vars: seq<Variable>, v: Variable, ms: seq<nat>)
    requires InRange(ms, |vars|)
    ensures InRange(ms, |vars + [v]|)
    ensures SumSizes(vars + [v], ms) == SumSizes(vars, ms)
  {
    if ms != [] {
      SumSizesExtend(vars, v, ms[..|ms| - 1]);
    }
  }

  /** A list of ids below `n` stays free of repeats when `n` is appended. */
  lemma AppendFreshDistinct(ms: seq<nat>, n: nat)
    requires InRange(ms, n) && Distinct(ms)
    ensures Distinct(ms + [n])
  {
    var ms' := ms + [n];
    forall a, b | 0 <= a < b < |ms'| ensures ms'[a] != ms'[b] {
      if b == |ms| {
        assert ms'[a] == ms[a] < n;
      }
    }
  }

  /** The standard group `w` after the new variable `id` joins it. */
  lemma StandardGroupJoin(vars: seq<Variable>, v: Variable, g: Group, w: nat)
    requires GroupWellFormed(vars, g, w)
    requires |vars| < MAX_VARIABLES && 1 <= v.size
    ensures GroupWellFormed(vars + [v], Join(g, |vars|, v.size), w)
  {
    var vars' := vars + [v];
    SumSizesExtend(vars, v, g.members);
    SumSizesAppend(vars', g.members, |vars|);
    assert vars'[|vars|] == v;
    AppendFreshDistinct(g.members, |vars|);
  }

  /** A group over the existing variables stays well formed, and keeps its
      writable flag's meaning, when a variable is appended. */
  lemma GroupExtend(vars: seq<Variable>, v: Variable, g: Group, i: nat)
    requires GroupWellFormed(vars, g, i)
    ensures GroupWellFormed(vars + [v], g, i)
    ensures AllWritable(vars + [v], g.members) == AllWritable(vars, g.members)
  {
    SumSizesExtend(vars, v, g.members);
    assert forall k :: 0 <= k < |g.members| ==> (vars + [v])[g.members[k]] == vars[g.members[k]];
  }

  /** Appending a new, well-formed variable with the next id keeps the
      variable table well formed. */
  lemma VarsAppend(vars: seq<Variable>, v: Variable)
    requires forall i :: 0 <= i < |vars| ==> VarWellFormed(vars[i], i)
    requires Distinct(VarRefs(vars))
    requires VarWellFormed(v, |vars|) && v.ref !in VarRefs(vars)
    ensures forall i :: 0 <= i < |vars + [v]| ==> VarWellFormed((vars + [v])[i], i)
    ensures Distinct(VarRefs(vars + [v]))
  {
    var vars' := vars + [v];
    assert VarRefs(vars') == VarRefs(vars) + [v.ref];
    forall i | 0 <= i < |vars'| ensures VarWellFormed(vars'[i], i) {
      if i < |vars| {
        assert vars'[i] == vars[i];
      }
    }
  }

  /** The group table after the variable `v` joins ALL and the standard
      group `w`, every other group kept: well formed over the extended
      table, with user groups still writable exactly when all their members
      are. */
  lemma GroupsAfterJoin(vars: seq<Variable>, v: Variable, w: nat, groups: seq<Group>, groups': seq<Group>)
    requires |vars| < MAX_VARIABLES && 1 <= v.size
    requires w == GROUP_READ_ID as nat || w == GROUP_WRITE_ID as nat
    requires GROUP_STANDARD_COUNT <= |groups|
    requires forall i :: 0 <= i < |groups| ==> GroupWellFormed(vars, groups[i], i)
    requires forall i :: GROUP_STANDARD_COUNT <= i < |groups| ==> AccessMatches(vars, groups[i])
    requires groups' == groups[GROUP_ALL_ID := Join(groups[GROUP_ALL_ID], |vars|, v.size)]
                              [w := Join(groups[w], |vars|, v.size)]
    ensures forall i :: 0 <= i < |groups'| ==> GroupWellFormed(vars + [v], groups'[i], i)
    ensures forall i :: GROUP_STANDARD_COUNT <= i < |groups'| ==> AccessMatches(vars + [v], groups'[i])
  {
    forall i | 0 <= i < |groups'|
      ensures GroupWellFormed(vars + [v], groups'[i], i)
      ensures GROUP_STANDARD_COUNT <= i ==> AccessMatches(vars + [v], groups'[i])
    {
      assert GroupWellFormed(vars, groups[i], i);
      if i == GROUP_ALL_ID as nat || i == w {
        StandardGroupJoin(vars, v, groups[i], i);
      } else {
        GroupExtend(vars, v, groups[i], i);
        if GROUP_STANDARD_COUNT <= i {
          assert AccessMatches(vars, groups[i]);
        }
      }
    }
  }

  /** The standard groups stay in step with the table when `v` is appended
      and joins ALL and the group of its access: ALL lists every id, READ
      and WRITE the variables of their access. */
  lemma StandardGroupsAfterJoin(vars: seq<Variable>, v: Variable, groups: seq<Group>)
    requires |groups| >= GROUP_STANDARD_COUNT && StandardGroups(vars, groups)
    ensures var w := if v.writable then GROUP_WRITE_ID else GROUP_READ_ID;
            StandardGroups(vars + [v], groups[GROUP_ALL_ID := Join(groups[GROUP_ALL_ID], |vars|, v.size)]
                                             [w := Join(groups[w], |vars|, v.size)])
  {
    SelectedAppend(vars, v, false);
    SelectedAppend(vars, v, true);
    assert Ids(|vars| + 1) == Ids(|vars|) + [|vars|];
  }

  /** Registration keeps the registry invariant. */
  lemma VariableRegistrationKeepsInvariant(s: State, d: VarDesc)
    requires Invariant(s) && VarDescOk(d)
    ensures Invariant(VariableRegistration(s, d).1)
  {
    var (err, s') := VariableRegistration(s, d);
    if err == Success {
      var v := Variable(d.ref, |s.vars|, d.writable, d.size, d.data.value);
      assert s'.vars == s.vars + [v];
      VarsAppend(s.vars, v);
      var w := if d.writable then GROUP_WRITE_ID else GROUP_READ_ID;
      GroupsAfterJoin(s.vars, v, w as nat, s.groups, s'.groups);
      StandardGroupsAfterJoin(s.vars, v, s.groups);
    }
  }

  /** A curve is registered exactly when its callbacks match its access,
      the table has room and it is not registered yet; refusals change
      nothing. A registered curve gets the next id and the table is
      otherwise kept. */
  lemma CurveRegistrationEffect(s: State, d: CurveDesc)
    requires Invariant(s)
    ensures var (err, s') := CurveRegistration(s, d);
            && (err == Success <==>
                  && d.hasReadBlock && d.hasWriteBlock == d.writable
                  && |s.curves| < MAX_CURVES
                  && forall i :: 0 <= i < |s.curves| ==> s.curves[i].ref != d.ref)
            && (!d.hasReadBlock || d.hasWriteBlock != d.writable ==> err == ParamInvalid)
            && (d.hasReadBlock && d.hasWriteBlock == d.writable && err != Success ==> err == OutOfMemory)
            && (err != Success ==> s' == s && err in {ParamInvalid, OutOfMemory})
            && (err == Success ==>
                  && s'.curves == s.curves + [Curve(d.ref, |s.curves|, d.writable, d.nblocks, d.checksum, d.blocks)]
                  && s'.vars == s.vars && s'.groups == s.groups && s'.hook == s.hook && s'.calls == s.calls)
  {
    var (err, s') := CurveRegistration(s, d);
    if err != Success && d.hasReadBlock && d.hasWriteBlock == d.writable && |s.curves| < MAX_CURVES {
      var i :| 0 <= i < |s.curves| && CurveRefs(s.curves)[i] == d.ref;
    }
  }

  /** Curve registration keeps the registry invariant. */
  lemma CurveRegistrationKeepsInvariant(s: State, d: CurveDesc)
    requires Invariant(s) && CurveDescOk(d)
    ensures Invariant(CurveRegistration(s, d).1)
  {
    var (err, s') := CurveRegistration(s, d);
    if err == Success {
      var curves' := s'.curves;
      assert forall i :: 0 <= i < |s.curves| ==> curves'[i] == s.curves[i];
      assert forall i :: 0 <= i < |curves'| ==> CurveWellFormed(curves'[i], i) by {
        forall i | 0 <= i < |curves'| ensures CurveWellFormed(curves'[i], i) {
          if i < |s.curves| {
            assert CurveWellFormed(s.curves[i], i);
          }
        }
      }
      assert CurveRefs(curves') == CurveRefs(s.curves) + [d.ref];
    }
  }

  // ---------------------------------------------------------------------
  // The entry points

  /** `sllp_new`: a fresh instance holding the initial registry. The hook
      starts unregistered. */
  method New() returns (sllp: Instance)
    ensures fresh(sllp)
    ensures sllp.Snapshot() == Initial()
    ensures sllp.Valid()
  {
    sllp := new Instance();
    var groups := StandardGroupsInit();
    sllp.groups := groups;
    sllp.hook := None;
    assert sllp.Snapshot() == Initial();
  }

  /** The three standard groups of `sllp_new`, each initialised and added
      to the (empty) group list in turn. */
  method StandardGroupsInit() returns (groups: seq<Group>)
    ensures groups == Initial().groups
  {
    var all := GroupInit(GROUP_ALL_ID, false);
    var read := GroupInit(GROUP_READ_ID, false);
    var write := GroupInit(GROUP_WRITE_ID, true);
    var added := ListAdd([], all);
    groups := added.1;
    assert groups == [all];
    added := ListAdd(groups, read);
    groups := added.1;
    assert groups == [all, read];
    added := ListAdd(groups, write);
    groups := added.1;
  }

  /** The variable `id` of `size` bytes joins group `gid`: it is added to
      the group's list, and the group's `uint8_t` data size grows by its
      size. The id is not in the group yet, so the list accepts it. */
  method JoinGroup(sllp: Instance, gid: nat, id: nat, size: byte)
    requires gid < |sllp.groups| && id !in sllp.groups[gid].members
    modifies sllp
    ensures sllp.Snapshot() == old(sllp.Snapshot()).(groups := old(sllp.groups)[gid := Join(old(sllp.groups[gid]), id, size)])
  {
    var g := sllp.groups[gid];
    var joined := ListAdd(g.members, id);
    assert joined.0 == Success;
    sllp.groups := sllp.groups[gid := Group(g.id, g.writable, (g.dataSize + size) % 0x100, joined.1)];
  }

  /** `sllp_register_variable`. A NULL instance or variable is refused; the
      two group insertions cannot fail, since the new id is in no group
      yet. */
  method RegisterVariable(sllp: Instance?, d: Option<VarDesc>) returns (err: SllpErr)
    requires sllp != null ==> sllp.Valid()
    requires d.Some? ==> VarDescOk(d.value)
    modifies sllp
    ensures sllp == null || d.None? ==> err == ParamInvalid
    ensures sllp != null ==> sllp.Valid()
    ensures sllp != null && d.None? ==> sllp.Snapshot() == old(sllp.Snapshot())
    ensures sllp != null && d.Some? ==>
              (err, sllp.Snapshot()) == VariableRegistration(old(sllp.Snapshot()), d.value)
  {
    if sllp == null || d.None? {
      return ParamInvalid;
    }
    var desc := d.value;
    ghost var s := sllp.Snapshot();
    VariableRegistrationKeepsInvariant(s, desc);
    if desc.size < VARIABLE_MIN_SIZE || desc.size > VARIABLE_MAX_SIZE {
      return ParamOutOfRange;
    }
    if desc.data.None? {
      return ParamInvalid;
    }
    if |sllp.vars| == MAX_VARIABLES {
      return OutOfMemory;
    }
    var added := ListAdd(VarRefs(sllp.vars), desc.ref);
    if added.0 != Success {
      return OutOfMemory;
    }
    var id: byte := |sllp.vars|;
    sllp.vars := sllp.vars + [Variable(desc.ref, id, desc.writable, desc.size, desc.data.value)];
    assert GroupWellFormed(s.vars, s.groups[GROUP_ALL_ID], GROUP_ALL_ID as nat);
    JoinGroup(sllp, GROUP_ALL_ID as nat, id as nat, desc.size);
    var w := if desc.writable then GROUP_WRITE_ID else GROUP_READ_ID;
    assert GroupWellFormed(s.vars, s.groups[w], w as nat);
    JoinGroup(sllp, w as nat, id as nat, desc.size);
    assert sllp.Snapshot() == VariableRegistration(s, desc).1;
    err := Success;
  }

  /** `sllp_register_curve`. A NULL instance or curve is refused. */
  method RegisterCurve(sllp: Instance?, d: Option<CurveDesc>) returns (err: SllpErr)
    requires sllp != null ==> sllp.Valid()
    requires d.Some? ==> CurveDescOk(d.value)
    modifies sllp
    ensures sllp == null || d.None? ==> err == ParamInvalid
    ensures sllp != null ==> sllp.Valid()
    ensures sllp != null && d.None? ==> sllp.Snapshot() == old(sllp.Snapshot())
    ensures sllp != null && d.Some? ==>
              (err, sllp.Snapshot()) == CurveRegistration(old(sllp.Snapshot()), d.value)
  {
    if sllp == null || d.None? {
      return ParamInvalid;
    }
    var desc := d.value;
    CurveRegistrationKeepsInvariant(sllp.Snapshot(), desc);
    if !desc.hasReadBlock {
      return ParamInvalid;
    }
    if desc.writable && !desc.hasWriteBlock {
      return ParamInvalid;
    } else if !desc.writable && desc.hasWriteBlock {
      return ParamInvalid;
    }
    if |sllp.curves| == MAX_CURVES {
      return OutOfMemory;
    }
    var added := ListAdd(CurveRefs(sllp.curves), desc.ref);
    if added.0 != Success {
      return OutOfMemory;
    }
    var id: byte := |sllp.curves|;
    sllp.curves := sllp.curves + [Curve(desc.ref, id, desc.writable, desc.nblocks, desc.checksum, desc.blocks)];
    err := Success;
  }

  /** `sllp_register_hook`. A NULL instance is refused, and so is a NULL
      hook. */
  method RegisterHook(sllp: Instance?, hook: Option<HookId>) returns (err: SllpErr)
    requires sllp != null ==> sllp.Valid()
    modifies sllp
    ensures sllp == null ==> err == ParamInvalid
    ensures sllp != null ==> sllp.Valid()
    ensures sllp != null ==> (err, sllp.Snapshot()) == HookRegistration(old(sllp.Snapshot()), hook)
  {
    if sllp == null || hook.None? {
      return ParamInvalid;
    }
    sllp.hook := hook;
    err := Success;
  }

  /** `struct sllp_raw_packet` for the answer: the buffer the answer is
      written into, and the answer's length. */
  class RawPacket {
    const data: array<byte>
    var len: nat

    constructor (buffer: array<byte>)
      ensures data == buffer && len == 0
    {
      data := buffer;
      len := 0;
    }
  }

  /** `sllp_process_packet`: a NULL instance, request or response is
      refused; otherwise the request is processed and the answer's packet
      and length are written into `response`. */
  method ProcessPacket(sllp: Instance?, request: Option<seq<byte>>, response: RawPacket?, md5: P.Md5)
    returns (err: SllpErr)
    requires sllp != null ==> sllp.Valid()
    requires request.Some? ==> |request.value| < 0x1_0000
    requires response != null ==> HEADER_LEN + MAX_MESSAGE <= response.data.Length
    modifies sllp, response, if response == null then {} else {response.data}
    ensures sllp != null ==> sllp.Valid()
    ensures err == Success <==> sllp != null && request.Some? && response != null
    ensures err != Success ==> err == ParamInvalid
    ensures err == Success ==>
              && HEADER_LEN <= response.len <= HEADER_LEN + MAX_MESSAGE
              && response.data[..response.len] == Wire(response.data[0], response.data[HEADER_LEN .. response.len])
              && P.Process(old(sllp.Snapshot()), request.value, md5)
                 == P.Outcome(sllp.Snapshot(), P.Response(response.data[0], response.data[HEADER_LEN .. response.len]))
    ensures err != Success && sllp != null ==> sllp.Snapshot() == old(sllp.Snapshot())
  {
    if sllp == null || request.None? || response == null {
      return ParamInvalid;
    }
    var len := Message.PacketProcess(sllp, request.value, response.data, md5);
    response.len := len;
    err := Success;
  }
}
