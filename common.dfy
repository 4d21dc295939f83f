/** The registry (libsllpserver/common.h, libsllpserver/common.c): groups,
    the server instance with its variable, group and curve tables, and the
    invariant that registration and request processing keep. */
module Common {
  import opened SllpTypes
  import opened SllpList

  const VARIABLE_MIN_SIZE: nat := 1
  const VARIABLE_MAX_SIZE: nat := 127
  const CURVE_INFO_SIZE: nat := 18
  const CURVE_CSUM_SIZE: nat := 16
  const CURVE_BLOCK_DATA_SIZE: nat := 16384
  /** A CURVE_BLOCK payload: the curve id, the block index, then the block. */
  const CURVE_BLOCK_PAYLOAD: nat := 2 + CURVE_BLOCK_DATA_SIZE
  const MAX_VARIABLES: nat := 128
  const MAX_GROUPS: nat := 128
  const MAX_CURVES: nat := 128

  /** `enum group_id`: positions of the standard groups. */
  const GROUP_ALL_ID: byte := 0
  const GROUP_READ_ID: byte := 1
  const GROUP_WRITE_ID: byte := 2
  const GROUP_STANDARD_COUNT: nat := 3

  /** `struct sllp_group`. `members` holds the ids of the member variables in
      insertion order; `dataSize` is a `uint8_t`, so it holds the members'
      total size modulo 256. */
  datatype Group = Group(id: byte, writable: bool, dataSize: byte, members: seq<nat>)

  /** `group_init`: the group gets the given id and access, no members and a
      data size of 0. */
  function GroupInit(id: byte, writable: bool): (g: Group)
    ensures g.id == id && g.writable == writable
    ensures g.dataSize == 0 && g.members == []
  {
    Group(id, writable, 0, [])
  }

  /** The contents of `struct sllp_instance` as a value: the variable, group
      and curve tables, the registered hook, and the calls made to hooks so
      far. */
  datatype State = State(vars: seq<Variable>, groups: seq<Group>, curves: seq<Curve>,
                         hook: Option<HookId>, calls: seq<HookCall>)

  // ---------------------------------------------------------------------
  // Quantities derived from the tables

  /** Every entry of `ms` names a variable of `vars`. */
  ghost predicate InRange(ms: seq<nat>, n: nat)
  {
    forall k :: 0 <= k < |ms| ==> ms[k] < n
  }

  /** Total size in bytes of the variables `ms`. */
  function SumSizes(vars: seq<Variable>, ms: seq<nat>): nat
    requires InRange(ms, |vars|)
  {
    if ms == [] then 0 else SumSizes(vars, ms[..|ms| - 1]) + vars[ms[|ms| - 1]].size
  }

  /** The bytes of the variables `ms`, one after the other. */
  function MemberBytes(vars: seq<Variable>, ms: seq<nat>): seq<byte>
    requires InRange(ms, |vars|)
  {
    if ms == [] then [] else MemberBytes(vars, ms[..|ms| - 1]) + vars[ms[|ms| - 1]].data
  }

  /** Every variable in `ms` is writable. */
  ghost predicate AllWritable(vars: seq<Variable>, ms: seq<nat>)
    requires InRange(ms, |vars|)
  {
    forall k :: 0 <= k < |ms| ==> vars[ms[k]].writable
  }

  /** Ids, in registration order, of the variables whose writable flag is `w`. */
  function Selected(vars: seq<Variable>, w: bool): seq<nat>
  {
    if vars == [] then []
    else Selected(vars[..|vars| - 1], w) + (if vars[|vars| - 1].writable == w then [|vars| - 1] else [])
  }

  /** The ids `0, 1, ..., n - 1`. */
  function Ids(n: nat): (r: seq<nat>)
    ensures |r| == n && forall k :: 0 <= k < n ==> r[k] == k
  {
    seq(n, k => k)
  }

  // ---------------------------------------------------------------------
  // The registry invariant

  ghost predicate VarWellFormed(v: Variable, i: nat)
  {
    v.id == i && VARIABLE_MIN_SIZE <= v.size <= VARIABLE_MAX_SIZE && |v.data| == v.size
  }

  ghost predicate GroupWellFormed(vars: seq<Variable>, g: Group, i: nat)
  {
    && g.id == i
    && InRange(g.members, |vars|)
    && Distinct(g.members)
    && |g.members| <= |vars|
    && g.dataSize == SumSizes(vars, g.members) % 256
  }

  ghost predicate CurveWellFormed(c: Curve, i: nat)
  {
    && c.id == i
    && |c.checksum| == CURVE_CSUM_SIZE
    && |c.blocks| == c.nblocks + 1
    && forall b :: 0 <= b < |c.blocks| ==> |c.blocks[b]| == CURVE_BLOCK_DATA_SIZE
  }

  /** A user group is writable exactly when all its members are. */
  ghost predicate AccessMatches(vars: seq<Variable>, g: Group)
  {
    InRange(g.members, |vars|) && g.writable == AllWritable(vars, g.members)
  }

  /** The identities of the registered variables, in table order: what
      `sllp_list_add` compares a new variable against. */
  function VarRefs(vars: seq<Variable>): (r: seq<VarRef>)
    ensures |r| == |vars| && forall i :: 0 <= i < |vars| ==> r[i] == vars[i].ref
  {
    seq(|vars|, i requires 0 <= i < |vars| => vars[i].ref)
  }

  /** The identities of the registered curves, in table order. */
  function CurveRefs(curves: seq<Curve>): (r: seq<CurveRef>)
    ensures |r| == |curves| && forall i :: 0 <= i < |curves| ==> r[i] == curves[i].ref
  {
    seq(|curves|, i requires 0 <= i < |curves| => curves[i].ref)
  }

  /** ALL holds every variable, READ the read-only ones and WRITE the writable
      ones, each in registration order; only WRITE is writable. */
  ghost predicate StandardGroups(vars: seq<Variable>, groups: seq<Group>)
    requires |groups| >= GROUP_STANDARD_COUNT
  {
    && groups[GROUP_ALL_ID].members == Ids(|vars|) && !groups[GROUP_ALL_ID].writable
    && groups[GROUP_READ_ID].members == Selected(vars, false) && !groups[GROUP_READ_ID].writable
    && groups[GROUP_WRITE_ID].members == Selected(vars, true) && groups[GROUP_WRITE_ID].writable
  }

  /** What holds between calls: bounded tables, dense 0-based ids, distinct
      registered objects, well-formed groups whose data size is their
      members' total (as a byte), the three standard groups in front, and
      user groups writable exactly when all their members are. */
  ghost predicate Invariant(s: State)
  {
    && |s.vars| <= MAX_VARIABLES
    && GROUP_STANDARD_COUNT <= |s.groups| <= MAX_GROUPS
    && |s.curves| <= MAX_CURVES
    && (forall i {:trigger VarWellFormed(s.vars[i], i)} :: 0 <= i < |s.vars| ==> VarWellFormed(s.vars[i], i))
    && Distinct(VarRefs(s.vars))
    && (forall i {:trigger GroupWellFormed(s.vars, s.groups[i], i)} :: 0 <= i < |s.groups| ==>
          GroupWellFormed(s.vars, s.groups[i], i))
    && StandardGroups(s.vars, s.groups)
    && (forall i {:trigger AccessMatches(s.vars, s.groups[i])} :: GROUP_STANDARD_COUNT <= i < |s.groups| ==>
          AccessMatches(s.vars, s.groups[i]))
    && (forall i {:trigger CurveWellFormed(s.curves[i], i)} :: 0 <= i < |s.curves| ==> CurveWellFormed(s.curves[i], i))
    && Distinct(CurveRefs(s.curves))
  }

  /** `struct sllp_instance`. The tables are kept as sequences (the source
      keeps them in `struct sllp_list`s, whose behaviour `ListAdd`,
      `ListValueAt` and `ListTrim` describe). `calls` records every hook
      call in order. */
  class Instance {
    var vars: seq<Variable>
    var groups: seq<Group>
    var curves: seq<Curve>
    var hook: Option<HookId>
    var calls: seq<HookCall>

    /** Empty tables (`sllp_list_init` on each list), no hook and no calls. */
    constructor ()
      ensures vars == [] && groups == [] && curves == [] && hook == None && calls == []
    {
      vars := [];
      groups := [];
      curves := [];
      hook := None;
      calls := [];
    }

    function Snapshot(): State
      reads this
    {
      State(vars, groups, curves, hook, calls)
    }

    ghost predicate Valid()
      reads this
    {
      Invariant(Snapshot())
    }
  }

  // ---------------------------------------------------------------------
  // Facts about the derived quantities

  lemma {:induction false} MemberBytesLength(vars: seq<Variable>, ms: seq<nat>)
    requires InRange(ms, |vars|)
    requires forall i :: 0 <= i < |vars| ==> |vars[i].data| == vars[i].size
    ensures |MemberBytes(vars, ms)| == SumSizes(vars, ms)
  {
    if ms != [] {
      MemberBytesLength(vars, ms[..|ms| - 1]);
    }
  }

  /** Each member contributes at most `VARIABLE_MAX_SIZE` bytes. */
  lemma {:induction false} SumSizesBound(vars: seq<Variable>, ms: seq<nat>)
    requires InRange(ms, |vars|)
    requires forall i :: 0 <= i < |vars| ==> vars[i].size <= VARIABLE_MAX_SIZE
    ensures SumSizes(vars, ms) <= VARIABLE_MAX_SIZE * |ms|
  {
    if ms != [] {
      SumSizesBound(vars, ms[..|ms| - 1]);
    }
  }

  lemma {:induction false} SumSizesAppend(vars: seq<Variable>, ms: seq<nat>, m: nat)
    requires InRange(ms, |vars|) && m < |vars|
    ensures InRange(ms + [m], |vars|)
    ensures SumSizes(vars, ms + [m]) == SumSizes(vars, ms) + vars[m].size
    ensures MemberBytes(vars, ms + [m]) == MemberBytes(vars, ms) + vars[m].data
  {
    assert (ms + [m])[..|ms|] == ms;
  }

  /** `Selected` lists, in increasing order, exactly the variables with the
      given access. */
  lemma {:induction false} SelectedProperties(vars: seq<Variable>, w: bool)
    ensures InRange(Selected(vars, w), |vars|)
    ensures |Selected(vars, w)| <= |vars|
    ensures forall a, b :: 0 <= a < b < |Selected(vars, w)| ==> Selected(vars, w)[a] < Selected(vars, w)[b]
    ensures Distinct(Selected(vars, w))
    ensures forall i :: 0 <= i < |vars| ==> (i in Selected(vars, w) <==> vars[i].writable == w)
  {
    if vars != [] {
      var pre := vars[..|vars| - 1];
      SelectedProperties(pre, w);
      assert forall i :: 0 <= i < |pre| ==> pre[i] == vars[i];
    }
  }

  /** `Selected` of a table extended by one variable. */
  lemma SelectedAppend(vars: seq<Variable>, v: Variable, w: bool)
    ensures Selected(vars + [v], w) == Selected(vars, w) + (if v.writable == w then [|vars|] else [])
  {
    assert (vars + [v])[..|vars|] == vars;
  }

  /** Two tables with the same layout: they differ at most in variable bytes. */
  ghost predicate SameLayout(vars: seq<Variable>, vars': seq<Variable>)
  {
    |vars| == |vars'| && forall i :: 0 <= i < |vars| ==> vars'[i] == vars[i].(data := vars'[i].data)
  }

  lemma {:induction false} SameLayoutSums(vars: seq<Variable>, vars': seq<Variable>, ms: seq<nat>)
    requires SameLayout(vars, vars') && InRange(ms, |vars|)
    ensures SumSizes(vars', ms) == SumSizes(vars, ms)
  {
    if ms != [] {
      SameLayoutSums(vars, vars', ms[..|ms| - 1]);
    }
  }

  lemma {:induction false} SameLayoutSelected(vars: seq<Variable>, vars': seq<Variable>, w: bool)
    requires SameLayout(vars, vars')
    ensures Selected(vars', w) == Selected(vars, w)
  {
    if vars != [] {
      SameLayoutSelected(vars[..|vars| - 1], vars'[..|vars'| - 1], w);
    }
  }

  /** Changing only the bytes of variables, with their lengths kept, keeps
      the invariant. */
  lemma InvariantAfterDataChange(s: State, vars': seq<Variable>)
    requires Invariant(s) && SameLayout(s.vars, vars')
    requires forall i :: 0 <= i < |vars'| ==> |vars'[i].data| == vars'[i].size
    ensures Invariant(s.(vars := vars'))
  {
    forall i | 0 <= i < |s.groups|
      ensures GroupWellFormed(vars', s.groups[i], i)
    {
      assert GroupWellFormed(s.vars, s.groups[i], i);
      SameLayoutSums(s.vars, vars', s.groups[i].members);
    }
    forall i | GROUP_STANDARD_COUNT <= i < |s.groups|
      ensures AccessMatches(vars', s.groups[i])
    {
      assert AccessMatches(s.vars, s.groups[i]);
    }
    SameLayoutSelected(s.vars, vars', false);
    SameLayoutSelected(s.vars, vars', true);
    forall i | 0 <= i < |vars'| ensures VarWellFormed(vars'[i], i) {
      assert VarWellFormed(s.vars[i], i);
    }
    assert VarRefs(vars') == VarRefs(s.vars);
  }

  /** READ and WRITE partition ALL: every variable is in exactly one of
      them, and both hold only registered variables. */
  lemma StandardGroupsPartition(s: State)
    requires Invariant(s)
    ensures forall i :: 0 <= i < |s.vars| ==>
              (i in s.groups[GROUP_READ_ID].members <==> i !in s.groups[GROUP_WRITE_ID].members)
    ensures forall i :: i in s.groups[GROUP_ALL_ID].members <==> 0 <= i < |s.vars|
    ensures forall i :: i in s.groups[GROUP_READ_ID].members || i in s.groups[GROUP_WRITE_ID].members
              <==> i in s.groups[GROUP_ALL_ID].members
    ensures |s.groups[GROUP_READ_ID].members| + |s.groups[GROUP_WRITE_ID].members| == |s.vars|
  {
    SelectedProperties(s.vars, false);
    SelectedProperties(s.vars, true);
    SelectedCount(s.vars);
    forall i | i in s.groups[GROUP_ALL_ID].members ensures 0 <= i < |s.vars| {
      var k :| 0 <= k < |s.vars| && s.groups[GROUP_ALL_ID].members[k] == i;
    }
    forall i | 0 <= i < |s.vars| ensures i in s.groups[GROUP_ALL_ID].members {
      assert s.groups[GROUP_ALL_ID].members[i] == i;
    }
    forall i | i in s.groups[GROUP_READ_ID].members || i in s.groups[GROUP_WRITE_ID].members
      ensures 0 <= i < |s.vars|
    {
      if i in s.groups[GROUP_READ_ID].members {
        var k :| 0 <= k < |Selected(s.vars, false)| && Selected(s.vars, false)[k] == i;
      } else {
        var k :| 0 <= k < |Selected(s.vars, true)| && Selected(s.vars, true)[k] == i;
      }
    }
  }

  lemma {:induction false} SelectedCount(vars: seq<Variable>)
    ensures |Selected(vars, false)| + |Selected(vars, true)| == |vars|
  {
    if vars != [] {
      SelectedCount(vars[..|vars| - 1]);
    }
  }

  /** ALL's data size is the total size of all variables, as a byte. */
  lemma AllDataSize(s: State)
    requires Invariant(s)
    ensures s.groups[GROUP_ALL_ID].dataSize == SumSizes(s.vars, Ids(|s.vars|)) % 256
  {
    assert GroupWellFormed(s.vars, s.groups[GROUP_ALL_ID], 0);
  }

  /** The bytes of a group's members fit in one message: at most 128
      variables of at most 127 bytes each. */
  lemma GroupBytesFit(s: State, g: nat)
    requires Invariant(s) && g < |s.groups|
    ensures InRange(s.groups[g].members, |s.vars|)
    ensures |MemberBytes(s.vars, s.groups[g].members)| == SumSizes(s.vars, s.groups[g].members)
    ensures s.groups[g].dataSize <= SumSizes(s.vars, s.groups[g].members) <= VARIABLE_MAX_SIZE * MAX_VARIABLES
  {
    assert GroupWellFormed(s.vars, s.groups[g], g);
    var ms := s.groups[g].members;
    assert forall i :: 0 <= i < |s.vars| ==> VarWellFormed(s.vars[i], i);
    MemberBytesLength(s.vars, ms);
    SumSizesBound(s.vars, ms);
  }

  /** A prefix of the members never weighs more than all of them. */
  lemma {:induction false} SumSizesPrefix(vars: seq<Variable>, ms: seq<nat>, n: nat)
    requires InRange(ms, |vars|) && n <= |ms|
    ensures InRange(ms[..n], |vars|)
    ensures SumSizes(vars, ms[..n]) <= SumSizes(vars, ms)
  {
    if n < |ms| {
      SumSizesPrefix(vars, ms[..|ms| - 1], n);
      assert ms[..|ms| - 1][..n] == ms[..n];
    } else {
      assert ms[..n] == ms;
    }
  }
}
