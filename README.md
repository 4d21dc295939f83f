# sllp protocol engine in Dafny

A model of the protocol engine of `libsllpserver`, the server side of a small
control protocol over which a client reads and writes an embedded device's
variables, groups of variables, and curves (large block-addressed tables
with an MD5 checksum). The model covers:

- the wire codec: the one-byte size field (`decode_size`, `encode_size`) and the
  framing check (`is_size_ok`);
- the command dispatcher (`packet_process`, `message_process` and every
  command handler);
- the registry: `sllp_new`, `sllp_register_variable`, `sllp_register_curve`,
  `sllp_register_hook`, `sllp_process_packet` and `group_init`;
- the singly linked list `sllp_list` that the registry is built on.

Layout, one module per file:

- `sllp_types.dfy` (`SllpTypes`): the public types of `sllp_server.h`. These are
  the error codes, the hook operations, and the descriptions of variables and
  curves that the application registers.
- `sllp_list.dfy` (`SllpList`):
  - the list operations as functions on sequences (`ListAdd`,
    `ListValueAt`, `ListTrim`);
  - the linked list itself, as class `List` with `head`, `tail`, `count`
    and nodes. Its methods are proved against those functions.
- `common.dfy` (`Common`):
  - groups and `group_init`;
  - the instance as class `Instance`, with fields for the variable, group and
    curve tables, the hook, and a trace of hook calls;
  - the registry invariant. Ids are dense. Groups are well formed, and each
    group's `uint8_t` data size is its members' total mod 256. ALL, READ and
    WRITE stay in step with the variable table. User groups are writable
    exactly when all their members are. Registered objects are distinct.
- `codec.dfy` (`Codec`): command codes, the size field, the framing check and
  the bytes of an answer (`Wire`).
- `protocol.dfy` (`Protocol`): what each command does, as a function from the
  registry and the payload to the new registry and the answer. `Dispatch` is
  `message_process` and `Process` is `packet_process`.
- `protocol_lemmas.dfy` (`ProtocolLemmas`): what those functions guarantee.
  Every command keeps the registry invariant. Every answer fits a message.
  Errors carry no payload and change nothing. The hook is called only by
  successful reads and writes. There are per-command results, and checksum
  recomputation is idempotent.
- `message.dfy` (`Message`): the handlers as imperative code. Their loops fill
  the outgoing packet buffer (an `array`) and update the instance in place.
  Each handler is proved to compute the `Protocol` function of its command.
- `sllp_server.dfy` (`SllpServer`): the public entry points. They are
  specified by functions on the registry's value, proved to keep the
  invariant, and implemented by methods on an `Instance`.

Collaborators the engine only calls are parameters:

- the curves' `read_block`/`write_block` callbacks are a block store inside
  each curve (`Curve.blocks`);
- MD5 is a function `md5` from the bytes fed to it to a 16-byte digest;
- the hook is recorded as a trace of `(hook, operation, variable ids,
  variable table)` calls, the table being the variables as the hook finds
  them when it runs.

Object identity (the pointers the list compares) is a `ref` number.

## Model

| member | source | states |
|---|---|---|
| SllpList.ListAddProperties | libsllpserver/sllp_list.c:31-56 | adding succeeds exactly when the value is absent. On success the value goes to the tail and the earlier values keep their order. A refusal answers `PARAM_OUT_OF_RANGE` and leaves the list as it was, and no duplicate is ever created |
| SllpList.ListValueAtProperties | libsllpserver/sllp_list.c:98-127 | lookup succeeds exactly when `pos < count` and returns the element at `pos`; otherwise `PARAM_OUT_OF_RANGE` |
| SllpList.ListTrimProperties | libsllpserver/sllp_list.c:129-156 | trim yields a prefix. It succeeds exactly for `first == 0` (which clears) or `first < count`, and then keeps the first `first` values. Otherwise it answers `PARAM_OUT_OF_RANGE` and the list is unchanged |
| SllpList.List.Init | libsllpserver/sllp_list.c:19-29 | a new list is valid, empty, with count 0 |
| SllpList.List.Clear | libsllpserver/sllp_list.c:58-77 | the list becomes empty with count 0 |
| SllpList.List.Contains | libsllpserver/sllp_list.c:79-96 | the walk from the head reports true exactly when the value is stored |
| SllpList.List.Add | libsllpserver/sllp_list.c:31-56 | the linked list's status and contents are those of `ListAdd`; count tracks the length and only fresh nodes join the footprint |
| SllpList.List.ElementAt | libsllpserver/sllp_list.c:98-113 | succeeds exactly when `pos < count` and returns the `pos`-th node; otherwise `PARAM_OUT_OF_RANGE` |
| SllpList.List.ValueAt | libsllpserver/sllp_list.c:115-127 | returns `ListValueAt` of the contents |
| SllpList.List.Trim | libsllpserver/sllp_list.c:129-156 | status and new contents are those of `ListTrim`, count tracks the length |
| SllpList.List.CopyToVector | libsllpserver/sllp_list.c:158-175 | the values in order in `vector[0..count-1]`, the terminator in `vector[count]`, nothing after it touched |
| Common.GroupInit | libsllpserver/common.c:4-15 | the group has the given id and access, data size 0 and no members |
| Common.Instance.constructor | libsllpserver/sllp_server.c:16-18 | the three tables start empty, with no hook and no hook calls |
| Common.MemberBytesLength | libsllpserver/message.c:299-310 | the members' bytes laid end to end are as long as the members' total size |
| Common.SumSizesBound | libsllpserver/common.h:10-19 | a group's total size is at most 127 bytes per member |
| Common.SelectedProperties | libsllpserver/sllp_server.c:82-89 | the ids of one access are increasing and distinct, and hold exactly the variables of that access |
| Common.InvariantAfterDataChange | libsllpserver/message.c:315-408 | overwriting variable bytes with same-length data keeps the registry invariant |
| Common.StandardGroupsPartition | libsllpserver/sllp_server.c:76-89 | READ and WRITE partition ALL, and ALL holds exactly the registered ids |
| Common.AllDataSize | libsllpserver/sllp_server.c:80 | ALL's data size is the total size of all variables mod 256 |
| Common.GroupBytesFit | libsllpserver/message.c:299-310 | a group's member bytes have its total size, which is at least its `uint8_t` data size and at most 127·128 bytes |
| Codec.DecodeSize | libsllpserver/message.c:615-623 | a byte below 0x80 decodes to itself, any other to a size of 130 or more. Every decoded size is representable: never 128 or 129 and at most 16386 |
| Codec.EncodeSize | libsllpserver/message.c:625-633 | identity below 0x80, and below 0x80 again for sizes 130..16386: no 0x80 flag is ever set |
| Codec.IsSizeOk | libsllpserver/message.c:635-642 | true exactly when the packet holds the 2-byte header plus the announced payload |
| Codec.Wire | libsllpserver/message.c:112-114 | an answer's bytes are its code, its encoded size and its payload, so its length is the payload size plus 2 |
| Codec.DecodeSizeOnto | libsllpserver/message.c:615-623 | every representable size is the decoding of some byte |
| Codec.DecodeSizeInjective | libsllpserver/message.c:615-623 | different bytes decode to different sizes |
| Codec.RoundTripSmall | libsllpserver/message.c:615-633 | `decode(encode(n)) == n` for n below 0x80 |
| Codec.EncodeAfterDecode | libsllpserver/message.c:615-633 | `encode(decode(b))` gives `b` below 0x80 and `b - 0x80` above, so the large-size flag is lost |
| Codec.LargeSizesDoNotRoundTrip | libsllpserver/message.c:625-633 | a 16386-byte answer is announced as 127 and a 130-byte one as 0 |
| Codec.GapSizesEncodeAsZero | libsllpserver/message.c:625-633 | sizes 128 and 129 wrap in 16 bits and encode as 0 |
| ProtocolLemmas.MemberBytesAt | libsllpserver/message.c:299-310 | member `k`'s bytes sit at the offset of the members before it |
| ProtocolLemmas.WriteMembersLayout | libsllpserver/message.c:387-397 | a group write changes only member bytes, keeps lengths, and leaves non-members alone |
| ProtocolLemmas.WriteMembersPiece | libsllpserver/message.c:387-397 | after a group write, member `k` holds the payload slice at the offset of the members before it |
| ProtocolLemmas.WriteMembersPieces | libsllpserver/message.c:387-397 | the same, for every member at once |
| ProtocolLemmas.BuildGroupFailurePersists | libsllpserver/message.c:442-461 | once an id is refused, the whole build fails with that code |
| ProtocolLemmas.BuildGroupStep | libsllpserver/message.c:442-461 | one step of the loop: unknown id is INVALID_ID, repeated id is INSUFFICIENT_MEMORY, else the id is appended, access ANDed and size added mod 256 |
| ProtocolLemmas.BuildGroupSucceeds | libsllpserver/message.c:442-461 | a group is built exactly when every id is registered and none repeats, and its members are then the ids in order |
| ProtocolLemmas.BuildGroupContents | libsllpserver/message.c:439-461 | a built group has the next id, registered members, writable exactly when all members are, and size = total mod 256; failures are INVALID_ID or INSUFFICIENT_MEMORY |
| ProtocolLemmas.CurvesListLayout | libsllpserver/message.c:227-236 | the curves list is 18 bytes per curve, each block being that curve's info |
| ProtocolLemmas.WriteVarKeepsInvariant | libsllpserver/message.c:315-357 | WRITE_VAR keeps the registry invariant |
| ProtocolLemmas.WriteGroupKeepsInvariant | libsllpserver/message.c:359-408 | WRITE_GROUP keeps the registry invariant |
| ProtocolLemmas.GroupAppendKeepsInvariant | libsllpserver/message.c:410-473 | appending a well-formed user group with matching access keeps the invariant |
| ProtocolLemmas.CreateGroupKeepsInvariant | libsllpserver/message.c:410-473 | CREATE_GROUP keeps the registry invariant |
| ProtocolLemmas.BuiltGroupKeepsInvariant | libsllpserver/message.c:439-467 | the group built from an accepted payload may be appended without breaking the invariant |
| ProtocolLemmas.RemoveAllGroupsKeepsInvariant | libsllpserver/message.c:475-485 | REMOVE_ALL_GROUPS keeps the registry invariant |
| ProtocolLemmas.CurveBlockKeepsInvariant | libsllpserver/message.c:517-542 | CURVE_BLOCK keeps the registry invariant |
| ProtocolLemmas.CurveRecalcKeepsInvariant | libsllpserver/message.c:544-573 | CURVE_RECALC_CSUM keeps the registry invariant |
| ProtocolLemmas.DispatchKeepsInvariant | libsllpserver/message.c:120-582 | every command keeps the registry invariant |
| ProtocolLemmas.ProcessKeepsInvariant | libsllpserver/message.c:86-118 | processing any packet keeps the registry invariant |
| ProtocolLemmas.PacketAnswerLength | libsllpserver/message.c:112-115 | every answer's payload fits a message and the packet is payload plus 2 bytes |
| ProtocolLemmas.MalformedPacket | libsllpserver/message.c:106-109 | a packet shorter than the header or not matching its size field is answered MALFORMED_MESSAGE, empty, whatever its code, with no effect |
| ProtocolLemmas.PayloadSizeCheckedFirst | libsllpserver/message.c:596-613 | a supported command whose payload breaks its size rule is answered INVALID_PAYLOAD_SIZE, empty, with no effect |
| ProtocolLemmas.UnsupportedCommand | libsllpserver/message.c:575-577 | any other code, query-status included, is answered OP_NOT_SUPPORTED, empty, with no effect |
| ProtocolLemmas.NotifyAppends | libsllpserver/message.c:259-264 | with a hook, one call `(hook, op, ids, table)` is appended to the trace, `table` being the variables as the hook finds them; without one nothing is |
| ProtocolLemmas.QueriesWellBehaved | libsllpserver/message.c:138-239 | the queries keep the hook, fit a message, never call the hook, and their errors are empty and change nothing |
| ProtocolLemmas.ReadsWellBehaved | libsllpserver/message.c:241-313 | reads fit a message, errors change nothing, and a successful read appends one READ call to the registered hook, which sees the table the answer is read from |
| ProtocolLemmas.WritesWellBehaved | libsllpserver/message.c:315-408 | writes answer OK or an empty error that changes nothing, and a successful write appends one WRITE call, which sees the table with the new bytes already stored (sllp_server.h:146-154) |
| ProtocolLemmas.GroupsWellBehaved | libsllpserver/message.c:410-485 | group management never calls the hook, and its errors are empty and change nothing |
| ProtocolLemmas.CurvesWellBehaved | libsllpserver/message.c:487-573 | curve commands never call the hook, fit a message, and their errors are empty and change nothing |
| ProtocolLemmas.DispatchWellBehaved | libsllpserver/message.c:120-582 | all of the above for every command code |
| ProtocolLemmas.ErrorsChangeNothing | libsllpserver/message.c:86-582 | any error answer has an empty payload and leaves the registry as it was |
| ProtocolLemmas.HookCalledOnlyByReadsAndWrites | libsllpserver/message.c:241-408 | the hook registration never changes. The trace grows only on a successful READ_VAR, READ_GROUP, WRITE_VAR or WRITE_GROUP, by one call to the registered hook with that command's operation |
| ProtocolLemmas.VarsListAnswer | libsllpserver/message.c:138-159 | one byte per variable in id order: high bit is the writable flag, low bits the size |
| ProtocolLemmas.GroupsListAnswer | libsllpserver/message.c:161-182 | one byte per group: high bit writable, low bits the member count (for counts below 128) |
| ProtocolLemmas.GroupsListWrapsAt128 | libsllpserver/message.c:177-178 | a WRITE group of 128 variables is announced as byte 0 |
| ProtocolLemmas.QueryGroupAnswer | libsllpserver/message.c:184-215 | the member ids in order, or INVALID_ID for an unknown group |
| ProtocolLemmas.CurvesListAnswer | libsllpserver/message.c:217-239 | 18 bytes per curve: writable (0/1), nblocks, the 16-byte checksum |
| ProtocolLemmas.ReadVarAnswer | libsllpserver/message.c:241-270 | the variable's bytes (its size many) and one READ call for it, or INVALID_ID with no call |
| ProtocolLemmas.ReadGroupAnswer | libsllpserver/message.c:272-313 | a READ call with the members, then the first `data_size` (total mod 256) of the members' bytes in order (all of them when under 256), or INVALID_ID with no call |
| ProtocolLemmas.ReadGroupMemberBytes | libsllpserver/message.c:299-310 | each member's bytes sit in the group's bytes at the offset of the members before it |
| ProtocolLemmas.WriteVarAnswer | libsllpserver/message.c:315-357 | OK exactly when size ≥ 2, the id is known, size = var size + 1 and the variable is writable. Then its bytes become `payload[1..]`, nothing else changes, and one WRITE call follows that sees the new bytes. Otherwise an empty error with no effect, decided in source order: size < 2 is INVALID_PAYLOAD_SIZE, an unknown id INVALID_ID, a size other than 1 + the variable's size INVALID_PAYLOAD_SIZE, a read-only variable READ_ONLY |
| ProtocolLemmas.WriteReadOnlyVar | libsllpserver/message.c:338-343 | a well-sized write to a read-only variable answers READ_ONLY with no effect |
| ProtocolLemmas.WriteGroupAnswer | libsllpserver/message.c:359-408 | OK exactly when the group is known and writable and the payload is 1 + its data size (and its members' total); then only members' bytes change and one WRITE call with the members follows that sees the new bytes. Otherwise an empty error with no effect, decided in source order: size < 2 is INVALID_PAYLOAD_SIZE, an unknown group INVALID_ID, a size other than 1 + its data size INVALID_PAYLOAD_SIZE, a read-only group (standard or user) READ_ONLY, and a wrapped data size that disagrees with the members' total INVALID_PAYLOAD_SIZE |
| ProtocolLemmas.WriteGroupPieces | libsllpserver/message.c:387-397 | after a successful group write, member `k` holds the payload slice at its offset |
| ProtocolLemmas.WriteGroupWrites | libsllpserver/message.c:387-397 | a successful group write is `WriteMembers` of the members and `payload[1..]` |
| ProtocolLemmas.StandardReadOnlyGroups | libsllpserver/message.c:380-385 | writing ALL or READ answers READ_ONLY with no effect |
| ProtocolLemmas.CreateGroupAnswer | libsllpserver/message.c:410-473 | GROUP_CREATED exactly when 1 ≤ n ≤ variable count, the table has room, and the ids are registered and distinct. The new group is then appended with the next id, the ids as members and the AND of their access, and the answer is `flag + id`. Otherwise an empty error with the group table unchanged: `INVALID_PAYLOAD_SIZE` for no ids or more ids than variables, and, with room in the table, the code of the failed build (`INVALID_ID` for an unknown id, `INSUFFICIENT_MEMORY` for a repeated one, by `BuildGroupStep`) |
| ProtocolLemmas.CreateGroupTableFull | libsllpserver/message.c:420-424 | with 128 groups the answer is INSUFFICIENT_MEMORY with no effect |
| ProtocolLemmas.RemoveAllGroupsAnswer | libsllpserver/message.c:475-485 | OK, and exactly the first 3 groups remain |
| ProtocolLemmas.CurveTransmitAnswer | libsllpserver/message.c:487-515 | INVALID_ID, INVALID_VALUE for block > nblocks, or `[id, block]` + the 16384-byte block; the registry is unchanged |
| ProtocolLemmas.CurveBlockAnswer | libsllpserver/message.c:517-542 | INVALID_ID, INVALID_VALUE, READ_ONLY, or OK with exactly that block replaced and the checksum untouched |
| ProtocolLemmas.CurveRecalcAnswer | libsllpserver/message.c:544-573 | OK with the checksum replaced by the digest of blocks 0..nblocks fed in order, or INVALID_ID |
| ProtocolLemmas.BlocksFedLayout | libsllpserver/message.c:564-568 | the digest input is the blocks back to back, block `b` at offset 16384·b |
| ProtocolLemmas.CurveRecalcIdempotent | libsllpserver/message.c:544-573 | recomputing twice with no write in between changes nothing the second time |
| Message.Answer.SetAnswer | libsllpserver/message.c:584-594 | the answer gets the code and an empty payload |
| Message.Answer.PutHeader | libsllpserver/message.c:112-114 | the packet starts with the code and encoded size before the payload, which is kept, and the length is payload + 2 |
| Message.Answer.CheckPayloadSize | libsllpserver/message.c:596-613 | true exactly when the size rule holds; otherwise the answer becomes INVALID_PAYLOAD_SIZE |
| Message.CallHook | libsllpserver/message.c:259-264 | the registered hook, if any, gets one call; nothing else changes |
| Message.PutVarsList | libsllpserver/message.c:151-157 | the loop writes the vars-list payload |
| Message.PutGroupsList | libsllpserver/message.c:174-179 | the loop writes the groups-list payload |
| Message.PutMemberIds | libsllpserver/message.c:207-211 | the loop writes the members' ids |
| Message.PutCurveInfo | libsllpserver/message.c:231-234 | one curve's 18 bytes are written, the payload before them kept |
| Message.PutCurvesList | libsllpserver/message.c:227-235 | the loop writes the curves-list payload |
| Message.PutMemberBytes | libsllpserver/message.c:304-309 | the loop writes the members' bytes end to end |
| Message.QueryVarsList | libsllpserver/message.c:138-159 | computes `Protocol.QueryVarsList` |
| Message.QueryGroupsList | libsllpserver/message.c:161-182 | computes `Protocol.QueryGroupsList` |
| Message.QueryGroup | libsllpserver/message.c:184-215 | computes `Protocol.QueryGroup` |
| Message.QueryCurvesList | libsllpserver/message.c:217-239 | computes `Protocol.QueryCurvesList` |
| Message.ReadVar | libsllpserver/message.c:241-270 | computes `Protocol.ReadVar` on the instance |
| Message.ReadGroup | libsllpserver/message.c:272-313 | computes `Protocol.ReadGroup` on the instance |
| Message.WriteVar | libsllpserver/message.c:315-357 | computes `Protocol.WriteVar` on the instance; the hook is called after the store, so its recorded call holds the new bytes |
| Message.WriteMembersInPlace | libsllpserver/message.c:388-397 | the copy loop leaves the variable table equal to `WriteMembers` and changes nothing else |
| Message.WriteGroup | libsllpserver/message.c:359-408 | computes `Protocol.WriteGroup` on the instance; the hook is called after all members are stored, so its recorded call holds the new bytes |
| Message.BuildGroupLoop | libsllpserver/message.c:439-461 | the loop over the requested ids computes `BuildGroup` |
| Message.CreateGroup | libsllpserver/message.c:410-473 | computes `Protocol.CreateGroup` on the instance |
| Message.RemoveAllGroups | libsllpserver/message.c:475-485 | computes `Protocol.RemoveAllGroups` on the instance |
| Message.CurveTransmit | libsllpserver/message.c:487-515 | computes `Protocol.CurveTransmit` |
| Message.CurveBlock | libsllpserver/message.c:517-542 | computes `Protocol.CurveBlock` on the instance |
| Message.CurveRecalcCsum | libsllpserver/message.c:544-573 | the digest loop computes `Protocol.CurveRecalcCsum` on the instance |
| Message.MessageProcess | libsllpserver/message.c:120-582 | computes `Protocol.Dispatch` and keeps the invariant |
| Message.PacketProcess | libsllpserver/message.c:86-118 | computes `Protocol.Process`, keeps the invariant, and writes the packet as `Wire(code, payload)`, at most 2 + 16386 bytes |
| SllpServer.Initial | libsllpserver/sllp_server.c:16-26 | after `sllp_new`: no variables or curves, and groups ALL (read-only), READ (read-only) and WRITE (writable), all empty with size 0. There is no hook, and the invariant holds |
| SllpServer.Join | libsllpserver/sllp_server.c:77-89 | the id is appended to the group and the size added to its `uint8_t` data size |
| SllpServer.HookRegistration | libsllpserver/sllp_server.c:133-141 | succeeds exactly for a non-NULL hook, which replaces the registered one. NULL is refused with PARAM_INVALID and no change. The tables and the invariant are kept |
| SllpServer.VariableRegistrationEffect | libsllpserver/sllp_server.c:52-92 | registration succeeds exactly when the size is in 1..127, data is set, the table has room and the variable is new. The refusals are PARAM_OUT_OF_RANGE for a bad size, then PARAM_INVALID for missing data, and OUT_OF_MEMORY for a valid variable refused because the table is full or it is already registered, with no change. On success the next dense id is assigned and the variable joins ALL and READ or WRITE by its access |
| SllpServer.VariableRegistrationKeepsInvariant | libsllpserver/sllp_server.c:52-92 | variable registration keeps the registry invariant |
| SllpServer.CurveRegistrationEffect | libsllpserver/sllp_server.c:94-121 | registration succeeds exactly when `read_block` is set, `write_block` is set iff writable, there is room and the curve is new. Callback mismatches are PARAM_INVALID; a valid curve refused because the table is full or it is already registered is OUT_OF_MEMORY; a refusal changes nothing. On success the curve gets the next id |
| SllpServer.CurveRegistrationKeepsInvariant | libsllpserver/sllp_server.c:94-121 | curve registration keeps the registry invariant |
| SllpServer.New | libsllpserver/sllp_server.c:9-31 | a fresh instance holding `Initial()` |
| SllpServer.StandardGroupsInit | libsllpserver/sllp_server.c:20-26 | the three `group_init` calls and list additions give `Initial()`'s groups |
| SllpServer.JoinGroup | libsllpserver/sllp_server.c:77-89 | the new id joins one group, which becomes `Join` of it; the list addition cannot fail |
| SllpServer.RegisterVariable | libsllpserver/sllp_server.c:52-92 | NULL instance or variable gives PARAM_INVALID; otherwise computes `VariableRegistration` and keeps the invariant |
| SllpServer.RegisterCurve | libsllpserver/sllp_server.c:94-121 | NULL instance or curve gives PARAM_INVALID; otherwise computes `CurveRegistration` and keeps the invariant |
| SllpServer.RegisterHook | libsllpserver/sllp_server.c:133-141 | NULL instance gives PARAM_INVALID; otherwise computes `HookRegistration` |
| SllpServer.ProcessPacket | libsllpserver/sllp_server.c:123-131 | PARAM_INVALID exactly when an argument is NULL, with no change; otherwise the answer packet and length are those of `Protocol.Process` |

## Deviations from the source

Where the source's behaviour is undefined, the model follows the evident intent:

- `message.c:368-369`: WRITE_GROUP looks up the group with the payload pointer,
  and on success it never sets an answer code (`message.c:387-407`). The model
  takes `payload[0]` as the group id and answers OK.
- WRITE_GROUP: when a group's members total 256 bytes or more, the `uint8_t`
  data size has wrapped. The size check then passes a payload too short for
  the members, and the copy reads past it. The model answers
  INVALID_PAYLOAD_SIZE with no change.
- `message.c:416-418`: CREATE_GROUP refuses more ids than there are variables,
  but sets no answer code for it. The model answers INVALID_PAYLOAD_SIZE.
- `message.c:446` and `message.c:453`: the results of `value_at` and
  `list_add` are tested with inverted polarity. As written, a registered
  first id is answered INVALID_ID. An unknown first id leaves `var`
  indeterminate and passes it to `list_add`; the add succeeds, and the
  inverted test answers INSUFFICIENT_MEMORY before `var` is dereferenced at
  `message.c:459`. The model refuses unknown ids (INVALID_ID) and repeated
  ids (INSUFFICIENT_MEMORY).
- `message.c:463-467`: the built group is never added to the group table. The
  model appends it.
- `message.c:551`: CURVE_RECALC_CSUM tests the id with inverted polarity. The
  model recomputes for a known id and answers INVALID_ID otherwise.
- `message.c:538`: CURVE_BLOCK calls `write_block` even on a read-only curve,
  whose `write_block` is NULL (`sllp_server.c:106-107`). The model answers
  READ_ONLY.
- `sllp_server.c:9-31`: `sllp_new` never initialises the hook. The model
  starts with no hook.
- `sllp_list.c:172`: `copy_to_vector` writes the terminator at `vector[2*count]`,
  because the pointer has already been advanced. The model writes it at
  `vector[count]`.
- `sllp_list.c:147-150`: `trim` leaves the new tail linked to the released
  elements. The model terminates the list at the new tail.

Where the source is well defined, the model follows it literally:

- `message.c:632`: `encode_size` never sets the 0x80 flag. Sizes of 130 and
  more are announced wrongly (`Codec.EncodeAfterDecode`,
  `Codec.LargeSizesDoNotRoundTrip`, `Codec.GapSizesEncodeAsZero`), so a full
  CURVE_BLOCK answer is announced as 127 bytes.
- `common.h:25`: a group's data size is a `uint8_t`. Registration and
  CREATE_GROUP add sizes mod 256. READ_GROUP then sends only the first
  `data_size` bytes (`ProtocolLemmas.ReadGroupAnswer`).
- `message.c:177-178`: a groups-list byte is `flag + member count` as a
  `uint8_t`. A group of 128 members wraps it
  (`ProtocolLemmas.GroupsListWrapsAt128`).
- `sllp_server.c:135`: `sllp_register_hook` refuses a NULL hook, although
  `sllp_server.h:156-158` documents NULL as removing the hook.

## Left out

- Allocation failure (`malloc` in `sllp_new`, in list additions and in CREATE_GROUP), `free`, and `sllp_destroy`. The model has no heap exhaustion.
- `group_init` on a NULL group (`common.c:6-7`): groups are values, and every caller passes a group.
- `modified_list`: the scratch vector handed to the hook. The trace records the ids it would hold instead.
- What the hook, `read_block` and `write_block` do besides what is modelled. They are taken to return, and the block store behaves as storage.
- `Message.ReadVar`, `Message.ReadGroup`, `Message.WriteVar`, `Message.WriteGroup` (and `Protocol.ReadVar`, `Protocol.ReadGroup`, `Protocol.WriteVar`, `Protocol.WriteGroup`): the hook is modelled as unable to touch the variables. Each call records the table it sees, so a write's hook is shown to run after the store. A read's answer is the bytes from before the hook, which matches the source only when the application's hook does not refresh the variables it is told about (`sllp_server.h:146-151`).
- MD5 internals. The digest is the parameter `md5` applied to the bytes fed to it.
- The registry tables are sequences updated through the list functions (`ListAdd`, `ListValueAt`, `ListTrim`), not `List` objects. The linked list is modelled and proved on its own. Pointer aliasing between a variable's data buffer and other memory is not modelled.
- `Message.PacketProcess`, `SllpServer.ProcessPacket`: require an answer buffer of at least 2 + 16386 bytes, the largest answer. The source assumes this and does not check it.
- `Message.PacketProcess`, `SllpServer.ProcessPacket`: require the request to be shorter than 65536 bytes, the range of the `uint16_t` length field.
- `SllpServer.RegisterVariable`, `SllpServer.RegisterCurve`: require the caller's buffers to have the declared sizes. These are a variable's `size` data bytes, and a curve's 16-byte checksum and `nblocks + 1` blocks of 16384 bytes.
- The commented-out status query (`message.c:132-136`): answered OP_NOT_SUPPORTED like any unknown code.
