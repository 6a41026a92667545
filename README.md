# libiov table layer in Dafny

This project models libiov's `Table` (`lib/graph/table.cpp`). A `Table`
pairs two eBPF kernel maps under one name: a data map and a one-entry
metadata map. The record in the metadata map gives the data map's key and
value sizes. The model covers:

- the three constructors;
- both `InitTable` overloads, one reattaching to pinned paths and one
  creating both maps from a compiled program's table descriptor;
- map creation (`Insert`);
- the `TABLE`/`META` dispatch of `Update`, `Lookup`, `Delete` and `GetKey`;
- the enumeration loop of `GetTableElements` and the status flow of
  `ShowTableElements`;
- the scope, path and handle accessors;
- `MetaData::Update` from `lib/graph/metadata.cpp`.

The collaborators are modelled as abstract state:

- `BpfMaps.KernelMaps` is the kernel's map service. It holds a map from
  descriptor to `MapRec`. A `MapRec` has the map's kind, key size, value size,
  capacity, contents and iteration order. The class also keeps a ghost log of
  the calls it received.
- Statuses are 0 or a negated errno (see "Left out"). `BPF_MAP_GET_NEXT_KEY` follows the
  bpf(2) manual page: an absent key yields the first key, a stored key yields
  the next one, and the last key yields `-ENOENT`. A NULL key also yields the
  first key, which holds from Linux 4.12 on (see "Left out").
- `Persist.FileSystem` stands for libiov's file-system helper. `Open`,
  `MakePathName` and `Save` choose their results nondeterministically. It
  keeps the pins and a ghost log.
- `BpfProgram.BpfModule` is the compiled program, as a sequence of table
  descriptors.
- `Meta.Descr` is `struct descr`, stored as 16 little-endian bytes.

The initialisation, map-creation and dispatch methods of `Table` are each
proved against the state they leave:

- the handles they set;
- the paths they record;
- the exact sequence of kernel and file-system calls;
- the new contents of the kernel's maps and pins.

The enumeration methods change only the kernel's call log. Their contract is
the status and the caller's map they return.

`GetTableElements` is proved to compute `Enumeration.Enumerated`, a closed
form over the maps. The lemmas in `Enumeration` state:

- what the enumeration adds;
- when it covers the whole data map;
- that a table created by `InitTable(module, index)` is described by its
  own metadata record when the kernel took the record, and that its
  enumeration fails when the kernel refused it.

## Model

| member | source | states |
|---|---|---|
| Tables.Table.Empty | lib/graph/table.cpp:39 | the default table has no handles and no pin paths |
| Tables.Table.WithSizes | lib/graph/table.cpp:40-45 | name, scope, key size and leaf size are the arguments; no handle is owned |
| Tables.Table.constructor | lib/graph/table.cpp:46-49 | name and scope are the arguments; no handle is owned |
| Tables.Table.InitTableFromPaths | lib/graph/table.cpp:52-69 | opens the data path first. A negative handle returns false without opening the metadata path. Otherwise it opens the metadata path and succeeds exactly when that handle is non-negative. `fdTable`/`fdMeta` then hold the opened handles. Name, scope, sizes and pin paths are left unchanged |
| Tables.Table.InitTableFromIndex | lib/graph/table.cpp:71-118 | creates the data map with the descriptor's kind and capacity and the table's own sizes. A negative handle returns false before any path is built or file-system call is made, with every field but `tableprog_` unchanged. A failed MakePathName, or a negative data-pin status, returns false with no metadata map created and the metadata handle unchanged. A negative metadata handle returns false after the data pin. Every case states both call logs, the pins and the maps. On success: the paths are prefix+name and that+`_metadata`; the data handle is pinned; the metadata map is a fresh descriptor; the kernel received exactly create, create(HASH, 4, 16, 1) and update(key 0, record, `BPF_ANY`); and the maps gained exactly the empty data map and the metadata map. True is returned whatever the metadata pin and the record store report: the metadata map holds the record or, if the kernel refused it, stays empty |
| Tables.Table.PinAndDescribe | lib/graph/table.cpp:85-117 | after the data map exists, the same cases as `InitTable(module, index)`. A failed MakePathName or a negative data-pin status returns false with no kernel call and the metadata handle and kernel's maps unchanged. A negative metadata handle returns false with the maps unchanged. Success needs both, and gives the whole file-system log, the pins, the record sizes (both truncated to 32 bits) and the metadata map's exact new contents |
| Tables.Table.PinTable | lib/graph/table.cpp:85-99 | a failed MakePathName returns false and leaves the paths and pins alone. Otherwise `pathTableFd == prefix + name` and `pathMetaFd == pathTableFd + "_metadata"`. The data handle is pinned at the first path, and it succeeds exactly when Save's status is non-negative |
| Tables.Table.CreateMetadata | lib/graph/table.cpp:101-117 | creates the metadata map as HASH with key size 4, value size 16 and one entry. A negative handle returns false with no file-system call and `fd_meta` unchanged. Otherwise it pins the handle at `pathMetaFd` and stores the record at key 0 with `BPF_ANY`. It returns true whatever the pin and the store report, with the metadata map holding the record or still empty. The record's key/leaf sizes are the table's sizes truncated to 32 bits |
| Tables.Table.StoreRecordAt | lib/graph/table.cpp:114-115 | the update of key 0 on the fresh metadata map either succeeds, leaving exactly `RecordMap(item)` there, or is refused with `-ENOMEM` and changes nothing; no other map changes |
| Tables.Table.Insert | lib/graph/table.cpp:123-128 | forwards kind, sizes and capacity to map creation. A non-negative handle is a fresh descriptor of an empty map with those parameters (every kind behaves as a hash map, see "Left out"); a negative one changes no map |
| Tables.Table.Update | lib/graph/table.cpp:131-147 | an unknown tag returns -1 and makes no kernel call. `TABLE`/`META` use the data/metadata handle, forward key, value and flags unchanged, and return the kernel's status unchanged (the status the maps decide, or `-ENOMEM` for an update they would accept) |
| Tables.Table.Lookup | lib/graph/table.cpp:151-167 | an unknown tag returns -1, makes no kernel call and leaves the buffer alone. Otherwise it returns the kernel's status and buffer for the routed handle |
| Tables.Table.Delete | lib/graph/table.cpp:170-185 | an unknown tag returns -1 and makes no kernel call. Otherwise it returns the kernel's delete status for the routed handle |
| Tables.Table.GetKey | lib/graph/table.cpp:188-204 | an unknown tag returns -1 and makes no kernel call. Otherwise it returns the kernel's next-key status and buffer for the routed handle |
| Tables.Table.WalkKeys | lib/graph/table.cpp:224-243 | the `for(;;)` loop computes `Walked`: it stops with 0 at the first failing next-key call, returns a failing lookup's status, and otherwise adds `next ↦ leaf` and moves the cursor to `next` |
| Tables.Table.GetTableElements | lib/graph/table.cpp:206-244 | a failed metadata lookup returns its status with `element` untouched. Otherwise it walks from a cursor of `key_size` 'f' bytes, with the buffers sized by the record. The result is `Enumerated(..., false)` |
| Tables.Table.GetTableElementsFromFirst | lib/graph/table.cpp:221-243 | the corrected enumeration, with the walk started from a NULL key: for a described table it returns 0 and adds every entry of the data map |
| Tables.Table.ShowTableElements | lib/graph/table.cpp:258-263 | returns the status of enumerating into an empty map, so a metadata failure's status is passed through |
| Tables.Table.SetTableScope | lib/graph/table.cpp:279 | sets the scope and nothing else |
| Tables.Table.GetTableScope | lib/graph/table.cpp:281 | returns the scope |
| Tables.Table.GetTableFdPath | lib/graph/table.cpp:283 | returns the data map's pin path |
| Tables.Table.GetMetaFdPath | lib/graph/table.cpp:284 | returns the metadata map's pin path |
| Tables.Table.GetTableFileDescriptor | lib/graph/table.cpp:286-289 | returns the handle the data pointer owns |
| Tables.Table.GetMetaFileDescriptor | lib/graph/table.cpp:290-293 | returns the handle the metadata pointer owns |
| Meta.MetaData.Update | lib/graph/metadata.cpp:37-45 | always reads descriptor 0. `key_size` and `leaf_size` are that table's sizes; `key_desc_size` and `leaf_desc_size` are the lengths of its key and leaf descriptions. Each is truncated to 32 bits |
| Meta.DecodeEncodeDescr | lib/graph/table.cpp:213-216 | a record read back from the metadata map decodes to the one written |
| Meta.EncodeDecodeDescr | lib/graph/table.cpp:213-216 | every 16-byte value is the encoding of exactly one record |
| Bytes.DecodeEncodeU32 | lib/graph/table.cpp:114 | the 4-byte key 0 (and any `uint32_t`) decodes back to itself |
| Bytes.EncodeDecodeU32 | lib/graph/table.cpp:212-215 | every 4-byte buffer is the encoding of exactly one `uint32_t` |
| Bytes.Trunc32 | lib/graph/table.cpp:102-103 | storing a `size_t` in a `uint32_t` field keeps it when it fits, and otherwise keeps it modulo 2^32 |
| Bytes.Zeros | lib/graph/table.cpp:222-223 | `std::string(n, '\0')` has `n` zero bytes |
| Enumeration.Sentinel | lib/graph/table.cpp:221 | the start cursor has `key_size` bytes, each 'f' (0x66) |
| Enumeration.Walked | lib/graph/table.cpp:224-243 | the loop's closed form: status at most 0; on failure nothing is added. Existing entries are kept, and every added entry is a stored entry of the data map |
| Enumeration.Enumerated | lib/graph/table.cpp:206-244 | a failed metadata lookup yields exactly its status and `element`. Otherwise the result is `Walked`'s, so existing entries are never removed and only stored entries are added |
| Enumeration.WalkFromIsWalked | lib/graph/table.cpp:224-243 | the iteration-by-iteration loop from zero-filled buffers equals the closed form `Walked` |
| Enumeration.WalkFromStep | lib/graph/table.cpp:225-241 | one iteration adds the key after the cursor with its stored value and moves the cursor to it |
| Enumeration.WalkFromEnd | lib/graph/table.cpp:225-233 | when no key follows the cursor, the loop ends with status 0 and adds nothing |
| Enumeration.WalkFromRest | lib/graph/table.cpp:224-243 | with buffers of the map's sizes, the loop adds exactly the entries after the cursor in the iteration order |
| Enumeration.WalkedAddsSuccessors | lib/graph/table.cpp:221-243 | a walk from any cursor of the right size returns 0 and adds exactly the entries that follow it |
| Enumeration.EnumerationCoversAll | lib/graph/table.cpp:206-244 | for a described table whose 'f' cursor is not a stored key, enumeration returns 0 and adds the whole data map |
| Enumeration.SentinelHidesPrefix | lib/graph/table.cpp:221-225 | when the cursor is the `j`-th stored key, only the keys after it are added, and keys `0..j` are missing from the result |
| Enumeration.PrefixNotInSuffix | lib/graph/table.cpp:224-241 | a walk that has passed position `j` of a duplicate-free order never meets a key up to `j` again |
| Enumeration.FromFirstCoversAll | lib/graph/table.cpp:221-243 | started from a NULL key, enumeration of a described table returns 0 and adds the whole data map |
| Enumeration.EmptyTableEnumeratesNothing | lib/graph/table.cpp:225-233 | once the metadata lookup succeeds, an empty data map enumerates to status 0 with nothing added |
| Enumeration.PickedAll | lib/graph/table.cpp:239 | adding every key of the iteration order adds the whole map |
| Enumeration.StoreRecord | lib/graph/table.cpp:114-115 | storing the encoded record in the fresh metadata map yields `RecordMap` and touches no other map |
| Enumeration.RecordReadsBack | lib/graph/table.cpp:215-219 | the record-holding metadata map answers the lookup at key 0 with that record |
| Enumeration.RecordDescribes | lib/graph/table.cpp:215-223 | if the record's sizes are the data map's, the buffers of the walk have the data map's sizes |
| Enumeration.CreatedTableDescribed | lib/graph/table.cpp:101-115 | if the kernel took the record, the maps `InitTable(module, index)` leaves on success describe the data map whenever its sizes fit in 32 bits. If it refused the record, the metadata lookup fails with `-ENOENT` |
| Enumeration.RefusedRecordFailsEnumeration | lib/graph/table.cpp:215-219 | with the metadata map still empty, enumeration returns `-ENOENT` and adds nothing |
| Enumeration.SentinelKeyIsSkipped | lib/graph/table.cpp:221 | a table whose only key is the 'f' byte enumerates to nothing. Started from a NULL key it yields that entry |
| Enumeration.SentinelIsNoCounterId | lib/graph/table.cpp:221 | the 4-byte 'f' cursor is neither `uint32_t` 1 nor 2 |
| Enumeration.TwoCounters | lib/graph/table.cpp:206-244 | a described table with the two counter entries 1 and 2 enumerates to exactly those two entries |
| BpfMaps.KernelMaps.CreateMap | lib/graph/table.cpp:126 | a non-negative handle is a fresh descriptor of an empty map with the given parameters; no other map changes |
| BpfMaps.KernelMaps.UpdateElem | lib/graph/table.cpp:144 | status as `UpdateStatus`, except that an update the maps would accept may be refused with `-ENOMEM`; the maps change as `UpdateEffect` says, so only on success |
| BpfMaps.KernelMaps.LookupElem | lib/graph/table.cpp:165 | status and buffer as `LookupResult`; no map changes |
| BpfMaps.KernelMaps.DeleteElem | lib/graph/table.cpp:183 | status as `DeleteStatus`; the maps change as `DeleteEffect` says |
| BpfMaps.KernelMaps.GetNextKey | lib/graph/table.cpp:202 | status and buffer as `NextKeyResult`; no map changes |
| BpfMaps.LookupResult | lib/graph/table.cpp:165 | success exactly when the map exists, the key and buffer have its sizes and the key is stored. The buffer then holds the stored value; otherwise it is unchanged |
| BpfMaps.NextKeyResult | lib/graph/table.cpp:202 | on success the buffer holds the first key after the cursor; on failure it is unchanged |
| BpfMaps.UpdateStatus | lib/graph/table.cpp:144 | success requires the map and sizes to match and a known flag. `BPF_NOEXIST` needs the key absent, `BPF_EXIST` needs it present, and a new key needs room |
| BpfMaps.DeleteStatus | lib/graph/table.cpp:183 | success exactly when the map exists, the key has its size and is stored |
| BpfMaps.Stored | lib/graph/table.cpp:144 | a successful update stores the value at the key and keeps the map's shape and well-formedness |
| BpfMaps.Removed | lib/graph/table.cpp:183 | a successful delete removes the key and keeps the map's shape and well-formedness |
| BpfMaps.Successors | lib/graph/table.cpp:225 | a suffix of the iteration order; the whole order for an absent cursor, and for a NULL one (Linux 4.12 and later) |
| BpfMaps.SuccessorsAt | lib/graph/table.cpp:241 | from the `m`-th key the walk continues with exactly the keys after it |
| BpfMaps.SuccessorsShrink | lib/graph/table.cpp:241 | moving the cursor to the yielded key drops exactly that key from what remains |
| BpfMaps.NextKeyProtocol | lib/graph/table.cpp:225 | an absent key yields the first key; the last key yields nothing |
| BpfMaps.LookupAfterUpdate | lib/graph/table.cpp:144-165 | after a successful `BPF_ANY` update, a lookup of that key returns the value written |
| BpfMaps.LookupAfterDelete | lib/graph/table.cpp:165-183 | after a successful delete, a lookup of that key reports `-ENOENT` |
| BpfMaps.UpdateLeavesOthers | lib/graph/table.cpp:144 | a successful update changes no other map |
| BpfMaps.FirstStoreSucceeds | lib/graph/table.cpp:104-115 | the maps' own status for the first store into an empty map with room is 0 when the sizes fit, so only a `-ENOMEM` refusal can make it fail |
| Persist.FileSystem.Save | lib/graph/table.cpp:95 | a non-negative status pins the handle at the path; a negative one leaves the pins alone |
| Persist.FileSystem.MakePathName | lib/graph/table.cpp:85 | records the request (name, scope) with its outcome and prefix |
| Persist.FileSystem.Open | lib/graph/table.cpp:55 | records the path opened and the handle returned |

## Left out

- Console output is not modelled: `DumpItem`, the printing loop of `ShowTableElements` (`lib/graph/table.cpp:246-256`, 264-276) and every `std::cout` diagnostic. Only the status is modelled.
- The real bpf syscalls are replaced by the abstract `KernelMaps` service. A buffer whose length is not the map's declared size makes the model's call fail with `-EINVAL`. `bpf(2)` passes no buffer length, so the real call behaves differently. A shorter buffer is read or written out of bounds. A longer one makes the real call succeed on the buffer's first `key_size`/`value_size` bytes. So when the metadata record's sizes exceed the data map's, the program records zero-padded keys and values, where the model ends the walk with nothing added, and returns `-EINVAL` when only the leaf size is wider.
- The iteration order of a kernel hash map is the model's choice. It is the order new keys were stored in, and a deleted key leaves it.
- The internals of `FileSystem` and compilation by `BPFModule` are not part of this model. `Open`, `MakePathName` and `Save` are oracles. `Table` passes `MakePathName` its module, the constant `TABLE`, the table's name and its scope (`lib/graph/table.cpp:85`). The model passes only the name and the scope: the oracle's answer is unconstrained, so the other two arguments would not change what the model states.
- The `FileDesc` close-on-destruction of a replaced or destroyed handle is not modelled; a handle is only "owned" as an `Option<int>` field. Concurrent writers to a pinned map are not modelled either.
- Uninitialised C++ fields are left unconstrained: `fd_table` and `fd_meta` before initialisation, `key_size` and `leaf_size`, which the two-argument and default constructors leave unset, and the description lengths of the record that index-based `InitTable` writes.
- Meta.MetaData.Update: requires `|prog.tables| > 0`, because reading descriptor 0 of a program without tables is `BPFModule`'s behaviour, which the model does not have.
- Statuses are 0 or a negated errno in the model, and an unknown object tag returns -1. The bcc wrappers that `lib/graph/table.cpp:144`, 165, 183 and 202 forward to are not part of this model. They return the raw `bpf(2)` result, -1 with `errno` set, so the program cannot tell an unknown tag's -1 from a kernel failure, while the model keeps the two apart.
- Tables.Table.WalkKeys: the calls to the kernel that the loop makes are not stated; only that no map changes. The same goes for GetTableElements, GetTableElementsFromFirst and ShowTableElements.
- The kernel's refusals are limited: `BPF_MAP_CREATE` may be refused at will, an update the maps would accept may be refused with `-ENOMEM`, and lookups, deletes and next-key calls fail only for the reasons the maps' state gives.
- Tables.Table.InitTableFromIndex: requires `index < |prog.tables|`, because reading a missing descriptor is `BPFModule`'s behaviour, which the model does not have.
- Tables.Table.Insert: takes its sizes and capacity as unbounded naturals, so the conversion from `size_t` to the `int` parameters of `Insert` is not modelled.
- Tables.Table.Update: requires the routed handle to be set (`tableprog_`/`metaprog_` non-null), because the source dereferences it unchecked. Lookup, Delete, GetKey, GetTableFileDescriptor and GetMetaFileDescriptor have the same precondition.
- Tables.Table.InitTableFromIndex: the source's single method is split into PinTable, PinAndDescribe, CreateMetadata and StoreRecordAt. What the maps it leaves mean for enumeration, described when the record was stored and failing when it was refused, is the separate lemma `Enumeration.CreatedTableDescribed`, not an `ensures`.
- Enumeration.Walked: a failing value lookup after entries have been added keeps them (the loop, `Enumeration.WalkFrom`, does so). In this kernel model, though, a lookup can fail only at the first iteration, so the closed form states that nothing is added.
- The start cursor is filled with the character 'f' (0x66), as `lib/graph/table.cpp:221` writes it, not with 0xFF bytes.

- Every map kind is modelled as a hash map: it is created empty, holds keys only as they are stored, lets any stored key be deleted, and answers an absent cursor with the first key. The kind recorded in `MapRec` is never consulted. For an array kind, which the data map gets when the program's descriptor says so (`lib/graph/table.cpp:78`), the real map starts with `max_entries` zero-valued entries and refuses deletes with `EINVAL`. The "empty data map" of `Tables.Table.Insert` and `Tables.Table.InitTableFromIndex` holds only for hash-like kinds.
- The `key`, `next_key` and `leaf` buffers of the enumeration loop are values. The kernel's write through `c_str()` (`lib/graph/table.cpp:225`, 235) changes only that string, as a `std::string` without shared representation behaves. Writing through `c_str()` is undefined in C++. Under a copy-on-write `std::string`, `key = next_key` and `element[next_key] = leaf` (239-241) would share the buffers the next call overwrites, and the entries already added would change with them. That aliasing is not modelled.
- Meta.MetaData.constructor: `MetaData::MetaData()` (`lib/graph/metadata.cpp:33`) leaves `item` uninitialised, so the model's constructor states nothing and has no row above.
- Tables.Table.GetTableElementsFromFirst: its first `GetKey` passes a NULL key, which the kernel answers with the first key only from Linux 4.12 on. Earlier kernels fail to copy the NULL key with `EFAULT`, and the corrected walk would then end at once with status 0 and nothing added. The model, and `Enumeration.FromFirstCoversAll`, assume the later behaviour.

## Findings

| source | as written | input that shows it | evidently intended | confidence | as-written member | corrected member |
|---|---|---|---|---|---|---|
| lib/graph/table.cpp:221-225 | the walk starts from a cursor of `key_size` 'f' bytes, which the kernel treats as a real key when it is stored | a table with one-byte keys holding only the key `"f"` enumerates to nothing; in general the 'f'-filled key and every key before it in the iteration order are missed | every entry of the data map is returned; the walk starts from a NULL key, which yields the first key on Linux 4.12 and later | not executed | Tables.Table.GetTableElements, Enumeration.SentinelKeyIsSkipped, Enumeration.SentinelHidesPrefix | Tables.Table.GetTableElementsFromFirst, Enumeration.FromFirstCoversAll |
