/**
  libiov's `Table`: a data map and a one-entry metadata map under one name.
  A table either reattaches to two pinned maps by path, or creates both maps
  from a compiled program's table descriptor, pins them and writes the
  metadata record; it then routes CRUD calls to one of its two handles by
  object type and can enumerate the whole data map.

  The owned handles (`std::unique_ptr<FileDesc>`) are `Option<int>`: `None`
  is the null pointer, which the source dereferences only after an
  initialisation has set it.
 */
module Tables {
  import opened Wrappers
  import opened Bytes
  import opened BpfMaps
  import opened Persist
  import opened BpfProgram
  import opened Meta
  import opened Enumeration

  /** `obj_type_t`: the data map, the metadata map, or any other tag. */
  datatype ObjType = TableObj | MetaObj | OtherObj(tag: int)

  class Table {
    var name: string
    /** The scope: pins go to the global namespace when set. */
    var global: bool
    var keySize: nat
    var leafSize: nat
    /** The owned handles `tableprog_` and `metaprog_`. */
    var tableprog: Option<int>
    var metaprog: Option<int>
    var fdTable: int
    var fdMeta: int
    var pathTableFd: string
    var pathMetaFd: string

    /** Both initialisations set the data handle before the metadata handle. */
    ghost predicate Valid()
      reads this
    {
      metaprog.Some? ==> tableprog.Some?
    }

    /** `Table()`: no name, no handles, no paths. */
    constructor Empty()
      ensures Valid() && name == "" && tableprog == None && metaprog == None
      ensures pathTableFd == "" && pathMetaFd == ""
    {
      name := "";
      tableprog, metaprog := None, None;
      pathTableFd, pathMetaFd := "", "";
    }

    /** `Table(name, scope, s_key, s_leaf)`. */
    constructor WithSizes(name: string, scope: bool, sKey: nat, sLeaf: nat)
      ensures Valid() && this.name == name && global == scope && keySize == sKey && leafSize == sLeaf
      ensures tableprog == None && metaprog == None && pathTableFd == "" && pathMetaFd == ""
    {
      this.name := name;
      global := scope;
      keySize := sKey;
      leafSize := sLeaf;
      tableprog, metaprog := None, None;
      pathTableFd, pathMetaFd := "", "";
    }

    /** `Table(name, scope)`: the sizes are left as they are. */
    constructor (name: string, scope: bool)
      ensures Valid() && this.name == name && global == scope
      ensures tableprog == None && metaprog == None && pathTableFd == "" && pathMetaFd == ""
    {
      this.name := name;
      global := scope;
      tableprog, metaprog := None, None;
      pathTableFd, pathMetaFd := "", "";
    }

    /** The handle an operation on `t` dereferences is set (other tags dereference nothing). */
    ghost predicate HasHandle(t: ObjType)
      reads this
    {
      match t
      case TableObj => tableprog.Some?
      case MetaObj => metaprog.Some?
      case OtherObj(_) => true
    }

    /** `TABLE` routes to the data handle, `META` to the metadata handle. */
    ghost function HandleFor(t: ObjType): (fd: int)
      reads this
      requires !t.OtherObj? && HasHandle(t)
    {
      if t.TableObj? then tableprog.value else metaprog.value
    }

    // -------------------------------------------------------------------
    // Initialisation.

    /**
      Reattaches to pinned maps: opens the data map's path, then the
      metadata map's path, failing at the first negative handle. Each
      handle is owned as soon as it is opened, failure or not.
     */
    method InitTableFromPaths(fs: FileSystem, tFile: string, mFile: string) returns (ok: bool)
      modifies this, fs`log
      ensures Valid() && tableprog.Some?
      ensures name == old(name) && global == old(global) && keySize == old(keySize) && leafSize == old(leafSize)
      ensures pathTableFd == old(pathTableFd) && pathMetaFd == old(pathMetaFd)
      ensures tableprog.value < 0 ==>
        && !ok && fs.log == old(fs.log) + [Opened(tFile, tableprog.value)]
        && metaprog == old(metaprog) && fdTable == old(fdTable) && fdMeta == old(fdMeta)
      ensures tableprog.value >= 0 ==>
        && fdTable == tableprog.value && metaprog.Some?
        && fs.log == old(fs.log) + [Opened(tFile, tableprog.value), Opened(mFile, metaprog.value)]
        && (ok <==> metaprog.value >= 0)
        && fdMeta == (if ok then metaprog.value else old(fdMeta))
    {
      var t := fs.Open(tFile);
      tableprog := Some(t);
      if t < 0 {
        return false;
      }
      fdTable := t;
      var m := fs.Open(mFile);
      metaprog := Some(m);
      if m < 0 {
        return false;
      }
      fdMeta := m;
      return true;
    }

    /**
      Creates the table from descriptor `index` of `prog`: creates the data
      map with the descriptor's kind and capacity and this table's sizes,
      pins it under the prefix the file system makes for the table's name
      and scope, creates a one-entry hash map for the metadata, pins that
      too (the outcome is not checked) and stores the record with this
      table's key and leaf sizes at key 0 (nor is that outcome checked).
      The record's two description lengths are left uninitialised.

      The ghost results report what the collaborators answered: `made` and
      `prefix` are the path request's outcome, `dataPin` and `metaPin` the
      statuses of the two pins, and `stored` whether the kernel accepted
      the record.
     */
    method InitTableFromIndex(k: KernelMaps, fs: FileSystem, prog: BpfModule, index: nat)
      returns (ok: bool, ghost made: bool, ghost prefix: string, ghost dataPin: int, ghost metaPin: int, ghost stored: bool, ghost record: Descr)
      requires k.Valid() && index < |prog.tables|
      modifies this`tableprog, this`metaprog, this`fdTable, this`fdMeta, this`pathTableFd, this`pathMetaFd, k, fs
      ensures k.Valid() && Valid() && tableprog.Some?
      ensures var create := SysCreate(prog.TableType(index), keySize, leafSize, prog.TableMaxEntries(index));
        tableprog.value < 0 ==>
        && !ok && k.log == old(k.log) + [create] && k.maps == old(k.maps)
        && fs.log == old(fs.log) && fs.pins == old(fs.pins)
        && metaprog == old(metaprog) && fdTable == old(fdTable) && fdMeta == old(fdMeta)
        && pathTableFd == old(pathTableFd) && pathMetaFd == old(pathMetaFd)
      ensures tableprog.value >= 0 ==> fdTable == tableprog.value && fdTable !in old(k.maps)
      ensures var create := SysCreate(prog.TableType(index), keySize, leafSize, prog.TableMaxEntries(index));
        var data := EmptyMap(prog.TableType(index), keySize, leafSize, prog.TableMaxEntries(index));
        tableprog.value >= 0 && !made ==>
        && !ok && fs.log == old(fs.log) + [PathMade(name, global, false, prefix)] && fs.pins == old(fs.pins)
        && pathTableFd == old(pathTableFd) && pathMetaFd == old(pathMetaFd)
        && metaprog == old(metaprog) && fdMeta == old(fdMeta)
        && k.log == old(k.log) + [create] && k.maps == old(k.maps)[fdTable := data]
      ensures tableprog.value >= 0 && made ==>
        pathTableFd == prefix + name && pathMetaFd == pathTableFd + "_metadata"
      ensures var create := SysCreate(prog.TableType(index), keySize, leafSize, prog.TableMaxEntries(index));
        var data := EmptyMap(prog.TableType(index), keySize, leafSize, prog.TableMaxEntries(index));
        tableprog.value >= 0 && made && dataPin < 0 ==>
        && !ok && fs.log == old(fs.log) + [PathMade(name, global, true, prefix), Saved(pathTableFd, fdTable, dataPin)]
        && fs.pins == old(fs.pins) && metaprog == old(metaprog) && fdMeta == old(fdMeta)
        && k.log == old(k.log) + [create] && k.maps == old(k.maps)[fdTable := data]
      ensures var create := SysCreate(prog.TableType(index), keySize, leafSize, prog.TableMaxEntries(index));
        var data := EmptyMap(prog.TableType(index), keySize, leafSize, prog.TableMaxEntries(index));
        tableprog.value >= 0 && made && dataPin >= 0 && !ok ==>
        && metaprog.Some? && metaprog.value < 0 && fdMeta == old(fdMeta)
        && fs.log == old(fs.log) + [PathMade(name, global, true, prefix), Saved(pathTableFd, fdTable, dataPin)]
        && fs.pins == old(fs.pins)[pathTableFd := fdTable]
        && k.log == old(k.log) + [create] + [SysCreate(BPF_MAP_TYPE_HASH, 4, DescrSize, 1)]
        && k.maps == old(k.maps)[fdTable := data]
      ensures var create := SysCreate(prog.TableType(index), keySize, leafSize, prog.TableMaxEntries(index));
        var data := EmptyMap(prog.TableType(index), keySize, leafSize, prog.TableMaxEntries(index));
        ok ==>
        && tableprog.value >= 0 && made && dataPin >= 0
        && metaprog == Some(fdMeta) && fdMeta != fdTable && fdMeta !in old(k.maps)
        && record.keySize == Trunc32(keySize) && record.leafSize == Trunc32(leafSize)
        && k.log == old(k.log) + [create] + [SysCreate(BPF_MAP_TYPE_HASH, 4, DescrSize, 1)]
                               + [SysUpdate(fdMeta, MetaKey, EncodeDescr(record), BPF_ANY)]
        && k.maps == old(k.maps)[fdTable := data][fdMeta := MetaMapAfter(record, stored)]
        && fs.log == old(fs.log) + [PathMade(name, global, true, prefix), Saved(pathTableFd, fdTable, dataPin)]
                                 + [Saved(pathMetaFd, fdMeta, metaPin)]
        && fs.pins == if metaPin >= 0 then old(fs.pins)[pathTableFd := fdTable][pathMetaFd := fdMeta]
                      else old(fs.pins)[pathTableFd := fdTable]
    {
      var t := Insert(k, prog.TableType(index), keySize, leafSize, prog.TableMaxEntries(index));
      tableprog := Some(t);
      if t < 0 {
        record :| true;
        return false, false, "", 0, 0, false, record;
      }
      fdTable := t;
      ok, made, prefix, dataPin, metaPin, stored, record := PinAndDescribe(k, fs);
    }

    /**
      Everything `InitTable(module, index)` does once the data map exists:
      pins it, then creates, pins and fills the metadata map.
     */
    method PinAndDescribe(k: KernelMaps, fs: FileSystem)
      returns (ok: bool, ghost made: bool, ghost prefix: string, ghost dataPin: int, ghost metaPin: int, ghost stored: bool, ghost record: Descr)
      requires k.Valid() && tableprog == Some(fdTable) && fdTable in k.maps
      modifies this`metaprog, this`fdMeta, this`pathTableFd, this`pathMetaFd, k, fs
      ensures k.Valid() && Valid()
      ensures !made ==>
        && !ok && fs.log == old(fs.log) + [PathMade(name, global, false, prefix)] && fs.pins == old(fs.pins)
        && pathTableFd == old(pathTableFd) && pathMetaFd == old(pathMetaFd)
        && metaprog == old(metaprog) && fdMeta == old(fdMeta)
        && k.log == old(k.log) && k.maps == old(k.maps)
      ensures made ==> pathTableFd == prefix + name && pathMetaFd == pathTableFd + "_metadata"
      ensures made && dataPin < 0 ==>
        && !ok && fs.log == old(fs.log) + [PathMade(name, global, true, prefix), Saved(pathTableFd, fdTable, dataPin)]
        && fs.pins == old(fs.pins) && metaprog == old(metaprog) && fdMeta == old(fdMeta)
        && k.log == old(k.log) && k.maps == old(k.maps)
      ensures made && dataPin >= 0 && !ok ==>
        && metaprog.Some? && metaprog.value < 0 && fdMeta == old(fdMeta)
        && fs.log == old(fs.log) + [PathMade(name, global, true, prefix), Saved(pathTableFd, fdTable, dataPin)]
        && fs.pins == old(fs.pins)[pathTableFd := fdTable]
        && k.log == old(k.log) + [SysCreate(BPF_MAP_TYPE_HASH, 4, DescrSize, 1)]
        && k.maps == old(k.maps)
      ensures ok ==>
        && made && dataPin >= 0
        && metaprog == Some(fdMeta) && fdMeta !in old(k.maps)
        && record.keySize == Trunc32(keySize) && record.leafSize == Trunc32(leafSize)
        && k.log == old(k.log) + [SysCreate(BPF_MAP_TYPE_HASH, 4, DescrSize, 1)]
                               + [SysUpdate(fdMeta, MetaKey, EncodeDescr(record), BPF_ANY)]
        && k.maps == old(k.maps)[fdMeta := MetaMapAfter(record, stored)]
        && fs.log == old(fs.log) + [PathMade(name, global, true, prefix), Saved(pathTableFd, fdTable, dataPin)]
                                 + [Saved(pathMetaFd, fdMeta, metaPin)]
        && fs.pins == if metaPin >= 0 then old(fs.pins)[pathTableFd := fdTable][pathMetaFd := fdMeta]
                      else old(fs.pins)[pathTableFd := fdTable]
    {
      var pinned;
      pinned, made, prefix, dataPin := PinTable(fs);
      if !pinned {
        record :| true;
        return false, made, prefix, dataPin, 0, false, record;
      }
      ok, record, metaPin, stored := CreateMetadata(k, fs);
    }

    /**
      The pinning step of `InitTable(module, index)`: asks the file system
      for the directory prefix of this table's name and scope, records the
      data map's path (prefix and name) and the metadata map's path (that
      path and `_metadata`), and pins the data handle at the first.
     */
    method PinTable(fs: FileSystem) returns (ok: bool, ghost made: bool, ghost prefix: string, ghost status: int)
      modifies this`pathTableFd, this`pathMetaFd, fs
      ensures !made ==>
        && !ok && fs.log == old(fs.log) + [PathMade(name, global, false, prefix)] && fs.pins == old(fs.pins)
        && pathTableFd == old(pathTableFd) && pathMetaFd == old(pathMetaFd)
      ensures made ==>
        && pathTableFd == prefix + name && pathMetaFd == pathTableFd + "_metadata"
        && fs.log == old(fs.log) + [PathMade(name, global, true, prefix), Saved(pathTableFd, fdTable, status)]
        && (ok <==> status >= 0)
        && fs.pins == if ok then old(fs.pins)[pathTableFd := fdTable] else old(fs.pins)
    {
      var m, p := fs.MakePathName(name, global);
      made, prefix := m, p;
      if !m {
        return false, made, prefix, 0;
      }
      p := p + name;
      pathTableFd := p;
      p := p + "_metadata";
      pathMetaFd := p;
      var ret := fs.Save(pathTableFd, fdTable);
      status := ret;
      ok := ret >= 0;
    }

    /**
      The second half of `InitTable(module, index)`: creates the one-entry
      metadata map, pins it at `pathMetaFd` (the outcome is not checked) and
      stores this table's key and leaf sizes at key 0 (nor is that outcome
      checked: `stored` says whether the kernel took the record). The
      record's two description lengths are left uninitialised.
     */
    method CreateMetadata(k: KernelMaps, fs: FileSystem) returns (ok: bool, ghost record: Descr, ghost pinStatus: int, ghost stored: bool)
      requires k.Valid() && tableprog.Some? && pathMetaFd != pathTableFd
      modifies this`metaprog, this`fdMeta, k, fs
      ensures k.Valid() && Valid() && metaprog.Some?
      ensures record.keySize == Trunc32(keySize) && record.leafSize == Trunc32(leafSize)
      ensures !ok ==>
        && metaprog.value < 0 && fdMeta == old(fdMeta) && k.maps == old(k.maps)
        && k.log == old(k.log) + [SysCreate(BPF_MAP_TYPE_HASH, 4, DescrSize, 1)]
        && fs.pins == old(fs.pins) && fs.log == old(fs.log)
      ensures ok ==>
        && metaprog == Some(fdMeta) && fdMeta !in old(k.maps)
        && k.maps == old(k.maps)[fdMeta := MetaMapAfter(record, stored)]
        && k.log == old(k.log) + [SysCreate(BPF_MAP_TYPE_HASH, 4, DescrSize, 1)]
                               + [SysUpdate(fdMeta, MetaKey, EncodeDescr(record), BPF_ANY)]
        && fs.log == old(fs.log) + [Saved(pathMetaFd, fdMeta, pinStatus)]
        && fs.pins == if pinStatus >= 0 then old(fs.pins)[pathMetaFd := fdMeta] else old(fs.pins)
    {
      var keyDescSize: u32 :| true;
      var leafDescSize: u32 :| true;
      var item := Descr(Trunc32(keySize), keyDescSize, Trunc32(leafSize), leafDescSize);
      record := item;
      var m := Insert(k, BPF_MAP_TYPE_HASH, 4, DescrSize, 1);
      metaprog := Some(m);
      if m < 0 {
        return false, record, 0, false;
      }
      fdMeta := m;

      var ret := fs.Save(pathMetaFd, m);
      pinStatus := ret;

      var st := StoreRecordAt(k, item);
      stored := st == 0;
      if stored {
        StoreTwice(old(k.maps), m, EmptyMap(BPF_MAP_TYPE_HASH, 4, DescrSize, 1), RecordMap(item));
      }
      return true, record, pinStatus, stored;
    }

    /**
      `Update(META, &key, &item, BPF_ANY)` with `key` 0, on the fresh
      metadata map: the kernel takes the record, or refuses it for lack of
      memory and leaves the map empty.
     */
    method StoreRecordAt(k: KernelMaps, item: Descr) returns (status: int)
      requires k.Valid() && metaprog == Some(fdMeta) && fdMeta in k.maps
      requires k.maps[fdMeta] == EmptyMap(BPF_MAP_TYPE_HASH, 4, DescrSize, 1)
      modifies k
      ensures k.Valid()
      ensures status == 0 || status == -ENOMEM
      ensures status == 0 ==> k.maps == old(k.maps)[fdMeta := RecordMap(item)]
      ensures status != 0 ==> k.maps == old(k.maps)
      ensures k.log == old(k.log) + [SysUpdate(fdMeta, MetaKey, EncodeDescr(item), BPF_ANY)]
    {
      ghost var before := k.maps;
      FirstStoreSucceeds(before, fdMeta, MetaKey, EncodeDescr(item));
      status := Update(k, MetaObj, MetaKey, EncodeDescr(item), BPF_ANY);
      if status == 0 {
        StoreRecord(before, k.maps, fdMeta, item);
      }
    }

    // -------------------------------------------------------------------
    // Map creation and CRUD dispatch.

    /** Creates a map with the given kind, key size, value size and capacity. */
    method Insert(k: KernelMaps, mapType: int, sKey: nat, sLeaf: nat, maxEntries: nat) returns (fd: int)
      requires k.Valid()
      modifies k
      ensures k.Valid()
      ensures k.log == old(k.log) + [SysCreate(mapType, sKey, sLeaf, maxEntries)]
      ensures fd < 0 ==> k.maps == old(k.maps)
      ensures fd >= 0 ==> fd !in old(k.maps) && k.maps == old(k.maps)[fd := EmptyMap(mapType, sKey, sLeaf, maxEntries)]
    {
      fd := k.CreateMap(mapType, sKey, sLeaf, maxEntries);
    }

    /**
      Stores `value` at `key` in the map `t` names, with `flags` forwarded
      unchanged; an unknown tag fails with -1 and makes no kernel call.
     */
    method Update(k: KernelMaps, t: ObjType, key: Key, value: Value, flags: int) returns (r: int)
      requires k.Valid() && HasHandle(t)
      modifies k
      ensures k.Valid()
      ensures t.OtherObj? ==> r == -1 && unchanged(k)
      ensures !t.OtherObj? ==>
        && k.log == old(k.log) + [SysUpdate(HandleFor(t), key, value, flags)]
        && UpdateOutcome(old(k.maps), HandleFor(t), key, value, flags, r)
        && UpdateEffect(old(k.maps), k.maps, HandleFor(t), key, value, r)
    {
      var fd: int;
      match t {
        case TableObj => fd := tableprog.value;
        case MetaObj => fd := metaprog.value;
        case OtherObj(_) => return -1;
      }
      r := k.UpdateElem(fd, key, value, flags);
    }

    /**
      Looks `key` up in the map `t` names, into the value buffer `value`;
      an unknown tag fails with -1, leaves the buffer alone and makes no
      kernel call.
     */
    method Lookup(k: KernelMaps, t: ObjType, key: Key, value: Value) returns (r: int, out: Value)
      requires k.Valid() && HasHandle(t)
      modifies k`log
      ensures t.OtherObj? ==> r == -1 && out == value && k.log == old(k.log)
      ensures !t.OtherObj? ==>
        && k.log == old(k.log) + [SysLookup(HandleFor(t), key)]
        && (r, out) == LookupResult(k.maps, HandleFor(t), key, value)
    {
      var fd: int;
      match t {
        case TableObj => fd := tableprog.value;
        case MetaObj => fd := metaprog.value;
        case OtherObj(_) => return -1, value;
      }
      r, out := k.LookupElem(fd, key, value);
    }

    /** Deletes `key` from the map `t` names; an unknown tag fails with -1 and makes no kernel call. */
    method Delete(k: KernelMaps, t: ObjType, key: Key) returns (r: int)
      requires k.Valid() && HasHandle(t)
      modifies k
      ensures k.Valid()
      ensures t.OtherObj? ==> r == -1 && unchanged(k)
      ensures !t.OtherObj? ==>
        && k.log == old(k.log) + [SysDelete(HandleFor(t), key)]
        && r == DeleteStatus(old(k.maps), HandleFor(t), key)
        && DeleteEffect(old(k.maps), k.maps, HandleFor(t), key, r)
    {
      var fd: int;
      match t {
        case TableObj => fd := tableprog.value;
        case MetaObj => fd := metaprog.value;
        case OtherObj(_) => return -1;
      }
      r := k.DeleteElem(fd, key);
    }

    /**
      Asks the map `t` names for the key after `key` (None is a NULL key),
      into the buffer `nextKey`; an unknown tag fails with -1 and makes no
      kernel call.
     */
    method GetKey(k: KernelMaps, t: ObjType, key: Option<Key>, nextKey: Key) returns (r: int, out: Key)
      requires k.Valid() && HasHandle(t)
      modifies k`log
      ensures t.OtherObj? ==> r == -1 && out == nextKey && k.log == old(k.log)
      ensures !t.OtherObj? ==>
        && k.log == old(k.log) + [SysNextKey(HandleFor(t), key)]
        && (r, out) == NextKeyResult(k.maps, HandleFor(t), key, nextKey)
    {
      var fd: int;
      match t {
        case TableObj => fd := tableprog.value;
        case MetaObj => fd := metaprog.value;
        case OtherObj(_) => return -1, nextKey;
      }
      r, out := k.GetNextKey(fd, key, nextKey);
    }

    // -------------------------------------------------------------------
    // Enumeration.

    /**
      The `for(;;)` loop of `GetTableElements`: from cursor `start`, with a
      next-key buffer of `keySz` bytes and a leaf buffer of `leafSz` bytes,
      adds `next ↦ leaf` for every key the kernel yields, until the next-key
      call fails (status 0) or a value lookup fails (its status).
     */
    method WalkKeys(k: KernelMaps, start: Option<Key>, keySz: nat, leafSz: nat, element: Snapshot) returns (r: int, out: Snapshot)
      requires k.Valid() && tableprog.Some?
      modifies k`log
      ensures (r, out) == Walked(k.maps, tableprog.value, start, keySz, leafSz, element)
    {
      var key := start;
      var nextKey := Zeros(keySz);
      var leaf := Zeros(leafSz);
      out := element;
      ghost var fd := tableprog.value;
      WalkFromIsWalked(k.maps, fd, start, keySz, leafSz, element);
      while true
        invariant WalkFrom(k.maps, fd, key, nextKey, leaf, out) == Walked(k.maps, fd, start, keySz, leafSz, element)
        decreases if fd in k.maps then |Successors(k.maps[fd].order, key)| else 0
      {
        r, nextKey := GetKey(k, TableObj, key, nextKey);
        if r != 0 {
          r := 0;
          break;
        }
        r, leaf := Lookup(k, TableObj, nextKey, leaf);
        if r != 0 {
          return;
        }
        RecValid(k.maps, fd);
        SuccessorsShrink(k.maps[fd].order, key);
        out := out[nextKey := leaf];
        key := Some(nextKey);
      }
    }

    /**
      Reads the metadata record at key 0, then walks the data map from a
      cursor of `key_size` 'f' bytes, adding each entry to `element`. A
      failed metadata lookup returns its status with `element` untouched.
     */
    method GetTableElements(k: KernelMaps, element: Snapshot) returns (r: int, out: Snapshot)
      requires k.Valid() && Valid() && metaprog.Some?
      modifies k`log
      ensures (r, out) == Enumerated(k.maps, tableprog.value, metaprog.value, element, false)
    {
      var item: Value;
      r, item := Lookup(k, MetaObj, MetaKey, Zeros(DescrSize));
      if r != 0 {
        return r, element;
      }
      var d := DecodeDescr(item);
      r, out := WalkKeys(k, Some(Sentinel(d.keySize)), d.keySize, d.leafSize, element);
    }

    /**
      The same enumeration with the walk started from a NULL key, which
      `BPF_MAP_GET_NEXT_KEY` answers with the first key: every entry is
      reported, whatever its bytes.
     */
    method GetTableElementsFromFirst(k: KernelMaps, element: Snapshot) returns (r: int, out: Snapshot)
      requires k.Valid() && Valid() && metaprog.Some?
      modifies k`log
      ensures (r, out) == Enumerated(k.maps, tableprog.value, metaprog.value, element, true)
      ensures Described(k.maps, tableprog.value, metaprog.value) ==> r == 0 && out == element + k.maps[tableprog.value].contents
    {
      var item: Value;
      r, item := Lookup(k, MetaObj, MetaKey, Zeros(DescrSize));
      if r != 0 {
        return r, element;
      }
      var d := DecodeDescr(item);
      r, out := WalkKeys(k, None, d.keySize, d.leafSize, element);
      if Described(k.maps, tableprog.value, metaprog.value) {
        FromFirstCoversAll(k.maps, tableprog.value, metaprog.value, element);
      }
    }

    /** Enumerates into an empty map and returns the enumeration's status (the printing is not modelled). */
    method ShowTableElements(k: KernelMaps) returns (r: int)
      requires k.Valid() && Valid() && metaprog.Some?
      modifies k`log
      ensures r == Enumerated(k.maps, tableprog.value, metaprog.value, map[], false).0
    {
      var items: Snapshot;
      r, items := GetTableElements(k, map[]);
      if r != 0 {
        return r;
      }
    }

    // -------------------------------------------------------------------
    // Scope, path and handle accessors.

    method SetTableScope(scope: bool)
      modifies this`global
      ensures global == scope
    {
      global := scope;
    }

    method GetTableScope() returns (scope: bool)
      ensures scope == global
    {
      scope := global;
    }

    method GetTableFdPath() returns (p: string)
      ensures p == pathTableFd
    {
      p := pathTableFd;
    }

    method GetMetaFdPath() returns (p: string)
      ensures p == pathMetaFd
    {
      p := pathMetaFd;
    }

    method GetTableFileDescriptor() returns (fd: int)
      requires tableprog.Some?
      ensures fd == tableprog.value
    {
      fd := tableprog.value;
    }

    method GetMetaFileDescriptor() returns (fd: int)
      requires metaprog.Some?
      ensures fd == metaprog.value
    {
      fd := metaprog.value;
    }
  }
}
