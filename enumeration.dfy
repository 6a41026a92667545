/**
  What `Table::GetTableElements` computes, as a function of the kernel's maps
  before the call, and what that means: which entries of the data map end up
  in the caller's map, and when the walk misses some.

  The walk starts from a cursor key of `key_size` bytes, each the character
  'f' (0x66), and repeatedly asks for the key after the cursor. Under the
  `BPF_MAP_GET_NEXT_KEY` protocol a cursor that is not a stored key yields
  the first key, so the walk visits every entry, unless the 'f'-filled key is
  itself stored: then the walk starts after it and misses it and every key
  before it in the iteration order.
 */
module Enumeration {
  import opened Wrappers
  import opened Bytes
  import opened BpfMaps
  import opened Meta

  /** The caller's `std::map<std::string, std::string>`, from raw key bytes to raw value bytes. */
  type Snapshot = map<Key, Value>

  /** The byte the start cursor is filled with: the character 'f'. */
  const CursorFill: byte := 0x66

  /** The start cursor of `n` bytes. */
  function Sentinel(n: nat): (s: Key)
    ensures |s| == n && forall i | 0 <= i < n :: s[i] == CursorFill
  {
    Fill(n, CursorFill)
  }

  /** The entries of `c` at the listed keys. */
  function Picked(c: map<Key, Value>, keys: seq<Key>): (m: Snapshot)
    ensures forall k :: k in m <==> k in keys && k in c
    ensures forall k | k in m :: m[k] == c[k]
  {
    map k | k in keys && k in c :: c[k]
  }

  /** The lookup of the metadata record at key 0, into a buffer of `sizeof(struct descr)` bytes. */
  function MetaLookup(maps: map<int, MapRec>, fdM: int): (res: (int, Value))
    requires AllValid(maps)
  {
    LookupResult(maps, fdM, MetaKey, Zeros(DescrSize))
  }

  /** The record a successful metadata lookup reads. */
  ghost function MetaRecord(maps: map<int, MapRec>, fdM: int): (d: Descr)
    requires AllValid(maps) && MetaLookup(maps, fdM).0 == 0
  {
    DecodeDescr(MetaLookup(maps, fdM).1)
  }

  /**
    The loop of `GetTableElements` from cursor `start`, with key and leaf
    buffers of `keySz` and `leafSz` bytes: the first failing next-key call
    ends it with status 0, a failing value lookup ends it with that status
    and nothing added, and otherwise every key after the cursor is added with
    its stored value.
   */
  ghost function Walked(maps: map<int, MapRec>, fdT: int, start: Option<Key>, keySz: nat, leafSz: nat, element: Snapshot): (res: (int, Snapshot))
    requires AllValid(maps)
    ensures res.0 <= 0
    ensures res.0 != 0 ==> res.1 == element
    ensures element.Keys <= res.1.Keys
    ensures forall k | k in res.1 :: k in element || (fdT in maps && k in maps[fdT].contents && res.1[k] == maps[fdT].contents[k])
  {
    var (ns, first) := NextKeyResult(maps, fdT, start, Zeros(keySz));
    if ns != 0 then (0, element)
    else
      var (ls, _) := LookupResult(maps, fdT, first, Zeros(leafSz));
      if ls != 0 then (ls, element)
      else (0, element + Picked(maps[fdT].contents, Successors(maps[fdT].order, start)))
  }

  /**
    `GetTableElements` on data map `fdT` and metadata map `fdM`: the status
    it returns and the caller's map afterwards. The buffers are sized by
    the metadata record. With `fromFirst` the walk starts from a NULL key
    instead of the 'f'-filled cursor.
   */
  ghost function Enumerated(maps: map<int, MapRec>, fdT: int, fdM: int, element: Snapshot, fromFirst: bool): (res: (int, Snapshot))
    requires AllValid(maps)
    ensures res.0 <= 0
    ensures MetaLookup(maps, fdM).0 != 0 ==> res == (MetaLookup(maps, fdM).0, element)
    ensures res.0 != 0 ==> res.1 == element
    ensures element.Keys <= res.1.Keys
    ensures forall k | k in res.1 :: k in element || (fdT in maps && k in maps[fdT].contents && res.1[k] == maps[fdT].contents[k])
  {
    var (ms, raw) := MetaLookup(maps, fdM);
    if ms != 0 then (ms, element)
    else
      var d := DecodeDescr(raw);
      var start := if fromFirst then None else Some(Sentinel(d.keySize));
      Walked(maps, fdT, start, d.keySize, d.leafSize, element)
  }

  /** The metadata record can be read and describes the data map's real key and value sizes. */
  ghost predicate Described(maps: map<int, MapRec>, fdT: int, fdM: int) {
    && AllValid(maps)
    && MetaLookup(maps, fdM).0 == 0
    && fdT in maps
    && maps[fdT].keySize == MetaRecord(maps, fdM).keySize
    && maps[fdT].leafSize == MetaRecord(maps, fdM).leafSize
  }

  /** A valid map's iteration order is empty exactly when the map is. */
  lemma OrderEmptyIff(rec: MapRec)
    requires rec.Valid()
    ensures rec.order == [] <==> rec.contents == map[]
  {
    if rec.order != [] {
      assert rec.order[0] in rec.contents;
    }
  }

  /**
    The loop itself, one iteration per call: from cursor `key`, with the
    next-key buffer `keyBuf` and the leaf buffer `leafBuf` the previous
    iteration left behind, into the caller's map `out`.
   */
  ghost function WalkFrom(maps: map<int, MapRec>, fdT: int, key: Option<Key>, keyBuf: Key, leafBuf: Value, out: Snapshot): (res: (int, Snapshot))
    requires AllValid(maps)
    decreases if fdT in maps then |Successors(maps[fdT].order, key)| else 0
  {
    var (ns, next) := NextKeyResult(maps, fdT, key, keyBuf);
    if ns != 0 then (0, out)
    else
      var (ls, leaf) := LookupResult(maps, fdT, next, leafBuf);
      if ls != 0 then (ls, out)
      else
        RecValid(maps, fdT);
        SuccessorsShrink(maps[fdT].order, key);
        WalkFrom(maps, fdT, Some(next), next, leaf, out[next := leaf])
  }

  /** Picking no keys adds nothing. */
  lemma PickedNone(e: Snapshot, c: map<Key, Value>)
    ensures e + Picked(c, []) == e
  {
    assert Picked(c, []) == map[];
  }

  /** Adding the first of `keys` and then the rest adds them all. */
  lemma PickedCons(e: Snapshot, c: map<Key, Value>, keys: seq<Key>)
    requires keys != [] && keys[0] in c
    ensures e[keys[0] := c[keys[0]]] + Picked(c, keys[1..]) == e + Picked(c, keys)
  {
    var lhs := e[keys[0] := c[keys[0]]] + Picked(c, keys[1..]);
    var rhs := e + Picked(c, keys);
    forall x | x in keys
      ensures x == keys[0] || x in keys[1..]
    {
    }
    assert lhs.Keys == rhs.Keys;
  }

  /** One iteration with buffers of the map's sizes, when a key follows the cursor. */
  lemma WalkFromStep(maps: map<int, MapRec>, fdT: int, key: Option<Key>, keyBuf: Key, leafBuf: Value, out: Snapshot)
    requires AllValid(maps) && fdT in maps
    requires key.Some? ==> |key.value| == maps[fdT].keySize
    requires |keyBuf| == maps[fdT].keySize && |leafBuf| == maps[fdT].leafSize
    requires Successors(maps[fdT].order, key) != []
    ensures var next := Successors(maps[fdT].order, key)[0];
      && next in maps[fdT].contents
      && |next| == maps[fdT].keySize && |maps[fdT].contents[next]| == maps[fdT].leafSize
      && WalkFrom(maps, fdT, key, keyBuf, leafBuf, out)
         == WalkFrom(maps, fdT, Some(next), next, maps[fdT].contents[next], out[next := maps[fdT].contents[next]])
  {
    var rec := maps[fdT];
    RecValid(maps, fdT);
    var next := Successors(rec.order, key)[0];
    assert next in rec.order;
    assert NextKeyResult(maps, fdT, key, keyBuf) == (0, next);
    assert LookupResult(maps, fdT, next, leafBuf) == (0, rec.contents[next]);
  }

  /** The loop stops with status 0 and adds nothing when no key follows the cursor. */
  lemma WalkFromEnd(maps: map<int, MapRec>, fdT: int, key: Option<Key>, keyBuf: Key, leafBuf: Value, out: Snapshot)
    requires AllValid(maps) && fdT in maps && Successors(maps[fdT].order, key) == []
    ensures WalkFrom(maps, fdT, key, keyBuf, leafBuf, out) == (0, out)
  {
    assert NextKeyResult(maps, fdT, key, keyBuf).0 != 0;
  }

  /** Once the buffers have the map's sizes, the loop adds every key after the cursor. */
  lemma {:induction false} WalkFromRest(maps: map<int, MapRec>, fdT: int, key: Option<Key>, keyBuf: Key, leafBuf: Value, out: Snapshot)
    requires AllValid(maps) && fdT in maps
    requires key.Some? ==> |key.value| == maps[fdT].keySize
    requires |keyBuf| == maps[fdT].keySize && |leafBuf| == maps[fdT].leafSize
    ensures WalkFrom(maps, fdT, key, keyBuf, leafBuf, out)
         == (0, out + Picked(maps[fdT].contents, Successors(maps[fdT].order, key)))
    decreases |Successors(maps[fdT].order, key)|
  {
    var rec := maps[fdT];
    RecValid(maps, fdT);
    var rest := Successors(rec.order, key);
    if rest == [] {
      WalkFromEnd(maps, fdT, key, keyBuf, leafBuf, out);
      PickedNone(out, rec.contents);
    } else {
      var next := rest[0];
      WalkFromStep(maps, fdT, key, keyBuf, leafBuf, out);
      SuccessorsShrink(rec.order, key);
      WalkFromRest(maps, fdT, Some(next), next, rec.contents[next], out[next := rec.contents[next]]);
      PickedCons(out, rec.contents, rest);
    }
  }

  /** The loop computes the closed form `Walked`. */
  lemma WalkFromIsWalked(maps: map<int, MapRec>, fdT: int, start: Option<Key>, keySz: nat, leafSz: nat, element: Snapshot)
    requires AllValid(maps)
    ensures WalkFrom(maps, fdT, start, Zeros(keySz), Zeros(leafSz), element) == Walked(maps, fdT, start, keySz, leafSz, element)
  {
    var (ns, first) := NextKeyResult(maps, fdT, start, Zeros(keySz));
    if ns == 0 {
      var (ls, _) := LookupResult(maps, fdT, first, Zeros(leafSz));
      if ls == 0 {
        WalkFromRest(maps, fdT, start, Zeros(keySz), Zeros(leafSz), element);
      }
    }
  }

  /** Picking every key of the iteration order picks the whole map. */
  lemma PickedAll(rec: MapRec)
    requires rec.Valid()
    ensures Picked(rec.contents, rec.order) == rec.contents
  {
    assert Picked(rec.contents, rec.order).Keys == rec.contents.Keys;
  }

  /** A walk from cursor `start` adds exactly the entries after it in the iteration order. */
  lemma WalkedAddsSuccessors(maps: map<int, MapRec>, fdT: int, start: Option<Key>, element: Snapshot)
    requires AllValid(maps) && fdT in maps
    requires start.Some? ==> |start.value| == maps[fdT].keySize
    ensures Walked(maps, fdT, start, maps[fdT].keySize, maps[fdT].leafSize, element)
         == (0, element + Picked(maps[fdT].contents, Successors(maps[fdT].order, start)))
  {
    WalkFromIsWalked(maps, fdT, start, maps[fdT].keySize, maps[fdT].leafSize, element);
    WalkFromRest(maps, fdT, start, Zeros(maps[fdT].keySize), Zeros(maps[fdT].leafSize), element);
  }

  /**
    When the 'f'-filled cursor is not a stored key, enumeration succeeds and
    adds every entry of the data map, with its stored value, to the caller's
    map.
   */
  lemma EnumerationCoversAll(maps: map<int, MapRec>, fdT: int, fdM: int, element: Snapshot)
    requires Described(maps, fdT, fdM)
    requires Sentinel(MetaRecord(maps, fdM).keySize) !in maps[fdT].contents
    ensures Enumerated(maps, fdT, fdM, element, false) == (0, element + maps[fdT].contents)
  {
    var rec := maps[fdT];
    RecValid(maps, fdT);
    WalkedAddsSuccessors(maps, fdT, Some(Sentinel(rec.keySize)), element);
    PickedAll(rec);
  }

  /**
    When the 'f'-filled cursor is the `j`-th stored key, enumeration adds
    only the entries after it: that key and every key before it are missing
    from the result unless the caller's map already held them.
   */
  lemma SentinelHidesPrefix(maps: map<int, MapRec>, fdT: int, fdM: int, element: Snapshot, j: nat)
    requires Described(maps, fdT, fdM)
    requires j < |maps[fdT].order| && maps[fdT].order[j] == Sentinel(MetaRecord(maps, fdM).keySize)
    ensures Enumerated(maps, fdT, fdM, element, false) == (0, element + Picked(maps[fdT].contents, maps[fdT].order[j + 1..]))
    ensures forall i | 0 <= i <= j && maps[fdT].order[i] !in element ::
      maps[fdT].order[i] !in Enumerated(maps, fdT, fdM, element, false).1
  {
    var rec := maps[fdT];
    RecValid(maps, fdT);
    SuccessorsAt(rec.order, j);
    WalkedAddsSuccessors(maps, fdT, Some(Sentinel(rec.keySize)), element);
    PrefixNotInSuffix(rec.order, j);
  }

  /** In a duplicate-free order, no key up to position `j` occurs after it. */
  lemma PrefixNotInSuffix(order: seq<Key>, j: nat)
    requires NoDup(order) && j < |order|
    ensures forall i | 0 <= i <= j :: order[i] !in order[j + 1..]
  {
    forall i | 0 <= i <= j
      ensures order[i] !in order[j + 1..]
    {
      var tail := order[j + 1..];
      forall p | 0 <= p < |tail|
        ensures tail[p] != order[i]
      {
        assert tail[p] == order[j + 1 + p];
      }
    }
  }

  /** Starting from a NULL key instead, enumeration always adds every entry of the data map. */
  lemma FromFirstCoversAll(maps: map<int, MapRec>, fdT: int, fdM: int, element: Snapshot)
    requires Described(maps, fdT, fdM)
    ensures Enumerated(maps, fdT, fdM, element, true) == (0, element + maps[fdT].contents)
  {
    WalkedAddsSuccessors(maps, fdT, None, element);
    RecValid(maps, fdT);
    PickedAll(maps[fdT]);
  }

  /**
    The metadata map as table creation leaves it: a one-entry hash map
    whose only entry, at key 0, is the encoded record `item`.
   */
  function RecordMap(item: Descr): (rec: MapRec) {
    MapRec(BPF_MAP_TYPE_HASH, 4, DescrSize, 1, map[MetaKey := EncodeDescr(item)], [MetaKey])
  }

  /** The metadata map after the record store: the record, or still empty when the kernel refused it. */
  function MetaMapAfter(item: Descr, stored: bool): (rec: MapRec) {
    if stored then RecordMap(item) else EmptyMap(BPF_MAP_TYPE_HASH, 4, DescrSize, 1)
  }

  /** Storing an encoded record into a fresh metadata map turns it into `RecordMap` and touches no other map. */
  lemma StoreRecord(before: map<int, MapRec>, after: map<int, MapRec>, fdM: int, item: Descr)
    requires AllValid(after)
    requires fdM in before && before[fdM] == EmptyMap(BPF_MAP_TYPE_HASH, 4, DescrSize, 1)
    requires UpdateEffect(before, after, fdM, MetaKey, EncodeDescr(item), 0)
    ensures after == before[fdM := RecordMap(item)]
  {
    RecValid(after, fdM);
    var rec := after[fdM];
    assert rec.contents == map[MetaKey := EncodeDescr(item)];
    forall y
      ensures y in rec.order <==> y == MetaKey
    {
      assert y in rec.contents <==> y in rec.order;
    }
    SingletonOrder(rec.order, MetaKey);
  }

  /** The stored record reads back: the metadata lookup succeeds and decodes to `item`. */
  lemma RecordReadsBack(maps: map<int, MapRec>, fdM: int, item: Descr)
    requires AllValid(maps) && fdM in maps && maps[fdM] == RecordMap(item)
    ensures MetaLookup(maps, fdM) == (0, EncodeDescr(item))
    ensures MetaRecord(maps, fdM) == item
  {
    DecodeEncodeDescr(item);
  }

  /**
    A record holding the data map's own sizes, when they fit in 32 bits,
    describes it: the enumeration's buffers then have the map's sizes.
   */
  lemma RecordDescribes(maps: map<int, MapRec>, fdT: int, fdM: int, item: Descr)
    requires AllValid(maps) && fdM in maps && maps[fdM] == RecordMap(item)
    requires fdT in maps && maps[fdT].keySize == item.keySize && maps[fdT].leafSize == item.leafSize
    ensures Described(maps, fdT, fdM)
  {
    RecordReadsBack(maps, fdM, item);
  }

  /**
    The maps as a successful table creation leaves them, a new data map at
    `fdT` and the metadata map at `fdM`: when the kernel took the record
    they are described, provided the table's sizes fit in 32 bits; when it
    refused the record, the metadata lookup fails with `-ENOENT`.
   */
  lemma CreatedTableDescribed(before: map<int, MapRec>, after: map<int, MapRec>, fdT: int, fdM: int,
                              data: MapRec, item: Descr, stored: bool, keySize: nat, leafSize: nat)
    requires AllValid(after) && fdM != fdT
    requires after == before[fdT := data][fdM := MetaMapAfter(item, stored)]
    requires data.keySize == keySize && data.leafSize == leafSize
    requires item.keySize == Trunc32(keySize) && item.leafSize == Trunc32(leafSize)
    requires keySize < 0x1_0000_0000 && leafSize < 0x1_0000_0000
    ensures stored ==> Described(after, fdT, fdM)
    ensures !stored ==> MetaLookup(after, fdM) == (-ENOENT, Zeros(DescrSize))
  {
    if stored {
      RecordDescribes(after, fdT, fdM, item);
    }
  }

  /**
    With the record refused, the metadata map is empty: enumeration returns
    the lookup's `-ENOENT` and adds nothing, from either start.
   */
  lemma RefusedRecordFailsEnumeration(maps: map<int, MapRec>, fdT: int, fdM: int, element: Snapshot, fromFirst: bool)
    requires AllValid(maps) && fdM in maps && maps[fdM] == EmptyMap(BPF_MAP_TYPE_HASH, 4, DescrSize, 1)
    ensures Enumerated(maps, fdT, fdM, element, fromFirst) == (-ENOENT, element)
  {
    assert MetaLookup(maps, fdM).0 == -ENOENT;
  }

  /** An empty (or unreachable) data map enumerates to success with nothing added. */
  lemma EmptyTableEnumeratesNothing(maps: map<int, MapRec>, fdT: int, fdM: int, element: Snapshot, fromFirst: bool)
    requires AllValid(maps) && MetaLookup(maps, fdM).0 == 0
    requires fdT !in maps || maps[fdT].contents == map[]
    ensures Enumerated(maps, fdT, fdM, element, fromFirst) == (0, element)
  {
    if fdT in maps {
      RecValid(maps, fdT);
      OrderEmptyIff(maps[fdT]);
    }
  }

  // ---------------------------------------------------------------------
  // A concrete table on which the 'f'-filled cursor hides an entry.

  /** A data map (descriptor 3) with one-byte keys holding the single key 'f', and its metadata map (descriptor 4). */
  function HazardMaps(): (maps: map<int, MapRec>) {
    map[
      3 := MapRec(BPF_MAP_TYPE_HASH, 1, 1, 1, map[[CursorFill] := [7]], [[CursorFill]]),
      4 := MapRec(BPF_MAP_TYPE_HASH, 4, 16, 1, map[MetaKey := EncodeDescr(Descr(1, 0, 1, 0))], [MetaKey])]
  }

  /** Both maps of that table are well formed. */
  lemma HazardMapsValid()
    ensures AllValid(HazardMaps())
  {
    var maps := HazardMaps();
    assert NoDup(maps[3].order) && NoDup(maps[4].order);
    assert maps[3].Valid();
    assert maps[4].Valid();
  }

  /**
    On that table, which holds one entry, enumeration reports success and an
    empty result; the walk from a NULL key reports the entry.
   */
  lemma SentinelKeyIsSkipped()
    ensures AllValid(HazardMaps())
    ensures HazardMaps()[3].contents != map[]
    ensures Enumerated(HazardMaps(), 3, 4, map[], false) == (0, map[])
    ensures Enumerated(HazardMaps(), 3, 4, map[], true) == (0, map[[CursorFill] := [7]])
  {
    var maps := HazardMaps();
    HazardMapsValid();
    DecodeEncodeDescr(Descr(1, 0, 1, 0));
    assert MetaLookup(maps, 4) == (0, EncodeDescr(Descr(1, 0, 1, 0)));
    assert MetaRecord(maps, 4) == Descr(1, 0, 1, 0);
    assert Described(maps, 3, 4);
    assert Sentinel(1) == [CursorFill];
    assert maps[3].order[0] == Sentinel(MetaRecord(maps, 4).keySize);
    SentinelHidesPrefix(maps, 3, 4, map[], 0);
    assert maps[3].order[1..] == [];
    assert Picked(maps[3].contents, []) == map[];
    EmptyUnion(map[]);
    FromFirstCoversAll(maps, 3, 4, map[]);
    EmptyUnion(maps[3].contents);
  }

  /** The 4-byte 'f'-filled cursor is neither of the counter ids 1 and 2. */
  lemma SentinelIsNoCounterId()
    ensures Sentinel(4) != EncodeU32(1) && Sentinel(4) != EncodeU32(2)
  {
    assert Sentinel(4)[0] == CursorFill;
    assert EncodeU32(1)[0] == 1 && EncodeU32(2)[0] == 2;
  }

  /**
    Two 32-bit counter ids mapped to 16-byte counter pairs: enumeration
    returns exactly these two entries, byte for byte, in whatever order the
    map keeps them.
   */
  lemma TwoCounters(maps: map<int, MapRec>, fdT: int, fdM: int)
    requires Described(maps, fdT, fdM)
    requires maps[fdT].contents == map[EncodeU32(1) := Zeros(16), EncodeU32(2) := [1] + Zeros(15)]
    ensures Enumerated(maps, fdT, fdM, map[], false) == (0, map[EncodeU32(1) := Zeros(16), EncodeU32(2) := [1] + Zeros(15)])
  {
    var c := maps[fdT].contents;
    assert EncodeU32(1) in c;
    RecValid(maps, fdT);
    assert MetaRecord(maps, fdM).keySize == 4;
    SentinelIsNoCounterId();
    assert c.Keys == {EncodeU32(1), EncodeU32(2)};
    EnumerationCoversAll(maps, fdT, fdM, map[]);
    EmptyUnion(c);
  }

  /** Adding `c` to an empty map gives `c`. */
  lemma EmptyUnion(c: Snapshot)
    ensures map[] + c == c
  {
    assert (map[] + c).Keys == c.Keys;
  }
}
