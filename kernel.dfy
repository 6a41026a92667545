/**
  The kernel's map service (the `bpf(2)` map commands), the collaborator that
  every table operation forwards to. Each map is a `MapRec`: its declared
  kind, key and value sizes and capacity, its contents, and the order in
  which `BPF_MAP_GET_NEXT_KEY` walks its keys. A status is 0 on success and
  the negated error number otherwise.
 */
module BpfMaps {
  import opened Wrappers
  import opened Bytes

  type Key = seq<byte>
  type Value = seq<byte>

  const BPF_MAP_TYPE_HASH: int := 1

  /** Update flags of `BPF_MAP_UPDATE_ELEM`. */
  const BPF_ANY: int := 0
  const BPF_NOEXIST: int := 1
  const BPF_EXIST: int := 2

  const ENOENT: int := 2
  const E2BIG: int := 7
  const EBADF: int := 9
  const EEXIST: int := 17
  const EINVAL: int := 22
  const ENOMEM: int := 12

  ghost predicate NoDup(s: seq<Key>) {
    forall i, j | 0 <= i < j < |s| :: s[i] != s[j]
  }

  datatype MapRec = MapRec(
    kind: int,
    keySize: nat,
    leafSize: nat,
    maxEntries: nat,
    contents: map<Key, Value>,
    order: seq<Key>)
  {
    /** The iteration order lists every stored key exactly once, and every entry has the declared shape. */
    ghost predicate Valid() {
      && NoDup(order)
      && (forall k :: k in contents <==> k in order)
      && (forall k | k in contents :: |k| == keySize && |contents[k]| == leafSize)
      && |contents| <= maxEntries
    }
  }

  function EmptyMap(kind: int, keySize: nat, leafSize: nat, maxEntries: nat): (r: MapRec)
    ensures r.Valid() && r.contents == map[]
  {
    MapRec(kind, keySize, leafSize, maxEntries, map[], [])
  }

  /** The map behind `fd`, if there is one, is well formed. */
  ghost predicate ValidAt(maps: map<int, MapRec>, fd: int) {
    fd in maps ==> maps[fd].Valid()
  }

  /**
    Every map is well formed. The quantifier fires only on a `ValidAt`
    term, so that a proof pays only for the maps it names (`RecValid`,
    `AllValidStore`).
   */
  ghost predicate AllValid(maps: map<int, MapRec>) {
    forall fd {:trigger ValidAt(maps, fd)} :: ValidAt(maps, fd)
  }

  lemma RecValid(maps: map<int, MapRec>, fd: int)
    requires AllValid(maps) && fd in maps
    ensures maps[fd].Valid()
  {
    assert ValidAt(maps, fd);
  }

  lemma AllValidStore(maps: map<int, MapRec>, fd: int, rec: MapRec)
    requires AllValid(maps) && rec.Valid()
    ensures AllValid(maps[fd := rec])
  {
    var after := maps[fd := rec];
    forall x
      ensures ValidAt(after, x)
    {
      assert ValidAt(maps, x);
    }
  }

  /** The calls made to the service, in order: what the table layer forwarded. */
  datatype Syscall =
    | SysCreate(kind: int, keySize: nat, leafSize: nat, maxEntries: nat)
    | SysUpdate(fd: int, key: Key, value: Value, flags: int)
    | SysLookup(fd: int, key: Key)
    | SysDelete(fd: int, key: Key)
    | SysNextKey(fd: int, cursor: Option<Key>)

  // ---------------------------------------------------------------------
  // Iteration order: BPF_MAP_GET_NEXT_KEY as bpf(2) describes it.

  /** The keys that follow `key` in `order`. */
  function AfterIn(order: seq<Key>, key: Key): (r: seq<Key>)
    requires key in order
    ensures |r| < |order| && r == order[|order| - |r|..]
  {
    if order[0] == key then order[1..] else AfterIn(order[1..], key)
  }

  /**
    The keys a walk still visits from cursor `key`: all of them when there is
    no cursor (a NULL key, answered this way from Linux 4.12 on) or the cursor
    is not a stored key, otherwise those after it.
   */
  function Successors(order: seq<Key>, key: Option<Key>): (r: seq<Key>)
    ensures |r| <= |order| && r == order[|order| - |r|..]
    ensures (key.None? || key.value !in order) ==> r == order
  {
    if key.None? || key.value !in order then order else AfterIn(order, key.value)
  }

  lemma {:induction false} AfterInAt(order: seq<Key>, m: nat)
    requires NoDup(order) && m < |order|
    ensures AfterIn(order, order[m]) == order[m + 1..]
  {
    if m > 0 {
      assert order[0] != order[m];
      var tail := order[1..];
      assert tail[m - 1] == order[m];
      AfterInAt(tail, m - 1);
      assert tail[m..] == order[m + 1..];
    }
  }

  /** From the `m`-th key of a duplicate-free order the walk continues with exactly the keys after it. */
  lemma SuccessorsAt(order: seq<Key>, m: nat)
    requires NoDup(order) && m < |order|
    ensures Successors(order, Some(order[m])) == order[m + 1..]
  {
    AfterInAt(order, m);
  }

  /** Walking on from the first key yielded after `key` yields the rest of that run. */
  lemma SuccessorsShrink(order: seq<Key>, key: Option<Key>)
    requires NoDup(order) && Successors(order, key) != []
    ensures Successors(order, Some(Successors(order, key)[0])) == Successors(order, key)[1..]
  {
    var rest := Successors(order, key);
    var m := |order| - |rest|;
    assert rest[0] == order[m];
    SuccessorsAt(order, m);
    assert order[m + 1..] == rest[1..];
  }

  /**
    bpf(2): a key that is not in the map yields the first key, and the last
    key yields no successor.
   */
  lemma NextKeyProtocol(rec: MapRec, key: Key)
    requires rec.Valid()
    ensures key !in rec.contents && rec.order != [] ==> Successors(rec.order, Some(key))[0] == rec.order[0]
    ensures rec.order != [] && key == rec.order[|rec.order| - 1] ==> Successors(rec.order, Some(key)) == []
  {
    if rec.order != [] && key == rec.order[|rec.order| - 1] {
      SuccessorsAt(rec.order, |rec.order| - 1);
    }
  }

  // ---------------------------------------------------------------------
  // What each command answers, as functions of the maps before the call.

  /** `BPF_MAP_LOOKUP_ELEM` into a value buffer `buf`: the status and the buffer afterwards. */
  function LookupResult(maps: map<int, MapRec>, fd: int, key: Key, buf: Value): (res: (int, Value))
    requires AllValid(maps)
    ensures res.0 <= 0 && |res.1| == |buf|
    ensures res.0 == 0 <==> fd in maps && |key| == maps[fd].keySize && |buf| == maps[fd].leafSize && key in maps[fd].contents
    ensures res.0 == 0 ==> res.1 == maps[fd].contents[key]
    ensures res.0 != 0 ==> res.1 == buf
  {
    if fd !in maps then (-EBADF, buf)
    else if |key| != maps[fd].keySize || |buf| != maps[fd].leafSize then (-EINVAL, buf)
    else if key !in maps[fd].contents then (-ENOENT, buf)
    else
      RecValid(maps, fd);
      (0, maps[fd].contents[key])
  }

  /** `BPF_MAP_GET_NEXT_KEY` from `key` (None is a NULL key) into a key buffer `buf`. */
  function NextKeyResult(maps: map<int, MapRec>, fd: int, key: Option<Key>, buf: Key): (res: (int, Key))
    requires AllValid(maps)
    ensures res.0 <= 0 && |res.1| == |buf|
    ensures res.0 == 0 <==>
      && fd in maps
      && (key.Some? ==> |key.value| == maps[fd].keySize)
      && |buf| == maps[fd].keySize
      && Successors(maps[fd].order, key) != []
    ensures res.0 == 0 ==> res.1 == Successors(maps[fd].order, key)[0]
    ensures res.0 != 0 ==> res.1 == buf
  {
    if fd !in maps then (-EBADF, buf)
    else if (key.Some? && |key.value| != maps[fd].keySize) || |buf| != maps[fd].keySize then (-EINVAL, buf)
    else
      var rest := Successors(maps[fd].order, key);
      if rest == [] then (-ENOENT, buf)
      else
        RecValid(maps, fd);
        assert rest[0] in maps[fd].order;
        (0, rest[0])
  }

  /** The status of `BPF_MAP_UPDATE_ELEM` with the given flags. */
  function UpdateStatus(maps: map<int, MapRec>, fd: int, key: Key, value: Value, flags: int): (s: int)
    ensures s <= 0
    ensures s == 0 ==> fd in maps && |key| == maps[fd].keySize && |value| == maps[fd].leafSize
    ensures s == 0 ==> (flags == BPF_ANY || flags == BPF_NOEXIST || flags == BPF_EXIST)
    ensures s == 0 && flags == BPF_NOEXIST ==> key !in maps[fd].contents
    ensures s == 0 && flags == BPF_EXIST ==> key in maps[fd].contents
    ensures s == 0 && key !in maps[fd].contents ==> |maps[fd].contents| < maps[fd].maxEntries
  {
    if fd !in maps then -EBADF
    else
      var rec := maps[fd];
      if |key| != rec.keySize || |value| != rec.leafSize then -EINVAL
      else if flags != BPF_ANY && flags != BPF_NOEXIST && flags != BPF_EXIST then -EINVAL
      else if flags == BPF_NOEXIST && key in rec.contents then -EEXIST
      else if flags == BPF_EXIST && key !in rec.contents then -ENOENT
      else if key !in rec.contents && |rec.contents| >= rec.maxEntries then -E2BIG
      else 0
  }

  /**
    What `BPF_MAP_UPDATE_ELEM` may answer: the status the maps decide, or
    `-ENOMEM` for an update they would accept (the kernel could not
    allocate the element).
   */
  ghost predicate UpdateOutcome(maps: map<int, MapRec>, fd: int, key: Key, value: Value, flags: int, status: int) {
    status == UpdateStatus(maps, fd, key, value, flags)
    || (UpdateStatus(maps, fd, key, value, flags) == 0 && status == -ENOMEM)
  }

  /** The status of `BPF_MAP_DELETE_ELEM`. */
  function DeleteStatus(maps: map<int, MapRec>, fd: int, key: Key): (s: int)
    ensures s <= 0
    ensures s == 0 <==> fd in maps && |key| == maps[fd].keySize && key in maps[fd].contents
  {
    if fd !in maps then -EBADF
    else if |key| != maps[fd].keySize then -EINVAL
    else if key !in maps[fd].contents then -ENOENT
    else 0
  }

  /** The map after a successful update stores `value` at `key`; the kernel keeps its shape. */
  ghost predicate UpdateEffect(before: map<int, MapRec>, after: map<int, MapRec>, fd: int, key: Key, value: Value, status: int) {
    if status != 0 then after == before
    else
      && fd in before && fd in after
      && after == before[fd := after[fd]]
      && after[fd].contents == before[fd].contents[key := value]
      && SameShape(before[fd], after[fd])
  }

  ghost predicate DeleteEffect(before: map<int, MapRec>, after: map<int, MapRec>, fd: int, key: Key, status: int) {
    if status != 0 then after == before
    else
      && fd in before && fd in after
      && after == before[fd := after[fd]]
      && after[fd].contents == before[fd].contents - {key}
      && SameShape(before[fd], after[fd])
  }

  ghost predicate SameShape(a: MapRec, b: MapRec) {
    a.kind == b.kind && a.keySize == b.keySize && a.leafSize == b.leafSize && a.maxEntries == b.maxEntries
  }

  /** `order` without `x`. */
  function Without(order: seq<Key>, x: Key): (r: seq<Key>)
    ensures forall y :: y in r <==> y in order && y != x
  {
    if order == [] then []
    else if order[0] == x then Without(order[1..], x)
    else [order[0]] + Without(order[1..], x)
  }

  lemma {:induction false} WithoutNoDup(order: seq<Key>, x: Key)
    requires NoDup(order)
    ensures NoDup(Without(order, x))
  {
    if order != [] {
      var tail := order[1..];
      assert NoDup(tail) by {
        forall i, j | 0 <= i < j < |tail| ensures tail[i] != tail[j] {
          assert tail[i] == order[i + 1] && tail[j] == order[j + 1];
        }
      }
      WithoutNoDup(tail, x);
      if order[0] != x {
        assert order[0] !in tail;
        NoDupCons(order[0], Without(tail, x));
      }
    }
  }

  lemma NoDupCons(a: Key, s: seq<Key>)
    requires a !in s && NoDup(s)
    ensures NoDup([a] + s)
  {
    var t := [a] + s;
    forall i, j | 0 <= i < j < |t| ensures t[i] != t[j] {
      if i > 0 {
        assert t[i] == s[i - 1] && t[j] == s[j - 1];
      } else {
        assert t[j] == s[j - 1];
      }
    }
  }

  /**
    The map with `value` stored at `key`: a new key joins the end of the
    iteration order, an existing one keeps its place.
   */
  function Stored(rec: MapRec, key: Key, value: Value): (r: MapRec)
    requires rec.Valid() && |key| == rec.keySize && |value| == rec.leafSize
    requires key in rec.contents || |rec.contents| < rec.maxEntries
    ensures r.Valid() && SameShape(rec, r)
    ensures r.contents == rec.contents[key := value]
  {
    if key in rec.contents then
      StoredCard(rec.contents, key, value);
      rec.(contents := rec.contents[key := value])
    else
      NoDupSnoc(rec.order, key);
      rec.(contents := rec.contents[key := value], order := rec.order + [key])
  }

  lemma StoredCard(m: map<Key, Value>, key: Key, value: Value)
    requires key in m
    ensures |m[key := value]| == |m|
  {
    assert m[key := value].Keys == m.Keys;
  }

  lemma NoDupSnoc(order: seq<Key>, x: Key)
    requires NoDup(order) && x !in order
    ensures NoDup(order + [x])
  {
    var s := order + [x];
    forall i, j | 0 <= i < j < |s| ensures s[i] != s[j] {
      if j == |order| {
        assert s[i] == order[i];
      } else {
        assert s[i] == order[i] && s[j] == order[j];
      }
    }
  }

  /** The map without `key`: removed from both the contents and the iteration order. */
  function Removed(rec: MapRec, key: Key): (r: MapRec)
    requires rec.Valid()
    ensures r.Valid() && SameShape(rec, r)
    ensures r.contents == rec.contents - {key}
  {
    RemovedCard(rec.contents, key);
    WithoutNoDup(rec.order, key);
    rec.(contents := rec.contents - {key}, order := Without(rec.order, key))
  }

  lemma RemovedCard(m: map<Key, Value>, key: Key)
    ensures |m - {key}| <= |m|
  {
    var rest := m - {key};
    assert rest.Keys <= m.Keys;
    SubsetCard(rest.Keys, m.Keys);
  }

  lemma {:induction false} SubsetCard(a: set<Key>, b: set<Key>)
    requires a <= b
    ensures |a| <= |b|
    decreases |b|
  {
    if a != {} {
      var x :| x in a;
      SubsetCard(a - {x}, b - {x});
    }
  }

  /**
    Lookup after update (for all keys): once an update at `key` has
    succeeded, a lookup of `key` with a buffer of the map's value size returns
    what was stored.
   */
  lemma LookupAfterUpdate(before: map<int, MapRec>, after: map<int, MapRec>, fd: int, key: Key, value: Value, buf: Value)
    requires UpdateStatus(before, fd, key, value, BPF_ANY) == 0
    requires UpdateEffect(before, after, fd, key, value, 0) && AllValid(after)
    requires |buf| == before[fd].leafSize
    ensures LookupResult(after, fd, key, buf) == (0, value)
  {
  }

  /** A successful update changes no other map. */
  lemma UpdateLeavesOthers(before: map<int, MapRec>, after: map<int, MapRec>, fd: int, key: Key, value: Value, other: int)
    requires UpdateEffect(before, after, fd, key, value, 0) && other in before && other != fd
    ensures other in after && after[other] == before[other]
  {
  }

  /** A duplicate-free order that lists exactly the key `x` is `[x]`. */
  lemma SingletonOrder(order: seq<Key>, x: Key)
    requires NoDup(order) && (forall y :: y in order <==> y == x)
    ensures order == [x]
  {
    assert x in order;
    assert order[0] in order && order[|order| - 1] in order;
    if 1 < |order| {
      assert false;
    }
  }

  /** A second store at the same descriptor replaces the first. */
  lemma StoreTwice(maps: map<int, MapRec>, fd: int, first: MapRec, second: MapRec)
    ensures maps[fd := first][fd := second] == maps[fd := second]
  {
  }

  /** The first store into an empty map with room for an entry succeeds when the sizes fit. */
  lemma FirstStoreSucceeds(maps: map<int, MapRec>, fd: int, key: Key, value: Value)
    requires fd in maps && maps[fd].contents == map[] && maps[fd].maxEntries >= 1
    requires |key| == maps[fd].keySize && |value| == maps[fd].leafSize
    ensures UpdateStatus(maps, fd, key, value, BPF_ANY) == 0
  {
  }

  /** Delete then lookup: once a delete of `key` has succeeded, a lookup of `key` reports ENOENT. */
  lemma LookupAfterDelete(before: map<int, MapRec>, after: map<int, MapRec>, fd: int, key: Key, buf: Value)
    requires DeleteStatus(before, fd, key) == 0
    requires DeleteEffect(before, after, fd, key, 0) && AllValid(after)
    requires |buf| == before[fd].leafSize
    ensures LookupResult(after, fd, key, buf) == (-ENOENT, buf)
  {
  }

  /**
    The kernel's maps, indexed by file descriptor, and the log of calls made
    to it. New descriptors are taken from a counter above every one in use.
   */
  class KernelMaps {
    var maps: map<int, MapRec>
    var nextFd: int
    ghost var log: seq<Syscall>

    ghost predicate Valid()
      reads this`maps, this`nextFd
    {
      && AllValid(maps)
      && 0 <= nextFd
      && (forall fd | fd in maps :: 0 <= fd < nextFd)
    }

    constructor ()
      ensures Valid() && maps == map[] && log == []
    {
      maps := map[];
      nextFd := 3;
      log := [];
    }

    /**
      `BPF_MAP_CREATE`. The kernel may refuse any creation (permissions,
      memory, an unsupported kind); otherwise the new descriptor names a new,
      empty map of the requested shape.
     */
    method CreateMap(kind: int, keySize: nat, leafSize: nat, maxEntries: nat) returns (fd: int)
      requires Valid()
      modifies this
      ensures Valid()
      ensures log == old(log) + [SysCreate(kind, keySize, leafSize, maxEntries)]
      ensures fd < 0 ==> maps == old(maps)
      ensures fd >= 0 ==> fd !in old(maps) && maps == old(maps)[fd := EmptyMap(kind, keySize, leafSize, maxEntries)]
    {
      var refused: bool :| true;
      if refused {
        fd := -1;
      } else {
        fd := nextFd;
        nextFd := nextFd + 1;
        AllValidStore(maps, fd, EmptyMap(kind, keySize, leafSize, maxEntries));
        maps := maps[fd := EmptyMap(kind, keySize, leafSize, maxEntries)];
      }
      log := log + [SysCreate(kind, keySize, leafSize, maxEntries)];
    }

    /**
      `BPF_MAP_UPDATE_ELEM`. An update the maps would accept may still be
      refused for lack of memory, which changes nothing.
     */
    method UpdateElem(fd: int, key: Key, value: Value, flags: int) returns (status: int)
      requires Valid()
      modifies this
      ensures Valid() && nextFd == old(nextFd)
      ensures log == old(log) + [SysUpdate(fd, key, value, flags)]
      ensures UpdateOutcome(old(maps), fd, key, value, flags, status)
      ensures UpdateEffect(old(maps), maps, fd, key, value, status)
    {
      var refused: bool :| true;
      status := UpdateStatus(maps, fd, key, value, flags);
      if status == 0 && refused {
        status := -ENOMEM;
      } else if status == 0 {
        RecValid(maps, fd);
        AllValidStore(maps, fd, Stored(maps[fd], key, value));
        maps := maps[fd := Stored(maps[fd], key, value)];
      }
      log := log + [SysUpdate(fd, key, value, flags)];
    }

    method LookupElem(fd: int, key: Key, buf: Value) returns (status: int, out: Value)
      requires Valid()
      modifies this`log
      ensures log == old(log) + [SysLookup(fd, key)]
      ensures (status, out) == LookupResult(maps, fd, key, buf)
    {
      status, out := LookupResult(maps, fd, key, buf).0, LookupResult(maps, fd, key, buf).1;
      log := log + [SysLookup(fd, key)];
    }

    method DeleteElem(fd: int, key: Key) returns (status: int)
      requires Valid()
      modifies this
      ensures Valid() && nextFd == old(nextFd)
      ensures log == old(log) + [SysDelete(fd, key)]
      ensures status == DeleteStatus(old(maps), fd, key)
      ensures DeleteEffect(old(maps), maps, fd, key, status)
    {
      status := DeleteStatus(maps, fd, key);
      if status == 0 {
        RecValid(maps, fd);
        AllValidStore(maps, fd, Removed(maps[fd], key));
        maps := maps[fd := Removed(maps[fd], key)];
      }
      log := log + [SysDelete(fd, key)];
    }

    method GetNextKey(fd: int, key: Option<Key>, buf: Key) returns (status: int, out: Key)
      requires Valid()
      modifies this`log
      ensures log == old(log) + [SysNextKey(fd, key)]
      ensures (status, out) == NextKeyResult(maps, fd, key, buf)
    {
      status, out := NextKeyResult(maps, fd, key, buf).0, NextKeyResult(maps, fd, key, buf).1;
      log := log + [SysNextKey(fd, key)];
    }
  }
}
