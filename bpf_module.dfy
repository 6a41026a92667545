/**
  A compiled program's table descriptors (bcc's `BPFModule`), as far as the
  table layer reads them. The descriptor's name, which the table layer reads
  only for a diagnostic, is left out. Compilation itself is not part of this model.
 */
module BpfProgram {
  import opened Bytes

  datatype TableDesc = TableDesc(
    kind: int,
    maxEntries: nat,
    keySize: nat,
    leafSize: nat,
    /** The type descriptions are `std::string`s of bytes. */
    keyDesc: seq<byte>,
    leafDesc: seq<byte>)

  datatype BpfModule = BpfModule(tables: seq<TableDesc>) {
    function TableType(i: nat): (kind: int) requires i < |tables| { tables[i].kind }
    function TableMaxEntries(i: nat): (n: nat) requires i < |tables| { tables[i].maxEntries }
    function TableKeySize(i: nat): (size: nat) requires i < |tables| { tables[i].keySize }
    function TableLeafSize(i: nat): (size: nat) requires i < |tables| { tables[i].leafSize }
    function TableKeyDesc(i: nat): (desc: seq<byte>) requires i < |tables| { tables[i].keyDesc }
    function TableLeafDesc(i: nat): (desc: seq<byte>) requires i < |tables| { tables[i].leafDesc }
  }
}
