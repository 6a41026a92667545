/**
  The metadata record (`struct descr`) that every table keeps as the single
  entry of its metadata map, its 16-byte layout, and `MetaData`, which fills
  one from a compiled program.
 */
module Meta {
  import opened Bytes
  import opened BpfProgram

  /** Field order as written: key size, key description length, leaf size, leaf description length. */
  datatype Descr = Descr(keySize: u32, keyDescSize: u32, leafSize: u32, leafDescSize: u32)

  /** `sizeof(struct descr)`: four `uint32_t` fields. */
  const DescrSize: nat := 16

  /** The metadata map's only key, the `uint32_t` 0. */
  const MetaKey: seq<byte> := EncodeU32(0)

  function EncodeDescr(d: Descr): (s: seq<byte>)
    ensures |s| == DescrSize
  {
    EncodeU32(d.keySize) + EncodeU32(d.keyDescSize) + EncodeU32(d.leafSize) + EncodeU32(d.leafDescSize)
  }

  function DecodeDescr(s: seq<byte>): (d: Descr)
    requires |s| == DescrSize
  {
    Descr(DecodeU32(s[0..4]), DecodeU32(s[4..8]), DecodeU32(s[8..12]), DecodeU32(s[12..16]))
  }

  /** A record read back from the metadata map is the one that was written. */
  lemma DecodeEncodeDescr(d: Descr)
    ensures DecodeDescr(EncodeDescr(d)) == d
  {
    var s := EncodeDescr(d);
    assert s[0..4] == EncodeU32(d.keySize);
    assert s[4..8] == EncodeU32(d.keyDescSize);
    assert s[8..12] == EncodeU32(d.leafSize);
    assert s[12..16] == EncodeU32(d.leafDescSize);
    DecodeEncodeU32(d.keySize);
    DecodeEncodeU32(d.keyDescSize);
    DecodeEncodeU32(d.leafSize);
    DecodeEncodeU32(d.leafDescSize);
  }

  /** Every 16-byte value is the encoding of exactly one record. */
  lemma EncodeDecodeDescr(s: seq<byte>)
    requires |s| == DescrSize
    ensures EncodeDescr(DecodeDescr(s)) == s
  {
    EncodeDecodeU32(s[0..4]);
    EncodeDecodeU32(s[4..8]);
    EncodeDecodeU32(s[8..12]);
    EncodeDecodeU32(s[12..16]);
    assert s == s[0..4] + s[4..8] + s[8..12] + s[12..16];
  }

  class MetaData {
    var item: Descr

    constructor ()
    {
    }

    /**
      Fills `item` from table 0 of `prog`, whatever other tables it holds:
      the key and leaf sizes, and the lengths of the key and leaf type
      descriptions in bytes (their text is not kept). The `size_t` values are stored
      in `uint32_t` fields.
     */
    method Update(prog: BpfModule)
      requires |prog.tables| > 0
      modifies this
      ensures item.keySize == Trunc32(prog.TableKeySize(0))
      ensures item.keyDescSize == Trunc32(|prog.TableKeyDesc(0)|)
      ensures item.leafSize == Trunc32(prog.TableLeafSize(0))
      ensures item.leafDescSize == Trunc32(|prog.TableLeafDesc(0)|)
    {
      var desc := prog.TableKeyDesc(0);
      item := item.(keySize := Trunc32(prog.TableKeySize(0)));
      item := item.(keyDescSize := Trunc32(|desc|));
      desc := prog.TableLeafDesc(0);
      item := item.(leafSize := Trunc32(prog.TableLeafSize(0)));
      item := item.(leafDescSize := Trunc32(|desc|));
    }
  }
}
