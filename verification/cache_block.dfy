/** The contents of a cached block (src/blockcache.cc): its marker byte and the checksum
    that a flush puts into index nodes. */
module CacheBlock {
  type Bytes = seq<int>

  const BNODE := 0xff
  const CRC_OFFSET := 8
  const CRC_LEN := 8

  /** The last byte. */
  function Marker(data: Bytes): (m: int)
    ensures forall init, x :: data == init + [x] ==> m == x
  {
    if data == [] then 0 else data[|data| - 1]
  }

  /** Stands for `get_checksum`; nothing depends on which function it is. */
  function Checksum(data: Bytes): (r: Bytes)
    ensures |r| == 4
  {
    var n := Sum(data);
    [n / 0x100_0000 % 256, n / 0x1_0000 % 256, n / 0x100 % 256, n % 256]
  }

  function Sum(data: Bytes): int {
    if data == [] then 0 else Sum(data[..|data| - 1]) * 31 + data[|data| - 1]
  }

  function Patch(data: Bytes, pos: nat, bytes: Bytes): (r: Bytes)
    requires pos + |bytes| <= |data|
    ensures |r| == |data|
    ensures forall i :: 0 <= i < |data| ==> r[i] == if pos <= i < pos + |bytes| then bytes[i - pos] else data[i]
  {
    data[..pos] + bytes + data[pos + |bytes|..]
  }

  /** What a synced flush writes for a block: an index node gets its checksum. */
  function Stamp(data: Bytes): (r: Bytes)
    ensures |r| == |data|
    ensures forall i :: 0 <= i < |data| && !(CRC_OFFSET <= i < CRC_OFFSET + CRC_LEN) ==> r[i] == data[i]
    ensures Marker(data) != BNODE ==> r == data
  {
    if Marker(data) == BNODE && CRC_OFFSET + CRC_LEN <= |data| then
      var blank := Patch(data, CRC_OFFSET, seq(CRC_LEN, _ => 0xff));
      Patch(blank, CRC_OFFSET, Checksum(blank))
    else data
  }

  /** `_filemgr_crc32_check` of a block read back: the field against the checksum of the block
      with the field set to 0xff. */
  predicate CrcOk(data: Bytes)
    requires CRC_OFFSET + CRC_LEN <= |data|
  {
    Marker(data) != BNODE ||
    data[CRC_OFFSET..CRC_OFFSET + 4] == Checksum(Patch(data, CRC_OFFSET, seq(CRC_LEN, _ => 0xff)))
  }

  /** What a flush writes passes the check of a later read. */
  lemma StampPasses(data: Bytes)
    requires CRC_OFFSET + CRC_LEN < |data|
    ensures CrcOk(Stamp(data))
  {
    hide Checksum;
    if Marker(data) == BNODE {
      var blank := Patch(data, CRC_OFFSET, seq(CRC_LEN, _ => 0xff));
      var r := Stamp(data);
      assert Patch(r, CRC_OFFSET, seq(CRC_LEN, _ => 0xff)) == blank;
      assert r[CRC_OFFSET..CRC_OFFSET + 4] == Checksum(blank);
    }
  }

  lemma StampMarker(data: Bytes)
    requires |data| > CRC_OFFSET + CRC_LEN
    ensures Marker(Stamp(data)) == Marker(data)
  {
  }

  /** Equal except for the checksum field. */
  ghost predicate SameButCrc(a: Bytes, b: Bytes) {
    |a| == |b| && forall i :: 0 <= i < |a| && !(CRC_OFFSET <= i < CRC_OFFSET + CRC_LEN) ==> a[i] == b[i]
  }
}
