/**
  The on-disk layout of a resource package (src/CRPKG/Protocol.h): packed records, little-endian.
 */
module PackageFormat {
  import opened Bytes

  // ---------- the records ----------

  const MAGIC: seq<byte> := [0x43, 0x52, 0x50, 0x4b, 0x47, 0xe3]
  const VERSION := 1
  const HEADER_SIZE := 54
  const FLAG_FILE := 1
  const FLAG_DIRECTORY := 2

  datatype Header = Header(
    version: nat, timestamp: nat,
    gstOffset: nat, gstSize: nat,
    dirtreeOffset: nat, dirtreeSize: nat,
    gdtOffset: nat, gdtSize: nat)

  function HeaderBytes(h: Header): (s: seq<byte>)
    ensures |s| == HEADER_SIZE
  {
    MAGIC + LE(h.version, 4) + LE(h.timestamp, 8)
    + LE(h.gstOffset, 8) + LE(h.gstSize, 4)
    + LE(h.dirtreeOffset, 8) + LE(h.dirtreeSize, 4)
    + LE(h.gdtOffset, 8) + LE(h.gdtSize, 4)
  }

  /** A node of the flattened directory tree; a file's only child is an index into the data table. */
  datatype Record = Record(flags: byte, name: nat, children: seq<nat>)

  function StringBytes(str: seq<byte>): (s: seq<byte>)
    ensures |s| == 4 + |str|
  {
    LE(|str|, 4) + str
  }

  function ChildrenBytes(children: seq<nat>): (s: seq<byte>)
    ensures |s| == 8 * |children|
  {
    if children == [] then [] else LE(children[0], 8) + ChildrenBytes(children[1..])
  }

  function RecordBytes(r: Record): (s: seq<byte>)
    ensures |s| == 9 + 8 * |r.children|
  {
    LE(|r.children|, 4) + LE(r.flags, 1) + LE(r.name, 4) + ChildrenBytes(r.children)
  }

  function DataBytes(data: seq<byte>): (s: seq<byte>)
    ensures |s| == 8 + |data|
  {
    LE(|data|, 8) + data
  }

  // ---------- the whole file ----------

  function StringTableBytes(strings: seq<seq<byte>>): seq<byte>
  {
    if strings == [] then [] else StringBytes(strings[0]) + StringTableBytes(strings[1..])
  }

  function DirtreeBytes(records: seq<Record>): seq<byte>
  {
    if records == [] then [] else RecordBytes(records[0]) + DirtreeBytes(records[1..])
  }

  function DataTableBytes(datas: seq<seq<byte>>): seq<byte>
  {
    if datas == [] then [] else DataBytes(datas[0]) + DataTableBytes(datas[1..])
  }

  function HeaderOf(strings: seq<seq<byte>>, records: seq<Record>, gdtSize: nat, timestamp: nat): Header
  {
    var dirtreeOffset := HEADER_SIZE + |StringTableBytes(strings)|;
    Header(VERSION, timestamp, HEADER_SIZE, |strings|,
           dirtreeOffset, |records|, dirtreeOffset + |DirtreeBytes(records)|, gdtSize)
  }

  /** A package file: header, string table, directory tree, data table. */
  function Image(strings: seq<seq<byte>>, records: seq<Record>, datas: seq<seq<byte>>, timestamp: nat): seq<byte>
  {
    HeaderBytes(HeaderOf(strings, records, |datas|, timestamp))
    + StringTableBytes(strings) + DirtreeBytes(records) + DataTableBytes(datas)
  }
}
