/** The FFAB container, version 1, as the encoders write it: a 4-byte header
    (magic 0xFFAB, version 0x0001), an 8-byte meta block (frame count,
    width, height, ASTC format code), one 12-byte index entry per frame
    (absolute offset, length) and the frame payloads back to back. All
    integers are big-endian. This module states that layout once, as
    functions of the payloads, and proves the facts both encoders and the
    decoder rely on. */
module FfabFormat {
  import opened Bytes

  const FFAB_MAGIC: nat := 0xFFAB
  const FFAB_VERSION_1: nat := 0x0001

  const HEADER_SIZE: nat := 4
  const META_SIZE: nat := 8
  const INDEX_ENTRY_SIZE: nat := 12
  /** The index table starts right after header and meta block. */
  const INDEX_START_OFFSET: nat := HEADER_SIZE + META_SIZE

  /** The four 16-bit fields of the meta block. */
  datatype Meta = Meta(imageCount: nat, width: nat, height: nat, formatCode: nat)

  /** One index entry: where a frame's payload starts in the file, and its length. */
  datatype IndexEntry = IndexEntry(offset: nat, length: nat)

  /** struct's `>HHHH` accepts the meta block only when every field fits 16 bits. */
  predicate MetaFits(m: Meta)
  {
    m.imageCount < U16_LIMIT && m.width < U16_LIMIT && m.height < U16_LIMIT && m.formatCode < U16_LIMIT
  }

  /** struct's `>QI` accepts an entry only when the offset fits 64 bits and the length 32. */
  predicate EntryFits(e: IndexEntry)
  {
    e.offset < U64_LIMIT && e.length < U32_LIMIT
  }

  predicate AllEntriesFit(entries: seq<IndexEntry>)
  {
    forall i :: 0 <= i < |entries| ==> EntryFits(entries[i])
  }

  /** `struct.pack('>HH', 0xFFAB, 0x0001)`. */
  function HeaderBytes(): (r: seq<byte>)
    ensures |r| == HEADER_SIZE
  {
    Pow256Limits();
    EncodeBE(FFAB_MAGIC, 2) + EncodeBE(FFAB_VERSION_1, 2)
  }

  /** The header is the magic 0xFFAB then the version 0x0001, each big-endian. */
  lemma HeaderBytesValue()
    ensures HeaderBytes() == [0xFF, 0xAB, 0x00, 0x01]
  {
    Pow256Limits();
    assert EncodeBE(FFAB_MAGIC, 2) == EncodeBE(0xFF, 1) + [0xAB];
    assert EncodeBE(FFAB_VERSION_1, 2) == EncodeBE(0, 1) + [0x01];
  }

  /** `struct.pack('>HHHH', count, width, height, code)`. */
  function MetaBytes(m: Meta): (r: seq<byte>)
    requires MetaFits(m)
    ensures |r| == META_SIZE
  {
    Pow256Limits();
    EncodeBE(m.imageCount, 2) + EncodeBE(m.width, 2) + EncodeBE(m.height, 2) + EncodeBE(m.formatCode, 2)
  }

  /** `struct.pack('>QI', offset, length)`. */
  function EntryBytes(e: IndexEntry): (r: seq<byte>)
    requires EntryFits(e)
    ensures |r| == INDEX_ENTRY_SIZE
  {
    Pow256Limits();
    EncodeBE(e.offset, 8) + EncodeBE(e.length, 4)
  }

  /** Where the payloads start: after the header, the meta block and n entries. */
  function DataStartOffset(imageCount: nat): nat
  {
    INDEX_START_OFFSET + 12 * imageCount
  }

  /** The index the encoders build: entry k starts at `start` plus the
      lengths of the payloads before it, and is as long as payload k. */
  function Entries(payloads: seq<seq<byte>>, start: nat): (es: seq<IndexEntry>)
    ensures |es| == |payloads|
  {
    seq(|payloads|, k requires 0 <= k < |payloads| => IndexEntry(start + TotalLength(payloads[..k]), |payloads[k]|))
  }

  /** The packed entries, one 12-byte chunk per entry, in order. */
  function EntryChunks(entries: seq<IndexEntry>): (r: seq<seq<byte>>)
    requires AllEntriesFit(entries)
    ensures |r| == |entries|
  {
    seq(|entries|, i requires 0 <= i < |entries| && AllEntriesFit(entries) => EntryBytes(entries[i]))
  }

  /** The whole file: header, meta, index table, payloads. */
  function FileBytes(m: Meta, payloads: seq<seq<byte>>): seq<byte>
    requires MetaFits(m)
    requires AllEntriesFit(Entries(payloads, DataStartOffset(|payloads|)))
  {
    HeaderBytes() + MetaBytes(m) + Flatten(EntryChunks(Entries(payloads, DataStartOffset(|payloads|)))) + Flatten(payloads)
  }

  /** The entries are contiguous and in input order: the first starts at `start`,
      each next one where the previous ends, and the last ends after all payloads. */
  lemma EntriesContiguous(payloads: seq<seq<byte>>, start: nat)
    ensures |payloads| > 0 ==> Entries(payloads, start)[0].offset == start
    ensures forall k :: 0 <= k < |payloads| - 1 ==>
      Entries(payloads, start)[k + 1].offset == Entries(payloads, start)[k].offset + Entries(payloads, start)[k].length
    ensures |payloads| > 0 ==>
      var last := Entries(payloads, start)[|payloads| - 1];
      last.offset + last.length == start + TotalLength(payloads)
  {
    if |payloads| > 0 {
      LastEntryEnd(payloads, start);
    }
    forall k | 0 <= k < |payloads| - 1
      ensures Entries(payloads, start)[k + 1].offset == Entries(payloads, start)[k].offset + Entries(payloads, start)[k].length
    {
      NextEntry(payloads, start, k);
    }
  }

  /** Entry k + 1 starts where entry k ends. */
  lemma NextEntry(payloads: seq<seq<byte>>, start: nat, k: nat)
    requires k + 1 < |payloads|
    ensures Entries(payloads, start)[k + 1].offset == Entries(payloads, start)[k].offset + Entries(payloads, start)[k].length
  {
    var pre := payloads[..k + 1];
    assert pre[..k] == payloads[..k];
  }

  /** Entries never overlap: an earlier payload ends no later than a later one starts. */
  lemma EntriesOrdered(payloads: seq<seq<byte>>, start: nat, i: nat, j: nat)
    requires i < j < |payloads|
    ensures Entries(payloads, start)[i].offset + Entries(payloads, start)[i].length <= Entries(payloads, start)[j].offset
  {
    TotalLengthMonotone(payloads, i + 1, j);
    var pre := payloads[..i + 1];
    assert pre[..i] == payloads[..i];
  }

  lemma {:induction false} TotalLengthMonotone(chunks: seq<seq<byte>>, a: nat, b: nat)
    requires a <= b <= |chunks|
    ensures TotalLength(chunks[..a]) <= TotalLength(chunks[..b])
  {
    if a < b {
      TotalLengthMonotone(chunks, a, b - 1);
      var pre := chunks[..b];
      assert pre[..b - 1] == chunks[..b - 1];
    }
  }

  /** The index table is 12 bytes per entry. */
  lemma IndexTableLength(entries: seq<IndexEntry>)
    requires AllEntriesFit(entries)
    ensures |Flatten(EntryChunks(entries))| == 12 * |entries|
  {
    var chunks := EntryChunks(entries);
    TotalLengthUniform(chunks, 12, |entries|);
    assert chunks[..|entries|] == chunks;
  }

  /** Entry i of the index table is the 12 bytes at 12 i. */
  lemma IndexTableEntry(entries: seq<IndexEntry>, i: nat)
    requires AllEntriesFit(entries)
    requires i < |entries|
    ensures 12 * i + INDEX_ENTRY_SIZE <= |Flatten(EntryChunks(entries))|
    ensures Flatten(EntryChunks(entries))[12 * i..12 * i + INDEX_ENTRY_SIZE] == EntryBytes(entries[i])
  {
    var chunks := EntryChunks(entries);
    TotalLengthUniform(chunks, 12, i);
    FlattenSlice(chunks, i);
  }

  /** The file is 12 + 12 n + (sum of payload lengths) bytes long. */
  lemma FileLength(m: Meta, payloads: seq<seq<byte>>)
    requires MetaFits(m)
    requires AllEntriesFit(Entries(payloads, DataStartOffset(|payloads|)))
    ensures |FileBytes(m, payloads)| == DataStartOffset(|payloads|) + TotalLength(payloads)
  {
    var es := Entries(payloads, DataStartOffset(|payloads|));
    var table := Flatten(EntryChunks(es));
    IndexTableLength(es);
    assert |table| == 12 * |payloads|;
    assert FileBytes(m, payloads) == HeaderBytes() + MetaBytes(m) + table + Flatten(payloads);
  }

  /** The last entry ends exactly at the end of the file. */
  lemma LastEntryEndsFile(m: Meta, payloads: seq<seq<byte>>)
    requires MetaFits(m)
    requires AllEntriesFit(Entries(payloads, DataStartOffset(|payloads|)))
    requires |payloads| > 0
    ensures var last := Entries(payloads, DataStartOffset(|payloads|))[|payloads| - 1];
      last.offset + last.length == |FileBytes(m, payloads)|
  {
    FileLength(m, payloads);
    LastEntryEnd(payloads, DataStartOffset(|payloads|));
  }

  /** The last entry ends after all payloads. */
  lemma LastEntryEnd(payloads: seq<seq<byte>>, start: nat)
    requires |payloads| > 0
    ensures var last := Entries(payloads, start)[|payloads| - 1];
      last.offset + last.length == start + TotalLength(payloads)
  {
  }

  /** An encoded file starts with the header and then the meta block. */
  lemma FileHead(m: Meta, payloads: seq<seq<byte>>)
    requires MetaFits(m)
    requires AllEntriesFit(Entries(payloads, DataStartOffset(|payloads|)))
    ensures |FileBytes(m, payloads)| >= DataStartOffset(|payloads|)
    ensures FileBytes(m, payloads)[..HEADER_SIZE] == HeaderBytes()
    ensures FileBytes(m, payloads)[HEADER_SIZE..INDEX_START_OFFSET] == MetaBytes(m)
  {
    var es := Entries(payloads, DataStartOffset(|payloads|));
    IndexTableLength(es);
    FourParts(HeaderBytes(), MetaBytes(m), Flatten(EntryChunks(es)), Flatten(payloads));
  }

  /** Index entry i of an encoded file is the 12 bytes at 12 + 12 i. */
  lemma FileIndexSlice(m: Meta, payloads: seq<seq<byte>>, i: nat)
    requires MetaFits(m)
    requires AllEntriesFit(Entries(payloads, DataStartOffset(|payloads|)))
    requires i < |payloads|
    ensures INDEX_START_OFFSET + 12 * i + INDEX_ENTRY_SIZE <= |FileBytes(m, payloads)|
    ensures FileBytes(m, payloads)[INDEX_START_OFFSET + 12 * i..INDEX_START_OFFSET + 12 * i + INDEX_ENTRY_SIZE]
         == EntryBytes(Entries(payloads, DataStartOffset(|payloads|))[i])
  {
    var es := Entries(payloads, DataStartOffset(|payloads|));
    var table := Flatten(EntryChunks(es));
    IndexTableEntry(es, i);
    SliceThird(HeaderBytes(), MetaBytes(m), table, Flatten(payloads), INDEX_START_OFFSET, 12 * i, 12 * i + INDEX_ENTRY_SIZE);
  }

  /** Entry e lies within the file and records exactly `data`. */
  predicate Locates(file: seq<byte>, e: IndexEntry, data: seq<byte>)
  {
    e.offset + e.length <= |file| && file[e.offset..e.offset + e.length] == data
  }

  /** Payload i of an encoded file is exactly the range its index entry records. */
  lemma FilePayloadSlice(m: Meta, payloads: seq<seq<byte>>, i: nat)
    requires MetaFits(m)
    requires AllEntriesFit(Entries(payloads, DataStartOffset(|payloads|)))
    requires i < |payloads|
    ensures Locates(FileBytes(m, payloads), Entries(payloads, DataStartOffset(|payloads|))[i], payloads[i])
  {
    var es := Entries(payloads, DataStartOffset(|payloads|));
    var table := Flatten(EntryChunks(es));
    IndexTableLength(es);
    PayloadAfterHead(HeaderBytes(), MetaBytes(m), table, payloads, i, DataStartOffset(|payloads|), es[i]);
  }

  /** Chunk i of a join placed after three parts sits after them plus the lengths before it. */
  lemma PayloadAfterHead(a: seq<byte>, b: seq<byte>, c: seq<byte>, chunks: seq<seq<byte>>, i: nat, start: nat, e: IndexEntry)
    requires i < |chunks|
    requires |a| + |b| + |c| == start
    requires e == IndexEntry(start + TotalLength(chunks[..i]), |chunks[i]|)
    ensures Locates(a + b + c + Flatten(chunks), e, chunks[i])
  {
    FlattenSlice(chunks, i);
    var head := a + b + c;
    assert a + b + c + Flatten(chunks) == head + Flatten(chunks);
    assert (head + Flatten(chunks))[e.offset..e.offset + e.length]
        == Flatten(chunks)[TotalLength(chunks[..i])..TotalLength(chunks[..i]) + |chunks[i]|];
  }

  /** How the head of a four-part concatenation falls into its first two parts. */
  lemma FourParts<T>(a: seq<T>, b: seq<T>, c: seq<T>, d: seq<T>)
    ensures |a + b + c + d| == |a| + |b| + |c| + |d|
    ensures (a + b + c + d)[..|a|] == a
    ensures (a + b + c + d)[|a|..|a| + |b|] == b
  {
  }

  /** A slice within the third part of a four-part concatenation. */
  lemma SliceThird<T>(a: seq<T>, b: seq<T>, c: seq<T>, d: seq<T>, base: nat, lo: nat, hi: nat)
    requires |a| + |b| == base
    requires lo <= hi <= |c|
    ensures base + hi <= |a + b + c + d|
    ensures (a + b + c + d)[base + lo..base + hi] == c[lo..hi]
  {
    assert (a + b + c + d)[base + lo..base + hi] == (a + b + c)[base + lo..base + hi];
  }
}
