/**
 The string pool as bytes: a buffer that grows in whole pages, with each string stored as its
 in-memory image.  It implements the pool of module StringPool.
 */
module InternedPool {
  import opened ZendGraph
  import opened StringPool

  /** The string a reader finds at offset off of the pool. */
  function StringAt(data: seq<byte>, off: nat): (raw: seq<byte>)
    requires off + STRING_HEADER <= |data|
  {
    var size := LittleEndian(data[off + LENGTH_AT..off + STRING_HEADER]) + STRING_OVERHEAD;
    if off + size <= |data| then data[off..off + size] else []
  }

  /** The new length of the pool string: header and NUL included, it fills whole pages. */
  function PageRounded(newLen: nat): (r: nat)
    ensures newLen <= r
    ensures (r + STRING_OVERHEAD) % 4096 == 0 && r < newLen + 4096
  {
    (STRING_OVERHEAD + newLen + 4095) / 4096 * 4096 - STRING_OVERHEAD
  }

  lemma StoredStringReads(data: seq<byte>, off: nat, raw: seq<byte>)
    requires IsString(raw) && off + |raw| <= |data| && data[off..off + |raw|] == raw
    ensures off + STRING_HEADER <= |data| && StringAt(data, off) == raw
  {
    forall k | 0 <= k < 8 ensures data[off + LENGTH_AT..off + STRING_HEADER][k] == raw[LENGTH_AT..STRING_HEADER][k] {
      assert data[off..off + |raw|][LENGTH_AT + k] == raw[LENGTH_AT + k];
    }
    assert data[off + LENGTH_AT..off + STRING_HEADER] == raw[LENGTH_AT..STRING_HEADER];
  }

  /** At offset off there is a string with the text: its length in the header, its bytes and the NUL behind. */
  ghost predicate TextIn(data: seq<byte>, off: nat, text: seq<byte>) {
    && off + STRING_HEADER + |text| < |data|
    && LittleEndian(data[off + LENGTH_AT..off + STRING_HEADER]) == |text|
    && data[off + STRING_HEADER + |text|] == 0
    && forall k: nat :: k < |text| ==> data[off + STRING_HEADER + k] == text[k]
  }

  lemma StoredText(data: seq<byte>, off: nat, raw: seq<byte>)
    requires IsString(raw) && off + |raw| <= |data| && data[off..off + |raw|] == raw
    ensures TextIn(data, off, Content(raw))
  {
    hide LittleEndian;
    forall k: nat | k < |raw| ensures data[off + k] == raw[k] { assert data[off..off + |raw|][k] == raw[k]; }
    forall k: nat | k < 8 ensures data[off + LENGTH_AT..off + STRING_HEADER][k] == raw[LENGTH_AT..STRING_HEADER][k] {
      assert data[off + (LENGTH_AT + k)] == raw[LENGTH_AT + k];
    }
    assert data[off + LENGTH_AT..off + STRING_HEADER] == raw[LENGTH_AT..STRING_HEADER];
    forall k: nat | k < |Content(raw)| ensures data[off + STRING_HEADER + k] == Content(raw)[k] {
      assert data[off + (STRING_HEADER + k)] == raw[STRING_HEADER + k];
    }
    assert data[off + (|raw| - 1)] == raw[|raw| - 1];
  }

  /** The entries of a pool: complete strings in the first used bytes. */
  ghost predicate EntriesAt(data: seq<byte>, used: nat, entries: map<nat, seq<byte>>) {
    used <= |data| &&
    forall off :: off in entries ==>
      IsString(entries[off]) && off + |entries[off]| <= used && data[off..off + |entries[off]|] == entries[off]
  }

  /** Bytes changed beyond the used part leave the entries alone. */
  lemma EntriesStay(data: seq<byte>, data': seq<byte>, used: nat, entries: map<nat, seq<byte>>)
    requires EntriesAt(data, used, entries) && used <= |data'| && data'[..used] == data[..used]
    ensures EntriesAt(data', used, entries)
  {
    forall off | off in entries ensures data'[off..off + |entries[off]|] == entries[off] {
      assert data'[..used][off..off + |entries[off]|] == data'[off..off + |entries[off]|];
      assert data[..used][off..off + |entries[off]|] == data[off..off + |entries[off]|];
    }
  }

  lemma EntryAdded(data: seq<byte>, used: nat, entries: map<nat, seq<byte>>, raw: seq<byte>)
    requires EntriesAt(data, used, entries) && IsString(raw)
    requires used + Aligned(|raw|) <= |data| && data[used..used + |raw|] == raw
    ensures EntriesAt(data, used + Aligned(|raw|), entries[used := raw])
  {
  }

  /** What lies beyond the used part plays no part. */
  lemma EntriesInUsedPart(data: seq<byte>, used: nat, entries: map<nat, seq<byte>>)
    requires EntriesAt(data, used, entries)
    ensures EntriesAt(data[..used], used, entries)
  {
    EntriesStay(data, data[..used], used, entries);
  }

  /** The string at a tag, as zend_file_cache_unserialize_interned reads it: any tag given out reads back. */
  method StringOfTag(data: seq<byte>, tag: nat, ghost used: nat, ghost entries: map<nat, seq<byte>>)
    returns (raw: seq<byte>)
    requires EntriesAt(data, used, entries) && Untag(tag) in entries
    ensures raw == entries[Untag(tag)]
  {
    var off: nat := Untag(tag);
    StoredStringReads(data, off, entries[off]);
    raw := StringAt(data, off);
  }

  class InternedPool {
    var data: seq<byte>            // current_string_pool
    var strSize: nat               // info->str_size
    var xlat: map<nat, nat>
    ghost var entries: map<nat, seq<byte>>

    ghost function View(): Pool
      reads this
    {
      Pool(xlat, strSize, entries)
    }

    /** Every entry lies in the used part of the buffer, byte for byte. */
    ghost predicate Valid()
      reads this
    {
      EntriesAt(data, strSize, entries) && strSize % 8 == 0 && forall p :: p in xlat ==> xlat[p] % 2 == 1
    }

    constructor (capacity: nat)
      ensures Valid() && View() == EMPTY_POOL && |data| == capacity
    {
      data := seq(capacity, _ => 0);
      strSize, xlat, entries := 0, map[], map[];
    }

    /** zend_string_realloc: a longer buffer with the old bytes in front. */
    method Grow(newLen: nat)
      requires Valid() && newLen >= |data|
      modifies this`data
      ensures Valid() && |data| == PageRounded(newLen) && |data| >= newLen && data[..|old(data)|] == old(data)
    {
      ghost var was := data;
      data := data + seq(PageRounded(newLen) - |data|, _ => 0);
      assert data[..strSize] == was[..strSize];
      EntriesStay(was, data, strSize, entries);
    }

    /** zend_file_cache_serialize_interned: a string met before keeps its tag; a new one is
        appended, after growing the buffer if it would not fit. */
    method SerializeInterned(p: nat, raw: seq<byte>) returns (tag: nat)
      requires Valid() && IsString(raw)
      modifies this
      ensures Valid() && View() == Intern(old(View()), p, raw) && p in xlat && tag == xlat[p] && tag % 2 == 1
      ensures p !in old(xlat) ==> Untag(tag) + |raw| <= |data| && data[Untag(tag)..Untag(tag) + |raw|] == raw
    {
      hide IsString, EntriesAt, Aligned, PageRounded;
      if p in xlat {
        return xlat[p];
      }
      var size := Aligned(|raw|);
      if strSize + size > |data| {
        Grow(strSize + size);
      }
      var at := strSize;
      Append(raw);
      tag := Tag(at);
      TagTwice(at);
      xlat := xlat[p := tag];
      entries := entries[at := raw];
      strSize := at + size;
      assert Valid() by { hide Untag; }
    }

    /** memcpy of the string to the end of the used part. */
    method Append(raw: seq<byte>)
      requires Valid() && IsString(raw) && strSize + Aligned(|raw|) <= |data|
      modifies this`data
      ensures EntriesAt(data, strSize + Aligned(|raw|), entries[strSize := raw])
      ensures |data| == |old(data)| && data[strSize..strSize + |raw|] == raw
    {
      hide IsString;
      ghost var was := data;
      var at := strSize;
      data := data[..at] + raw + data[at + |raw|..];
      assert data[..at] == was[..at];
      EntriesStay(was, data, at, entries);
      EntryAdded(data, at, entries, raw);
    }
  }
}
