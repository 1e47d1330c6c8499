/** The binary manifest of what a device holds, and why its encoding is the only one. */
module Manifest {
  import opened Wrappers
  import opened Bytes
  import opened Clock

  const MAX_MANIFEST_ENTRIES: nat := 7000
  const MAGIC: seq<byte> := [0x55, 0x57, 0x4d]
  const VERSION: byte := 1
  const HEADER_BYTES: nat := 29
  const ENTRY_BYTES: nat := 34

  type Uuid = s: seq<byte> | |s| == 16 witness [0, 0, 0, 0, 0, 0, 0, 0, 0, 0, 0, 0, 0, 0, 0, 0]

  datatype Entry = Entry(kind: byte, id: Uuid, updatedAt: Hlc, deleted: bool)

  datatype Manifest = Manifest(device: u32, createdAt: Hlc, partialList: bool, entries: seq<Entry>)

  function Flag(b: bool): byte { if b then 1 else 0 }

  function ClockBytes(h: Hlc): (s: seq<byte>)
    ensures |s| == 16
  {
    BigEndian(h.wall, 8) + BigEndian(h.counter, 4) + BigEndian(h.device, 4)
  }

  function EntryBytes(e: Entry): (s: seq<byte>)
    ensures |s| == ENTRY_BYTES
  {
    [e.kind, Flag(e.deleted)] + e.id + ClockBytes(e.updatedAt)
  }

  function AllEntryBytes(entries: seq<Entry>, n: nat): (s: seq<byte>)
    requires n <= |entries|
    ensures |s| == n * ENTRY_BYTES
  {
    if n == 0 then [] else AllEntryBytes(entries, n - 1) + EntryBytes(entries[n - 1])
  }

  function HeaderBytes(m: Manifest): (s: seq<byte>)
    ensures |s| == HEADER_BYTES
  {
    MAGIC + [VERSION] + BigEndian(m.device, 4) + ClockBytes(m.createdAt) + [Flag(m.partialList)]
      + BigEndian(|m.entries|, 4)
  }

  /** What a manifest looks like on the wire. */
  function Encoding(m: Manifest): seq<byte> {
    HeaderBytes(m) + AllEntryBytes(m.entries, |m.entries|)
  }

  // ------------------------------------------------------------------ reading

  function ReadNumber(s: seq<byte>): (n: nat)
    ensures |s| == 4 ==> n < 0x1_0000_0000
    ensures |s| == 8 ==> n < 0x1_0000_0000_0000_0000
  {
    PowersOf256();
    NumberBelow(s);
    Number(s)
  }

  lemma PowersOf256()
    ensures Pow256(4) == 0x1_0000_0000 && Pow256(8) == 0x1_0000_0000_0000_0000
  {
    assert Pow256(2) == 65536;
    assert Pow256(4) == 65536 * 65536;
    assert Pow256(6) == 65536 * Pow256(4);
    assert Pow256(8) == 65536 * Pow256(6);
  }

  function ReadClock(s: seq<byte>): Hlc
    requires |s| == 16
  {
    Hlc(ReadNumber(s[0..8]), ReadNumber(s[8..12]), ReadNumber(s[12..16]))
  }

  lemma NumberBack(n: nat, width: nat)
    requires (width == 4 && n < 0x1_0000_0000) || (width == 8 && n < 0x1_0000_0000_0000_0000)
    ensures ReadNumber(BigEndian(n, width)) == n
  {
    PowersOf256();
    NumberOfBigEndian(n, width);
  }

  lemma ClockBack(h: Hlc)
    ensures ReadClock(ClockBytes(h)) == h
  {
    var s := ClockBytes(h);
    assert s[0..8] == BigEndian(h.wall, 8) && s[8..12] == BigEndian(h.counter, 4)
           && s[12..16] == BigEndian(h.device, 4);
    NumberBack(h.wall, 8);
    NumberBack(h.counter, 4);
    NumberBack(h.device, 4);
  }

  lemma ClockBytesBack(s: seq<byte>)
    requires |s| == 16
    ensures ClockBytes(ReadClock(s)) == s
  {
    BigEndianOfNumber(s[0..8]);
    BigEndianOfNumber(s[8..12]);
    BigEndianOfNumber(s[12..16]);
    assert s == s[0..8] + s[8..12] + s[12..16];
  }

  // ------------------------------------------------------------------ encode and decode

  method PushClock(out: seq<byte>, h: Hlc) returns (longer: seq<byte>)
    ensures longer == out + ClockBytes(h)
  {
    longer := out + BigEndian(h.wall, 8);
    longer := longer + BigEndian(h.counter, 4);
    longer := longer + BigEndian(h.device, 4);
  }

  method Encode(m: Manifest) returns (out: seq<byte>)
    ensures out == Encoding(m)
  {
    out := MAGIC;
    out := out + [VERSION];
    out := out + BigEndian(m.device, 4);
    out := PushClock(out, m.createdAt);
    out := out + [Flag(m.partialList)];
    out := out + BigEndian(|m.entries|, 4);
    for i := 0 to |m.entries|
      invariant out == HeaderBytes(m) + AllEntryBytes(m.entries, i)
    {
      out := PushEntry(out, m.entries[i]);
    }
  }

  method PushEntry(out: seq<byte>, e: Entry) returns (longer: seq<byte>)
    ensures longer == out + EntryBytes(e)
  {
    longer := out + [e.kind];
    longer := longer + [Flag(e.deleted)];
    longer := longer + e.id;
    longer := PushClock(longer, e.updatedAt);
  }

  /** A manifest, exactly if the bytes are the encoding of one that is not too long. */
  method Decode(bytes: seq<byte>) returns (r: Option<Manifest>)
    ensures r.Some? ==> Encoding(r.value) == bytes && |r.value.entries| <= MAX_MANIFEST_ENTRIES
    ensures r.None? ==> forall m: Manifest :: |m.entries| <= MAX_MANIFEST_ENTRIES ==> Encoding(m) != bytes
  {
    if |bytes| < HEADER_BYTES || bytes[..3] != MAGIC || bytes[3] != VERSION {
      NoEncodingStarts(bytes);
      return None;
    }
    var device := ReadNumber(bytes[4..8]);
    var createdAt := ReadClock(bytes[8..24]);
    if bytes[24] != 0 && bytes[24] != 1 {
      NoEncodingFlags(bytes);
      return None;
    }
    var partialList := bytes[24] == 1;
    var count := ReadNumber(bytes[25..29]);
    var body := bytes[HEADER_BYTES..];
    if count > MAX_MANIFEST_ENTRIES || |body| != count * ENTRY_BYTES {
      NoEncodingOfLength(bytes);
      return None;
    }
    var entries: seq<Entry> := [];
    for i := 0 to count
      invariant |entries| == i && |body| == count * ENTRY_BYTES
      invariant AllEntryBytes(entries, i) == body[..i * ENTRY_BYTES]
    {
      ChunkInBody(i, count);
      var chunk := body[i * ENTRY_BYTES..(i + 1) * ENTRY_BYTES];
      if chunk[1] != 0 && chunk[1] != 1 {
        NoEncodingOfChunk(bytes, count, i);
        return None;
      }
      var e := ReadEntry(chunk);
      OneMoreEntry(entries, e, body, i);
      entries := entries + [e];
    }
    r := Some(Manifest(device, createdAt, partialList, entries));
    HeaderBack(bytes, r.value);
    assert body[..count * ENTRY_BYTES] == body;
    assert bytes == bytes[..HEADER_BYTES] + body;
  }

  /** One entry from its bytes. */
  function ReadEntry(chunk: seq<byte>): (e: Entry)
    requires |chunk| == ENTRY_BYTES && (chunk[1] == 0 || chunk[1] == 1)
    ensures EntryBytes(e) == chunk
  {
    ClockBytesBack(chunk[18..34]);
    var e := Entry(chunk[0], ReadUuid(chunk[2..18]), ReadClock(chunk[18..34]), chunk[1] == 1);
    assert chunk == [chunk[0], chunk[1]] + chunk[2..18] + chunk[18..34];
    e
  }

  function ReadUuid(s: seq<byte>): Uuid
    requires |s| == 16
  {
    s
  }

  lemma ChunkInBody(i: nat, count: nat)
    requires i < count
    ensures (i + 1) * ENTRY_BYTES == i * ENTRY_BYTES + ENTRY_BYTES <= count * ENTRY_BYTES
  {
  }

  lemma {:induction false} SameEntriesSameBytes(a: seq<Entry>, b: seq<Entry>, n: nat)
    requires n <= |a| && n <= |b| && a[..n] == b[..n]
    ensures AllEntryBytes(a, n) == AllEntryBytes(b, n)
  {
    if n > 0 {
      assert a[..n][n - 1] == b[..n][n - 1];
      assert a[..n - 1] == a[..n][..n - 1] && b[..n - 1] == b[..n][..n - 1];
      SameEntriesSameBytes(a, b, n - 1);
    }
  }

  lemma OneMoreEntry(entries: seq<Entry>, e: Entry, body: seq<byte>, i: nat)
    requires |entries| == i && (i + 1) * ENTRY_BYTES <= |body|
    requires AllEntryBytes(entries, i) == body[..i * ENTRY_BYTES]
    requires EntryBytes(e) == body[i * ENTRY_BYTES..(i + 1) * ENTRY_BYTES]
    ensures AllEntryBytes(entries + [e], i + 1) == body[..(i + 1) * ENTRY_BYTES]
  {
    SameEntriesSameBytes(entries, entries + [e], i);
    assert body[..(i + 1) * ENTRY_BYTES] == body[..i * ENTRY_BYTES] + body[i * ENTRY_BYTES..(i + 1) * ENTRY_BYTES];
  }

  lemma HeaderBack(bytes: seq<byte>, m: Manifest)
    requires |bytes| >= HEADER_BYTES && bytes[..3] == MAGIC && bytes[3] == VERSION
    requires m.device == ReadNumber(bytes[4..8]) && m.createdAt == ReadClock(bytes[8..24])
    requires bytes[24] == Flag(m.partialList) && |m.entries| == ReadNumber(bytes[25..29])
    ensures HeaderBytes(m) == bytes[..HEADER_BYTES]
  {
    BigEndianOfNumber(bytes[4..8]);
    ClockBytesBack(bytes[8..24]);
    BigEndianOfNumber(bytes[25..29]);
    assert bytes[..HEADER_BYTES] == bytes[..3] + [bytes[3]] + bytes[4..8] + bytes[8..24] + [bytes[24]] + bytes[25..29];
  }

  /** Where things are in an encoding. */
  lemma EncodingParts(m: Manifest)
    ensures var s := Encoding(m);
            && |s| == HEADER_BYTES + |m.entries| * ENTRY_BYTES
            && s[..3] == MAGIC && s[3] == VERSION && s[4..8] == BigEndian(m.device, 4)
               && s[8..24] == ClockBytes(m.createdAt)
            && s[24] == Flag(m.partialList) && (|m.entries| < 0x1_0000_0000 ==> ReadNumber(s[25..29]) == |m.entries|)
            && s[HEADER_BYTES..] == AllEntryBytes(m.entries, |m.entries|)
  {
    var s, head := Encoding(m), HeaderBytes(m);
    assert head[..3] == MAGIC && head[3] == VERSION && head[4..8] == BigEndian(m.device, 4)
           && head[8..24] == ClockBytes(m.createdAt);
    assert head[24] == Flag(m.partialList) && head[25..29] == BigEndian(|m.entries|, 4);
    assert s[..29] == head && s[..3] == head[..3] && s[4..8] == head[4..8] && s[8..24] == head[8..24]
           && s[25..29] == head[25..29];
    if |m.entries| < 0x1_0000_0000 {
      NumberBack(|m.entries|, 4);
    }
  }

  lemma {:induction false} EntryAt(entries: seq<Entry>, n: nat, i: nat)
    requires i < n <= |entries|
    ensures (i + 1) * ENTRY_BYTES <= n * ENTRY_BYTES
    ensures AllEntryBytes(entries, n)[i * ENTRY_BYTES..(i + 1) * ENTRY_BYTES] == EntryBytes(entries[i])
  {
    ChunkInBody(i, n);
    if i < n - 1 {
      EntryAt(entries, n - 1, i);
      assert AllEntryBytes(entries, n)[i * ENTRY_BYTES..(i + 1) * ENTRY_BYTES]
          == AllEntryBytes(entries, n - 1)[i * ENTRY_BYTES..(i + 1) * ENTRY_BYTES];
    }
  }

  lemma NoEncodingStarts(bytes: seq<byte>)
    requires |bytes| < HEADER_BYTES || bytes[..3] != MAGIC || bytes[3] != VERSION
    ensures forall m: Manifest :: |m.entries| <= MAX_MANIFEST_ENTRIES ==> Encoding(m) != bytes
  {
    forall m: Manifest | |m.entries| <= MAX_MANIFEST_ENTRIES ensures Encoding(m) != bytes {
      EncodingParts(m);
    }
  }

  lemma NoEncodingFlags(bytes: seq<byte>)
    requires |bytes| >= HEADER_BYTES && bytes[24] != 0 && bytes[24] != 1
    ensures forall m: Manifest :: |m.entries| <= MAX_MANIFEST_ENTRIES ==> Encoding(m) != bytes
  {
    forall m: Manifest | |m.entries| <= MAX_MANIFEST_ENTRIES ensures Encoding(m) != bytes {
      EncodingParts(m);
    }
  }

  lemma NoEncodingOfLength(bytes: seq<byte>)
    requires |bytes| >= HEADER_BYTES
    requires ReadNumber(bytes[25..29]) > MAX_MANIFEST_ENTRIES
             || |bytes| != HEADER_BYTES + ReadNumber(bytes[25..29]) * ENTRY_BYTES
    ensures forall m: Manifest :: |m.entries| <= MAX_MANIFEST_ENTRIES ==> Encoding(m) != bytes
  {
    forall m: Manifest | |m.entries| <= MAX_MANIFEST_ENTRIES ensures Encoding(m) != bytes {
      EncodingParts(m);
    }
  }

  lemma NoEncodingOfChunk(bytes: seq<byte>, count: nat, i: nat)
    requires |bytes| == HEADER_BYTES + count * ENTRY_BYTES && i < count && i * ENTRY_BYTES + 1 < count * ENTRY_BYTES
    requires bytes[HEADER_BYTES..][i * ENTRY_BYTES + 1] != 0 && bytes[HEADER_BYTES..][i * ENTRY_BYTES + 1] != 1
    ensures forall m: Manifest :: |m.entries| <= MAX_MANIFEST_ENTRIES ==> Encoding(m) != bytes
  {
    forall m: Manifest | |m.entries| <= MAX_MANIFEST_ENTRIES ensures Encoding(m) != bytes {
      EncodingParts(m);
      if |m.entries| == count {
        EntryAt(m.entries, count, i);
        var body := AllEntryBytes(m.entries, count);
        assert body[i * ENTRY_BYTES..(i + 1) * ENTRY_BYTES][1] == body[i * ENTRY_BYTES + 1];
        assert body[i * ENTRY_BYTES + 1] == Flag(m.entries[i].deleted);
      }
    }
  }

  // ------------------------------------------------------------------ round trips

  lemma EntryBack(a: Entry, b: Entry)
    requires EntryBytes(a) == EntryBytes(b)
    ensures a == b
  {
    var s, t := EntryBytes(a), EntryBytes(b);
    assert s[0] == a.kind && t[0] == b.kind && s[1] == Flag(a.deleted) && t[1] == Flag(b.deleted);
    assert s[2..18] == a.id && t[2..18] == b.id && s[18..34] == ClockBytes(a.updatedAt)
           && t[18..34] == ClockBytes(b.updatedAt);
    ClockBack(a.updatedAt);
    ClockBack(b.updatedAt);
  }

  /** Different manifests have different encodings, unknown kinds included. */
  lemma EncodingIsInjective(a: Manifest, b: Manifest)
    requires Encoding(a) == Encoding(b)
    ensures a == b
  {
    EncodingParts(a);
    EncodingParts(b);
    NumberBack(a.device, 4);
    NumberBack(b.device, 4);
    ClockBack(a.createdAt);
    ClockBack(b.createdAt);
    forall i | 0 <= i < |a.entries| ensures a.entries[i] == b.entries[i] {
      EntryAt(a.entries, |a.entries|, i);
      EntryAt(b.entries, |b.entries|, i);
      EntryBack(a.entries[i], b.entries[i]);
    }
  }

  /** Every manifest short enough comes back from its bytes; accepted bytes come back from their manifest. */
  method RoundTrip(m: Manifest, bytes: seq<byte>) returns (back: Option<Manifest>, again: Option<seq<byte>>)
    ensures back == if |m.entries| <= MAX_MANIFEST_ENTRIES then Some(m) else None
    ensures again.Some? ==> again.value == bytes
  {
    var encoded := Encode(m);
    back := Decode(encoded);
    if back.Some? {
      EncodingIsInjective(m, back.value);
    }
    var decoded := Decode(bytes);
    again := None;
    if decoded.Some? {
      var out := Encode(decoded.value);
      again := Some(out);
    }
  }
}
