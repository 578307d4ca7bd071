/** The change-notification buffer filled by ReadDirectoryChangesW: back-to-back
    FILE_NOTIFY_INFORMATION records, each a 12-byte header of three
    little-endian DWORDs (NextEntryOffset at +0, Action at +4, FileNameLength
    in bytes at +8) followed by FileNameLength bytes of UTF-16 name. The walk
    follows NextEntryOffset from the start of the buffer until it reads 0. */
module Notify {
  import opened Win32

  const HeaderSize: nat := 12
  /** 2^32: every DWORD field is below it. */
  const DwordLimit: nat := 0x1_0000_0000

  /** The little-endian 16-bit unit at byte `i`. */
  function U16At(buf: seq<Byte>, i: nat): WChar
    requires i + 2 <= |buf|
  {
    ((buf[i] as int) + 0x100 * (buf[i + 1] as int)) as WChar
  }

  /** The little-endian DWORD at byte `i`. */
  function U32At(buf: seq<Byte>, i: nat): (x: nat)
    requires i + 4 <= |buf|
    ensures x < DwordLimit
  {
    (buf[i] as int) + 0x100 * ((buf[i + 1] as int) + 0x100 * ((buf[i + 2] as int) + 0x100 * (buf[i + 3] as int)))
  }

  function NextEntryOffset(buf: seq<Byte>, p: nat): nat
    requires p + HeaderSize <= |buf|
  {
    U32At(buf, p)
  }

  function Action(buf: seq<Byte>, p: nat): nat
    requires p + HeaderSize <= |buf|
  {
    U32At(buf, p + 4)
  }

  function FileNameLength(buf: seq<Byte>, p: nat): nat
    requires p + HeaderSize <= |buf|
  {
    U32At(buf, p + 8)
  }

  /** The header of the record at `p`, and the FileNameLength / 2 units of its
      name that the walk reads, lie inside the buffer. */
  predicate RecordFits(buf: seq<Byte>, p: nat)
  {
    p + HeaderSize <= |buf| && p + HeaderSize + 2 * (FileNameLength(buf, p) / 2) <= |buf|
  }

  /** The `n` UTF-16 units stored from byte `start` on. */
  function UnitsAt(buf: seq<Byte>, start: nat, n: nat): (r: WString)
    requires start + 2 * n <= |buf|
    ensures |r| == n
    decreases n
  {
    if n == 0 then [] else UnitsAt(buf, start, n - 1) + [U16At(buf, start + 2 * (n - 1))]
  }

  /** Unit `k` of the name is the 16-bit unit at byte `start + 2k`. */
  lemma {:induction false} UnitsAtIndex(buf: seq<Byte>, start: nat, n: nat, k: nat)
    requires start + 2 * n <= |buf| && k < n
    ensures UnitsAt(buf, start, n)[k] == U16At(buf, start + 2 * k)
  {
    if k < n - 1 {
      UnitsAtIndex(buf, start, n - 1, k);
    }
  }

  /** Bytes after the name do not change it. */
  lemma {:induction false} UnitsAtExtends(buf: seq<Byte>, tail: seq<Byte>, start: nat, n: nat)
    requires start + 2 * n <= |buf|
    ensures UnitsAt(buf + tail, start, n) == UnitsAt(buf, start, n)
  {
    if n > 0 {
      UnitsAtExtends(buf, tail, start, n - 1);
      var i := start + 2 * (n - 1);
      assert (buf + tail)[i] == buf[i] && (buf + tail)[i + 1] == buf[i + 1];
    }
  }

  /** One decoded record: where it starts, its three header fields and the
      name as the walk decodes it. */
  datatype Entry = Entry(offset: nat, next: nat, action: nat, name: WString)

  function EntryAt(buf: seq<Byte>, p: nat): Entry
    requires RecordFits(buf, p)
  {
    Entry(p, NextEntryOffset(buf, p), Action(buf, p), UnitsAt(buf, p + HeaderSize, FileNameLength(buf, p) / 2))
  }

  /** Every record the walk reaches from `p` fits in the buffer. The source
      checks none of this; it is what the walk needs of the OS. */
  predicate WellFormedFrom(buf: seq<Byte>, p: nat)
    decreases |buf| - p
  {
    RecordFits(buf, p) &&
    (NextEntryOffset(buf, p) != 0 ==> WellFormedFrom(buf, p + NextEntryOffset(buf, p)))
  }

  /** The records the walk visits from `p`, in the order it visits them. */
  function Records(buf: seq<Byte>, p: nat): seq<Entry>
    requires WellFormedFrom(buf, p)
    decreases |buf| - p
  {
    [EntryAt(buf, p)] +
      (if NextEntryOffset(buf, p) == 0 then [] else Records(buf, p + NextEntryOffset(buf, p)))
  }

  /** One record of the chain: the last one, or one followed by a
      well-formed rest. */
  lemma ChainStep(buf: seq<Byte>, p: nat)
    requires RecordFits(buf, p)
    ensures NextEntryOffset(buf, p) == 0 ==>
      WellFormedFrom(buf, p) && Records(buf, p) == [EntryAt(buf, p)]
    ensures NextEntryOffset(buf, p) != 0 && WellFormedFrom(buf, p + NextEntryOffset(buf, p)) ==>
      WellFormedFrom(buf, p) && Records(buf, p) == [EntryAt(buf, p)] + Records(buf, p + NextEntryOffset(buf, p))
  {
  }

  /** The walk visits at least one record, starting at `p`, and stops at a
      record whose NextEntryOffset is 0. */
  lemma {:induction false} RecordsEnds(buf: seq<Byte>, p: nat)
    requires WellFormedFrom(buf, p)
    ensures var rs := Records(buf, p);
      |rs| >= 1 && rs[0] == EntryAt(buf, p) && rs[0].offset == p && rs[|rs| - 1].next == 0
    decreases |buf| - p
  {
    if NextEntryOffset(buf, p) != 0 {
      RecordsEnds(buf, p + NextEntryOffset(buf, p));
    }
  }

  /** The `i`-th record the walk visits lies at or after `p`, fits in the
      buffer and is the record decoded at its own offset; the next record,
      if any, starts its non-zero NextEntryOffset later, and the last one has
      NextEntryOffset 0. */
  lemma RecordAt(buf: seq<Byte>, p: nat, i: nat)
    requires WellFormedFrom(buf, p) && i < |Records(buf, p)|
    ensures var rs := Records(buf, p);
      && p <= rs[i].offset && RecordFits(buf, rs[i].offset) && rs[i] == EntryAt(buf, rs[i].offset)
      && (i + 1 < |rs| ==> rs[i].next != 0 && rs[i + 1].offset == rs[i].offset + rs[i].next)
      && (i + 1 == |rs| ==> rs[i].next == 0)
  {
    RecordDecoded(buf, p, i);
    if i + 1 < |Records(buf, p)| {
      RecordLink(buf, p, i);
    } else {
      RecordsEnds(buf, p);
    }
  }

  /** The `i`-th record lies at or after `p`, fits, and is the record
      decoded at its own offset. */
  lemma {:induction false} RecordDecoded(buf: seq<Byte>, p: nat, i: nat)
    requires WellFormedFrom(buf, p) && i < |Records(buf, p)|
    ensures var r := Records(buf, p)[i];
      p <= r.offset && RecordFits(buf, r.offset) && r == EntryAt(buf, r.offset)
    decreases |buf| - p
  {
    RecordsUnfold(buf, p);
    var rs := Records(buf, p);
    if i == 0 {
      assert rs[0] == EntryAt(buf, p);
    } else {
      var next := NextEntryOffset(buf, p);
      var tl := Records(buf, p + next);
      assert rs == [EntryAt(buf, p)] + tl;
      RecordDecoded(buf, p + next, i - 1);
      assert rs[i] == tl[i - 1];
    }
  }

  /** Each record but the last has a non-zero NextEntryOffset, and the next
      record starts that many bytes after it. */
  lemma {:induction false} RecordLink(buf: seq<Byte>, p: nat, i: nat)
    requires WellFormedFrom(buf, p) && i + 1 < |Records(buf, p)|
    ensures var rs := Records(buf, p);
      rs[i].next != 0 && rs[i + 1].offset == rs[i].offset + rs[i].next
    decreases |buf| - p
  {
    RecordsUnfold(buf, p);
    var rs := Records(buf, p);
    var next := NextEntryOffset(buf, p);
    assert next != 0;
    var tl := Records(buf, p + next);
    assert rs == [EntryAt(buf, p)] + tl;
    if i == 0 {
      RecordsEnds(buf, p + next);
      assert rs[0] == EntryAt(buf, p) && rs[1] == tl[0];
    } else {
      RecordLink(buf, p + next, i - 1);
      assert rs[i] == tl[i - 1] && rs[i + 1] == tl[i];
    }
  }

  /** The walk from `p` is the record at `p`, followed by the walk from the
      next record when NextEntryOffset is not 0. */
  lemma RecordsUnfold(buf: seq<Byte>, p: nat)
    requires WellFormedFrom(buf, p)
    ensures RecordFits(buf, p)
    ensures NextEntryOffset(buf, p) == 0 ==> Records(buf, p) == [EntryAt(buf, p)]
    ensures NextEntryOffset(buf, p) != 0 ==>
      WellFormedFrom(buf, p + NextEntryOffset(buf, p)) &&
      Records(buf, p) == [EntryAt(buf, p)] + Records(buf, p + NextEntryOffset(buf, p))
  {
  }

  lemma {:induction false} OffsetsIncrease(buf: seq<Byte>, p: nat, i: nat, j: nat)
    requires WellFormedFrom(buf, p) && i < j < |Records(buf, p)|
    ensures Records(buf, p)[i].offset < Records(buf, p)[j].offset
    decreases j - i
  {
    RecordAt(buf, p, i);
    if i + 1 < j {
      OffsetsIncrease(buf, p, i + 1, j);
    }
  }

  /** The walk from `p` visits at least one record, the first at `p`; each
      further record starts its predecessor's non-zero NextEntryOffset after
      it, so the offsets strictly increase; the last record has
      NextEntryOffset 0; and every record fits in the buffer and is the
      record decoded at its offset. */
  lemma RecordsChain(buf: seq<Byte>, p: nat)
    requires WellFormedFrom(buf, p)
    ensures var rs := Records(buf, p);
      && |rs| >= 1
      && rs[0].offset == p
      && rs[|rs| - 1].next == 0
      && (forall i :: 0 <= i < |rs| - 1 ==> rs[i].next != 0 && rs[i + 1].offset == rs[i].offset + rs[i].next)
      && (forall i :: 0 <= i < |rs| ==> RecordFits(buf, rs[i].offset) && rs[i] == EntryAt(buf, rs[i].offset))
      && (forall i, j :: 0 <= i < j < |rs| ==> rs[i].offset < rs[j].offset)
  {
    var rs := Records(buf, p);
    RecordsEnds(buf, p);
    forall i | 0 <= i < |rs|
      ensures RecordFits(buf, rs[i].offset) && rs[i] == EntryAt(buf, rs[i].offset)
    {
      RecordAt(buf, p, i);
    }
    forall i | 0 <= i < |rs| - 1
      ensures rs[i].next != 0 && rs[i + 1].offset == rs[i].offset + rs[i].next
    {
      RecordAt(buf, p, i);
    }
    forall i, j | 0 <= i < j < |rs|
      ensures rs[i].offset < rs[j].offset
    {
      OffsetsIncrease(buf, p, i, j);
    }
  }

  /** Bytes after a well-formed chain do not matter: the walk decodes the
      same records whatever follows. */
  lemma {:induction false} WellFormedExtends(buf: seq<Byte>, tail: seq<Byte>, p: nat)
    requires WellFormedFrom(buf, p)
    ensures WellFormedFrom(buf + tail, p)
    ensures Records(buf + tail, p) == Records(buf, p)
    decreases |buf| - p
  {
    var ext := buf + tail;
    assert ext[p..p + HeaderSize] == buf[p..p + HeaderSize];
    assert U32At(ext, p) == U32At(buf, p);
    assert U32At(ext, p + 4) == U32At(buf, p + 4);
    assert U32At(ext, p + 8) == U32At(buf, p + 8);
    var n := FileNameLength(buf, p) / 2;
    UnitsAtExtends(buf, tail, p + HeaderSize, n);
    assert EntryAt(ext, p) == EntryAt(buf, p);
    if NextEntryOffset(buf, p) != 0 {
      WellFormedExtends(buf, tail, p + NextEntryOffset(buf, p));
    }
  }

  /** The buffer after a read that wrote `bytes` at its start: the OS writes
      bytesReturned bytes and the rest keeps what an earlier read left. */
  function Overlay(buf: seq<Byte>, bytes: seq<Byte>): (r: seq<Byte>)
    requires |bytes| <= |buf|
    ensures |r| == |buf|
    ensures r[..|bytes|] == bytes
  {
    bytes + buf[|bytes|..]
  }

  /** When the bytes a read delivered hold a well-formed chain, the walk over
      the whole buffer decodes exactly those records, whatever stale bytes
      an earlier read left after them. */
  lemma DeliveredChainDecodes(buf: seq<Byte>, bytes: seq<Byte>)
    requires |bytes| <= |buf| && WellFormedFrom(bytes, 0)
    ensures WellFormedFrom(Overlay(buf, bytes), 0)
    ensures Records(Overlay(buf, bytes), 0) == Records(bytes, 0)
  {
    WellFormedExtends(bytes, buf[|bytes|..], 0);
  }

  // ---- Reading the fields out of the buffer array ----

  /** Reads the DWORD at byte `i`, as `info->NextEntryOffset` and friends do. */
  method ReadDword(buffer: array<Byte>, i: nat) returns (x: nat)
    requires i + 4 <= buffer.Length
    ensures x == U32At(buffer[..], i)
  {
    x := (buffer[i] as int) + 0x100 * ((buffer[i + 1] as int) + 0x100 * ((buffer[i + 2] as int) + 0x100 * (buffer[i + 3] as int)));
  }

  /** wstring(info->FileName, n): copies `n` UTF-16 units from byte `start`. */
  method ReadName(buffer: array<Byte>, start: nat, n: nat) returns (name: WString)
    requires start + 2 * n <= buffer.Length
    ensures name == UnitsAt(buffer[..], start, n)
  {
    name := [];
    var k := 0;
    while k < n
      invariant k <= n
      invariant name == UnitsAt(buffer[..], start, k)
    {
      var unit := ((buffer[start + 2 * k] as int) + 0x100 * (buffer[start + 2 * k + 1] as int)) as WChar;
      name := name + [unit];
      k := k + 1;
    }
  }

  /** Decodes the record at `p`: the cast of `p` to FILE_NOTIFY_INFORMATION*
      and the construction of its name. */
  method ReadEntry(buffer: array<Byte>, p: nat) returns (e: Entry)
    requires RecordFits(buffer[..], p)
    ensures e == EntryAt(buffer[..], p)
  {
    var next := ReadDword(buffer, p);
    var action := ReadDword(buffer, p + 4);
    var nameLength := ReadDword(buffer, p + 8);
    var name := ReadName(buffer, p + HeaderSize, nameLength / 2);
    e := Entry(p, next, action, name);
  }

  // ---- Encoding, the decoder's inverse ----

  /** A change as the OS reports it: its Action and the changed file's name. */
  datatype Change = Change(action: nat, name: WString)

  function Changes(rs: seq<Entry>): (cs: seq<Change>)
    ensures |cs| == |rs|
  {
    if rs == [] then [] else [Change(rs[0].action, rs[0].name)] + Changes(rs[1..])
  }

  function LE32(x: nat): (r: seq<Byte>)
    requires x < DwordLimit
    ensures |r| == 4
  {
    var q1 := x / 0x100;
    var q2 := q1 / 0x100;
    var q3 := q2 / 0x100;
    [(x % 0x100) as Byte, (q1 % 0x100) as Byte, (q2 % 0x100) as Byte, q3 as Byte]
  }

  function EncodeName(name: WString): (r: seq<Byte>)
    ensures |r| == 2 * |name|
    decreases |name|
  {
    if name == [] then []
    else
      var c := name[|name| - 1] as int;
      EncodeName(name[..|name| - 1]) + [(c % 0x100) as Byte, (c / 0x100) as Byte]
  }

  /** A change whose header fields fit their DWORDs. */
  predicate Encodable(c: Change)
  {
    c.action < DwordLimit && HeaderSize + 2 * |c.name| < DwordLimit
  }

  /** The bytes of one record: the last record of a batch has NextEntryOffset 0,
      the others point just past their own name. */
  function EncodeChange(c: Change, last: bool): (r: seq<Byte>)
    requires Encodable(c)
    ensures |r| == HeaderSize + 2 * |c.name|
  {
    LE32(if last then 0 else HeaderSize + 2 * |c.name|) + LE32(c.action) + LE32(2 * |c.name|) + EncodeName(c.name)
  }

  function Encode(cs: seq<Change>): seq<Byte>
    requires forall i :: 0 <= i < |cs| ==> Encodable(cs[i])
  {
    if cs == [] then [] else EncodeChange(cs[0], |cs| == 1) + Encode(cs[1..])
  }

  lemma LE32Decodes(buf: seq<Byte>, i: nat, x: nat)
    requires x < DwordLimit && i + 4 <= |buf| && buf[i..i + 4] == LE32(x)
    ensures U32At(buf, i) == x
  {
    var q1 := x / 0x100;
    var q2 := q1 / 0x100;
    var q3 := q2 / 0x100;
    assert buf[i] == LE32(x)[0] && buf[i + 1] == LE32(x)[1];
    assert buf[i + 2] == LE32(x)[2] && buf[i + 3] == LE32(x)[3];
    assert x == x % 0x100 + 0x100 * q1;
    assert q1 == q1 % 0x100 + 0x100 * q2;
    assert q2 == q2 % 0x100 + 0x100 * q3;
  }

  lemma {:induction false} NameDecodes(buf: seq<Byte>, start: nat, name: WString)
    requires start + 2 * |name| <= |buf| && buf[start..start + 2 * |name|] == EncodeName(name)
    ensures UnitsAt(buf, start, |name|) == name
    decreases |name|
  {
    var n := |name|;
    if n > 0 {
      var init := name[..n - 1];
      var c := name[n - 1] as int;
      assert EncodeName(name) == EncodeName(init) + [(c % 0x100) as Byte, (c / 0x100) as Byte];
      assert buf[start..start + 2 * (n - 1)] == buf[start..start + 2 * n][..2 * (n - 1)];
      NameDecodes(buf, start, init);
      assert buf[start + 2 * (n - 1)] == buf[start..start + 2 * n][2 * (n - 1)];
      assert buf[start + 2 * (n - 1) + 1] == buf[start..start + 2 * n][2 * (n - 1) + 1];
      assert U16At(buf, start + 2 * (n - 1)) == name[n - 1];
      assert UnitsAt(buf, start, n) == UnitsAt(buf, start, n - 1) + [name[n - 1]];
    }
  }

  /** Where the three header fields and the name sit in an encoded record. */
  lemma EncodeChangeFields(c: Change, last: bool)
    requires Encodable(c)
    ensures var bytes := EncodeChange(c, last);
      && bytes[..4] == LE32(if last then 0 else HeaderSize + 2 * |c.name|)
      && bytes[4..8] == LE32(c.action)
      && bytes[8..12] == LE32(2 * |c.name|)
      && bytes[12..] == EncodeName(c.name)
  {
    var h0, h1, h2, nm := LE32(if last then 0 else HeaderSize + 2 * |c.name|), LE32(c.action), LE32(2 * |c.name|), EncodeName(c.name);
    var bytes := EncodeChange(c, last);
    assert bytes == h0 + h1 + h2 + nm;
    assert bytes[..4] == h0 by { assert bytes == h0 + (h1 + h2 + nm); }
    assert bytes[4..8] == h1 by { assert bytes == h0 + h1 + (h2 + nm); }
    assert bytes[8..12] == h2 by { assert bytes == (h0 + h1) + h2 + nm; }
  }

  /** The bytes of `buf` from `p + i` to `p + j` are those of its slice from `p`. */
  lemma SliceOfSlice(buf: seq<Byte>, p: nat, len: nat, i: nat, j: nat)
    requires p + len <= |buf| && i <= j <= len
    ensures buf[p..p + len][i..j] == buf[p + i..p + j]
  {
    var a, b := buf[p..p + len][i..j], buf[p + i..p + j];
    assert |a| == |b| == j - i;
    forall k | 0 <= k < j - i
      ensures a[k] == b[k]
    {
      assert a[k] == buf[p + i + k];
    }
  }

  /** Where the fields of a record encoded at byte `p` sit in the buffer. */
  lemma EncodedFields(buf: seq<Byte>, p: nat, c: Change, last: bool)
    requires Encodable(c)
    requires p + HeaderSize + 2 * |c.name| <= |buf| && buf[p..p + HeaderSize + 2 * |c.name|] == EncodeChange(c, last)
    ensures buf[p..p + 4] == LE32(if last then 0 else HeaderSize + 2 * |c.name|)
    ensures buf[p + 4..p + 8] == LE32(c.action)
    ensures buf[p + 8..p + 12] == LE32(2 * |c.name|)
    ensures buf[p + 12..p + 12 + 2 * |c.name|] == EncodeName(c.name)
  {
    var len := HeaderSize + 2 * |c.name|;
    EncodeChangeFields(c, last);
    SliceOfSlice(buf, p, len, 0, 4);
    SliceOfSlice(buf, p, len, 4, 8);
    SliceOfSlice(buf, p, len, 8, 12);
    SliceOfSlice(buf, p, len, 12, len);
  }

  /** Three encoded DWORDs at `p` read back as the header fields. */
  lemma HeaderDecodes(buf: seq<Byte>, p: nat, next: nat, action: nat, nameLength: nat)
    requires next < DwordLimit && action < DwordLimit && nameLength < DwordLimit
    requires p + HeaderSize <= |buf|
    requires buf[p..p + 4] == LE32(next) && buf[p + 4..p + 8] == LE32(action) && buf[p + 8..p + 12] == LE32(nameLength)
    ensures NextEntryOffset(buf, p) == next && Action(buf, p) == action && FileNameLength(buf, p) == nameLength
  {
    LE32Decodes(buf, p, next);
    LE32Decodes(buf, p + 4, action);
    LE32Decodes(buf, p + 8, nameLength);
  }

  /** A header holding `next`, `action` and the byte length of `name`,
      followed by the units of `name`, decodes to that record. */
  lemma FieldsDecode(buf: seq<Byte>, p: nat, next: nat, action: nat, name: WString)
    requires p + HeaderSize + 2 * |name| <= |buf|
    requires NextEntryOffset(buf, p) == next && Action(buf, p) == action && FileNameLength(buf, p) == 2 * |name|
    requires UnitsAt(buf, p + HeaderSize, |name|) == name
    ensures RecordFits(buf, p)
    ensures EntryAt(buf, p) == Entry(p, next, action, name)
  {
    assert FileNameLength(buf, p) / 2 == |name|;
  }

  /** A record encoded at byte `p` decodes to its change, with
      NextEntryOffset 0 exactly when it is the last one. */
  lemma EntryDecodes(buf: seq<Byte>, p: nat, c: Change, last: bool)
    requires Encodable(c)
    requires p + HeaderSize + 2 * |c.name| <= |buf| && buf[p..p + HeaderSize + 2 * |c.name|] == EncodeChange(c, last)
    ensures RecordFits(buf, p)
    ensures NextEntryOffset(buf, p) == if last then 0 else HeaderSize + 2 * |c.name|
    ensures EntryAt(buf, p) == Entry(p, if last then 0 else HeaderSize + 2 * |c.name|, c.action, c.name)
  {
    var next := if last then 0 else HeaderSize + 2 * |c.name|;
    EncodedFields(buf, p, c, last);
    HeaderDecodes(buf, p, next, c.action, 2 * |c.name|);
    NameDecodes(buf, p + HeaderSize, c.name);
    FieldsDecode(buf, p, next, c.action, c.name);
  }

  lemma ChangesCons(e: Entry, rs: seq<Entry>)
    ensures Changes([e] + rs) == [Change(e.action, e.name)] + Changes(rs)
  {
    assert ([e] + rs)[1..] == rs;
  }

  /** A sequence `whole == head + rest` stored at `p` is `head` at `p`
      followed by `rest` at `q == p + |head|`. */
  lemma SliceSplit(buf: seq<Byte>, p: nat, whole: seq<Byte>, head: seq<Byte>, rest: seq<Byte>, q: nat)
    requires whole == head + rest && q == p + |head|
    requires p + |whole| <= |buf| && buf[p..p + |whole|] == whole
    ensures q + |rest| <= |buf| && buf[p..q] == head && buf[q..q + |rest|] == rest
  {
    SliceOfSlice(buf, p, |whole|, 0, |head|);
    SliceOfSlice(buf, p, |whole|, |head|, |whole|);
    assert whole[..|head|] == head && whole[|head|..] == rest;
  }

  /** A batch of one or more changes is its first record followed by the rest. */
  lemma EncodeHead(cs: seq<Change>)
    requires |cs| > 0 && forall i :: 0 <= i < |cs| ==> Encodable(cs[i])
    ensures Encode(cs) == EncodeChange(cs[0], |cs| == 1) + Encode(cs[1..])
    ensures |EncodeChange(cs[0], |cs| == 1)| == HeaderSize + 2 * |cs[0].name|
  {
  }

  /** The last record of an encoded batch is the whole walk from its offset. */
  lemma DecodeLast(buf: seq<Byte>, p: nat, c: Change)
    requires Encodable(c)
    requires p + HeaderSize + 2 * |c.name| <= |buf| && buf[p..p + HeaderSize + 2 * |c.name|] == EncodeChange(c, true)
    ensures WellFormedFrom(buf, p)
    ensures Changes(Records(buf, p)) == [c]
  {
    EntryDecodes(buf, p, c, true);
    ChainStep(buf, p);
    ChangesCons(EntryAt(buf, p), []);
  }

  /** A record of an encoded batch that is not the last links to the next
      record right after its name. */
  lemma DecodeLink(buf: seq<Byte>, p: nat, c: Change, q: nat, rest: seq<Change>)
    requires Encodable(c) && q == p + HeaderSize + 2 * |c.name|
    requires q <= |buf| && buf[p..q] == EncodeChange(c, false)
    requires WellFormedFrom(buf, q) && Changes(Records(buf, q)) == rest
    ensures WellFormedFrom(buf, p)
    ensures Changes(Records(buf, p)) == [c] + rest
  {
    EntryDecodes(buf, p, c, false);
    ChainStep(buf, p);
    ChangesCons(EntryAt(buf, p), Records(buf, q));
  }

  /** A batch encoded at byte `p` of a buffer is well formed from `p` and
      decodes to exactly its changes, in order. */
  lemma {:induction false} DecodeEncodeAt(buf: seq<Byte>, p: nat, cs: seq<Change>)
    requires |cs| > 0 && forall i :: 0 <= i < |cs| ==> Encodable(cs[i])
    requires p + |Encode(cs)| <= |buf| && buf[p..p + |Encode(cs)|] == Encode(cs)
    ensures WellFormedFrom(buf, p)
    ensures Changes(Records(buf, p)) == cs
    decreases |cs|
  {
    EncodeHead(cs);
    SliceSplit(buf, p, Encode(cs), EncodeChange(cs[0], |cs| == 1), Encode(cs[1..]), p + HeaderSize + 2 * |cs[0].name|);
    if |cs| == 1 {
      DecodeLast(buf, p, cs[0]);
      assert cs == [cs[0]];
    } else {
      var q := p + HeaderSize + 2 * |cs[0].name|;
      assert buf[p..q] == EncodeChange(cs[0], false);
      DecodeEncodeAt(buf, q, cs[1..]);
      DecodeLink(buf, p, cs[0], q, cs[1..]);
      assert cs == [cs[0]] + cs[1..];
    }
  }

  /** Round trip: a batch encoded from one or more changes, wherever it sits
      and whatever follows it, is well formed and decodes to exactly those
      changes, in order. */
  lemma DecodeEncode(pre: seq<Byte>, cs: seq<Change>, tail: seq<Byte>)
    requires |cs| > 0 && forall i :: 0 <= i < |cs| ==> Encodable(cs[i])
    ensures WellFormedFrom(pre + Encode(cs) + tail, |pre|)
    ensures Changes(Records(pre + Encode(cs) + tail, |pre|)) == cs
  {
    var buf := pre + Encode(cs) + tail;
    assert buf[|pre|..|pre| + |Encode(cs)|] == Encode(cs);
    DecodeEncodeAt(buf, |pre|, cs);
  }
}
