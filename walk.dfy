/** The walk main.cpp Run makes over one batch of records: from the first
    record, it reads each record and follows its NextEntryOffset, but it may
    stop early at a record, when handling that record ends Run. */
module Walk {
  import opened Win32
  import opened Notify

  /** Whether a walk stops after record `e`: its NextEntryOffset is 0, or
      `halt` says the reader stops there. */
  predicate Stops(e: Entry, halt: Entry -> bool)
  {
    e.next == 0 || halt(e)
  }

  /** The records a walk from byte `p` reads lie inside the buffer. The walk
      reads the next record only after one at which it does not stop, so
      nothing is asked of the bytes after a record at which `halt` holds. */
  predicate WalkFits(buf: seq<Byte>, p: nat, halt: Entry -> bool)
    decreases |buf| - p
  {
    RecordFits(buf, p) &&
    (!Stops(EntryAt(buf, p), halt) ==> WalkFits(buf, p + NextEntryOffset(buf, p), halt))
  }

  /** The records a walk from byte `p` reads, in order: up to the one whose
      NextEntryOffset is 0, or up to the first at which `halt` holds. */
  function Walked(buf: seq<Byte>, p: nat, halt: Entry -> bool): seq<Entry>
    requires WalkFits(buf, p, halt)
    decreases |buf| - p
  {
    [EntryAt(buf, p)] +
      (if Stops(EntryAt(buf, p), halt) then []
       else Walked(buf, p + NextEntryOffset(buf, p), halt))
  }

  /** The walk from `p` is the record at `p`, followed by the walk from the
      next record unless it stops at this one. */
  lemma WalkUnfold(buf: seq<Byte>, p: nat, halt: Entry -> bool)
    requires WalkFits(buf, p, halt)
    ensures RecordFits(buf, p)
    ensures Stops(EntryAt(buf, p), halt) ==> Walked(buf, p, halt) == [EntryAt(buf, p)]
    ensures !Stops(EntryAt(buf, p), halt) ==>
      WalkFits(buf, p + NextEntryOffset(buf, p), halt) &&
      Walked(buf, p, halt) == [EntryAt(buf, p)] + Walked(buf, p + NextEntryOffset(buf, p), halt)
  {
  }

  /** A walk reads at least one record, the first at `p`, and stops at the
      last one it reads. */
  lemma {:induction false} WalkedEnds(buf: seq<Byte>, p: nat, halt: Entry -> bool)
    requires WalkFits(buf, p, halt)
    ensures var ws := Walked(buf, p, halt);
      |ws| >= 1 && ws[0] == EntryAt(buf, p) && Stops(ws[|ws| - 1], halt)
    decreases |buf| - p
  {
    if !Stops(EntryAt(buf, p), halt) {
      WalkedEnds(buf, p + NextEntryOffset(buf, p), halt);
    }
  }

  /** The `k`-th record read lies at or after `p`, fits, and is the record
      decoded at its own offset. */
  lemma {:induction false} WalkedDecoded(buf: seq<Byte>, p: nat, halt: Entry -> bool, k: nat)
    requires WalkFits(buf, p, halt) && k < |Walked(buf, p, halt)|
    ensures var w := Walked(buf, p, halt)[k];
      p <= w.offset && RecordFits(buf, w.offset) && w == EntryAt(buf, w.offset)
    decreases |buf| - p
  {
    WalkUnfold(buf, p, halt);
    var e := EntryAt(buf, p);
    var ws := Walked(buf, p, halt);
    if k == 0 {
      assert ws[0] == e;
    } else {
      assert !Stops(e, halt);
      var next := NextEntryOffset(buf, p);
      var tl := Walked(buf, p + next, halt);
      assert ws == [e] + tl;
      WalkedDecoded(buf, p + next, halt, k - 1);
      assert ws[k] == tl[k - 1];
    }
  }

  /** A walk goes on past its `k`-th record only when it does not stop there,
      and the next record starts NextEntryOffset bytes later. */
  lemma {:induction false} WalkedLink(buf: seq<Byte>, p: nat, halt: Entry -> bool, k: nat)
    requires WalkFits(buf, p, halt) && k + 1 < |Walked(buf, p, halt)|
    ensures var ws := Walked(buf, p, halt);
      !Stops(ws[k], halt) && ws[k + 1].offset == ws[k].offset + ws[k].next
    decreases |buf| - p
  {
    WalkUnfold(buf, p, halt);
    var e := EntryAt(buf, p);
    var ws := Walked(buf, p, halt);
    assert !Stops(e, halt);
    var next := NextEntryOffset(buf, p);
    assert WalkFits(buf, p + next, halt);
    var tl := Walked(buf, p + next, halt);
    assert ws == [e] + tl;
    assert |ws| == 1 + |tl|;
    if k == 0 {
      WalkedEnds(buf, p + next, halt);
      assert e.offset == p && e.next == next && tl[0].offset == p + next;
      assert ws[0] == e && ws[1] == tl[0];
    } else {
      var j := k - 1;
      WalkedLink(buf, p + next, halt, j);
      var here, after := tl[j], tl[j + 1];
      assert !Stops(here, halt) && after.offset == here.offset + here.next;
      assert ws[k] == here && ws[k + 1] == after;
    }
  }

  /** The `k`-th record read: where it lies, how the walk goes on from it,
      and that the walk stops at it when it is the last. */
  lemma WalkedAt(buf: seq<Byte>, p: nat, halt: Entry -> bool, k: nat)
    requires WalkFits(buf, p, halt) && k < |Walked(buf, p, halt)|
    ensures var ws := Walked(buf, p, halt);
      && p <= ws[k].offset && RecordFits(buf, ws[k].offset) && ws[k] == EntryAt(buf, ws[k].offset)
      && (k + 1 < |ws| ==> !Stops(ws[k], halt) && ws[k + 1].offset == ws[k].offset + ws[k].next)
      && (k + 1 == |ws| ==> Stops(ws[k], halt))
  {
    WalkedDecoded(buf, p, halt, k);
    if k + 1 < |Walked(buf, p, halt)| {
      WalkedLink(buf, p, halt, k);
    } else {
      WalkedEnds(buf, p, halt);
    }
  }

  /** On a well-formed chain a walk reads a prefix of its records: all of
      them, or those up to the first at which `halt` holds. */
  lemma {:induction false} WellFormedWalks(buf: seq<Byte>, p: nat, halt: Entry -> bool)
    requires WellFormedFrom(buf, p)
    ensures WalkFits(buf, p, halt)
    ensures var ws, rs := Walked(buf, p, halt), Records(buf, p);
      && |ws| <= |rs| && ws == rs[..|ws|]
      && (|ws| < |rs| ==> halt(ws[|ws| - 1]))
    decreases |buf| - p
  {
    RecordsUnfold(buf, p);
    var next := NextEntryOffset(buf, p);
    var e := EntryAt(buf, p);
    if next != 0 {
      WellFormedWalks(buf, p + next, halt);
    }
    WalkUnfold(buf, p, halt);
    var ws, rs := Walked(buf, p, halt), Records(buf, p);
    if next == 0 {
      assert ws == [e] && rs == [e];
      assert rs[..1] == rs;
    } else {
      var tl := Records(buf, p + next);
      assert rs == [e] + tl;
      if Stops(e, halt) {
        assert ws == [e] && rs[..1] == [e];
      } else {
        var wt := Walked(buf, p + next, halt);
        assert ws == [e] + wt;
        assert rs[..|ws|] == [e] + tl[..|wt|];
        assert ws[|ws| - 1] == wt[|wt| - 1];
      }
    }
  }
}
