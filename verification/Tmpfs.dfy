/** One-page files of the tmpfs in vfs.cpp, against a byte sequence capped at a page. */
module Tmpfs {
  import opened Options
  import opened Bytes

  /** A file is one page. */
  const FILE_LIMIT: nat := 4096

  function Max(a: nat, b: nat): nat { if a < b then b else a }
  function Min(a: nat, b: nat): nat { if a < b then a else b }

  // ---------------------------------------------------------------------------
  // The byte sequence

  /** How many bytes a write at this offset stores, and where it ends. */
  function Stored(offset: nat, n: nat): nat {
    if offset + n > FILE_LIMIT then (if offset < FILE_LIMIT then FILE_LIMIT - offset else 0) else n
  }

  function End(offset: nat, n: nat): nat {
    Min(offset + n, FILE_LIMIT)
  }

  /** The contents after a write: what was stored, else what was there, else zero. */
  function Written(c: seq<Byte>, offset: nat, b: seq<Byte>): seq<Byte> {
    seq(Max(|c|, End(offset, |b|)), i requires 0 <= i < Max(|c|, End(offset, |b|)) =>
      if offset <= i < offset + Stored(offset, |b|) then b[i - offset] else if i < |c| then c[i] else 0)
  }

  function Slice(c: seq<Byte>, offset: nat, n: nat): seq<Byte> {
    if offset >= |c| then [] else c[offset..Min(offset + n, |c|)]
  }

  /** A read of the range just written returns what was stored. */
  lemma ReadBack(c: seq<Byte>, offset: nat, b: seq<Byte>)
    requires |c| <= FILE_LIMIT
    ensures |Written(c, offset, b)| <= FILE_LIMIT
    ensures Slice(Written(c, offset, b), offset, Stored(offset, |b|)) == b[..Stored(offset, |b|)]
  {
    var w, n := Written(c, offset, b), Stored(offset, |b|);
    if n > 0 {
      assert |Slice(w, offset, n)| == n;
    }
  }

  datatype Write = Write(offset: nat, bytes: seq<Byte>)

  /** The contents after a sequence of writes to a new file, the last one last. */
  function Log(ws: seq<Write>): seq<Byte> {
    if ws == [] then [] else Written(Log(ws[..|ws| - 1]), ws[|ws| - 1].offset, ws[|ws| - 1].bytes)
  }

  predicate Covers(w: Write, i: nat) {
    w.offset <= i < w.offset + Stored(w.offset, |w.bytes|)
  }

  /** Write k is the last that covers byte i. */
  ghost predicate IsLast(ws: seq<Write>, i: nat, k: nat) {
    k < |ws| && Covers(ws[k], i) && forall m :: k < m < |ws| ==> !Covers(ws[m], i)
  }

  ghost predicate Uncovered(ws: seq<Write>, i: nat) {
    forall k :: 0 <= k < |ws| ==> !Covers(ws[k], i)
  }

  /** The length is the furthest any write reached. */
  ghost predicate LengthIsFurthest(ws: seq<Write>, n: nat) {
    && (forall k :: 0 <= k < |ws| ==> End(ws[k].offset, |ws[k].bytes|) <= n)
    && (n == 0 || exists k :: 0 <= k < |ws| && End(ws[k].offset, |ws[k].bytes|) == n)
  }

  /** Byte i is that of the last write that covers it; a byte no write covers is zero. */
  ghost predicate LastWriteWins(ws: seq<Write>, c: seq<Byte>) {
    && (forall i: nat, k: nat :: i < |c| && IsLast(ws, i, k) ==> c[i] == ws[k].bytes[i - ws[k].offset])
    && (forall i: nat :: i < |c| && Uncovered(ws, i) ==> c[i] == 0)
  }

  lemma {:induction false} LogLastWrite(ws: seq<Write>)
    ensures |Log(ws)| <= FILE_LIMIT && LengthIsFurthest(ws, |Log(ws)|) && LastWriteWins(ws, Log(ws))
  {
    if ws != [] {
      var n := |ws| - 1;
      var rest, w := ws[..n], ws[n];
      LogLastWrite(rest);
      AppendLength(rest, Log(rest), w);
      AppendBytes(rest, Log(rest), w);
      assert rest + [w] == ws;
    }
  }

  lemma AppendLength(rest: seq<Write>, c: seq<Byte>, w: Write)
    requires LengthIsFurthest(rest, |c|) && |c| <= FILE_LIMIT
    ensures |Written(c, w.offset, w.bytes)| <= FILE_LIMIT
    ensures LengthIsFurthest(rest + [w], |Written(c, w.offset, w.bytes)|)
  {
    var ws, n := rest + [w], |Written(c, w.offset, w.bytes)|;
    assert ws[|rest|] == w;
    if n == |c| > 0 {
      var k :| 0 <= k < |rest| && End(rest[k].offset, |rest[k].bytes|) == |c|;
      assert ws[k] == rest[k];
    }
  }

  lemma AppendBytes(rest: seq<Write>, c: seq<Byte>, w: Write)
    requires LengthIsFurthest(rest, |c|) && LastWriteWins(rest, c) && |c| <= FILE_LIMIT
    ensures LastWriteWins(rest + [w], Written(c, w.offset, w.bytes))
  {
    var ws, c' := rest + [w], Written(c, w.offset, w.bytes);
    forall i: nat, k: nat | i < |c'| && IsLast(ws, i, k)
      ensures c'[i] == ws[k].bytes[i - ws[k].offset]
    {
      if k < |rest| {
        LastEarlier(rest, w, i, k);
        assert End(rest[k].offset, |rest[k].bytes|) <= |c|;
      }
    }
    forall i: nat | i < |c'| && Uncovered(ws, i)
      ensures c'[i] == 0
    {
      UncoveredEarlier(rest, w, i);
    }
  }

  lemma LastEarlier(rest: seq<Write>, w: Write, i: nat, k: nat)
    requires k < |rest| && IsLast(rest + [w], i, k)
    ensures !Covers(w, i) && IsLast(rest, i, k) && (rest + [w])[k] == rest[k]
  {
    assert (rest + [w])[|rest|] == w;
    assert forall m :: k < m < |rest| ==> rest[m] == (rest + [w])[m];
  }

  lemma UncoveredEarlier(rest: seq<Write>, w: Write, i: nat)
    requires Uncovered(rest + [w], i)
    ensures !Covers(w, i) && Uncovered(rest, i)
  {
    assert (rest + [w])[|rest|] == w;
    assert forall m :: 0 <= m < |rest| ==> rest[m] == (rest + [w])[m];
  }

  // ---------------------------------------------------------------------------
  // The page and the memory after it

  /** A byte of memory, from the start of the page on, after the gap is cleared and the
      bytes are stored. */
  function ByteAfter(before: seq<Byte>, size: nat, offset: nat, src: seq<Byte>, i: nat): Byte
    requires i < |before|
  {
    if offset <= i < offset + Stored(offset, |src|) then src[i - offset]
    else if size <= i < offset then 0 else before[i]
  }

  function AfterWrite(before: seq<Byte>, size: nat, offset: nat, src: seq<Byte>): (after: seq<Byte>)
    ensures |after| == |before|
    ensures forall i :: 0 <= i < |before| ==> after[i] == ByteAfter(before, size, offset, src, i)
  {
    seq(|before|, i requires 0 <= i < |before| => ByteAfter(before, size, offset, src, i))
  }

  /** What that makes of the file. */
  lemma WrittenBy(before: seq<Byte>, size: nat, offset: nat, src: seq<Byte>)
    requires |before| >= FILE_LIMIT && size <= FILE_LIMIT
    ensures AfterWrite(before, size, offset, src)[..Max(size, End(offset, |src|))]
         == Written(before[..size], offset, src)
  {
    var a := AfterWrite(before, size, offset, src)[..Max(size, End(offset, |src|))];
    var b := Written(before[..size], offset, src);
    assert forall i :: 0 <= i < |a| ==> a[i] == b[i];
  }

  /** What follows the page in memory is as before. */
  ghost predicate RestKept(before: seq<Byte>, after: seq<Byte>) {
    |after| == |before| && forall i :: FILE_LIMIT <= i < |before| ==> after[i] == before[i]
  }

  /** Of given memory: exactly when the part of the gap beyond the page was zero already. */
  lemma RestKeptExactly(before: seq<Byte>, size: nat, offset: nat, src: seq<Byte>)
    requires size <= FILE_LIMIT && offset <= |before|
    ensures RestKept(before, AfterWrite(before, size, offset, src)) <==>
      forall i :: FILE_LIMIT <= i < offset ==> before[i] == 0
  {
    var after := AfterWrite(before, size, offset, src);
    forall i | FILE_LIMIT <= i < |before|
      ensures after[i] == if i < offset then 0 else before[i]
    {
    }
  }

  /** Whatever the memory holds: exactly when the offset is at most the page size, since
      the gap fill is not clipped. */
  lemma StaysInPage(length: nat, size: nat, offset: nat, src: seq<Byte>)
    requires size <= FILE_LIMIT && offset <= length
    ensures (forall before: seq<Byte> :: |before| == length ==> RestKept(before, AfterWrite(before, size, offset, src)))
       <==> offset <= FILE_LIMIT
  {
    hide RestKept, AfterWrite;
    if offset <= FILE_LIMIT {
      forall before: seq<Byte> | |before| == length
        ensures RestKept(before, AfterWrite(before, size, offset, src))
      {
        RestKeptExactly(before, size, offset, src);
      }
    } else {
      var ones: seq<Byte> := seq(length, i => 1);
      RestKeptExactly(ones, size, offset, src);
      assert ones[FILE_LIMIT] == 1;
    }
  }

  // ---------------------------------------------------------------------------
  // The file

  class TmpfsFile {
    var size: nat
    /** The page, and whatever follows it in memory. */
    var page: array?<Byte>

    ghost predicate Valid()
      reads this
    {
      && (page != null ==> page.Length >= FILE_LIMIT) && size <= FILE_LIMIT && (page == null ==> size == 0)
    }

    ghost function Contents(): seq<Byte>
      requires Valid()
      reads this, page
    {
      if page == null then [] else page[..size]
    }

    constructor ()
      ensures Valid() && Contents() == [] && page == null
    {
      size, page := 0, null;
    }

    /** The memory a write goes to: the file's page, or the one it is given. */
    function Target(spare: array?<Byte>): array?<Byte>
      reads this
    {
      if page != null then page else spare
    }

    /** tmpfs_file_write; spare is the page the allocator hands out, with whatever it and
        the memory after it hold, or null when there is none. A null buffer is None. The
        offset is one that memory has. */
    method FileWrite(offset: nat, buffer: Option<seq<Byte>>, spare: array?<Byte>) returns (n: nat)
      requires Valid() && (spare != null ==> spare.Length >= FILE_LIMIT && spare != page)
      requires Target(spare) != null ==> offset <= Target(spare).Length
      modifies this, page, spare
      ensures Valid() && page == if buffer.None? then old(page) else old(Target(spare))
      ensures buffer.None? || page == null ==> n == 0 && Contents() == old(Contents())
      ensures buffer.Some? && page != null ==>
        && n == Stored(offset, |buffer.value|) && Contents() == Written(old(Contents()), offset, buffer.value)
        && page[..] == AfterWrite(old(MemoryOf(Target(spare))), old(size), offset, buffer.value)
        && (offset <= FILE_LIMIT ==> RestKept(old(MemoryOf(Target(spare))), page[..]))
    {
      hide Written, RestKept;
      if buffer.None? {
        return 0;
      }
      var src := buffer.value;
      if page == null {
        if spare == null {
          return 0;
        }
        page := spare;
      }
      ghost var before, was := page[..], size;
      var end := offset + |src|;
      n := |src|;
      if end > FILE_LIMIT {
        end := FILE_LIMIT;
        n := if offset < FILE_LIMIT then FILE_LIMIT - offset else 0;
      }
      if offset > size {
        ClearGap(page, size, offset);
      }
      StoreBytes(page, offset, src, n);
      if end > size {
        size := end;
      }
      assert page[..] == AfterWrite(before, was, offset, src);
      WrittenBy(before, was, offset, src);
      RestKeptExactly(before, was, offset, src);
      assert page[..size] == page[..][..size] && before[..was] == old(Contents());
    }

    /** tmpfs_file_read, returning the bytes it copies. */
    method FileRead(offset: nat, n: nat) returns (out: seq<Byte>)
      requires Valid()
      ensures out == Slice(Contents(), offset, n)
    {
      out := [];
      if offset >= size {
        return;
      }
      var toRead := if n < size - offset then n else size - offset;
      var i := 0;
      while i < toRead
        invariant 0 <= i <= toRead && out == page[offset..offset + i]
      {
        out := out + [page[offset + i]];
        i := i + 1;
      }
      assert Min(offset + n, size) == offset + toRead;
      assert page[offset..offset + i] == page[..size][offset..offset + i];
    }
  }

  function MemoryOf(a: array?<Byte>): seq<Byte>
    reads a
  {
    if a == null then [] else a[..]
  }

  method ClearGap(page: array<Byte>, from: nat, to: nat)
    requires from <= to <= page.Length
    modifies page
    ensures forall i :: 0 <= i < page.Length ==> page[i] == if from <= i < to then 0 else old(page[i])
  {
    var i := from;
    while i < to
      invariant from <= i <= to
      invariant forall k :: 0 <= k < page.Length ==> page[k] == if from <= k < i then 0 else old(page[k])
    {
      page[i] := 0;
      i := i + 1;
    }
  }

  method StoreBytes(page: array<Byte>, offset: nat, src: seq<Byte>, n: nat)
    requires offset + n <= page.Length && n <= |src|
    modifies page
    ensures forall i :: 0 <= i < page.Length ==>
      page[i] == if offset <= i < offset + n then src[i - offset] else old(page[i])
  {
    var i := 0;
    while i < n
      invariant 0 <= i <= n
      invariant forall k :: 0 <= k < page.Length ==>
        page[k] == if offset <= k < offset + i then src[k - offset] else old(page[k])
    {
      page[offset + i] := src[i];
      i := i + 1;
    }
  }
}
