/** Bytes of little-endian 64-bit words and of 4 KiB pages of words. */
module Bytes {
  import opened Paging

  type Byte = b: nat | b < 256

  function Pow256(n: nat): (r: nat)
    ensures r >= 1
  {
    if n == 0 then 1 else 256 * Pow256(n - 1)
  }

  function ByteOf(w: nat, k: nat): Byte {
    if k == 0 then w % 256 else ByteOf(w / 256, k - 1)
  }

  lemma {:induction false} ByteOfZero(k: nat)
    ensures ByteOf(0, k) == 0
  {
    if k > 0 {
      ByteOfZero(k - 1);
    }
  }

  function WithByte(w: nat, k: nat, b: Byte): nat {
    if k == 0 then w / 256 * 256 + b else 256 * WithByte(w / 256, k - 1, b) + w % 256
  }

  lemma {:induction false} WithByteAt(w: nat, k: nat, b: Byte, j: nat)
    ensures ByteOf(WithByte(w, k, b), j) == if j == k then b else ByteOf(w, j)
  {
    if k == 0 {
      assert (w / 256 * 256 + b) / 256 == w / 256;
    } else {
      var r := WithByte(w / 256, k - 1, b);
      assert (256 * r + w % 256) / 256 == r;
      if j > 0 {
        WithByteAt(w / 256, k - 1, b, j - 1);
      }
    }
  }

  lemma {:induction false} WithByteBound(w: nat, k: nat, b: Byte, n: nat)
    requires k < n && w < Pow256(n)
    ensures WithByte(w, k, b) < Pow256(n)
  {
    if k > 0 {
      WithByteBound(w / 256, k - 1, b, n - 1);
    }
  }

  /** The byte at an offset of a page. */
  function PageByte(row: seq<Word>, off: nat): Byte
    requires |row| == 512 && off < 4096
  {
    ByteOf(row[off / 8], off % 8)
  }

  function PutByte(row: seq<Word>, off: nat, b: Byte): (r: seq<Word>)
    requires |row| == 512 && off < 4096
    ensures |r| == 512
    ensures forall o :: 0 <= o < 4096 ==> PageByte(r, o) == if o == off then b else PageByte(row, o)
  {
    assert Pow256(4) == 0x1_0000_0000 && Pow256(8) == 0x1_0000_0000_0000_0000;
    WithByteBound(row[off / 8], off % 8, b, 8);
    var w: Word := WithByte(row[off / 8], off % 8, b);
    PutByteReads(row, off, b, w);
    row[off / 8 := w]
  }

  lemma PutByteReads(row: seq<Word>, off: nat, b: Byte, w: Word)
    requires |row| == 512 && off < 4096 && w == WithByte(row[off / 8], off % 8, b)
    ensures forall o :: 0 <= o < 4096 ==>
      ByteOf(row[off / 8 := w][o / 8], o % 8) == if o == off then b else PageByte(row, o)
  {
    hide ByteOf, WithByte;
    forall o | 0 <= o < 4096
      ensures ByteOf(row[off / 8 := w][o / 8], o % 8) == if o == off then b else PageByte(row, o)
    {
      if o / 8 == off / 8 {
        WithByteAt(row[off / 8], off % 8, b, o % 8);
      }
    }
  }
}
