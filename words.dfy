/**
 * Bytes and 16-bit registers. The device exposes 16-bit registers and the
 * transport carries them as big-endian byte pairs. Both are bounded integers;
 * the source's shifts and masks on them are written out arithmetically:
 * `w >> 8` is `w / 256`, `w & 0xFF` is `w % 256`, and `hi<<8 | lo` of two
 * bytes is `hi * 256 + lo`, as the two bytes occupy disjoint bits.
 */
module Words {

  type Byte = x: int | 0 <= x < 0x100
  type Word = x: int | 0 <= x < 0x1_0000

  /** Number of addressable registers (uint16 register numbers). */
  const AddressSpaceSize: nat := 0x1_0000

  /** uint16 `r + 1`, which wraps from 65535 to 0. */
  function NextRegister(r: Word): (n: Word)
    ensures n != r
    ensures r < 0xFFFF ==> n == r + 1
    ensures r == 0xFFFF ==> n == 0
  {
    (r + 1) % 0x1_0000
  }

  /** The more significant byte of a register, `w >> 8`. */
  function HighByte(w: Word): Byte {
    w / 0x100
  }

  /** The less significant byte of a register, `w & 0xFF`. */
  function LowByte(w: Word): Byte {
    w % 0x100
  }

  /** The big-endian register made of two bytes, `uint16(hi)<<8 | uint16(lo)`. */
  function JoinBytes(hi: Byte, lo: Byte): Word {
    hi * 0x100 + lo
  }

  /** A register is rebuilt from its two bytes. */
  lemma JoinSplit(w: Word)
    ensures JoinBytes(HighByte(w), LowByte(w)) == w
  {
  }

  /** The two bytes of a joined register are the bytes it was joined from. */
  lemma SplitJoin(hi: Byte, lo: Byte)
    ensures HighByte(JoinBytes(hi, lo)) == hi && LowByte(JoinBytes(hi, lo)) == lo
  {
  }

  /** The bytes a block of registers travels as: each register high byte first. */
  function WordsToBytes(ws: seq<Word>): (bs: seq<Byte>)
    ensures |bs| == 2 * |ws|
  {
    seq(2 * |ws|, k requires 0 <= k < 2 * |ws| =>
      if k % 2 == 0 then HighByte(ws[k / 2]) else LowByte(ws[k / 2]))
  }

  /** Register `i` of a block travels as bytes `2i` (high) and `2i+1` (low). */
  lemma WordsToBytesAt(ws: seq<Word>, i: nat)
    requires i < |ws|
    ensures WordsToBytes(ws)[2 * i] == HighByte(ws[i])
    ensures WordsToBytes(ws)[2 * i + 1] == LowByte(ws[i])
  {
    assert (2 * i) / 2 == i && (2 * i + 1) / 2 == i && (2 * i + 1) % 2 == 1;
  }

  /** The registers an even-length big-endian byte string stands for. */
  function BytesToWords(bs: seq<Byte>): (ws: seq<Word>)
    requires |bs| % 2 == 0
    ensures 2 * |ws| == |bs|
  {
    seq(|bs| / 2, i requires 0 <= i < |bs| / 2 => JoinBytes(bs[2 * i], bs[2 * i + 1]))
  }

  lemma BytesOfWords(ws: seq<Word>)
    ensures BytesToWords(WordsToBytes(ws)) == ws
  {
    var bs := WordsToBytes(ws);
    forall i | 0 <= i < |ws|
      ensures BytesToWords(bs)[i] == ws[i]
    {
      WordsToBytesAt(ws, i);
      JoinSplit(ws[i]);
    }
  }

  lemma WordsOfBytes(bs: seq<Byte>)
    requires |bs| % 2 == 0
    ensures WordsToBytes(BytesToWords(bs)) == bs
  {
    var ws := BytesToWords(bs);
    forall k | 0 <= k < |bs|
      ensures WordsToBytes(ws)[k] == bs[k]
    {
      var i := k / 2;
      WordsToBytesAt(ws, i);
      SplitJoin(bs[2 * i], bs[2 * i + 1]);
      assert k == 2 * i || k == 2 * i + 1;
    }
  }

  /** A byte range of the transported block is the transport of the matching register range. */
  lemma WordsToBytesSlice(ws: seq<Word>, i: nat, j: nat)
    requires i <= j <= |ws|
    ensures WordsToBytes(ws)[2 * i .. 2 * j] == WordsToBytes(ws[i..j])
  {
    var bs := WordsToBytes(ws);
    var sub := WordsToBytes(ws[i..j]);
    forall k | 0 <= k < 2 * (j - i)
      ensures bs[2 * i + k] == sub[k]
    {
      SliceByte(ws, i, j, k);
    }
    assert bs[2 * i .. 2 * j] == sub;
  }

  lemma SliceByte(ws: seq<Word>, i: nat, j: nat, k: nat)
    requires i <= j <= |ws| && k < 2 * (j - i)
    ensures WordsToBytes(ws)[2 * i + k] == WordsToBytes(ws[i..j])[k]
  {
    var m := k / 2;
    assert 0 <= m < j - i;
    assert ws[i..j][m] == ws[i + m];
    WordsToBytesAt(ws[i..j], m);
    WordsToBytesAt(ws, i + m);
    if k % 2 == 0 {
      assert k == 2 * m;
    } else {
      assert k == 2 * m + 1;
    }
  }
}
