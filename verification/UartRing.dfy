/** The circular byte buffers shared by the JTAG UART interrupt routine and its
    read and write calls.  One slot is always kept empty, so equal indices mean
    an empty ring. */
module UartRing {
  const BUF_LEN: nat := 2048

  type Byte = b: int | 0 <= b < 256
  type Index = i: int | 0 <= i < BUF_LEN
  type Buffer = s: seq<Byte> | |s| == BUF_LEN witness seq(BUF_LEN, _ => 0)

  /** Index arithmetic modulo the buffer length. */
  function Advance(i: Index, n: nat): (r: Index)
    ensures i + n < BUF_LEN ==> r == i + n
    ensures BUF_LEN <= i + n < 2 * BUF_LEN ==> r == i + n - BUF_LEN
  {
    (i + n) % BUF_LEN
  }

  /** Number of bytes stored between the two indices. */
  function Used(out: Index, in_: Index): nat {
    if out <= in_ then in_ - out else in_ + BUF_LEN - out
  }

  predicate Full(out: Index, in_: Index) {
    Advance(in_, 1) == out
  }

  /** The stored bytes, oldest first. */
  function Contents(buf: Buffer, out: Index, in_: Index): seq<Byte> {
    if out <= in_ then buf[out..in_] else buf[out..] + buf[..in_]
  }

  /** The ring is refused a byte exactly when it stores one less than the buffer holds. */
  lemma FullMeansOneSlotLeft(buf: Buffer, out: Index, in_: Index)
    ensures |Contents(buf, out, in_)| == Used(out, in_) < BUF_LEN
    ensures Full(out, in_) <==> |Contents(buf, out, in_)| == BUF_LEN - 1
  {
  }

  /** Publishing n freshly copied bytes appends exactly those bytes. */
  lemma Publish(buf: Buffer, out: Index, in_: Index, n: nat)
    requires in_ + n <= BUF_LEN
    requires Used(out, in_) + n < BUF_LEN
    ensures Contents(buf, out, Advance(in_, n)) == Contents(buf, out, in_) + buf[in_..in_ + n]
    ensures Used(out, Advance(in_, n)) == Used(out, in_) + n
  {
    if in_ + n == BUF_LEN {
      assert Advance(in_, n) == 0;
      if n > 0 {
        assert out <= in_;
        assert buf[out..in_] + buf[in_..BUF_LEN] == buf[out..];
      }
    } else {
      assert Advance(in_, n) == in_ + n;
    }
  }

  /** Releasing n bytes drops exactly the n oldest ones. */
  lemma Release(buf: Buffer, out: Index, in_: Index, n: nat)
    requires out + n <= BUF_LEN
    requires n <= Used(out, in_)
    ensures Contents(buf, out, in_) == buf[out..out + n] + Contents(buf, Advance(out, n), in_)
    ensures Used(Advance(out, n), in_) == Used(out, in_) - n
  {
    ReleaseUsed(out, in_, n);
    assert Advance(out, n) == if out + n == BUF_LEN then 0 else out + n;
    hide Advance, Used;
    if out + n == BUF_LEN {
      assert out <= in_ ==> n == 0;
    } else if out <= in_ {
      assert buf[out..in_] == buf[out..out + n] + buf[out + n..in_];
    } else {
      assert buf[out..] == buf[out..out + n] + buf[out + n..];
    }
  }

  lemma ReleaseUsed(out: Index, in_: Index, n: nat)
    requires out + n <= BUF_LEN && n <= Used(out, in_)
    ensures Used(Advance(out, n), in_) == Used(out, in_) - n
    ensures out <= in_ ==> out + n <= in_
  {
  }

  /** Storing into a slot that holds no published byte is invisible to the other side. */
  lemma StoreOutside(buf: Buffer, out: Index, in_: Index, slot: Index, b: Byte)
    requires Used(out, slot) >= Used(out, in_)
    ensures Contents(buf[slot := b], out, in_) == Contents(buf, out, in_)
  {
    if out <= in_ {
      assert !(out <= slot < in_);
    } else {
      assert in_ <= slot < out;
    }
  }

  lemma SliceGrows(s: seq<Byte>, i: nat, k: nat)
    requires i + k < |s|
    ensures s[i..i + k + 1] == s[i..i + k] + [s[i + k]]
  {
  }

  lemma StoreExtends(buf: Buffer, i: nat, k: nat, b: Byte)
    requires i + k < BUF_LEN
    ensures buf[i + k := b][i..i + k + 1] == buf[i..i + k] + [b]
  {
  }
}
