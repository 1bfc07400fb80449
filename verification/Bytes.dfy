/** Little-endian numbers in byte sequences, as both the log and the ELF image hold them. */
module Bytes {
  type Byte = b: int | 0 <= b < 256

  function Pow256(w: nat): (r: nat)
    ensures r >= 1
  {
    if w == 0 then 1 else 256 * Pow256(w - 1)
  }

  /** The low w bytes of n. */
  function Little(n: nat, w: nat): (s: seq<Byte>)
    ensures |s| == w
  {
    if w == 0 then [] else [n % 256] + Little(n / 256, w - 1)
  }

  function Value(s: seq<Byte>): nat {
    if s == [] then 0 else s[0] + 256 * Value(s[1..])
  }

  /** A number that fits its field is read back unchanged. */
  lemma {:induction false} LittleValue(n: nat, w: nat)
    requires n < Pow256(w)
    ensures Value(Little(n, w)) == n
  {
    if w > 0 {
      LittleValue(n / 256, w - 1);
      assert Little(n, w)[1..] == Little(n / 256, w - 1);
    }
  }

  lemma Powers()
    ensures Pow256(2) == 0x1_0000 && Pow256(4) == 0x1_0000_0000 && Pow256(8) == 0x1_0000_0000_0000_0000
  {
    assert Pow256(3) == 256 * Pow256(2);
    assert Pow256(4) == 256 * Pow256(3);
    assert Pow256(5) == 256 * Pow256(4);
    assert Pow256(6) == 256 * Pow256(5);
    assert Pow256(7) == 256 * Pow256(6);
  }

  function Field(m: seq<Byte>, at: nat, w: nat): nat
    requires at + w <= |m|
  {
    Value(m[at..at + w])
  }

  /** A field written between other bytes is found at its offset. */
  lemma FieldAt(before: seq<Byte>, n: nat, w: nat, after: seq<Byte>)
    requires n < Pow256(w)
    ensures Field(before + Little(n, w) + after, |before|, w) == n
  {
    assert (before + Little(n, w) + after)[|before|..|before| + w] == Little(n, w);
    LittleValue(n, w);
  }

  /** Bytes that spell a number read as that number. */
  lemma FieldSpelt(m: seq<Byte>, at: nat, n: nat, w: nat)
    requires at + w <= |m| && m[at..at + w] == Little(n, w) && n < Pow256(w)
    ensures Field(m, at, w) == n
  {
    LittleValue(n, w);
  }

  /** A field inside a slice is the same field of the whole. */
  lemma FieldInside(m: seq<Byte>, lo: nat, hi: nat, at: nat, w: nat)
    requires lo <= hi <= |m| && at + w <= hi - lo
    ensures Field(m[lo..hi], at, w) == Field(m, lo + at, w)
  {
    var a, b := m[lo..hi][at..at + w], m[lo + at..lo + at + w];
    forall k | 0 <= k < w ensures a[k] == b[k] {}
    assert a == b;
  }

  lemma MiddleSlice(a: seq<Byte>, b: seq<Byte>, c: seq<Byte>, lo: nat, hi: nat)
    requires lo <= hi <= |b|
    ensures (a + b + c)[|a| + lo..|a| + hi] == b[lo..hi]
  {
  }
}
