/** Overwriting a part of a sequence of bytes, and little-endian 32-bit words inside one. */
module Words {

  /** `s` with `bs` written over it from `i` on. */
  function Patched(s: seq<int>, i: int, bs: seq<int>): seq<int>
    requires 0 <= i && i + |bs| <= |s|
  {
    s[..i] + bs + s[i + |bs|..]
  }

  const WORDS: int := 0x1_0000_0000

  function Word(p: seq<int>, off: int): int
    requires 0 <= off <= |p| - 4
  {
    p[off] + 0x100 * p[off + 1] + 0x1_0000 * p[off + 2] + 0x100_0000 * p[off + 3]
  }

  /** The bytes of a word, lowest first. */
  function FourBytes(v: int): (r: seq<int>)
    requires 0 <= v < WORDS
    ensures |r| == 4 && Word(r, 0) == v
  {
    var b1 := v / 0x100;
    var b2 := b1 / 0x100;
    [v % 0x100, b1 % 0x100, b2 % 0x100, b2 / 0x100]
  }

  /** The bytes after a store of `v` at `off`. */
  function WithWord(p: seq<int>, off: int, v: int): (r: seq<int>)
    requires 0 <= off <= |p| - 4 && 0 <= v < WORDS
    ensures |r| == |p|
  {
    Patched(p, off, FourBytes(v))
  }

  /** A store is read back, and no word beside it changes. */
  lemma WithWordIs(p: seq<int>, off: int, v: int, o: int)
    requires 0 <= off <= |p| - 4 && 0 <= v < WORDS && 0 <= o <= |p| - 4 && (o == off || o + 4 <= off || off + 4 <= o)
    ensures Word(WithWord(p, off, v), o) == if o == off then v else Word(p, o)
  {
    var r := WithWord(p, off, v);
    assert forall k {:trigger r[k]} :: 0 <= k < |p| && !(off <= k < off + 4) ==> r[k] == p[k];
    assert forall k {:trigger r[off + k]} :: 0 <= k < 4 ==> r[off + k] == FourBytes(v)[k];
  }
}
