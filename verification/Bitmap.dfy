/**
  The free-block bitmap as an array of 32-bit words, and the set of free blocks it stands for. The
  file server allocates from the array; what it keeps is said of the set.
*/
module Bitmap {
  import opened Options

  /** A uint32_t by its bits, least significant first: w | 1<<k is w[k := true], w & ~(1<<k) is w[k := false]. */
  type Word = w: seq<bool> | |w| == 32 witness seq(32, _ => false)

  /** The bit of block `b`. */
  predicate Bit(words: seq<Word>, b: int)
    requires 0 <= b < 32 * |words|
  {
    words[b / 32][b % 32]
  }

  function PutBit(words: seq<Word>, b: int, v: bool): seq<Word>
    requires 0 <= b < 32 * |words|
  {
    words[b / 32 := words[b / 32][b % 32 := v]]
  }

  /** Writing one bit changes that bit and no other, in its word or elsewhere. */
  lemma BitOfPut(words: seq<Word>, b: int, v: bool, c: int)
    requires 0 <= b < 32 * |words| && 0 <= c < 32 * |words|
    ensures Bit(PutBit(words, b, v), c) == if c == b then v else Bit(words, c)
  {
    assert b / 32 == c / 32 && b % 32 == c % 32 ==> b == c;
  }

  /** The blocks that are free. */
  ghost function FreeSet(words: seq<Word>, nblocks: int): set<int>
    requires 0 <= nblocks <= 32 * |words|
  {
    set b | 0 <= b < nblocks && Bit(words, b)
  }

  lemma FreeSetOfPut(words: seq<Word>, nblocks: int, b: int, v: bool)
    requires 0 <= b < nblocks <= 32 * |words|
    ensures FreeSet(PutBit(words, b, v), nblocks) ==
              if v then FreeSet(words, nblocks) + {b} else FreeSet(words, nblocks) - {b}
  {
    forall c | 0 <= c < nblocks ensures Bit(PutBit(words, b, v), c) == if c == b then v else Bit(words, c) {
      BitOfPut(words, b, v, c);
    }
  }

  /** block_is_free */
  method BlockIsFree(bitmap: array<Word>, nblocks: int, blockno: int) returns (r: bool)
    requires 0 <= nblocks <= 32 * bitmap.Length && 0 <= blockno
    ensures r <==> blockno in FreeSet(bitmap[..], nblocks)
  {
    if blockno >= nblocks { return false; }
    r := bitmap[blockno / 32][blockno % 32];
  }

  /** free_block, for a block other than zero, where the source panics. */
  method FreeBlock(bitmap: array<Word>, nblocks: int, blockno: int)
    requires 0 < blockno < nblocks <= 32 * bitmap.Length
    modifies bitmap
    ensures FreeSet(bitmap[..], nblocks) == old(FreeSet(bitmap[..], nblocks)) + {blockno}
  {
    FreeSetOfPut(bitmap[..], nblocks, blockno, true);
    bitmap[blockno / 32] := bitmap[blockno / 32][blockno % 32 := true];
    assert bitmap[..] == PutBit(old(bitmap[..]), blockno, true);
  }

  /** alloc_block: clear the lowest set bit below nblocks. */
  method AllocBlock(bitmap: array<Word>, nblocks: int) returns (r: Option<int>)
    requires 0 <= nblocks <= 32 * bitmap.Length
    modifies bitmap
    ensures r.None? ==> old(FreeSet(bitmap[..], nblocks)) == {} && bitmap[..] == old(bitmap[..])
    ensures r.Some? ==> r.value in old(FreeSet(bitmap[..], nblocks))
    ensures r.Some? ==> forall b :: b in old(FreeSet(bitmap[..], nblocks)) ==> r.value <= b
    ensures r.Some? ==> FreeSet(bitmap[..], nblocks) == old(FreeSet(bitmap[..], nblocks)) - {r.value}
  {
    ghost var w := bitmap[..];
    for blockno := 0 to nblocks
      invariant bitmap[..] == w
      invariant forall b :: b in FreeSet(w, nblocks) ==> blockno <= b
    {
      var isFree := BlockIsFree(bitmap, nblocks, blockno);
      if isFree {
        FreeSetOfPut(w, nblocks, blockno, false);
        bitmap[blockno / 32] := bitmap[blockno / 32][blockno % 32 := false];
        assert bitmap[..] == PutBit(w, blockno, false);
        return Some(blockno);
      }
    }
    r := None;
  }
}
