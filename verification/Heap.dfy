/** The heap: sbrk hands out word-aligned blocks from below, and the profiler carves its own records
    out of slabs that it gets from sbrk.

    Addresses are 32-bit words, and computed as such; the heap's limit is below the last two words of
    the address space.  Negative increments lower the end of the heap and hand out nothing.
 */
module Heap {

  const WORD := 0x1_0000_0000
  // The error pointer of sbrk, -1.
  const FAILED := 0xffff_ffff
  const SLAB := 1020

  datatype Block = Block(at: nat, size: nat)

  /** No byte belongs to both. */
  predicate Apart(a: Block, b: Block) {
    a.size == 0 || b.size == 0 || a.at + a.size <= b.at || b.at + b.size <= a.at
  }

  predicate ApartFromAll(bs: seq<Block>, b: Block) {
    forall i :: 0 <= i < |bs| ==> Apart(bs[i], b)
  }

  predicate AllApart(bs: seq<Block>) {
    forall i, j :: 0 <= i < j < |bs| ==> Apart(bs[i], bs[j])
  }

  predicate Inside(b: Block, lo: nat, hi: nat) {
    b.size == 0 || (lo <= b.at && b.at + b.size <= hi)
  }

  predicate AllInside(bs: seq<Block>, lo: nat, hi: nat) {
    forall i :: 0 <= i < |bs| ==> Inside(bs[i], lo, hi)
  }

  predicate AllWordAligned(bs: seq<Block>) {
    forall i :: 0 <= i < |bs| ==> bs[i].at % 4 == 0
  }

  /** (p + 3) & ~3, in 32 bits. */
  function Aligned(p: nat): (a: nat)
    ensures p <= WORD - 4 ==> a % 4 == 0 && p <= a < p + 4
    ensures p <= WORD - 4 && p % 4 == 0 ==> a == p
  {
    (p + 3) % WORD / 4 * 4
  }

  /** Where a call of sbrk moves the end of the heap to, in 32 bits. */
  function Moved(heapEnd: nat, incr: int): nat { (Aligned(heapEnd) + incr) % WORD }

  /** The new end is the aligned old one plus the increment, unless that leaves the address space. */
  lemma MovesByIncrement(heapEnd: nat, incr: int)
    requires heapEnd <= WORD - 4
    ensures Moved(heapEnd, incr) == Aligned(heapEnd) + incr <==> 0 <= Aligned(heapEnd) + incr < WORD
  {
  }

  function Lower(a: nat, b: nat): nat { if a <= b then a else b }

  /** Everything handed out so far, and what is left of the profiler's slab, are apart from each other
      and inside the used part of the heap. */
  ghost predicate Sound(start: nat, limit: nat, heapEnd: nat, slab: Block, handed: seq<Block>) {
    && start <= heapEnd <= Aligned(limit) && limit <= WORD - 8
    && AllApart(handed) && ApartFromAll(handed, slab)
    && AllInside(handed, start, Lower(heapEnd, limit)) && Inside(slab, start, Lower(heapEnd, limit))
  }

  /** Aligning the end of the heap, or moving it up, changes nothing. */
  lemma RaiseKeepsSound(start: nat, limit: nat, heapEnd: nat, slab: Block, handed: seq<Block>, top: nat)
    requires Sound(start, limit, heapEnd, slab, handed) && heapEnd <= top <= Aligned(limit)
    ensures Sound(start, limit, top, slab, handed)
  {
  }

  /** Moving it down keeps things as they are exactly if nothing in use is above it. */
  lemma LowerKeepsSound(start: nat, limit: nat, heapEnd: nat, slab: Block, handed: seq<Block>, top: nat)
    requires Sound(start, limit, heapEnd, slab, handed)
    ensures top <= limit ==> (Sound(start, limit, top, slab, handed)
                              <==> start <= top && AllInside(handed, start, top) && Inside(slab, start, top))
  {
  }

  /** A block from the end of the heap is apart from everything else. */
  lemma GrantKeepsSound(start: nat, limit: nat, heapEnd: nat, slab: Block, handed: seq<Block>, incr: nat)
    requires Sound(start, limit, heapEnd, slab, handed)
    ensures Sound(start, limit, Aligned(heapEnd) + incr, slab, handed + [Block(Aligned(heapEnd), incr)])
       <==> incr == 0 || Aligned(heapEnd) + incr <= limit
  {
    var p := Aligned(heapEnd);
    var b := Block(p, incr);
    if incr == 0 || p + incr <= limit {
      RaiseKeepsSound(start, limit, heapEnd, slab, handed, p + incr);
    } else {
      assert (handed + [b])[|handed|] == b;
    }
  }

  lemma LastInside(bs: seq<Block>, b: Block, lo: nat, hi: nat)
    requires AllInside(bs + [b], lo, hi)
    ensures Inside(b, lo, hi)
  {
    assert (bs + [b])[|bs|] == b;
  }

  /** A block whose end wraps is not. */
  lemma WrappedNotSound(start: nat, limit: nat, heapEnd: nat, slab: Block, handed: seq<Block>, b: Block)
    requires b.at + b.size >= WORD > limit && b.size > 0
    ensures !Sound(start, limit, heapEnd, slab, handed + [b])
  {
    if Sound(start, limit, heapEnd, slab, handed + [b]) {
      LastInside(handed, b, start, Lower(heapEnd, limit));
    }
  }

  /** So is a slab, which may replace what is left of the last one. */
  lemma SlabKeepsSound(start: nat, limit: nat, heapEnd: nat, slab: Block, handed: seq<Block>, size: nat)
    requires Sound(start, limit, heapEnd, slab, handed) && Aligned(heapEnd) + size <= limit
    ensures Sound(start, limit, Aligned(heapEnd) + size, Block(Aligned(heapEnd), size), handed)
  {
    RaiseKeepsSound(start, limit, heapEnd, slab, handed, Aligned(heapEnd) + size);
  }

  /** A piece from the front of the slab is apart from the rest of it. */
  lemma CarveKeepsSound(start: nat, limit: nat, heapEnd: nat, slab: Block, handed: seq<Block>, size: nat)
    requires Sound(start, limit, heapEnd, slab, handed) && size <= slab.size
    ensures Sound(start, limit, heapEnd, Block(slab.at + size, slab.size - size), handed + [Block(slab.at, size)])
  {
  }

  lemma SlabBelowLimit(start: nat, limit: nat, heapEnd: nat, slab: Block, handed: seq<Block>)
    requires Sound(start, limit, heapEnd, slab, handed)
    ensures slab.size > 0 ==> slab.at + slab.size <= limit
    ensures limit <= WORD - 8 && heapEnd <= WORD - 4 && Aligned(heapEnd) <= Aligned(limit)
  {
  }

  /** Blocks and slab start on word boundaries. */
  predicate OnWords(bs: seq<Block>, slabPtr: nat) { AllWordAligned(bs) && slabPtr % 4 == 0 }

  lemma GrantKeepsWords(bs: seq<Block>, slabPtr: nat, b: Block)
    ensures OnWords(bs, slabPtr) && b.at % 4 == 0 ==> OnWords(bs + [b], slabPtr)
  {
  }

  lemma CarveKeepsWords(bs: seq<Block>, slabPtr: nat, p: nat, size: nat)
    ensures OnWords(bs, slabPtr) && (p % 4 == 0 || p == slabPtr) && size % 4 == 0
        ==> OnWords(bs + [Block(p, size)], p + size)
  {
    if OnWords(bs, slabPtr) && (p % 4 == 0 || p == slabPtr) && size % 4 == 0 {
      GrantKeepsWords(bs, slabPtr, Block(p, size));
      WordsAdd(p, size);
    }
  }

  lemma WordsAdd(a: nat, b: nat)
    requires a % 4 == 0 && b % 4 == 0
    ensures (a + b) % 4 == 0
  {
  }

  /** What is left of a slab when a record is carved from it, in 32 bits. */
  function Rest(p: nat, slabSize: nat, size: nat): Block {
    Block((p + size) % WORD, (slabSize - size) % WORD)
  }

  lemma RestFits(p: nat, slabSize: nat, size: nat)
    requires size <= slabSize && p + slabSize < WORD
    ensures Rest(p, slabSize, size) == Block(p + size, slabSize - size)
  {
  }

  /** A record larger than the slab, or carved from a slab that is not there, runs out of the heap, or
      leaves a rest that does. */
  lemma OverrunNotSound(start: nat, limit: nat, heapEnd: nat, handed: seq<Block>, p: nat, size: nat)
    requires 0 < size < WORD && p < WORD && limit <= WORD - 8
    requires p + SLAB >= WORD || size > SLAB
    ensures !Sound(start, limit, heapEnd, Rest(p, SLAB, size), handed + [Block(p, size)])
  {
    if p + size >= WORD {
      WrappedNotSound(start, limit, heapEnd, Rest(p, SLAB, size), handed, Block(p, size));
    } else if size > SLAB {
      assert (SLAB - size) % WORD == SLAB - size + WORD;
    }
  }

  lemma NewSlab(heapEnd: nat, limit: nat)
    requires heapEnd <= WORD - 4 && limit <= WORD - 8
    ensures if Aligned(heapEnd) + SLAB <= limit then Moved(heapEnd, SLAB) == Aligned(heapEnd) + SLAB
            else Moved(heapEnd, SLAB) > limit || Aligned(heapEnd) + SLAB >= WORD
  {
  }

  class Allocator {
    const start: nat
    const limit: nat
    var heapEnd: nat
    // The profiler's slab; the size is a 32-bit pattern.
    var slabPtr: nat
    var slabSize: nat
    // Everything handed out, and whether all records carved had a size of whole words.
    ghost var handed: seq<Block>
    ghost var wholeWords: bool

    ghost predicate Valid()
      reads this
    {
      && Sound(start, limit, heapEnd, Block(slabPtr, slabSize), handed)
      && slabPtr < WORD && (wholeWords ==> OnWords(handed, slabPtr))
    }

    constructor (start: nat, limit: nat)
      requires start <= limit <= WORD - 8
      ensures Valid() && this.start == start && this.limit == limit && heapEnd == start
      ensures slabSize == 0 && handed == [] && wholeWords
    {
      this.start, this.limit, heapEnd := start, limit, start;
      slabPtr, slabSize := 0, 0;
      handed, wholeWords := [], true;
    }

    /** Everything handed out, and the profiler's slab, lie below an address. */
    ghost predicate InUseBelow(top: nat)
      reads this`slabPtr, this`slabSize, this`handed
    {
      AllInside(handed, start, top) && Inside(Block(slabPtr, slabSize), start, top)
    }

    /** Moves the end of the heap, unless that would put it beyond the limit; forSlab says that the
        caller is the profiler.  The comparison is made in 32 bits, so a granted block is sound exactly
        if its end does not wrap. */
    method Sbrk(incr: int, ghost forSlab: bool) returns (p: nat)
      requires Valid() && -0x8000_0000 <= incr < 0x8000_0000
      modifies this`heapEnd, this`handed
      ensures p == if Moved(old(heapEnd), incr) > limit then FAILED else Aligned(old(heapEnd))
      ensures heapEnd == if p == FAILED then Aligned(old(heapEnd)) else Moved(old(heapEnd), incr)
      ensures handed == if p == FAILED || incr < 0 || forSlab then old(handed) else old(handed) + [Block(p, incr)]
      ensures p != FAILED ==> p % 4 == 0
      ensures p == FAILED ==> Valid()
      ensures incr >= 0 && p != FAILED && !forSlab ==> (Valid() <==> p + incr < WORD)
      // Giving memory back is sound exactly if none of it is still in use.
      ensures incr < 0 && p != FAILED ==> (Valid() <==> start <= heapEnd && InUseBelow(heapEnd))
    {
      hide Sound, OnWords, Aligned;
      ghost var slab := Block(slabPtr, slabSize);
      SlabBelowLimit(start, limit, heapEnd, slab, handed);
      RaiseKeepsSound(start, limit, heapEnd, slab, handed, Aligned(heapEnd));
      if incr >= 0 {
        GrantKeepsSound(start, limit, heapEnd, slab, handed, incr);
      } else {
        LowerKeepsSound(start, limit, heapEnd, slab, handed, Moved(heapEnd, incr));
      }
      heapEnd := Aligned(heapEnd);
      if (heapEnd + incr) % WORD > limit {
        return FAILED;
      }
      p := heapEnd;
      heapEnd := (heapEnd + incr) % WORD;
      if incr >= 0 && !forSlab {
        if p + incr >= WORD {
          WrappedNotSound(start, limit, heapEnd, slab, handed, Block(p, incr));
        }
        GrantKeepsWords(handed, slabPtr, Block(p, incr));
        handed := handed + [Block(p, incr)];
      }
    }

    /** Whether a record of this size can be carved: the slab has room, or a new one is to be had. */
    ghost predicate Fits(size: nat)
      reads this
    {
      size <= slabSize || (size <= SLAB && Aligned(heapEnd) + SLAB <= limit)
    }

    /** The profiler's allocation.  It does not look at what sbrk returns. */
    method Carve(size: nat) returns (data: nat)
      requires Valid() && size < WORD
      modifies this
      ensures handed == old(handed) + [Block(data, size)]
      ensures wholeWords == (old(wholeWords) && size % 4 == 0)
      ensures Valid() <==> old(Fits(size))
      // The record comes from the slab, from a new one, or from the error pointer.
      ensures data == if size <= old(slabSize) then old(slabPtr)
                      else if Moved(old(heapEnd), SLAB) > limit then FAILED
                      else Aligned(old(heapEnd))
    {
      hide Sound, OnWords, Aligned, Moved;
      ghost var slab, before := Block(slabPtr, slabSize), handed;
      SlabBelowLimit(start, limit, heapEnd, slab, handed);
      NewSlab(heapEnd, limit);
      ghost var fits := Fits(size);
      if size > slabSize {
        if size <= SLAB && fits {
          SlabKeepsSound(start, limit, heapEnd, slab, handed, SLAB);
        }
        slabPtr := Sbrk(SLAB, true);
        slabSize := SLAB;
      }
      data := slabPtr;
      CarveKeepsWords(handed, old(slabPtr), data, size);
      ghost var rest := Rest(slabPtr, slabSize, size);
      if fits {
        RestFits(slabPtr, slabSize, size);
        CarveKeepsSound(start, limit, heapEnd, Block(slabPtr, slabSize), handed, size);
      } else {
        OverrunNotSound(start, limit, heapEnd, handed, data, size);
      }
      slabPtr := (slabPtr + size) % WORD;
      slabSize := (slabSize - size) % WORD;
      assert rest == Block(slabPtr, slabSize);
      assert Sound(start, limit, heapEnd, rest, before + [Block(data, size)]) <==> fits;
      handed := handed + [Block(data, size)];
      wholeWords := wholeWords && size % 4 == 0;
    }
  }

  /** A heap of less than a slab: the first record already gets the error pointer. */
  method CarveFromNothing() returns (heap: Allocator, data: nat)
    ensures fresh(heap) && data == FAILED && !heap.Valid()
  {
    heap := new Allocator(0x1000, 0x1100);
    data := heap.Carve(12);
  }

  /** A record larger than a slab gets an address inside the heap, and overruns the slab. */
  method CarveTooMuch() returns (heap: Allocator, data: nat)
    ensures fresh(heap) && data == 0x1000 < heap.limit && !heap.Valid()
  {
    heap := new Allocator(0x1000, 0x2000);
    data := heap.Carve(2000);
  }

  /** A request that wraps the address space is granted, and puts the end of the heap below its start. */
  method GrantWrapped() returns (heap: Allocator, p: nat)
    ensures fresh(heap) && p == 0xc000_0000 && heap.heapEnd < heap.start && !heap.Valid()
  {
    heap := new Allocator(0xc000_0000, 0xe000_0000);
    p := heap.Sbrk(0x7000_0000, false);
  }
}
