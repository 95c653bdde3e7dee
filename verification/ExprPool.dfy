/**
  The expression pool: blocks of up to 512 bytes are carved from 256 KiB chunks in steps of
  16 bytes and, once released, kept on a free list per size, linked through the blocks'
  own first words.  Chunks are never given back.
*/
module ExprPool {

  const GRAN: nat := 16
  const MAX_SIZE: nat := 512
  const BUCKETS: nat := 33
  const CHUNK: nat := 262144

  /** An address: a place in a chunk, or a block of the general allocator. */
  datatype Ptr = Block(chunk: nat, off: nat) | Foreign(id: nat)

  datatype Link = Nil | To(ptr: Ptr)

  function BucketOf(n: nat): (b: nat)
    requires n <= MAX_SIZE
    ensures 1 <= b < BUCKETS && GRAN * b >= n && GRAN * (b - 1) < (if n == 0 then 1 else n)
  {
    ((if n == 0 then 1 else n) + GRAN - 1) / GRAN
  }

  // ---------- the pool's books ----------

  /** What has happened so far, per bucket: blocks ever carved, in use, on the free list, and the most ever in use. */
  datatype Book = Book(carved: seq<set<Ptr>>, live: seq<set<Ptr>>, free: seq<seq<Ptr>>, peak: seq<nat>,
                       chunks: nat, used: nat, wasted: nat)

  /** The block of bucket `b` at `p` lies inside one chunk that exists. */
  predicate Inside(book: Book, p: Ptr, b: nat) {
    p.Block? && p.chunk < book.chunks && p.off + GRAN * b <= CHUNK
    && (p.chunk == book.chunks - 1 ==> p.off + GRAN * b <= book.used)
  }

  predicate Apart(p: Ptr, b: nat, q: Ptr, c: nat) {
    p.Block? && q.Block? && (p.chunk != q.chunk || p.off + GRAN * b <= q.off || q.off + GRAN * c <= p.off)
  }

  predicate Shape(book: Book) {
    |book.carved| == |book.live| == |book.free| == |book.peak| == BUCKETS && book.used <= CHUNK
    && (book.chunks == 0 ==> book.used == CHUNK)
  }

  predicate Distinct(s: seq<Ptr>) {
    forall i, j :: 0 <= i < j < |s| ==> s[i] != s[j]
  }

  /** Each carved block is in use or on its free list, and not both; the most ever in use is what was carved. */
  ghost predicate Balanced(book: Book, b: nat)
    requires Shape(book) && b < BUCKETS
  {
    && (forall p :: p in book.carved[b] <==> p in book.live[b] || p in book.free[b])
    && (forall p :: p in book.live[b] ==> p !in book.free[b])
    && Distinct(book.free[b])
    && |book.live[b]| + |book.free[b]| == |book.carved[b]| == book.peak[b]
    && |book.live[b]| <= book.peak[b]
  }

  ghost predicate Placed(book: Book)
    requires Shape(book)
  {
    && (forall b: nat, p :: b < BUCKETS && p in book.carved[b] ==> Inside(book, p, b))
    && forall b: nat, c: nat, p, q ::
         b < BUCKETS && c < BUCKETS && p in book.carved[b] && q in book.carved[c] && (b != c || p != q) ==>
         Apart(p, b, q, c)
  }

  /** Bytes of the blocks carved in buckets below `n`. */
  function CarvedBytes(peak: seq<nat>, n: nat): nat
    requires n <= |peak|
  {
    if n == 0 then 0 else CarvedBytes(peak, n - 1) + GRAN * (n - 1) * peak[n - 1]
  }

  /** Every byte of every chunk is carved, left over in the last chunk, or lost at the end of an earlier one. */
  predicate Accounted(book: Book)
    requires Shape(book)
  {
    && CarvedBytes(book.peak, BUCKETS) + book.wasted + (CHUNK - book.used) == CHUNK * book.chunks
    && book.wasted <= (MAX_SIZE - GRAN) * (if book.chunks == 0 then 0 else book.chunks - 1)
    && book.used % GRAN == 0
  }

  ghost predicate Valid(book: Book) {
    Shape(book) && Placed(book) && Accounted(book) && forall b: nat :: b < BUCKETS ==> Balanced(book, b)
  }

  function Empty(): Book {
    Book(seq(BUCKETS, i => {}), seq(BUCKETS, i => {}), seq(BUCKETS, i => []), seq(BUCKETS, i => 0), 0, CHUNK, 0)
  }

  lemma {:induction false} NoBytes(peak: seq<nat>, n: nat)
    requires n <= |peak| && forall i :: 0 <= i < |peak| ==> peak[i] == 0
    ensures CarvedBytes(peak, n) == 0
  {
    if n == 0 {
    } else {
      NoBytes(peak, n - 1);
    }
  }

  lemma EmptyIsValid()
    ensures Valid(Empty())
  {
    NoBytes(Empty().peak, BUCKETS);
  }

  // ---------- the three transitions ----------

  /** Taking the first block of a free list. */
  function Reused(book: Book, b: nat): Book
    requires Shape(book) && b < BUCKETS && book.free[b] != []
  {
    book.(live := book.live[b := book.live[b] + {book.free[b][0]}], free := book.free[b := book.free[b][1..]])
  }

  /** Starting a new chunk; what is left of the old one is lost. */
  function NewChunk(book: Book): Book
    requires book.used <= CHUNK
  {
    book.(chunks := book.chunks + 1, used := 0, wasted := book.wasted + (CHUNK - book.used))
  }

  /** Carving a new block from the current chunk. */
  function Carved(book: Book, b: nat): Book
    requires Shape(book) && b < BUCKETS && book.chunks > 0
  {
    var p := Block(book.chunks - 1, book.used);
    book.(carved := book.carved[b := book.carved[b] + {p}], live := book.live[b := book.live[b] + {p}],
          peak := book.peak[b := book.peak[b] + 1], used := book.used + GRAN * b)
  }

  function Freed(book: Book, b: nat, p: Ptr): Book
    requires Shape(book) && b < BUCKETS
  {
    book.(live := book.live[b := book.live[b] - {p}], free := book.free[b := [p] + book.free[b]])
  }

  lemma ReusedBalanced(book: Book, b: nat, c: nat)
    requires Shape(book) && b < BUCKETS && c < BUCKETS && book.free[b] != [] && Balanced(book, c)
    ensures Balanced(Reused(book, b), c)
  {
    if c == b {
      ghost var p, rest := book.free[b][0], book.free[b][1..];
      assert book.free[b] == [p] + rest;
      assert p !in rest && p !in book.live[b];
    }
  }

  lemma ReusedIsValid(book: Book, b: nat)
    requires Valid(book) && b < BUCKETS && book.free[b] != []
    ensures Valid(Reused(book, b))
  {
    forall c: nat | c < BUCKETS ensures Balanced(Reused(book, b), c) {
      ReusedBalanced(book, b, c);
    }
    hide Balanced;
  }

  lemma FreedBalanced(book: Book, b: nat, p: Ptr, c: nat)
    requires Shape(book) && b < BUCKETS && c < BUCKETS && p in book.live[b] && Balanced(book, c)
    ensures Balanced(Freed(book, b, p), c)
  {
    if c == b {
      assert book.live[b] == (book.live[b] - {p}) + {p};
    }
  }

  lemma FreedIsValid(book: Book, b: nat, p: Ptr)
    requires Valid(book) && b < BUCKETS && p in book.live[b]
    ensures Valid(Freed(book, b, p))
  {
    forall c: nat | c < BUCKETS ensures Balanced(Freed(book, b, p), c) {
      FreedBalanced(book, b, p, c);
    }
    hide Balanced;
  }

  lemma NewChunkIsValid(book: Book, b: nat)
    requires Valid(book) && 1 <= b < BUCKETS && CHUNK - book.used < GRAN * b
    ensures Valid(NewChunk(book))
  {
    ghost var next := NewChunk(book);
    forall c: nat | c < BUCKETS ensures Balanced(next, c) {
      assert Balanced(book, c);
    }
    hide Balanced, CarvedBytes;
    assert Placed(next) by {
      forall c: nat, p | c < BUCKETS && p in next.carved[c] ensures Inside(next, p, c) {
        assert Inside(book, p, c);
      }
    }
    assert CHUNK % GRAN == 0;
    assert (CHUNK - book.used) % GRAN == 0;
    LessByGran(CHUNK - book.used, b);
  }

  lemma LessByGran(left: nat, b: nat)
    requires left % GRAN == 0 && 1 <= b < BUCKETS && left < GRAN * b
    ensures left <= MAX_SIZE - GRAN
  {
  }

  lemma {:induction false} OneMoreBytes(peak: seq<nat>, b: nat, n: nat)
    requires b < |peak| && n <= |peak|
    ensures CarvedBytes(peak[b := peak[b] + 1], n) == CarvedBytes(peak, n) + if b < n then GRAN * b else 0
  {
    if n == 0 {
    } else {
      OneMoreBytes(peak, b, n - 1);
      if b == n - 1 {
        assert GRAN * b * (peak[b] + 1) == GRAN * b * peak[b] + GRAN * b;
      }
    }
  }

  lemma CarvedBalanced(book: Book, b: nat, c: nat)
    requires Shape(book) && 1 <= b < BUCKETS && c < BUCKETS && book.chunks > 0 && book.free[b] == [] &&
             Balanced(book, c)
    requires CHUNK - book.used >= GRAN * b
    requires Block(book.chunks - 1, book.used) !in book.carved[b]
    ensures Balanced(Carved(book, b), c)
  {
  }

  lemma CarvedPlaced(book: Book, b: nat)
    requires Shape(book) && Placed(book) && 1 <= b < BUCKETS && book.chunks > 0 && CHUNK - book.used >= GRAN * b
    ensures Shape(Carved(book, b)) && Placed(Carved(book, b))
    ensures Block(book.chunks - 1, book.used) !in book.carved[b]
  {
    ghost var next := Carved(book, b);
    ghost var new_ := Block(book.chunks - 1, book.used);
    forall c: nat, p | c < BUCKETS && p in book.carved[c] ensures Apart(p, c, new_, b) && Inside(next, p, c) {
      assert Inside(book, p, c);
    }
    assert new_ in book.carved[b] ==> Inside(book, new_, b);
  }

  lemma CarvedIsValid(book: Book, b: nat)
    requires Valid(book) && 1 <= b < BUCKETS && book.chunks > 0 && book.free[b] == [] && CHUNK - book.used >= GRAN * b
    ensures Valid(Carved(book, b))
  {
    ghost var next := Carved(book, b);
    CarvedPlaced(book, b);
    forall c: nat | c < BUCKETS ensures Balanced(next, c) {
      CarvedBalanced(book, b, c);
    }
    OneMoreBytes(book.peak, b, BUCKETS);
    hide Balanced, CarvedBytes, Placed;
  }

  // ---------- the lists in memory ----------

  /** The chain from `head` through the blocks' first words visits exactly `s`. */
  predicate Chain(words: map<Ptr, Link>, head: Link, s: seq<Ptr>)
    decreases |s|
  {
    if s == [] then head == Nil
    else head == To(s[0]) && s[0] in words && Chain(words, words[s[0]], s[1..])
  }

  /** A word outside of a chain does not matter to it. */
  lemma {:induction false} ChainStays(words: map<Ptr, Link>, head: Link, s: seq<Ptr>, p: Ptr, w: Link)
    requires Chain(words, head, s) && p !in s
    ensures Chain(words[p := w], head, s)
    decreases |s|
  {
    if s == [] {
    } else {
      ChainStays(words, words[s[0]], s[1..], p, w);
    }
  }

  ghost predicate Chained(words: map<Ptr, Link>, heads: seq<Link>, free: seq<seq<Ptr>>) {
    |heads| == |free| && forall b :: 0 <= b < |heads| ==> Chain(words, heads[b], free[b])
  }

  /** No block is on a free list of one bucket and carved in another. */
  lemma OnOneListOnly(book: Book, b: nat, c: nat, p: Ptr)
    requires Valid(book) && b < BUCKETS && 1 <= c < BUCKETS && p in book.carved[c] && b != c && b >= 1
    ensures p !in book.free[b]
  {
    assert Balanced(book, b);
    hide Balanced;
    assert p in book.free[b] ==> Apart(p, b, p, c);
  }

  ghost predicate NoZeroBucket(book: Book)
    requires Shape(book)
  {
    book.carved[0] == {}
  }

  lemma LiveIsOffTheLists(book: Book, c: nat, p: Ptr)
    requires Valid(book) && NoZeroBucket(book) && c < BUCKETS && p in book.live[c]
    ensures forall b: nat :: b < BUCKETS ==> p !in book.free[b]
  {
    assert Balanced(book, c);
    forall b: nat | b < BUCKETS ensures p !in book.free[b] {
      assert Balanced(book, b);
      hide Balanced;
      if b != c && b > 0 && c > 0 {
        OnOneListOnly(book, b, c, p);
      }
    }
  }

  lemma WriteKeepsChains(words: map<Ptr, Link>, heads: seq<Link>, free: seq<seq<Ptr>>, p: Ptr, w: Link)
    requires Chained(words, heads, free) && forall b :: 0 <= b < |free| ==> p !in free[b]
    ensures Chained(words[p := w], heads, free)
  {
    forall b | 0 <= b < |heads| ensures Chain(words[p := w], heads[b], free[b]) {
      ChainStays(words, heads[b], free[b], p, w);
    }
  }

  lemma PopKeepsChains(words: map<Ptr, Link>, heads: seq<Link>, free: seq<seq<Ptr>>, b: nat)
    requires Chained(words, heads, free) && b < |free| && free[b] != []
    ensures heads[b] == To(free[b][0]) && free[b][0] in words
    ensures Chained(words, heads[b := words[free[b][0]]], free[b := free[b][1..]])
  {
  }

  lemma PushKeepsChains(words: map<Ptr, Link>, heads: seq<Link>, free: seq<seq<Ptr>>, b: nat, p: Ptr)
    requires Chained(words, heads, free) && b < |free| && forall c :: 0 <= c < |free| ==> p !in free[c]
    ensures Chained(words[p := heads[b]], heads[b := To(p)], free[b := [p] + free[b]])
  {
    WriteKeepsChains(words, heads, free, p, heads[b]);
    ghost var s := [p] + free[b];
    assert s[1..] == free[b];
  }

  // ---------- the pool ----------

  class Pool {
    var freeList: array<Link>
    var words: map<Ptr, Link>
    var chunks: nat
    var chunkOff: nat
    var chunkLeft: nat
    var foreign: nat
    ghost var book: Book

    ghost predicate Ok()
      reads this, freeList
    {
      && Valid(book) && NoZeroBucket(book)
      && freeList.Length == BUCKETS
      && chunks == book.chunks && chunkLeft == CHUNK - book.used
      && (chunks > 0 ==> chunkOff == book.used)
      && Chained(words, freeList[..], book.free)
    }

    constructor ()
      ensures Ok() && fresh(freeList) && book == Empty()
    {
      freeList := new Link[BUCKETS](i => Nil);
      words, chunks, chunkOff, chunkLeft, foreign := map[], 0, 0, 0, 0;
      book := Empty();
      new;
      EmptyIsValid();
      hide Valid;
    }

    /** The first block of a free list. */
    method Pop(b: nat) returns (p: Ptr)
      requires Ok() && 1 <= b < BUCKETS && freeList[b].To?
      modifies this, freeList
      ensures Ok() && freeList == old(freeList) && foreign == old(foreign)
      ensures old(book.free[b]) != [] && p == old(book.free[b][0]) && book == Reused(old(book), b)
    {
      hide Placed, Balanced, Accounted, Chained, NoZeroBucket;
      HeadIsFirst(words, freeList[..], book.free, b);
      PopKeepsChains(words, freeList[..], book.free, b);
      ReusedIsValid(book, b);
      ghost var before := book;
      p := freeList[b].ptr;
      freeList[b] := words[p];
      book := Reused(book, b);
      KeepsZeroBucket(before, book);
    }

    /** A new block at the end of the current chunk, or at the start of a new one. */
    method Carve(b: nat) returns (p: Ptr)
      requires Ok() && 1 <= b < BUCKETS && !freeList[b].To?
      modifies this
      ensures Ok() && freeList == old(freeList) && foreign == old(foreign)
      ensures old(book.free[b]) == []
      ensures var ready := if CHUNK - old(book.used) < GRAN * b then NewChunk(old(book)) else old(book);
              ready.chunks > 0 && p == Block(ready.chunks - 1, ready.used) && book == Carved(ready, b)
    {
      hide Placed, Balanced, Chained, NoZeroBucket, CarvedBytes;
      HeadIsNil(words, freeList[..], book.free, b);
      ghost var before := book;
      var sz := GRAN * b;
      if chunkLeft < sz {
        NewChunkIsValid(book, b);
        chunks := chunks + 1;
        chunkOff := 0;
        chunkLeft := CHUNK;
        book := NewChunk(book);
        KeepsZeroBucket(before, book);
      }
      ghost var ready := book;
      CarvedIsValid(book, b);
      p := Block(chunks - 1, chunkOff);
      chunkOff := chunkOff + sz;
      chunkLeft := chunkLeft - sz;
      book := Carved(book, b);
      KeepsZeroBucket(ready, book);
    }

    /**
      A block for `n` bytes.  It overlaps no block in use, lies inside one chunk, fits the
      bucket of `n`, and a new one is carved only when more blocks of the bucket are in use
      than ever before.
    */
    method Alloc(n: nat) returns (p: Ptr)
      requires Ok()
      modifies this, freeList
      ensures Ok() && freeList == old(freeList)
      ensures n > MAX_SIZE ==> p == Foreign(old(foreign)) && foreign == old(foreign) + 1 && book == old(book)
      ensures n <= MAX_SIZE ==> Shape(old(book)) && Shape(book) && Granted(old(book), book, BucketOf(n), p)
    {
      ValidShape(book);
      if n > MAX_SIZE {
        hide *;
        p := Foreign(foreign);
        foreign := foreign + 1;
        return;
      }
      var b := BucketOf(n);
      ghost var before := book;
      hide Valid, Placed, Balanced, Accounted, NoZeroBucket, Chained, Granted;
      if freeList[b].To? {
        p := Pop(b);
        ReusedIsNew(before, b);
      } else {
        p := Carve(b);
        CarvedIsNew(before, b);
      }
      ValidShape(book);
    }

    /** Gives a block back: it becomes the first of its free list. */
    method Release(p: Ptr, n: nat)
      requires Ok() && (n <= MAX_SIZE ==> p in book.live[BucketOf(n)])
      modifies this, freeList
      ensures Ok() && freeList == old(freeList)
      ensures book == if n > MAX_SIZE then old(book) else Freed(old(book), BucketOf(n), p)
    {
      hide Placed, Balanced, Accounted, Chained;
      if n > MAX_SIZE {
        return;
      }
      var b := BucketOf(n);
      FreedIsValid(book, b, p);
      LiveIsOffTheLists(book, b, p);
      PushKeepsChains(words, freeList[..], book.free, b, p);
      words := words[p := freeList[b]];
      freeList[b] := To(p);
      book := Freed(book, b, p);
    }

    /** The owner of a block may write anything into it. */
    method Write(p: Ptr, w: Link, ghost c: nat)
      requires Ok() && c < BUCKETS && p in book.live[c]
      modifies this`words
      ensures Ok()
    {
      LiveIsOffTheLists(book, c, p);
      WriteKeepsChains(words, freeList[..], book.free, p, w);
      hide Valid, Chained;
      words := words[p := w];
    }
  }

  lemma ValidShape(book: Book)
    requires Valid(book)
    ensures Shape(book)
  {
  }

  lemma KeepsZeroBucket(before: Book, after: Book)
    requires Shape(before) && Shape(after) && NoZeroBucket(before) && after.carved[0] == before.carved[0]
    ensures NoZeroBucket(after)
  {
  }

  lemma HeadIsFirst(words: map<Ptr, Link>, heads: seq<Link>, free: seq<seq<Ptr>>, b: nat)
    requires Chained(words, heads, free) && b < |heads| && heads[b].To?
    ensures free[b] != [] && heads[b] == To(free[b][0])
  {
    assert Chain(words, heads[b], free[b]);
  }

  lemma HeadIsNil(words: map<Ptr, Link>, heads: seq<Link>, free: seq<seq<Ptr>>, b: nat)
    requires Chained(words, heads, free) && b < |heads| && !heads[b].To?
    ensures free[b] == []
  {
    assert Chain(words, heads[b], free[b]);
  }

  /** What an allocation in bucket `b` may do. */
  ghost predicate Granted(before: Book, after: Book, b: nat, p: Ptr)
    requires Shape(before) && Shape(after) && b < BUCKETS
  {
    && Inside(after, p, b) && p !in before.live[b]
    && (forall c: nat, q :: c < BUCKETS && q in before.live[c] ==> Apart(p, b, q, c))
    && after.live == before.live[b := before.live[b] + {p}]
    && after.peak == before.peak[b := if |after.live[b]| > before.peak[b] then |after.live[b]| else before.peak[b]]
  }

  lemma ReusedIsNew(book: Book, b: nat)
    requires Valid(book) && NoZeroBucket(book) && 1 <= b < BUCKETS && book.free[b] != []
    ensures Granted(book, Reused(book, b), b, book.free[b][0])
  {
    ghost var p := book.free[b][0];
    assert Balanced(book, b) && p in book.carved[b];
    assert Inside(book, p, b);
    forall c: nat, q | c < BUCKETS && q in book.live[c] ensures Apart(p, b, q, c) {
      assert Balanced(book, c);
    }
    ReusedBalanced(book, b, b);
  }

  lemma CarvedGranted(book: Book, b: nat)
    requires Valid(book) && 1 <= b < BUCKETS && book.free[b] == [] && book.chunks > 0 && CHUNK - book.used >= GRAN * b
    ensures Shape(Carved(book, b)) && Granted(book, Carved(book, b), b, Block(book.chunks - 1, book.used))
  {
    ghost var p := Block(book.chunks - 1, book.used);
    assert Balanced(book, b);
    CarvedPlaced(book, b);
    forall c: nat, q | c < BUCKETS && q in book.live[c] ensures Apart(p, b, q, c) {
      assert Balanced(book, c) && q in book.carved[c];
      assert Inside(book, q, c);
    }
    hide Balanced, CarvedBytes, Placed;
  }

  lemma CarvedIsNew(book: Book, b: nat)
    requires Valid(book) && 1 <= b < BUCKETS && book.free[b] == []
    ensures var ready := if CHUNK - book.used < GRAN * b then NewChunk(book) else book;
            && Shape(book) && Shape(ready) && ready.chunks > 0 && Shape(Carved(ready, b))
            && Granted(book, Carved(ready, b), b, Block(ready.chunks - 1, ready.used))
  {
    if CHUNK - book.used < GRAN * b {
      NewChunkIsValid(book, b);
      hide Balanced, CarvedBytes, Placed;
      CarvedGranted(NewChunk(book), b);
    } else {
      hide Balanced, CarvedBytes, Placed;
      CarvedGranted(book, b);
    }
  }

  /** What is in use fits the memory it lies in: chunks cost at most the peaks, plus a little at the end of each. */
  lemma MemoryIsBounded(book: Book)
    requires Valid(book)
    ensures CHUNK * book.chunks <= CarvedBytes(book.peak, BUCKETS) + (MAX_SIZE - GRAN) * book.chunks + CHUNK
    ensures forall b: nat :: b < BUCKETS ==> |book.carved[b]| == book.peak[b]
  {
    forall b: nat | b < BUCKETS ensures |book.carved[b]| == book.peak[b] {
      assert Balanced(book, b);
    }
    hide Balanced, CarvedBytes;
  }

  /** Blocks in use and blocks on the lists never overlap one another. */
  lemma BlocksAreApart(book: Book, b: nat, c: nat, p: Ptr, q: Ptr)
    requires Valid(book) && b < BUCKETS && c < BUCKETS && (b != c || p != q)
    requires (p in book.live[b] || p in book.free[b]) && (q in book.live[c] || q in book.free[c])
    ensures Apart(p, b, q, c) && Inside(book, p, b)
  {
    assert Balanced(book, b) && Balanced(book, c);
  }
}
