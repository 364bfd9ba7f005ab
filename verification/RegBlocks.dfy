/** Enumeration of the linked list of register blocks in device memory, and lookup in the result. */
module RegBlocks {

  const RB_REG_TYPE := 0x00
  const RB_REG_VER := 0x04
  const RB_REG_NEXT_PTR := 0x08

  /** One entry of the returned list; `regs == 0` is the null pointer that terminates it. */
  datatype RegBlock = RegBlock(rtype: nat, version: nat, base: nat, regs: nat)

  const EMPTY := RegBlock(0, 0, 0, 0)

  /** The word stored at each byte offset of the mapped region. */
  type Memory = nat -> nat

  datatype Option<+T> = None | Some(value: T)

  // ---------------------------------------------------------------- what the chain is

  /** The k-th offset reached by following next pointers from `start`. */
  ghost function Chain(mem: Memory, start: nat, k: nat): nat { Follow(mem, start, k) }

  /** Its recursion, kept apart so that quantifiers range over Chain, which does not unfold. */
  ghost function Follow(mem: Memory, start: nat, k: nat): nat {
    if k == 0 then start else mem(Follow(mem, start, k - 1) + 0x08)
  }

  /** The k-th offset ends the walk: a null next pointer, or one outside the region. */
  ghost predicate Ends(mem: Memory, start: nat, size: nat, k: nat) {
    var o := Chain(mem, start, k);
    (o == 0 && k != 0) || o >= size
  }

  ghost predicate Alive(mem: Memory, start: nat, size: nat, k: nat) {
    forall j: nat | j < k :: !Ends(mem, start, size, j)
  }

  /** The walk comes back, at step k, to an offset it has already visited. */
  ghost predicate LoopsAt(mem: Memory, start: nat, size: nat, k: nat) {
    && Alive(mem, start, size, k + 1)
    && exists j: nat :: j < k && Chain(mem, start, j) == Chain(mem, start, k)
  }

  ghost predicate Loops(mem: Memory, start: nat, size: nat) {
    exists k: nat :: LoopsAt(mem, start, size, k)
  }

  /** The three words of a block: its type, its version at offset 4, and the next pointer at offset 8. */
  ghost function Entry(mem: Memory, base: nat, o: nat): RegBlock {
    RegBlock(mem(o), mem(o + 0x04), base, base + o)
  }

  /** The first k entries of the chain, in order. */
  ghost predicate Holds(list: seq<RegBlock>, mem: Memory, base: nat, start: nat, k: nat) {
    k <= |list| && forall j: nat | j < k :: list[j] == Entry(mem, base, Chain(mem, start, j))
  }

  ghost predicate Distinct(mem: Memory, start: nat, k: nat) {
    forall i: nat, j: nat | i < j < k :: Chain(mem, start, i) != Chain(mem, start, j)
  }

  /** The offsets of the words read from the first k blocks of the chain. */
  ghost function WordsRead(mem: Memory, start: nat, k: nat): set<nat> {
    if k == 0 then {}
    else WordsRead(mem, start, k - 1) + BlockWords(Chain(mem, start, k - 1))
  }

  ghost function BlockWords(o: nat): set<nat> { {o, o + 0x04, o + 0x08} }

  /** The four-byte words at these offsets lie inside the region. */
  predicate Inside(words: set<nat>, size: nat) { forall o | o in words :: o + 4 <= size }

  /** The first k blocks of the chain lie inside the region, with all of their three words. */
  ghost predicate BlocksInside(mem: Memory, start: nat, size: nat, k: nat) {
    forall j: nat | j < k :: Chain(mem, start, j) + 12 <= size
  }

  lemma InsideBoth(a: set<nat>, o: nat, size: nat)
    ensures Inside(a + BlockWords(o), size) <==> Inside(a, size) && o + 12 <= size
  {
    var b := BlockWords(o);
    assert o + 0x08 in b;
    if Inside(a + b, size) {
      assert forall x | x in a :: x in a + b;
      assert o + 0x08 in a + b;
    }
  }

  /** Every read stays inside the region exactly when no block starts in its last eleven bytes. */
  lemma {:induction false} ReadsInsideIff(mem: Memory, start: nat, size: nat, k: nat)
    ensures Inside(WordsRead(mem, start, k), size) <==> BlocksInside(mem, start, size, k)
  {
    if k > 0 {
      var before, last := WordsRead(mem, start, k - 1), Chain(mem, start, k - 1);
      ReadsInsideIff(mem, start, size, k - 1);
      InsideBoth(before, last, size);
    }
  }

  // ---------------------------------------------------------------- a chain without repetition is short

  ghost function Below(n: nat): (s: set<nat>)
    ensures |s| == n && forall x: nat :: x in s <==> x < n
  {
    if n == 0 then {} else Below(n - 1) + {n - 1}
  }

  lemma SubsetSize(a: set<nat>, b: set<nat>)
    requires a <= b
    ensures |a| <= |b|
    decreases b
  {
    if b != {} {
      var x :| x in b;
      SubsetSize(a - {x}, b - {x});
    }
  }

  lemma {:induction false} VisitedSet(mem: Memory, start: nat, k: nat) returns (s: set<nat>)
    requires Distinct(mem, start, k)
    ensures |s| == k
    ensures forall x :: x in s <==> exists j: nat :: j < k && Chain(mem, start, j) == x
  {
    if k == 0 {
      s := {};
    } else {
      var t := VisitedSet(mem, start, k - 1);
      s := t + {Chain(mem, start, k - 1)};
      forall x | x in s
        ensures exists j: nat :: j < k && Chain(mem, start, j) == x
      {
        if x in t {
          var j: nat :| j < k - 1 && Chain(mem, start, j) == x;
        }
      }
    }
  }

  /** Distinct offsets below `size` are at most `size` many: the measure of the walk. */
  lemma WalkIsBounded(mem: Memory, start: nat, size: nat, k: nat)
    requires Distinct(mem, start, k) && Alive(mem, start, size, k)
    ensures k <= size
  {
    var s := VisitedSet(mem, start, k);
    forall x | x in s
      ensures x in Below(size)
    {
      var j: nat :| j < k && Chain(mem, start, j) == x;
      assert !Ends(mem, start, size, j);
    }
    SubsetSize(s, Below(size));
  }

  // ---------------------------------------------------------------- the walk

  method AlreadySeen(list: array<RegBlock>, count: nat, ptr: nat) returns (seen: bool, k: nat)
    requires count <= list.Length
    ensures seen ==> k < count && list[k].regs == ptr
    ensures !seen ==> forall j | 0 <= j < count :: list[j].regs != ptr
  {
    k := 0;
    while k < count
      invariant k <= count
      invariant forall j | 0 <= j < k :: list[j].regs != ptr
    {
      if ptr == list[k].regs {
        return true, k;
      }
      k := k + 1;
    }
    return false, k;
  }

  /** realloc: a larger array with the old contents in front and arbitrary contents behind. */
  method Grow(list: array<RegBlock>, capacity: nat) returns (r: array<RegBlock>)
    requires capacity >= list.Length
    ensures fresh(r) && r.Length == capacity && r[..list.Length] == list[..]
  {
    r := new RegBlock[capacity];
    for i := 0 to list.Length
      invariant r[..i] == list[..i]
    {
      r[i] := list[i];
    }
    assert list[..] == list[..list.Length];
  }

  /** Store an entry, then make room so that the next slot exists. */
  method Append(list: array<RegBlock>, count: nat, entry: RegBlock) returns (r: array<RegBlock>)
    requires count < list.Length
    modifies list
    ensures count + 1 < r.Length && (r == list || fresh(r))
    ensures r[..count + 1] == old(list[..count]) + [entry]
  {
    list[count] := entry;
    r := list;
    assert list[..count + 1] == old(list[..count]) + [entry];
    if count + 1 >= list.Length {
      r := Grow(list, list.Length + 4);
      assert r[..count + 1] == list[..][..count + 1];
    }
  }

  /** What the walk has established after reading |entries| blocks. */
  ghost predicate Walked(entries: seq<RegBlock>, mem: Memory, base: nat, start: nat, size: nat) {
    && |entries| <= size
    && Alive(mem, start, size, |entries|) && Distinct(mem, start, |entries|)
    && Holds(entries, mem, base, start, |entries|)
  }

  lemma StepExtends(entries: seq<RegBlock>, mem: Memory, base: nat, start: nat, size: nat)
    requires Walked(entries, mem, base, start, size)
    requires !Ends(mem, start, size, |entries|)
    requires forall j | 0 <= j < |entries| :: entries[j].regs != base + Chain(mem, start, |entries|)
    ensures Walked(entries + [Entry(mem, base, Chain(mem, start, |entries|))], mem, base, start, size)
    ensures |entries| < size
    ensures Chain(mem, start, |entries| + 1) == mem(Chain(mem, start, |entries|) + 0x08)
  {
    NewIsDistinct(entries, mem, base, start, size);
    WalkIsBounded(mem, start, size, |entries| + 1);
  }

  lemma NewIsDistinct(entries: seq<RegBlock>, mem: Memory, base: nat, start: nat, size: nat)
    requires Walked(entries, mem, base, start, size)
    requires forall j | 0 <= j < |entries| :: entries[j].regs != base + Chain(mem, start, |entries|)
    ensures Distinct(mem, start, |entries| + 1)
  {
    var k := |entries|;
    forall j: nat | j < k
      ensures Chain(mem, start, j) != Chain(mem, start, k)
    {
      assert entries[j].regs == base + Chain(mem, start, j);
    }
  }

  lemma RevisitLoops(entries: seq<RegBlock>, mem: Memory, base: nat, start: nat, size: nat, k: nat)
    requires Walked(entries, mem, base, start, size)
    requires !Ends(mem, start, size, |entries|)
    requires k < |entries| && entries[k].regs == base + Chain(mem, start, |entries|)
    ensures LoopsAt(mem, start, size, |entries|)
  {
    assert Chain(mem, start, k) == Chain(mem, start, |entries|);
  }

  lemma EndMeansNoLoop(mem: Memory, start: nat, size: nat, n: nat)
    requires Ends(mem, start, size, n) && Distinct(mem, start, n)
    ensures !Loops(mem, start, size)
  {
  }

  /** Read the block at `offset`, unless its address is already in the list. */
  method Visit(mem: Memory, base: nat, offset: nat, list: array<RegBlock>, count: nat, ghost start: nat,
               ghost size: nat)
    returns (seen: bool, r: array<RegBlock>, next: nat, ghost words: set<nat>)
    requires count < list.Length && offset == Chain(mem, start, count) && !Ends(mem, start, size, count)
    requires Walked(list[..count], mem, base, start, size)
    modifies list
    ensures seen ==> LoopsAt(mem, start, size, count)
    ensures !seen ==>
              && (r == list || fresh(r)) && count < size && count + 1 < r.Length
              && Walked(r[..count + 1], mem, base, start, size)
              && next == Chain(mem, start, count + 1) && words == BlockWords(offset)
  {
    ghost var entries := list[..count];
    var k;
    seen, k := AlreadySeen(list, count, base + offset);
    r, next, words := list, offset, {};
    if seen {
      RevisitLoops(entries, mem, base, start, size, k);
    } else {
      StepExtends(entries, mem, base, start, size);
      var entry;
      entry, next, words := ReadBlock(mem, base, offset);
      r := Append(list, count, entry);
    }
  }

  /** The three reads of a block. */
  method ReadBlock(mem: Memory, base: nat, offset: nat) returns (entry: RegBlock, next: nat, ghost words: set<nat>)
    ensures entry == Entry(mem, base, offset) && next == mem(offset + 0x08) && words == BlockWords(offset)
  {
    var rtype, version;
    rtype, words := ReadWord(mem, offset + RB_REG_TYPE, {});
    version, words := ReadWord(mem, offset + RB_REG_VER, words);
    next, words := ReadWord(mem, offset + RB_REG_NEXT_PTR, words);
    entry := RegBlock(rtype, version, base, base + offset);
  }

  /** A read of the mapped region, added to the reads so far. */
  method ReadWord(mem: Memory, offset: nat, ghost words: set<nat>) returns (w: nat, ghost words': set<nat>)
    ensures w == mem(offset) && words' == words + {offset}
  {
    w, words' := mem(offset), words + {offset};
  }

  /** Succeeds exactly when the chain does not loop, and then returns the chain in order followed by a terminator that
      lies inside the allocated capacity.  Its reads stay inside the region exactly when no block that it visits starts
      in the last eleven bytes. */
  method Enumerate(mem: Memory, base: nat, start: nat, size: nat)
    returns (r: Option<array<RegBlock>>, count: nat, ghost words: set<nat>)
    requires base > 0
    ensures r.None? <==> Loops(mem, start, size)
    ensures r.Some? ==>
              && Alive(mem, start, size, count) && Ends(mem, start, size, count)
              && count < r.value.Length && r.value[count] == RegBlock(0, 0, 0, 0)
              && Holds(r.value[..count], mem, base, start, count)
    ensures r.None? ==> LoopsAt(mem, start, size, count)
    ensures Distinct(mem, start, count) && words == WordsRead(mem, start, count)
    ensures Inside(words, size) <==> BlocksInside(mem, start, size, count)
  {
    var list := new RegBlock[8](_ => EMPTY);
    var offset := start;
    count, words := 0, {};
    while true
      invariant fresh(list) && count < list.Length
      invariant offset == Chain(mem, start, count) && words == WordsRead(mem, start, count)
      invariant Walked(list[..count], mem, base, start, size)
      decreases size - count
    {
      ghost var entries := list[..count];
      list[count] := EMPTY;
      assert list[..count] == entries;
      if (offset == 0 && count != 0) || offset >= size {
        EndMeansNoLoop(mem, start, size, count);
        ReadsInsideIff(mem, start, size, count);
        return Some(list), count, words;
      }
      var seen, next;
      ghost var block;
      seen, list, next, block := Visit(mem, base, offset, list, count, start, size);
      if seen {
        ReadsInsideIff(mem, start, size, count);
        return None, count, words;
      }
      words := words + block;
      offset := next;
      count := count + 1;
    }
  }

  /** The bound that is checked does not keep the reads inside: a first block in the last four bytes is read. */
  lemma LastWordIsRead(mem: Memory, size: nat, count: nat)
    requires size > 4 && (Ends(mem, size - 4, size, count) || LoopsAt(mem, size - 4, size, count))
    ensures !Inside(WordsRead(mem, size - 4, count), size)
  {
    assert Chain(mem, size - 4, 0) == size - 4;
    ReadsInsideIff(mem, size - 4, size, count);
  }

  // ---------------------------------------------------------------- lookup

  predicate Matches(b: RegBlock, rtype: nat, version: nat) {
    b.rtype == rtype && (version == 0 || b.version == version)
  }

  function MatchCount(list: seq<RegBlock>, rtype: nat, version: nat): (n: nat)
    ensures n <= |list|
  {
    if list == [] then 0
    else MatchCount(list[..|list| - 1], rtype, version) + if Matches(list[|list| - 1], rtype, version) then 1 else 0
  }

  lemma {:induction false} MatchCountMonotone(list: seq<RegBlock>, i: nat, rtype: nat, version: nat)
    requires i <= |list|
    ensures MatchCount(list[..i], rtype, version) <= MatchCount(list, rtype, version)
  {
    if i == |list| {
      assert list[..i] == list;
    } else {
      assert list[..|list| - 1][..i] == list[..i];
      MatchCountMonotone(list[..|list| - 1], i, rtype, version);
    }
  }

  /** The index-th matching entry (a negative index counts as zero), or null exactly when the list
      holds too few matches. */
  method Find(list: array<RegBlock>, ghost n: nat, rtype: nat, version: nat, index: int) returns (r: Option<nat>)
    requires n < list.Length && list[n].regs == 0
    requires forall j | 0 <= j < n :: list[j].regs != 0
    ensures r.Some? ==>
              && r.value < n && Matches(list[r.value], rtype, version)
              && MatchCount(list[..r.value], rtype, version) == if index > 0 then index else 0
    ensures r.None? <==> MatchCount(list[..n], rtype, version) <= if index > 0 then index else 0
  {
    var rb: nat, left := 0, index;
    ghost var want := if index > 0 then index else 0;
    while list[rb].regs != 0
      invariant rb <= n
      invariant left == index - MatchCount(list[..rb], rtype, version) || (index <= 0 && left == index)
      invariant MatchCount(list[..rb], rtype, version) <= want
      decreases n - rb
    {
      assert list[..rb + 1][..rb] == list[..rb];
      if list[rb].rtype == rtype && (version == 0 || list[rb].version == version) {
        if left > 0 {
          left := left - 1;
        } else {
          MatchCountMonotone(list[..n], rb + 1, rtype, version);
          assert list[..n][..rb + 1] == list[..rb + 1];
          return Some(rb);
        }
      }
      rb := rb + 1;
    }
    return None;
  }
}
