/** The book of `src/lib.rs` seen as a value: its 32 nullable slots, the slot
    `alloc` picks, the block it writes back, the slot `dealloc` fills, the order
    each strategy's sort aims for, and how many free bytes the book records. */
module FreeList {
  import opened Wrappers
  import opened Blocks
  import opened Alignment

  /** The length of `book: [Option<Block>; 32]`. */
  const Capacity: nat := 32

  /** `AllocType` (src/lib.rs:29-33): the placement strategy. */
  datatype AllocType = First | Best | Worst

  /** `AllocErr`: no present slot is large enough. */
  datatype AllocErr = AllocErr

  type Book = seq<Option<Block>>

  /** Absent slots form a contiguous tail: after an absent slot, every slot is absent. */
  ghost predicate PresentPrefix(book: Book)
  {
    forall i, j :: 0 <= i < j < |book| && book[i].None? ==> book[j].None?
  }

  /** Every slot from `lo` to `hi` (both included) holds a block. */
  ghost predicate AllPresent(book: Book, lo: nat, hi: nat)
    requires hi < |book|
  {
    forall i :: lo <= i <= hi ==> book[i].Some?
  }

  // ---------------------------------------------------------------- ordering

  /** The key each strategy's quicksort orders by, ascending: the start address
      for First, the size for Best, and the negated size for Worst (whose sort
      puts larger blocks first). */
  function Key(st: AllocType, b: Block): int
  {
    match st
    case First => b.start
    case Best => b.size
    case Worst => -(b.size as int)
  }

  /** Slots `lo..hi` (both included) hold blocks in ascending key order. */
  ghost predicate Ordered(st: AllocType, book: Book, lo: nat, hi: nat)
    requires hi < |book|
  {
    forall i, j :: lo <= i < j <= hi ==>
      book[i].Some? && book[j].Some? && Key(st, book[i].value) <= Key(st, book[j].value)
  }

  /** What `Ordered` means for each strategy, in the fields the source compares. */
  lemma OrderedMeans(st: AllocType, book: Book, lo: nat, hi: nat)
    requires hi < |book| && AllPresent(book, lo, hi)
    ensures st == First ==>
      (Ordered(st, book, lo, hi) <==>
         forall i, j :: lo <= i < j <= hi ==> book[i].value.start <= book[j].value.start)
    ensures st == Best ==>
      (Ordered(st, book, lo, hi) <==>
         forall i, j :: lo <= i < j <= hi ==> book[i].value.size <= book[j].value.size)
    ensures st == Worst ==>
      (Ordered(st, book, lo, hi) <==>
         forall i, j :: lo <= i < j <= hi ==> book[i].value.size >= book[j].value.size)
  {
  }

  // ---------------------------------------------------------------- alloc

  /** The test of src/lib.rs:77: the slot holds a block strictly larger than the
      request (unaligned). */
  predicate Fits(slot: Option<Block>, required: nat)
  {
    slot.Some? && slot.value.size > required
  }

  /** The scan of src/lib.rs:76-77 from index `from`: the lowest slot that fits. */
  function SelectSlot(book: Book, required: nat, from: nat): (r: Option<nat>)
    requires from <= |book|
    ensures r.Some? ==>
      from <= r.value < |book| && Fits(book[r.value], required) &&
      forall j :: from <= j < r.value ==> !Fits(book[j], required)
    ensures r.None? <==> forall j :: from <= j < |book| ==> !Fits(book[j], required)
    decreases |book| - from
  {
    if from == |book| then None
    else if Fits(book[from], required) then Some(from)
    else SelectSlot(book, required, from + 1)
  }

  /** When `alloc` runs to completion: the aligned size must not exceed the chosen
      block (src/lib.rs:82 subtracts it) and the aligned start must not be null
      (src/lib.rs:85-86 unwraps it). */
  predicate CarveDefined(book: Book, required: nat, align: nat)
    requires IsPowerOfTwo(align)
  {
    match SelectSlot(book, required, 0)
    case None => true
    case Some(i) =>
      AlignUp(required, align).value <= book[i].value.size &&
      AlignUp(book[i].value.start, align).value != 0
  }

  /** The block written back into the chosen slot (src/lib.rs:79-84): what is
      left after cutting the aligned request from the aligned start. */
  function Remainder(chosen: Block, required: nat, align: nat): Block
    requires IsPowerOfTwo(align)
    requires AlignUp(required, align).value <= chosen.size
  {
    var alignSize := AlignUp(required, align).value;
    var alignBookStart := AlignUp(chosen.start, align).value;
    New(alignBookStart + alignSize, chosen.size - alignSize)
  }

  /** What `alloc` returns and the book it leaves. */
  datatype Outcome = Outcome(result: Result<nat, AllocErr>, book: Book)

  /** `alloc` (src/lib.rs:69-91) as a function of the book. */
  function Carve(book: Book, required: nat, align: nat): (o: Outcome)
    requires IsPowerOfTwo(align) && CarveDefined(book, required, align)
    ensures |o.book| == |book|
    ensures o.result.Failure? <==> forall i :: 0 <= i < |book| ==> !Fits(book[i], required)
    ensures o.result.Failure? ==> o.book == book
    ensures o.result.Success? ==> o.result.value % align == 0 && o.result.value > 0
    ensures PresentPrefix(book) ==> PresentPrefix(o.book)
  {
    match SelectSlot(book, required, 0)
    case None => Outcome(Failure(AllocErr), book)
    case Some(i) =>
      Outcome(Success(AlignUp(book[i].value.start, align).value),
              book[i := Some(Remainder(book[i].value, required, align))])
  }

  /** On success `alloc` uses the lowest slot holding a block strictly larger
      than the request, returns that block's aligned start and rewrites that one
      slot with the remainder; every other slot is unchanged. */
  lemma CarveTakesLowestFit(book: Book, required: nat, align: nat, i: nat)
    requires IsPowerOfTwo(align) && CarveDefined(book, required, align)
    requires i < |book| && Fits(book[i], required)
    requires forall j :: 0 <= j < i ==> !Fits(book[j], required)
    ensures Carve(book, required, align).result == Success(AlignUp(book[i].value.start, align).value)
    ensures Carve(book, required, align).book ==
              book[i := Some(Remainder(book[i].value, required, align))]
  {
    assert SelectSlot(book, required, 0) == Some(i);
  }

  /** A slot holding exactly the requested size is never chosen: its contents
      survive `alloc` untouched. */
  lemma ExactFitNeverChosen(book: Book, required: nat, align: nat, i: nat)
    requires IsPowerOfTwo(align) && CarveDefined(book, required, align)
    requires i < |book| && book[i].Some? && book[i].value.size == required
    ensures Carve(book, required, align).book[i] == book[i]
  {
    var sel := SelectSlot(book, required, 0);
    assert sel.Some? ==> sel.value != i;
  }

  /** The returned address is aligned, at or after the chosen block's start and
      less than one alignment unit past it; for a non-empty request it lies
      inside the chosen block. A zero-byte request is not bounded by the block:
      `EmptyRequestOutsideBlock` shows one handed an address past its end. */
  lemma CarveAddress(book: Book, required: nat, align: nat, i: nat)
    requires IsPowerOfTwo(align) && CarveDefined(book, required, align)
    requires SelectSlot(book, required, 0) == Some(i)
    ensures var addr := Carve(book, required, align).result.value;
      && addr % align == 0
      && book[i].value.start <= addr < book[i].value.start + align
      && (required > 0 ==> addr < book[i].value.start + book[i].value.size)
  {
    if required > 0 {
      AlignUpOfPositive(required, align);
    }
  }

  /** A concrete case: a zero-byte request aligned to 8 against a 1-byte block
      at address 1. `align_up(0, 8)` is 0, so the 1-byte block still fits, and
      the returned address 8 and the remainder (8, 1) both lie outside the
      chosen block, which covers only address 1. */
  lemma EmptyRequestOutsideBlock()
    ensures var book := [Some(Block(1, 1))];
      && CarveDefined(book, 0, 8)
      && Carve(book, 0, 8) == Outcome(Success(8), [Some(Block(8, 1))])
      && Carve(book, 0, 8).result.value >= book[0].value.start + book[0].value.size
  {
    assert IsPowerOfTwo(8) by {
      assert IsPowerOfTwo(4) by { assert IsPowerOfTwo(2); }
    }
    assert AlignUp(0, 8).value == 0;
    assert AlignUp(1, 8).value == 8;
    assert SelectSlot([Some(Block(1, 1))], 0, 0) == Some(0);
  }

  /** The remainder starts right after the returned allocation and ends where
      the chosen block ended plus the alignment padding: whenever the chosen
      start was unaligned, the book now claims bytes past the old block. */
  lemma RemainderOverrun(book: Book, required: nat, align: nat, i: nat)
    requires IsPowerOfTwo(align) && CarveDefined(book, required, align)
    requires SelectSlot(book, required, 0) == Some(i)
    ensures var o := Carve(book, required, align);
      var chosen, rest := book[i].value, o.book[i].value;
      var padding := o.result.value - chosen.start;
      && rest.start == o.result.value + AlignUp(required, align).value
      && rest.start + rest.size == chosen.start + chosen.size + padding
      && (chosen.start % align != 0 ==> padding > 0)
  {
  }

  /** A concrete case: a 100-byte block at address 1, asked for 1 byte aligned
      to 8, returns 8 and leaves a remainder ending at 108, past the block's end
      at 101. */
  lemma RemainderOverrunExample()
    ensures var book := [Some(Block(1, 100))];
      && CarveDefined(book, 1, 8)
      && Carve(book, 1, 8) == Outcome(Success(8), [Some(Block(16, 92))])
  {
    assert IsPowerOfTwo(8) by {
      assert IsPowerOfTwo(4) by { assert IsPowerOfTwo(2); }
    }
    assert AlignUp(1, 8).value == 8;
    assert SelectSlot([Some(Block(1, 100))], 1, 0) == Some(0);
  }

  // ---------------------------------------------------------------- dealloc

  /** The scan of src/lib.rs:97-98 from index `from`: the lowest absent slot. */
  function FirstAbsent(book: Book, from: nat): (r: Option<nat>)
    requires from <= |book|
    ensures r.Some? ==>
      from <= r.value < |book| && book[r.value].None? &&
      forall j :: from <= j < r.value ==> book[j].Some?
    ensures r.None? <==> forall j :: from <= j < |book| ==> book[j].Some?
    decreases |book| - from
  {
    if from == |book| then None
    else if book[from].None? then Some(from)
    else FirstAbsent(book, from + 1)
  }

  /** Slot `k` is the lowest absent one. */
  ghost predicate IsLowestAbsent(book: Book, k: nat)
  {
    k < |book| && book[k].None? && forall j :: 0 <= j < k ==> book[j].Some?
  }

  /** The first half of `dealloc` (src/lib.rs:97-103): the freed block goes into
      the lowest absent slot, and is dropped when every slot is taken. */
  function Record(book: Book, b: Block): (r: Book)
    ensures |r| == |book|
    ensures forall k :: 0 <= k < |book| ==>
      r[k] == if IsLowestAbsent(book, k) then Some(b) else book[k]
    ensures (forall k :: 0 <= k < |book| ==> book[k].Some?) ==> r == book
    ensures PresentPrefix(book) ==> PresentPrefix(r)
  {
    match FirstAbsent(book, 0)
    case Some(i) => book[i := Some(b)]
    case None => book
  }

  /** With absent slots at the tail, a book has room exactly when its last slot
      is absent, and then the freed block lands right after the present ones. */
  lemma RecordFillsTail(book: Book, b: Block, count: nat)
    requires PresentPrefix(book) && count < |book|
    requires forall j :: 0 <= j < count ==> book[j].Some?
    requires book[count].None?
    ensures Record(book, b) == book[count := Some(b)]
    ensures book[|book| - 1].None?
  {
    assert IsLowestAbsent(book, count);
    forall k | 0 <= k < |book| && k != count
      ensures !IsLowestAbsent(book, k)
    {
      if k > count {
        assert book[count].None?;
      }
    }
  }

  /** After `Record`, every slot of a prefix-shaped book is present exactly
      when at most one slot was absent before: with two or more absent slots the
      sort that follows in `dealloc` cannot get going. */
  lemma RecordFull(book: Book, b: Block)
    requires PresentPrefix(book) && |book| >= 2
    ensures AllPresent(Record(book, b), 0, |book| - 1) <==> book[|book| - 2].Some?
  {
    var r := Record(book, b);
    var last := |book| - 1;
    if book[last - 1].Some? {
      if book[last].None? {
        assert IsLowestAbsent(book, last);
      }
    } else {
      assert book[last].None?;
      assert !IsLowestAbsent(book, last);
    }
  }

  /** A concrete case: under any strategy, with a 64-byte block in slot 0 and a
      16-byte block in slot 1 (the book as left when fewer than 32 slots are
      present, so never sorted), a 9-byte request is served from the 64-byte
      block, not the closer 16-byte fit. */
  lemma FirstPresentFitWins()
    ensures var book := [Some(Block(0x1000, 64)), Some(Block(0x2000, 16))] + seq(Capacity - 2, _ => None);
      && CarveDefined(book, 9, 1)
      && Carve(book, 9, 1) ==
         Outcome(Success(0x1000), book[0 := Some(Block(0x1009, 55))])
  {
    var book := [Some(Block(0x1000, 64)), Some(Block(0x2000, 16))] + seq(Capacity - 2, _ => None);
    assert IsPowerOfTwo(1);
    assert SelectSlot(book, 9, 0) == Some(0);
  }

  // ---------------------------------------------------------------- free bytes

  /** The bytes a slot records as free. */
  function SlotBytes(slot: Option<Block>): nat
  {
    if slot.Some? then slot.value.size else 0
  }

  /** The total number of bytes the book records as free. */
  function FreeBytes(book: Book): nat
  {
    if book == [] then 0 else SlotBytes(book[0]) + FreeBytes(book[1..])
  }

  lemma {:induction false} FreeBytesUpdate(book: Book, i: nat, slot: Option<Block>)
    requires i < |book|
    ensures FreeBytes(book[i := slot]) + SlotBytes(book[i]) == FreeBytes(book) + SlotBytes(slot)
    decreases i
  {
    if i > 0 {
      assert book[i := slot][1..] == book[1..][i - 1 := slot];
      FreeBytesUpdate(book[1..], i - 1, slot);
    } else {
      assert book[i := slot][1..] == book[1..];
    }
  }

  lemma {:induction false} FreeBytesConcat(a: Book, b: Book)
    ensures FreeBytes(a + b) == FreeBytes(a) + FreeBytes(b)
    decreases |a|
  {
    if a != [] {
      assert (a + b)[1..] == a[1..] + b;
      FreeBytesConcat(a[1..], b);
    } else {
      assert a + b == b;
    }
  }

  /** Reordering the slots (as the quicksorts do) keeps the free-byte total. */
  lemma {:induction false} FreeBytesPermutation(s: Book, t: Book)
    requires multiset(s) == multiset(t)
    ensures FreeBytes(s) == FreeBytes(t)
    decreases |s|
  {
    if s == [] {
      assert |t| == |multiset(t)| == 0;
    } else {
      assert s[0] in multiset(t);
      var k :| 0 <= k < |t| && t[k] == s[0];
      var rest := t[..k] + t[k + 1..];
      assert t == t[..k] + [t[k]] + t[k + 1..];
      assert s == [s[0]] + s[1..];
      assert multiset(t) == multiset(t[..k]) + multiset{t[k]} + multiset(t[k + 1..]);
      assert multiset(s) == multiset{s[0]} + multiset(s[1..]);
      assert multiset(rest) == multiset(t[..k]) + multiset(t[k + 1..]);
      assert multiset(rest) == multiset(t) - multiset{t[k]};
      assert multiset(s[1..]) == multiset(s) - multiset{s[0]};
      FreeBytesPermutation(s[1..], rest);
      FreeBytesConcat(t[..k] + [t[k]], t[k + 1..]);
      FreeBytesConcat(t[..k], [t[k]]);
      FreeBytesConcat(t[..k], t[k + 1..]);
      assert FreeBytes([t[k]]) == SlotBytes(t[k]) by {
        assert [t[k]][1..] == [];
      }
    }
  }

  /** A successful `alloc` removes exactly the aligned request size from the
      free bytes the book records. */
  lemma CarveFreeBytes(book: Book, required: nat, align: nat)
    requires IsPowerOfTwo(align) && CarveDefined(book, required, align)
    ensures var o := Carve(book, required, align);
      o.result.Success? ==> FreeBytes(o.book) + AlignUp(required, align).value == FreeBytes(book)
  {
    var sel := SelectSlot(book, required, 0);
    if sel.Some? {
      var i := sel.value;
      FreeBytesUpdate(book, i, Some(Remainder(book[i].value, required, align)));
    }
  }

  /** Recording a freed block adds its size to the free bytes when a slot is
      absent; when the book is full the bytes are lost. */
  lemma RecordFreeBytes(book: Book, b: Block)
    ensures (exists k :: 0 <= k < |book| && book[k].None?) ==>
              FreeBytes(Record(book, b)) == FreeBytes(book) + b.size
    ensures (forall k :: 0 <= k < |book| ==> book[k].Some?) ==>
              FreeBytes(Record(book, b)) == FreeBytes(book)
  {
    var sel := FirstAbsent(book, 0);
    if sel.Some? {
      FreeBytesUpdate(book, sel.value, Some(b));
    }
  }
}
