/** Client sequences of calls on a fresh `Heap`, each with the results the
    code as written produces. */
module Scenarios {
  import opened Wrappers
  import opened Blocks
  import opened Alignment
  import opened FreeList
  import opened Allocator

  lemma PowersOfTwo()
    ensures IsPowerOfTwo(1) && IsPowerOfTwo(8)
  {
    assert IsPowerOfTwo(4) by { assert IsPowerOfTwo(2); }
  }

  /** A 256-byte heap at 0x1000 under First: a 32-byte request aligned to 8
      gets 0x1000, and slot 0 then holds the 224 bytes starting at 0x1020. */
  method FirstFitScenario() returns (p: Result<nat, AllocErr>, rest: Option<Block>)
    ensures p == Success(0x1000) && rest == Some(Block(0x1020, 224))
  {
    PowersOfTwo();
    var h := new Heap.Empty();
    h.Init(First, 0x1000, 256);
    assert SelectSlot(h.book[..], 32, 0) == Some(0);
    assert AlignUp(32, 8).value == 32;
    assert AlignUp(0x1000, 8).value == 0x1000;
    p := h.Alloc(32, 8);
    rest := h.book[0];
  }

  /** Asking for exactly the size of the only free block fails: eligibility is
      a strictly larger block. */
  method ExactSizeScenario() returns (p: Result<nat, AllocErr>)
    ensures p == Failure(AllocErr)
  {
    PowersOfTwo();
    var h := new Heap.Empty();
    h.Init(First, 0x1000, 256);
    assert SelectSlot(h.book[..], 256, 0) == None by {
      assert forall j :: 0 <= j < Capacity ==> !Fits(h.book[j], 256);
    }
    p := h.Alloc(256, 1);
  }

  /** A 100-byte heap at address 1 under First, ending at 101. A 1-byte
      request aligned to 8 gets 8 and leaves a remainder (16, 92) claiming bytes
      up to 108. Requests of 80 and 8 bytes then get 16 and 96, and a further
      1-byte request is handed address 104, past the region's end. */
  method OverrunScenario() returns (p: Result<nat, AllocErr>, regionEnd: nat)
    ensures regionEnd == 101 && p == Success(104)
  {
    PowersOfTwo();
    var h := new Heap.Empty();
    h.Init(First, 1, 100);
    regionEnd := h.start + h.size;
    assert SelectSlot(h.book[..], 1, 0) == Some(0);
    assert AlignUp(1, 8).value == 8;
    var a := h.Alloc(1, 8);
    assert h.book[0] == Some(Block(16, 92));
    AllocFromSlotZero(h.book[..], 80);
    var b := h.Alloc(80, 1);
    assert h.book[0] == Some(Block(96, 12));
    AllocFromSlotZero(h.book[..], 8);
    var c := h.Alloc(8, 1);
    assert h.book[0] == Some(Block(104, 4));
    AllocFromSlotZero(h.book[..], 1);
    p := h.Alloc(1, 1);
  }

  /** `Alloc` of `required` bytes with alignment 1 on a book whose slot 0 holds
      a block larger than the request: slot 0 serves it. */
  lemma AllocFromSlotZero(book: Book, required: nat)
    requires |book| == Capacity && Fits(book[0], required)
    ensures IsPowerOfTwo(1) && CarveDefined(book, required, 1) ==>
      Carve(book, required, 1) ==
        Outcome(Success(book[0].value.start),
                book[0 := Some(Block(book[0].value.start + required, book[0].value.size - required))])
  {
    PowersOfTwo();
    assert SelectSlot(book, required, 0) == Some(0);
    if CarveDefined(book, required, 1) {
      CarveTakesLowestFit(book, required, 1, 0);
    }
  }

  /** The first half of the Best scenario: 50, 10 and 100 bytes carved in turn
      from the front of slot 0. */
  method CarveThree(h: Heap)
    requires h.Valid() && h.book[..] == [Some(Block(0x2000, 300))] + seq(Capacity - 1, _ => None)
    modifies h.book
    ensures h.Valid() && h.book[..] == [Some(Block(0x20A0, 140))] + seq(Capacity - 1, _ => None)
  {
    ghost var none := seq(Capacity - 1, _ => None);
    AllocFromSlotZero(h.book[..], 50);
    var a := h.Alloc(50, 1);
    assert h.book[..] == [Some(Block(0x2032, 250))] + none;
    AllocFromSlotZero(h.book[..], 10);
    var b := h.Alloc(10, 1);
    assert h.book[..] == [Some(Block(0x203C, 240))] + none;
    AllocFromSlotZero(h.book[..], 100);
    var c := h.Alloc(100, 1);
  }

  /** Freeing `b` into a heap whose book holds `present` and then absent slots
      appends it and moves nothing else. */
  method FreeOne(h: Heap, present: Book, b: Block)
    requires 0 < |present| < Capacity - 1 && forall j :: 0 <= j < |present| ==> present[j].Some?
    requires h.Valid() && h.book[..] == present + seq(Capacity - |present|, _ => None)
    modifies h.book
    ensures h.Valid() && h.book[..] == present + [Some(b)] + seq(Capacity - |present| - 1, _ => None)
  {
    Freed(h.book[..], present, b);
    h.Dealloc(b.start, b.size);
  }

  /** The second half of the Best scenario: the three pieces are freed again,
      and each lands in the next absent slot without any reordering. */
  method FreeThree(h: Heap)
    requires h.Valid() && h.book[..] == [Some(Block(0x20A0, 140))] + seq(Capacity - 1, _ => None)
    modifies h.book
    ensures h.Valid() && h.book[0] == Some(Block(0x20A0, 140))
  {
    var tail := [Some(Block(0x20A0, 140))];
    FreeOne(h, tail, Block(0x2000, 50));
    tail := tail + [Some(Block(0x2000, 50))];
    FreeOne(h, tail, Block(0x2032, 10));
    tail := tail + [Some(Block(0x2032, 10))];
    FreeOne(h, tail, Block(0x203C, 100));
  }

  /** A 300-byte heap at 0x2000 under Best, carved into 50, 10 and 100 bytes
      which are then freed again. With only four slots present the sorts after
      each free move nothing, so slot 0 still holds the untouched 140-byte tail
      and a 9-byte request is served from it, not from the freed 10-byte block. */
  method BestFitScenario() returns (p: Result<nat, AllocErr>)
    ensures p == Success(0x20A0)
  {
    var h := new Heap.Empty();
    h.Init(Best, 0x2000, 300);
    assert h.book[..] == [Some(Block(0x2000, 300))] + seq(Capacity - 1, _ => None);
    CarveThree(h);
    FreeThree(h);
    AllocFromSlotZero(h.book[..], 9);
    PowersOfTwo();
    p := h.Alloc(9, 1);
  }

  /** `Dealloc` on a book of a few present blocks followed by absent slots only
      appends: the freed block lands right after the present ones and the sort
      leaves the book as it is. */
  lemma Freed(book: Book, present: Book, b: Block)
    requires 0 < |present| < Capacity - 1 && forall j :: 0 <= j < |present| ==> present[j].Some?
    requires book == present + seq(Capacity - |present|, _ => None)
    ensures var r := present + [Some(b)] + seq(Capacity - |present| - 1, _ => None);
      && PresentPrefix(book) && Record(book, b) == r
      && !AllPresent(r, 0, Capacity - 1)
  {
    var r := present + [Some(b)] + seq(Capacity - |present| - 1, _ => None);
    RecordFillsTail(book, b, |present|);
    assert book[|present| := Some(b)] == r;
    RecordFull(book, b);
  }
}
