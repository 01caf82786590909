/** The `Heap` of src/lib.rs:36-111: a region of memory and a book of 32
    slots, each absent or holding a free block. `Alloc` carves requests out of
    the first large-enough slot, `Dealloc` records a freed block in the first
    absent slot and then sorts the book by the strategy's key. */
module Allocator {
  import opened Wrappers
  import opened Blocks
  import opened Alignment
  import opened FreeList
  import opened QuickSorts

  class Heap {
    /** `start` and `size` of the managed region, recorded by `Init`. */
    var start: nat
    var size: nat
    /** The placement strategy. In the source it is the global `ALLOC_TYPE`,
        shared by every heap; here it belongs to the one heap `Init` set it on. */
    var strategy: AllocType
    var book: array<Option<Block>>

    /** The book has its 32 slots and its absent slots form a tail. */
    ghost predicate Valid()
      reads this, book
    {
      book.Length == Capacity && PresentPrefix(book[..])
    }

    /** `Heap::empty` (src/lib.rs:45-51), with `ALLOC_TYPE` at its initial
        value `First`. */
    constructor Empty()
      ensures Valid() && fresh(book)
      ensures start == 0 && size == 0 && strategy == First
      ensures forall i :: 0 <= i < book.Length ==> book[i].None?
    {
      start, size, strategy := 0, 0, First;
      book := new Option<Block>[Capacity](_ => None);
    }

    /** `Heap::init` (src/lib.rs:53-58): records the strategy and the region
        and puts the whole region into slot 0, leaving the other slots alone. */
    method Init(allocatorType: AllocType, heapStart: nat, heapSize: nat)
      requires Valid()
      modifies this, book
      ensures Valid() && book == old(book)
      ensures strategy == allocatorType && start == heapStart && size == heapSize
      ensures book[..] == old(book[..])[0 := Some(New(heapStart, heapSize))]
    {
      strategy := allocatorType;
      start := heapStart;
      size := heapSize;
      book[0] := Some(New(heapStart, heapSize));
    }

    /** `alloc` (src/lib.rs:69-91): the loop over the slots, returning the
        aligned start of the first block strictly larger than the request and
        writing back what is left of it. The requires `CarveDefined` excludes
        the runs that panic (the size subtraction underflowing, a null start). */
    method Alloc(required: nat, align: nat) returns (r: Result<nat, AllocErr>)
      requires Valid() && IsPowerOfTwo(align) && CarveDefined(book[..], required, align)
      modifies book
      ensures Valid()
      ensures r == Carve(old(book[..]), required, align).result
      ensures book[..] == Carve(old(book[..]), required, align).book
      ensures r.Success? ==> FreeBytes(book[..]) + AlignUp(required, align).value == FreeBytes(old(book[..]))
    {
      var alignSize := AlignUp(required, align).value;
      CarveFreeBytes(book[..], required, align);
      for i := 0 to book.Length
        invariant book[..] == old(book[..])
        invariant forall j :: 0 <= j < i ==> !Fits(book[j], required)
      {
        if book[i].Some? && book[i].value.size > required {
          CarveTakesLowestFit(book[..], required, align, i);
          var bookSize := book[i].value.size;
          var bookStart := book[i].value.start;
          var alignBookStart := AlignUp(bookStart, align).value;
          var newSize := bookSize - alignSize;
          var newStart := alignBookStart + alignSize;
          book[i] := Some(New(newStart, newSize));
          return Success(alignBookStart);
        }
      }
      return Failure(AllocErr);
    }

    /** `dealloc` (src/lib.rs:93-111): the freed block goes into the first
        absent slot (and is dropped when there is none), then the book is sorted
        by the strategy's key. The sort only moves anything when all 32 slots
        end up present; otherwise the book is exactly `Record`'s. */
    method Dealloc(ptr: nat, required: nat)
      requires Valid()
      modifies book
      ensures Valid()
      ensures multiset(book[..]) == multiset(Record(old(book[..]), New(ptr, required)))
      ensures AllPresent(Record(old(book[..]), New(ptr, required)), 0, Capacity - 1) ==>
        Ordered(strategy, book[..], 0, Capacity - 1)
      ensures !AllPresent(Record(old(book[..]), New(ptr, required)), 0, Capacity - 1) ==>
        book[..] == Record(old(book[..]), New(ptr, required))
      ensures FreeBytes(book[..]) ==
        FreeBytes(old(book[..])) + if old(book[Capacity - 1]).None? then required else 0
    {
      ghost var recorded := Record(book[..], New(ptr, required));
      RecordFreeBytes(book[..], New(ptr, required));
      var len := book.Length;
      for i := 0 to book.Length
        invariant book[..] == old(book[..])
        invariant forall j :: 0 <= j < i ==> book[j].Some?
      {
        if book[i].None? {
          var newStart := ptr;
          book[i] := Some(New(newStart, required));
          assert IsLowestAbsent(old(book[..]), i);
          assert book[..] == recorded;
          break;
        }
      }
      SortByStrategy(len);
      FreeBytesPermutation(recorded, book[..]);
    }

    /** The `match ALLOC_TYPE` of src/lib.rs:104-109: sort the whole book with
        the strategy's quicksort. */
    method SortByStrategy(len: nat)
      requires book.Length == Capacity && len == book.Length && PresentPrefix(book[..])
      modifies book
      ensures PresentPrefix(book[..]) && multiset(book[..]) == multiset(old(book[..]))
      ensures AllPresent(old(book[..]), 0, len - 1) ==> Ordered(strategy, book[..], 0, len - 1)
      ensures !AllPresent(old(book[..]), 0, len - 1) ==> book[..] == old(book[..])
    {
      match strategy {
        case First => QuickSortForFirst(book, 0, len - 1);
        case Best => QuickSortForBest(book, 0, len - 1);
        case Worst => QuickSortForWorst(book, 0, len - 1);
      }
      if AllPresent(old(book[..]), 0, len - 1) {
        OrderedMeans(strategy, book[..], 0, len - 1);
      }
    }
  }
}
