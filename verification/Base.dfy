/** Outcomes shared by the model. A failed `assert` or `error` of the test framework, or an
    access the page protection refuses, ends the process; here it ends the computation with a
    `Failure`. */
module Base {

  datatype Failure =
    | BelowHeap         // new break before the heap start
    | BeyondLimit       // new break beyond the heap limit
    | StillAllocated    // a lowered break would give back tracked memory
    | EmptyRegion       // region with start >= end
    | RegionsOverlap    // a new region overlaps a tracked one
    | UnexpectedBuffer  // a request for zero bytes answered with a tracked buffer
    | NoBuffer          // non-zero request answered with NULL
    | NotCleared        // calloc buffer with a non-zero byte
    | Misaligned        // buffer not on an 8-byte boundary
    | OutsideHeap       // buffer not inside [heap, cur_brk)
    | UnknownPointer    // pointer that no tracked region contains
    | MiddleOfRegion    // pointer inside a region but not at its start
    | ContentsChanged   // a tracked byte lost its value
    | ContentsLost      // realloc did not keep the contents
    | PageFault         // an access to a page that is not accessible, NULL included
    | EndlessList       // the free list was relinked into a cycle

  datatype Result<+T> = Ok(value: T) | Err(failure: Failure) {
    predicate IsFailure() {
      Err?
    }

    function PropagateFailure<U>(): Result<U>
      requires Err?
    {
      Err(failure)
    }

    function Extract(): T
      requires Ok?
    {
      value
    }
  }
}
