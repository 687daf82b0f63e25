# The snek runtime: collector, allocation trap, printer and fault trap

This project models the Rust runtime that programs compiled by the snek
compiler link against (`runtime/start.rs`), and proves properties of the
model in Dafny.

- **Values** (`values.dfy`). A value is a 64-bit tagged word:
  - an even word is an integer, read back with an arithmetic shift;
  - 1 is nil, 3 is false and 7 is true;
  - any other odd word is a reference, the address of a heap object plus 1.

  This module also holds `parse_input` and the decimal text that `format!`
  writes and `str::parse::<i64>` reads.
- **Errors** (`errors.dfy`). `snek_error` chooses a diagnostic line for a
  fault code and exits with the code truncated to `i32`.
- **HeapLayout** (`layout.dfy`). Functions that specify the collector over a
  sequence of heap words. Word index `x` stands for address
  `HEAP_START + 8*x`. An object is a header word, a size word and `size`
  elements. This module covers:
  - reachability;
  - the sort of the marked objects;
  - the packing of live objects as a running sum of `2 + size` words;
  - the rewriting of references through forwarded headers;
  - the ascending copy loop of the compaction.
- **Collector** (`collector.dfy`). The class `Heap` owns the heap as an
  `array<Word>`; the stack is a separate array, scanned from `stack_base`
  down to `rsp`. Each stage of `snek_gc` is a method proved against the
  specification functions:
  - `find_root_ptrs`;
  - `mark`;
  - `fwd_headers`;
  - `fwd_reference` on the root slots;
  - `fwd_vec`;
  - the compaction loop.

  The sort of the marked objects is the function `SortAscending` of
  HeapLayout, whose contract makes its result a sorted permutation of its
  input. `snek_gc` itself is `Collect`, and `snek_try_gc` is `TryGc`.
- **Printer** (`printer.dfy`). `snek_str` is the function `Render` and the
  recursive method `SnekStr`, with the path set `seen` passed in and handed
  back.
- **StaleHeader** (`stale_header.dfy`). The compaction loop never writes
  the destination header word (the finding below). This module proves, on a
  concrete heap, that the loop as written leaves a stale odd header. It also
  proves that a loop which copies from word 0 leaves a heap that `snek_gc`
  may be entered with again.

Four assumptions about the heap and stack `snek_gc` is entered with are
preconditions, because the runtime relies on them without checking:
- The heap is laid out as objects.
- Every header is 0.
- Every odd element other than 1 inside an object refers to an object.
  `mark` and `fwd_vec` follow such elements without a range check, so an
  element equal to 3 or 7 would break this assumption. Only the root scan
  checks the range.
- Every stack word between `rsp` and `stack_base` that passes the root test
  is the reference of an object's first word. The root scan checks only
  that the address lies between HEAP_START and HEAP_END
  (runtime/start.rs:112-114). `mark` then treats `val - 1` as a header and
  writes 1 there (runtime/start.rs:127-140), so a word pointing into the
  middle of an object would corrupt it.

## Model

| member | source | states |
|---|---|---|
| Values.AsI64 | runtime/start.rs:278 | `val as i64` lies in the i64 range and equals the word modulo 2^64 |
| Values.DecodeInt | runtime/start.rs:278 | the integer an even word stands for lies in [-2^62, 2^62) |
| Values.EncodeDecodeInt | runtime/start.rs:306 | `n << 1` is even, and shifting it back gives `n` exactly when `n` lies in [-2^62, 2^62) |
| Values.IntToString | runtime/start.rs:278 | the decimal text is non-empty and starts with '-' exactly for negative numbers |
| Values.ParseI64 | runtime/start.rs:306 | a successful `parse::<i64>` yields an i64 |
| Values.ParseIntToString | runtime/start.rs:306 | parsing the text of an i64 gives that i64 back |
| Values.ParseInput | runtime/start.rs:302-308 | "true" reads as 7 and "false" as 3; any other input that parses reads as an even word; the input is rejected exactly when it is neither boolean nor the text of an i64 |
| Values.ParseInputOfInt | runtime/start.rs:302-308 | the text of an i64 `n` reads as the word `n << 1` |
| Errors.ExitStatus | runtime/start.rs:43 | `errcode as i32` lies in the i32 range and equals the code modulo 2^32 |
| Errors.ErrorMessage | runtime/start.rs:32-41 | the line starts with the generic prefix "an error ocurred " exactly for codes outside 1..4 |
| Errors.SnekError | runtime/start.rs:30-44 | the exit status lies in the i32 range, is congruent to the code modulo 2^32 and equals the code exactly when the code fits in an i32; codes 1..4 print their own lines, and the generic line "an error ocurred N" is printed exactly for the other codes |
| Errors.ExitStatusIsCode | runtime/start.rs:43 | the exit status equals the code exactly when the code fits in an i32 |
| Errors.FallbackMessageExactlyForUnnamedCodes | runtime/start.rs:32-41 | the generic "an error ocurred N" line is written exactly for codes outside 1..4, OutOfMemory (5) included |
| Errors.NamedMessagesDistinct | runtime/start.rs:32-39 | the four named faults have four distinct lines |
| Errors.OutOfMemoryThroughFaultTrap | runtime/start.rs:86-87 | out of memory from the allocation trap and code 5 through `snek_error` exit with the same status but different lines |
| Collector.RootSlotsExactly | runtime/start.rs:108-119 | a stack slot is recorded exactly when it lies between `rsp` and `stack_base` and holds an odd word other than 1 whose address lies in the heap; slots are recorded in strictly descending order, so each is visited once |
| Collector.Heap.FindRootPtrs | runtime/start.rs:105-122 | the loop returns the root slots (slot indices, not their contents) that `RootSlots` specifies |
| Collector.RootsPointToObjects | runtime/start.rs:191 | the recorded slots are distinct and each refers to an object of the heap |
| Collector.Heap.Mark | runtime/start.rs:126-152 | an object whose header is already odd yields nothing; otherwise it comes first in the result; the newly marked objects are exactly the result, with no duplicates, none marked before, all reachable from the object; marked objects stay closed under their children except for those still on the recursion path |
| Collector.Heap.MarkElement | runtime/start.rs:143-148 | one element of the loop in `mark`: what it marks is reachable from the object, disjoint from what was marked before and free of duplicates, and the element's target is marked afterwards |
| Collector.Heap.MarkRoots | runtime/start.rs:193-199 | the concatenated results of marking every root are exactly the objects reachable from the roots, with no duplicates, and exactly the objects with header 1 |
| HeapLayout.ClosedSetHoldsReachable | runtime/start.rs:143-149 | any set of objects that holds the roots and is closed under elements holds everything reachable |
| HeapLayout.SortAscending | runtime/start.rs:202 | the sort returns a sorted permutation of its input |
| HeapLayout.SortDistinct | runtime/start.rs:202-208 | sorting addresses without duplicates yields a strictly increasing sequence of the same addresses (the `debug_assert` holds) |
| Collector.MarkedHeap | runtime/start.rs:162 | after marking and sorting, every live header is 1 (the `debug_assert` of `fwd_headers`), sizes are unchanged, and the live objects are in increasing address order |
| Collector.ReachableClosed | runtime/start.rs:143-149 | every reference inside a live object refers to a live object |
| Collector.Heap.Trace | runtime/start.rs:190-208 | the root scan, marking and sort yield the strictly increasing sequence of the objects reachable from the roots; afterwards the header of every live object is 1 and every other header is still 0 |
| HeapLayout.DestBelow | runtime/start.rs:156-166 | an object's destination, the running sum of `2 + size` over the objects before it, lies at or below the object and inside the heap |
| HeapLayout.FwdHeadersSpecWords | runtime/start.rs:155-168 | the k-th live header becomes the reference to HEAP_START + 8·Σ_{j<k}(2 + size_j), and every other word is unchanged |
| Collector.Heap.FwdHeaders | runtime/start.rs:155-168 | the loop with its running `move_to` leaves exactly the heap `FwdHeadersSpec` describes |
| Collector.ForwardedHeaders | runtime/start.rs:210 | after `fwd_headers` each live header holds the reference to its destination; sizes and elements are unchanged, and the targets of live references are in range |
| Collector.ForwardedIsRelocated | runtime/start.rs:171-174 | reading a reference's target header gives the reference to that object's destination |
| Collector.Heap.FwdRoots | runtime/start.rs:212-215 | every recorded slot is replaced by its target's header word, and every other slot is unchanged |
| Collector.RootsRelocated | runtime/start.rs:212-215 | every root's target is live, and after forwarding each root slot holds the reference to its object's destination while other slots are unchanged |
| Collector.Heap.ForwardRootSlots | runtime/start.rs:212-215 | the root loop relocates every root slot and no other stack slot |
| Collector.Heap.FwdVec | runtime/start.rs:178-188 | each element of the object is replaced by its forwarded word (odd words other than 1 through their target's header; even words and nil unchanged), and nothing outside the elements changes |
| Collector.Heap.FwdVecs | runtime/start.rs:217-220 | every element of every live object is forwarded, and words that are not live elements are unchanged |
| Collector.ForwardedElements | runtime/start.rs:217-220 | after the element rewriting, headers and sizes are as `fwd_headers` left them, and the heap is ready for compaction with the same destinations |
| Collector.ForwardedState | runtime/start.rs:210-220 | the three forwarding stages leave the state that the compaction starts from |
| Collector.Heap.Forward | runtime/start.rs:210-220 | after the forwarding stages, each root slot holds the reference to its object's destination, and the heap is ready for compaction |
| HeapLayout.CopyUpAt | runtime/start.rs:234-237 | copying towards lower addresses in ascending order reads each word before it is overwritten, so the result is a plain block move |
| HeapLayout.MoveStepAt | runtime/start.rs:225-237 | one step of the compaction loop clears the source header and moves words `first .. size + 1` to the destination; all other words are unchanged |
| Collector.Heap.MoveObject | runtime/start.rs:225-237 | the body of the compaction loop leaves exactly the heap `MoveStep` describes |
| HeapLayout.CompactStep | runtime/start.rs:224-241 | each compaction step moves one more object's size and elements to its destination, leaves the objects already moved intact, and does not touch the objects still to come |
| HeapLayout.CompactFoldPrefix | runtime/start.rs:224-241 | after `k` steps the first `k` live objects have their sizes and elements at their destinations, and the rest of the heap from the `k`-th object on is untouched |
| Collector.Heap.Compact | runtime/start.rs:222-243 | the compaction loop leaves `CompactFold` of the heap and returns HEAP_START + 8·Σ(2 + size) over the live objects |
| Collector.CompactedHeap | runtime/start.rs:222-243 | after compaction each live object's size and its relocated elements are at its destination |
| Collector.NoRootsNothingLive | runtime/start.rs:191-199 | with no roots nothing is live |
| Collector.Heap.Collect | runtime/start.rs:96-244 | the live objects are exactly those reachable from the roots; every root slot and live element is relocated; each live object is packed at its destination; the returned frontier is HEAP_START + 8·Σ(2 + size) over the live objects, and HEAP_START when there are no roots |
| Collector.Heap.TryGc | runtime/start.rs:72-91 | allocation succeeds exactly when the packed live objects plus `count` words fit in the heap, and then returns the collector's frontier; otherwise the process ends with status 5 and "out of memory"; a request larger than the heap always fails; in both cases the collection has happened: the live objects are those reachable from the roots, each is packed at its destination with relocated elements, and every root slot holds its object's new reference |
| StaleHeader.DestOrder | runtime/start.rs:156-166 | destinations increase with rank and the moved objects do not overlap |
| StaleHeader.MovedLayout | runtime/start.rs:222-241 | the moved objects are laid out, without overlap, at their destinations |
| StaleHeader.MovedClosed | runtime/start.rs:222-241 | every reference inside a moved object refers to a moved object |
| StaleHeader.ExampleForwarded | runtime/start.rs:155-220 | on a nine-word heap with one root, the forwarding stages leave the headers 9 and 49 and A's element 49 |
| StaleHeader.AsWrittenLeavesStaleHeader | runtime/start.rs:230-237 | in that example the compaction as written leaves the odd word 49 as B's header, so the heap is not one `snek_gc` may be entered with |
| StaleHeader.CorrectedCompactionRestoresEntry | runtime/start.rs:230-237 | copying from word 0 leaves the moved objects laid out, closed under references, and with every header 0 |
| Printer.Render | runtime/start.rs:272-300 | the text of a word is non-empty, and the text of a vector is enclosed in '[' and ']' |
| Printer.RenderElems | runtime/start.rs:284-294 | the text of the elements from `i` on is empty exactly when no element is left |
| Printer.RenderIgnoresUnreachedSeen | runtime/start.rs:282-296 | two `seen` sets that agree on every reference reachable from the word give the same text |
| Printer.RenderElemsIgnoresUnreachedSeen | runtime/start.rs:288-294 | the same for the elements of a vector whose reference is among those references |
| Printer.ElementPrintsInFull | runtime/start.rs:286-295 | an element from which neither its vector nor anything in `seen` can be reached prints exactly as it prints on its own |
| Printer.SnekStr | runtime/start.rs:272-300 | the loop over the elements builds exactly the text `Render` specifies, and `seen` is handed back as it was passed in |
| Printer.SnekPrint | runtime/start.rs:46-50 | the line written is the value's text followed by a newline, and the value is returned unchanged |
| Printer.VectorTextIsBracketed | runtime/start.rs:272-296 | the text is non-empty and starts with '[' exactly for odd words other than 1, 3 and 7 |
| Printer.IntTextInjective | runtime/start.rs:278 | distinct i64s have distinct texts |
| Printer.IntTextSurvivesEncoding | runtime/start.rs:278 | the text of `n` read back from `n << 1` is the text of `n` exactly when `n` lies in [-2^62, 2^62) |
| Printer.PrintParsedInt | runtime/start.rs:302-308 | the text of an i64 is read as `n << 1`, and printing that word gives the same text back exactly when `n` lies in [-2^62, 2^62) |
| Printer.PrintParsedBool | runtime/start.rs:303-305 | "true" and "false" are read as the booleans and print back unchanged |
| Printer.SharedPrintsTwice | runtime/start.rs:282-296 | an object that two elements share prints in full both times, because it has left `seen` before the second one |
| Printer.CyclePrintsEllipsis | runtime/start.rs:282-283 | an object that holds itself prints once, with "[...]" where it refers back to itself |

## Left out

- `main` and `parse_heap_size` (runtime/start.rs:310-330) are not modelled: they are argument parsing and heap allocation.
- `our_code_starts_here` (runtime/start.rs:21-28) is not modelled: it is a foreign call into generated code.
- `snek_print_stack` and `snek_print_heap` (runtime/start.rs:246-270) are not modelled: they are debug dumps that only print.
- Output is not performed. `println!`/`eprintln!` become returned strings, and `std::process::exit` becomes the value `Exit`.
- The unused parameters `_heap_ptr` and `_curr_rbp` of `snek_gc` are not parameters of `Collect`.
- Raw pointers become word indices, and the `HashSet` of the printer becomes a Dafny `set`.
- `sort_unstable` is modelled by the insertion sort `SortAscending`. The marked addresses are distinct, so every sort gives the same result.
- The two `debug_assert!`s are not executed; the facts they check are proved instead (`MarkedHeap`, `SortDistinct`).
- The "unknown value" branch of `snek_str` (runtime/start.rs:297-298) is not modelled. Every word is either even or odd, so it is unreachable.
- Pointer overflow, stack overflow in the recursive `mark` and `snek_str`, and the `try_into().unwrap()` conversions are not modelled. Words are at most 2^64 - 1, and the heap fits in the address space.
- Collector.Heap.TryGc: requires `count >= 0`. A negative `isize` count cast to `usize` is not modelled; the generated code never passes one. It also requires the four assumptions of `Collect`.
- Collector.Heap.Collect: requires what `snek_gc` silently relies on: a laid-out heap, headers 0, every odd element other than 1 referring to an object, and every stack word that passes the root test referring to an object's first word. With an element 3 or 7 in a live object, or a root word pointing inside an object, `mark` would write a header at an unrelated address; that behaviour is not modelled.
- Collector.Heap.Trace: requires the same four assumptions as `Collect`.
- Collector.Heap.Collect: idempotence is not proved. Two collections in a row, with no mutation in between, should leave the same heap and frontier. As written this fails (see Findings). With the corrected copy from word 0, the model proves only that the heap again meets the entry preconditions (`CorrectedCompactionRestoresEntry`), so that a second collection may run. It does not prove that the second collection changes nothing.
- Printer.Render: requires every odd element other than 1, 3 and 7 to refer to an object, because `snek_str` reads through such words without a check.
- Values.ParseInput: a parse failure is `None`. It stands for the panic of `unwrap`, whose message is not modelled.

## Findings

| source | as written | input that shows it | evidently intended | confidence | as-written member | corrected member |
|---|---|---|---|---|---|---|
| runtime/start.rs:231-236 | The source header is cleared, but the copy runs `for i in 1..(size + 2)`. So the destination header, word 0 at the new place, keeps whatever was there before. When that is an odd word, the next `mark` takes the object as already marked and does not follow it. | Nine words at HEAP_START = 8: garbage of size 0 at word 0; live A of size 3 at word 2 holding [nil, B, nil]; live B of size 0 at word 7; A is the only root. A moves to word 0 and B to word 5. Word 5 held A's forwarded element 49, so B's new header is 49. A second collection with no mutation in between then marks A and stops at B, whose header is odd (runtime/start.rs:133-134). It keeps only A and returns HEAP_START + 40, while A's element still refers to B past the new frontier. | Copy from `i = 0`, after `*from = 0`, so that every moved header is 0 | not executed | StaleHeader.AsWrittenLeavesStaleHeader | StaleHeader.CorrectedCompactionRestoresEntry |

Both loops are `Collector.Heap.Compact`: `first = 1` is the loop as written and `first = 0` the corrected one. `Collect` runs the loop as written, as the runtime does, and nothing in the model claims its moved objects end with header 0. `CorrectedCompactionRestoresEntry` proves that with `first = 0` the heap again satisfies the entry precondition of `Collect`.
