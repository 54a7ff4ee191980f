# Allocation front end of the Lazy Virtual Machine runtime

This project models `src/runtime/heap/alloc.c`, the allocation front end of
the LVM runtime (derived from the Objective Caml runtime), in Dafny, and
proves what its functions promise.

The heap is an explicit context, class `Allocator.Heap`:

- `objs` maps references to blocks. A block is a header tag and a body. The
  body is a sequence of values for a scannable tag (below `No_scan_tag`) or
  raw bytes, a whole number of words, for a tag at or above it.
- `next` supplies fresh references.
- `young` records which blocks came from the minor heap.
- The invariant `Valid` keeps every reference below `next` and every block
  well formed. It also keeps the atom table: one shared zero-size block per
  tag, at a fixed reference.

The collector's services are three primitive methods:

- `Carve` stands for `Alloc_small` and `alloc_shr`. It returns a fresh block
  whose header is stamped and whose words are whatever the memory held.
- `StoreField` stands for a field store and for the write barrier `modify`.
- `WriteBytes` stands for a store into the bytes of a raw block: the
  last-word and pad-byte stores of alloc_string, the `memmove` of
  copy_string, and update_dummy's word copies into a raw block.

The `memset` on alloc's major-heap path clears a scannable block. It is
modelled as a direct assignment of the blank body, not through `WriteBytes`.

The allocation functions are methods of `Heap`. Each is proved against:

- the invariant `Valid`;
- a frame: only the new or patched block changes, and every other block stays
  as it was;
- a specification function for the new block's contents: `Blocks.Blank`,
  `Blocks.StringBlock`, `Blocks.LaidOut`, `Allocator.Produces`,
  `Flags.FlagsOr` or `Blocks.Retag`.

Each of those functions is characterised by its own lemmas. The string layout
arithmetic (module `Layout`) is proved for every positive word size. The heap
uses a word size of 8 bytes.

## Model

| member | source | states |
|---|---|---|
| Layout.Wosize | src/runtime/heap/alloc.c:76 | `(len + w) / w` is the least word count that holds `len` bytes and one more: `w*(wo-1) <= len < w*wo`, and it is at least one word |
| Layout.Pad | src/runtime/heap/alloc.c:85-86 | the byte stored last, `w*wosize - 1 - len`, lies in `[0, w)` (so it fits the byte), and the length recovered from the word count and that byte is `len` |
| Layout.LayoutUnique | src/runtime/heap/alloc.c:76-86 | conversely, any word count and pad below `w` that recover `len` are exactly the ones alloc_string writes, so the encoding is unambiguous |
| Blocks.LayOut | src/runtime/heap/alloc.c:84-86 | zeroing the last word and then writing the pad byte lays a block out for `len` bytes, whatever it held: pad byte last, zero bytes from `len` up to it |
| Blocks.LaidOutLength | src/runtime/heap/alloc.c:84-86 | a laid-out block is a well-formed block of `Wosize(len)` words, its recovered string length is `len`, and byte `len` is zero (the NUL terminator) |
| Blocks.StringBlock | src/runtime/heap/alloc.c:96-107 | the block copy_string builds for bytes `b` is a well-formed string block of `Wosize(\|b\|)` words whose recovered length is `\|b\|`, whose bytes read back as `b`, and whose byte `\|b\|` is zero |
| Blocks.FillString | src/runtime/heap/alloc.c:104-105 | copying `b` to the front of a block laid out for `\|b\|` bytes yields exactly `StringBlock(b)` |
| Blocks.Strlen | src/runtime/heap/alloc.c:102 | strlen is the index of the first zero byte: that byte is zero and none before it is |
| Blocks.NullIsEmpty | src/runtime/heap/alloc.c:101-102 | a NULL string is copied as the empty string, the same as `""` |
| Blocks.EntryCount | src/runtime/heap/alloc.c:115-116 | the counting loop's bound: `arr[nbr]` is the terminator and every earlier entry is present |
| Blocks.CopyWordsStep | src/runtime/heap/alloc.c:164-165 | one round of update_dummy's loop extends the copied prefix by word `i`, as a field store for a scannable body and as one word of bytes for a raw body |
| Blocks.CopyWordsAll | src/runtime/heap/alloc.c:164-165 | once every word is copied, the dummy's body equals the value's body |
| Blocks.Retag | src/runtime/heap/alloc.c:163 | the corrected header rewrite: a size-0 dummy (a shared atom) is unchanged; otherwise the dummy gets the value's tag and body kind and keeps its size, staying well formed |
| Blocks.RetagAsWritten | src/runtime/heap/alloc.c:163 | the header rewrite as written: the dummy takes the value's tag whatever its size |
| Blocks.AtomRetagAsWritten | src/runtime/heap/alloc.c:163 | as written, patching the atom of tag `t` with a size-0 value of another tag changes the shared atom's tag |
| Blocks.RetagKeepsAtoms | src/runtime/heap/alloc.c:163 | with the correction, no patch changes a shared atom |
| Flags.FlagsOrCovers | src/runtime/heap/alloc.c:141-144 | every flag that a list element selects is set in the result |
| Flags.FlagsOrLeast | src/runtime/heap/alloc.c:141-144 | no other bit is set: any mask that holds every selected flag holds the result (so the empty list gives 0) |
| Allocator.Heap.Carve | src/runtime/heap/alloc.c:44 | a fresh reference, not in the heap before, holding a block with the requested tag and word count and unspecified contents; it is recorded as young when taken from the minor heap, and no other block changes |
| Allocator.Heap.StoreField | src/runtime/heap/alloc.c:126 | a store into field `i` of a scannable block changes that field and nothing else |
| Allocator.Heap.WriteBytes | src/runtime/heap/alloc.c:84-86 | a store into the bytes of a raw block (the last word and pad byte here, the memmove at line 105, the word copies at line 165) changes those bytes and nothing else |
| Allocator.Heap.Alloc | src/runtime/heap/alloc.c:35-54 | size 0 returns the atom of the tag and changes nothing. Otherwise it returns a fresh block with the tag and size. On both paths every field of a scannable block is the zero word. The block is young exactly when the size is at most `Max_young_wosize`. The heap stays valid and every earlier block is kept |
| Allocator.Heap.ZeroFields | src/runtime/heap/alloc.c:46 | the initialising loop leaves every field of the block zero and changes nothing else |
| Allocator.Heap.AllocSmall | src/runtime/heap/alloc.c:56-65 | for `0 < wosize <= Max_young_wosize` and a tag below 256: a fresh young block with that tag and size |
| Allocator.Heap.AllocTuple | src/runtime/heap/alloc.c:67-70 | the atom of tag 0 for `n == 0`, heap and young set unchanged; otherwise a fresh zero-filled tag-0 block of `n` fields, young exactly when `n <= Max_young_wosize` |
| Allocator.Heap.AllocString | src/runtime/heap/alloc.c:72-88 | a fresh block laid out for `len` bytes (`LaidOut`): its recovered length is `len`, byte `len` is zero, and it is young exactly when its word count fits the minor heap |
| Allocator.Heap.CopyString | src/runtime/heap/alloc.c:96-107 | the only change is one fresh block, `StringBlock` of the bytes before the NUL (none for NULL); every earlier block is kept, and only the new block may become young, exactly when its word count fits the minor heap |
| Allocator.Heap.AllocArray | src/runtime/heap/alloc.c:109-130 | the atom of tag 0, heap unchanged, when the first entry is NULL. Otherwise a fresh tag-0 tuple of `nbr` fields (the index of the first NULL), where field `n` holds what `funct` produced for entry `n`, as seen in the final heap. For copy_string each field points to a block of its own: fresh, and different from every other field's. Every earlier block is kept, only new blocks may become young, and the tuple is young exactly when `nbr <= Max_young_wosize` |
| Allocator.Heap.StoreEntry | src/runtime/heap/alloc.c:125-126 | one round of the fill loop stores the conversion of entry `n` into field `n` and keeps every field stored before valid; for copy_string the stored pointers stay fresh and pairwise distinct |
| Allocator.Heap.Convert | src/runtime/heap/alloc.c:125 | the conversion of one entry: for copy_string a pointer to a fresh string block holding the entry, otherwise the function's value; earlier blocks are kept and only new blocks may become young |
| Allocator.ProducesFrame | src/runtime/heap/alloc.c:121-127 | a converted entry keeps its meaning in any later heap that keeps every string block, so later conversions and stores into the tag-0 tuple do not disturb it |
| Allocator.Heap.CopyStringArray | src/runtime/heap/alloc.c:132-135 | the atom of tag 0 for an empty array, heap and young set unchanged; otherwise a fresh tag-0 tuple whose field `k` points to a fresh string block of entry `k`, no two fields sharing a block, with only new blocks young |
| Allocator.Heap.ConvertFlagList | src/runtime/heap/alloc.c:137-146 | for a cons list holding the indices `xs`, the result is `FlagsOr(flags, xs, |xs|)`, the OR of the selected flags, which `FlagsOrCovers` and `FlagsOrLeast` characterise; nothing is written |
| Allocator.Heap.AllocDummy | src/runtime/heap/alloc.c:150-156 | the atom of tag 0 for size 0, heap and young set unchanged; otherwise a fresh zero-filled tag-0 block of that size, young exactly when the size is at most `Max_young_wosize` |
| Allocator.Heap.CopyWord | src/runtime/heap/alloc.c:164-165 | one round of update_dummy's loop: word `i` of the value is stored into the dummy, extending the copied prefix, even when dummy and value are the same block |
| Allocator.Heap.UpdateDummy | src/runtime/heap/alloc.c:158-167 | for equal sizes: the dummy keeps its reference and gets the value's tag and every word of it, and no other block changes (the value included). A size-0 dummy, a shared atom, is left unchanged. The result is unit |

## Left out

- The collector behind `Alloc_small`, `alloc_shr` and `modify` is not modelled: the minor and major heaps' layout, collection triggers, promotion and the remembered set. `Carve` and `StoreField` stand for these primitives. `young` only records which path a block took.
- `check_urgent_gc` is the identity here. The collection it may run does not move the new block and cannot be observed through the model's heap.
- Relocation of blocks by a collection, and the root registration of `CAMLparam0`, `CAMLlocal2` and `CAMLreturn` in alloc_array, are left out. References in the model never move.
- `alloc_final` is out of scope. It wraps custom blocks and finaliser tables that are not part of this model.
- The tagged-word encoding (`Val_int`, `Int_val`, `Field`, `Bp_val`, `Bsize_wsize`) is not modelled. Values are the datatype `Value`. A raw block's words are bytes, 8 to a word, with the word size fixed at 8 in the heap.
- mlvalues.h is not part of this model. `No_scan_tag` = 251, `String_tag` = 252, `Max_young_wosize` = 256 and the 256-entry atom table are the Objective Caml values of those constants.
- Allocator.Heap.CopyString: `len` is a C `int` in the source. Strings of 2^31 bytes or more, whose length would be truncated, are not modelled.
- Allocator.Heap.AllocDummy: the size arrives as a tagged integer. The model takes the decoded natural number, so a negative size, which `Int_val` would turn into a huge unsigned size, is not modelled.
- Allocator.Heap.ConvertFlagList: the flags are C `int`s, modelled as their 32-bit patterns (`bv32`). The list's shape and its indices are stated as the ghost `xs`, and the indices are required to be in range of the flag table, which the source relies on without checking.
- Allocator.Heap.AllocArray: `funct` is either copy_string or a function that does not touch the heap (`Converter`). Other allocating conversions are not modelled. The contract states the final contents of each field. The increasing index order of the stores is fixed by the loop but not stated in the contract.
- Allocator.Heap.UpdateDummy: when the dummy's and the value's tags hold different body kinds (scannable and raw), the source reinterprets the same words under the new tag. The model rereads the dummy as a blank body of the new kind before copying, and every word is overwritten by the copy.
- Allocator.Heap.UpdateDummy: a size-0 dummy is left unchanged instead of taking the value's tag (see Findings).
- `memmove` and `strlen` are modelled directly as a byte-sequence copy (`WriteBytes`) and search (`Blocks.Strlen`). `memset` in alloc is modelled directly as setting every field to the zero word (`Blocks.Blank`).

## Findings

| source | as written | input that shows it | evidently intended | confidence | as-written member | corrected member |
|---|---|---|---|---|---|---|
| src/runtime/heap/alloc.c:163 | update_dummy writes the value's tag into the dummy's header for every size, including size 0, where the dummy is the shared atom of its tag | `update_dummy(Atom(0), Atom(3))`: the equal-size check passes (both sizes 0) and the shared atom of tag 0 now carries tag 3, for every later user of `Atom(0)` | leave a size-0 dummy alone (there is no word to copy), so the atom table is never written | low: not executed | Blocks.AtomRetagAsWritten | Blocks.RetagKeepsAtoms |
