# yuv_os, verified

A Dafny model of the algorithmic core of the yuv_os kernel: the VGA text terminal, the
bit sets and page allocators, `vprintf` and its number formatters, the intrusive page list,
the exit-handler table and the Multiboot2 tag walk. `dafny verify dfyconfig.toml` checks
all of it.

Code that updates state in place is modelled by classes, arrays and loops, each method
proved against a specification; what the kernel relies on is then proved about the
specifications. What a specification stands for is proved in terms that do not name it:
character codes and cells for the terminal, digits and widths for printed numbers, format
characters for `vprintf`, tag types and memory offsets for the boot information.

- **Terminal** (`Terminal.dfy`, `Video.dfy`). The driver keeps 25 x 80 cells and a ring of 25
  line lengths whose head moves by one per scroll. It is proved to refine an abstract terminal
  of 25 lines: the length of row r lies at ring offset 48 - r, and nothing shows past the end
  of a row. On the abstract terminal: the screen is always the last 25 lines of an unbounded
  transcript that loses no text, and backspaces undo whole strings.
- **Allocators** (`Words.dfy`, `Bitset.dfy`, `Pages.dfy`, `BuddyRuns.dfy`, `Buddy.dfy`). Words are
  numbers below 2^64 with bitwise operators defined in base two; bit sets are windows of one
  bump-allocated memory. The page allocator is proved over whole runs of allocations and frees.
  The buddy allocator's bitmaps are proved to be exactly the ancestor closure of the blocks
  handed out. In every run that closure amounts to one counter per order, so the orders requested
  determine every block; what this does and does not guarantee about overlap is stated for pages
  and for the byte intervals at the returned addresses.
- **Printing** (`Formatters.dfy`, `Printf.dfy`). The two-pass formatters are proved against
  numerals that decode to their number; `vprintf` is proved to show, on the terminal, the
  rendering of the tokens of its format. Scanning and printing a format are inverse.
- **Lists, exit handlers, boot tags** (`PageList.dfy`, `AtExit.dfy`, `Multiboot.dfy`).
  `Basics.dfy` holds the types that all of them share.

Where the code does not do what one would expect, the model follows the code and says when it does:

- `has_zero` is right for every memory exactly when the bit count is 0 or 1 modulo 64
  (`HasZeroExactness`). `first_clear` stays below the bit count for every memory exactly when the
  bit count is a multiple of 64 (`FirstClearExactness`, with a failing memory for every other count
  in `FullSet`); otherwise it returns a padding bit when all valid bits are set and a padding bit is
  clear, and panics when no scanned bit is clear.
- A buddy block can overlap an earlier block of a larger order (`LargeThenSmallOverlap`). It does
  exactly when the block at the number of marked bits of its level lies inside one, which a caller
  can tell before the call (`OverlapForeseen`).
- `itob` prints its argument exactly when `ItobFits` holds: it counts digits of an `int`
  (`ItobExactness`). `ItobText` is what it prints otherwise.
- `del_line` never reduces `pos_head`; the 64-bit cursor slot is the right one exactly while the
  head has wrapped a multiple of 25 times, zero included (`HeadWraps`).
- `__cxa_finalize(0)` called twice calls handlers twice (`TwiceAtExit`).
- The tag walk reads the first tag's type and size to step over it, but never dispatches it (`Walk`).
- `pop` on a one-page list and `unlink` at either end follow a null pointer (`Pop`, `Unlink`).

Literals such as 25, 80 and 64 stand for the screen size and the word size in products and
remainders.

## Model

| member | source | states |
|---|---|---|
| Terminal.ShowConcat | kernel/utils/video.cpp:119-125 | showing two strings in turn is showing their concatenation |
| Terminal.ShowTab | kernel/utils/video.cpp:62-67 | a tab shows exactly as four spaces, wherever the line wraps |
| Terminal.CharacterShown | kernel/utils/video.cpp:12-15 | on any screen, every code but 8, 9 and 10 ends the bottom line with a cell holding the code in its low byte and the colour in its high byte, after a line of 80 cells has moved up; nothing else changes |
| Terminal.NewlineShown | kernel/utils/video.cpp:45-49 | code 10 moves every line up and leaves the bottom one empty |
| Terminal.BackspaceShown | kernel/utils/video.cpp:50-61 | code 8 drops the last cell of the bottom line, or moves every line down below an empty one |
| Terminal.TabShown | kernel/utils/video.cpp:62-67 | code 9 shows as four characters of code 32 |
| Terminal.TranscriptKeepsText | kernel/utils/video.cpp:68-74 | with scrolling set aside, every character written is kept, in order, after the text that was there |
| Terminal.WindowOnTranscript | kernel/utils/video.cpp:41-95 | for every string without backspaces the screen is the last 25 lines of the transcript |
| Terminal.EraseAfterAppend | kernel/utils/video.cpp:50-55 | a backspace undoes a stored character |
| Terminal.EraseAfterScroll | kernel/utils/video.cpp:56-59 | a backspace on an empty bottom line undoes a scroll, save for the line that left the screen |
| Terminal.BackspacesUndo | kernel/utils/video.cpp:45-73 | after any string without backspaces, as many backspaces as characters stored plus lines scrolled restore every line that did not scroll away and leave the others empty, for any number of scrolls |
| VideoDriver.HeadUp | kernel/utils/video.cpp:78-81 | decrementing the ring head moves every row's length up one row |
| VideoDriver.HeadDown | kernel/utils/video.cpp:96-98 | incrementing it moves every length down one row, the bottom one to the top |
| VideoDriver.HeadWraps | kernel/utils/video.cpp:96-98 | with `pos_head` kept in 64 bits and never reduced, the cursor slot is the one meant if and only if the head has wrapped a multiple of 25 times |
| VideoDriver.RowSlotsDiffer | kernel/utils/video.cpp:3-5 | the 25 rows occupy different slots of the ring, for every head |
| VideoDriver.CursorIsLength | kernel/utils/video.cpp:52-72 | the slot read as the cursor is the length of the bottom line |
| VideoDriver.CellShown | kernel/utils/video.cpp:36-39 | cell x of line r lies at 80 * r + x of the framebuffer, and cells past the end of a line hold a NUL or a space |
| VideoDriver.ScrollRefines | kernel/utils/video.cpp:78-95 | the new cells, ring and head of `new_line` represent the scrolled terminal |
| VideoDriver.PullRefines | kernel/utils/video.cpp:96-112 | the new cells and head of `del_line` represent the terminal with its lines pulled down |
| VideoDriver.BottomRowRefines | kernel/utils/video.cpp:54-72 | writing one cell and the cursor slot changes the bottom line alone |
| VideoDriver.ShiftRowsUp | kernel/utils/video.cpp:82-94 | the in-place shift moves every row up intact and blanks the bottom row |
| VideoDriver.ShiftRowsDown | kernel/utils/video.cpp:99-111 | the in-place shift, bottom first, moves every row down intact and blanks the top row |
| VideoDriver.Strlen | kernel/utils/string.cpp:4-11 | the length up to the first NUL |
| VideoDriver.Video.constructor | kernel/utils/video.cpp:17-21 | a new screen represents 25 empty lines |
| VideoDriver.Video.Clear | kernel/utils/video.cpp:23-34 | clearing leaves 25 empty lines, wherever the ring head is, and every cell a space in black |
| VideoDriver.Video.NewLine | kernel/utils/video.cpp:78-95 | keeps the representation and scrolls the terminal; the bottom row is blanked with spaces in black |
| VideoDriver.Video.DelLine | kernel/utils/video.cpp:96-112 | keeps the representation and pulls the lines down; the bottom line's length reappears over blanks at the top |
| VideoDriver.Video.WriteEntry | kernel/utils/video.cpp:36-39 | changes one cell and no other |
| VideoDriver.Video.Store | kernel/utils/video.cpp:68-74 | appends one character to the bottom line, scrolling first if that line is full |
| VideoDriver.Video.Backspace | kernel/utils/video.cpp:50-61 | drops the last character of the bottom line and zeroes its cell, or pulls the lines down if there is none |
| VideoDriver.Video.Tab | kernel/utils/video.cpp:62-67 | shows four spaces |
| VideoDriver.Video.Putc | kernel/utils/video.cpp:41-76 | after any character, cells and ring represent the abstract terminal after that character |
| VideoDriver.Video.SetColor | kernel/utils/video.cpp:114-117 | packs foreground and background into separate nibbles |
| VideoDriver.Video.Write | kernel/utils/video.cpp:119-125 | shows the first `len` characters |
| VideoDriver.Video.WriteStr | kernel/utils/video.cpp:127-130 | shows a C string up to its NUL |
| Words.CountTrailingZeros | kernel/utils/datastructs/dynamic_bitset.h:46 | the least set bit of a non-zero word |
| Words.LeastClearBit | kernel/utils/datastructs/dynamic_bitset.h:57 | the least clear bit of a word that is not all ones |
| Words.ZeroWord | kernel/utils/datastructs/dynamic_bitset.h:42 | a word is zero exactly when it has no bit |
| Words.OnesWord | kernel/utils/datastructs/dynamic_bitset.h:53 | a word equals -1 exactly when it has every bit |
| Words.LowBits | kernel/utils/datastructs/dynamic_bitset.h:81 | the masked comparison tells whether all low bits are set |
| Words.TestBit | kernel/utils/datastructs/dynamic_bitset.h:138-145 | the mask test tells whether the bit is set |
| Words.OrSetsBit | kernel/utils/datastructs/dynamic_bitset.h:153-157 | or-ing the mask sets that bit and keeps the others |
| Words.AndClearsBit | kernel/utils/datastructs/dynamic_bitset.h:159-163 | and-ing the complement clears that bit and keeps the others |
| Words.XorFlipsBit | kernel/utils/datastructs/dynamic_bitset.h:147-151 | xor-ing the mask flips that bit and keeps the others |
| Words.WithBitIs | kernel/utils/datastructs/dynamic_bitset.h:122-137 | there is one word that differs from another in a given bit only |
| Words.RoundUp8 | kernel/utils/debug.h:4 | add-and-mask rounds up to a multiple of 8 |
| Words.RoundUpPage | kernel/memory/paging.h:26 | add-and-mask rounds up to a multiple of the page size, and gives 0 exactly for 0 and after the start of the last page, where the sum wraps |
| Bitset.StorageCovers | kernel/utils/datastructs/dynamic_bitset.h:18-21 | the allocated words cover the scanned ones exactly when the last word is full or holds at least eight bits |
| Bitset.OverwrittenWords | kernel/utils/datastructs/dynamic_bitset.h:87-101 | `clear()` and `set()` write one word too many, except for one bit modulo 64 |
| Bitset.ScanWord | kernel/utils/datastructs/dynamic_bitset.h:51-55 | comparing one word with -1 or 0 decides membership of all its 64 indices |
| Bitset.ScannedWords | kernel/utils/datastructs/dynamic_bitset.h:40-52 | the scanned words are just as many as the bits need |
| Bitset.HasZeroExactness | kernel/utils/datastructs/dynamic_bitset.h:70-86 | `has_zero` is right about every memory if and only if the bit count is 0 or 1 modulo 64 |
| Bitset.HasZeroAnswer | kernel/utils/datastructs/dynamic_bitset.h:70-86 | which bits decide the answer, for every non-zero bit count: those of the set if the last word is full or holds one bit, else all of that word and as many bits of the next |
| Bitset.FullButPadding | kernel/utils/datastructs/dynamic_bitset.h:73-81 | for every other bit count, a full set for which `has_zero` reports room |
| Bitset.FirstClearInRange | kernel/utils/datastructs/dynamic_bitset.h:48-58 | for a given memory, the index found lies below the bit count if and only if some valid bit is clear; with whole words a panic means none is |
| Bitset.FirstClearExactness | kernel/utils/datastructs/dynamic_bitset.h:48-58 | every index `first_clear` returns, over every memory, lies below the bit count if and only if the bit count is a multiple of 64 |
| Bitset.FullSet | kernel/utils/datastructs/dynamic_bitset.h:48-58 | for every other bit count, a full set for which `first_clear` returns the bit count itself |
| Bitset.AssignedIn | kernel/utils/datastructs/dynamic_bitset.h:117-163 | assigning one bit changes the membership of that index alone, in this and every other set of the memory |
| Bitset.DumbAllocator.Alloc | kernel/memory/dumb_allocator.cpp:7-12 | hands out the end of memory and moves it up |
| Bitset.DumbAllocator.constructor | kernel/memory/dumb_allocator.cpp:3-6 | the heap starts empty at the given address |
| Bitset.DynamicBitset.constructor | kernel/utils/datastructs/dynamic_bitset.h:18-23 | takes the next ROUND_UP(bitcount >> 3, 8) bytes of the heap and leaves their contents alone |
| Bitset.DynamicBitset.FirstSet | kernel/utils/datastructs/dynamic_bitset.h:37-47 | the least member, or a panic exactly when the scanned words are empty |
| Bitset.DynamicBitset.FirstClear | kernel/utils/datastructs/dynamic_bitset.h:48-58 | the least non-member, or a panic exactly when the scanned words are full |
| Bitset.DynamicBitset.IsZero | kernel/utils/datastructs/dynamic_bitset.h:59-69 | true exactly when the scanned words are empty |
| Bitset.DynamicBitset.HasZero | kernel/utils/datastructs/dynamic_bitset.h:70-86 | what the code answers for every non-zero bit count |
| Bitset.DynamicBitset.Fill | kernel/utils/datastructs/dynamic_bitset.h:87-101 | makes every index of the overwritten words a member or none, and no other word changes |
| Bitset.DynamicBitset.Test | kernel/utils/datastructs/dynamic_bitset.h:142-145 | membership of one index |
| Bitset.DynamicBitset.Assign | kernel/utils/datastructs/dynamic_bitset.h:130-137 | changes one bit of one word and nothing else; with a fixed value it is `set()` and `clear()` of lines 153-163 |
| Bitset.DynamicBitset.AssignFrom | kernel/utils/datastructs/dynamic_bitset.h:122-129 | copies one bit, possibly within the same word |
| Bitset.DynamicBitset.Flip | kernel/utils/datastructs/dynamic_bitset.h:147-151 | complements one bit and nothing else |
| Pages.AddressRoundTrip | kernel/memory/paging.h:237-259 | address to page inverts page to address for every base, even where the sum wraps |
| Pages.AddressesApart | kernel/memory/paging.h:252-255 | distinct pages have distinct addresses, a multiple of 4096 apart |
| Pages.RunInvariant | kernel/memory/paging.h:214-223 | over every run the set bits are exactly the pages taken at first plus the outstanding ones, and the two never meet |
| Pages.AllocIsLeastFree | kernel/memory/paging.h:214-219 | every allocation of a run returns the least page that is neither reserved nor outstanding |
| Pages.PagesAddUp | kernel/memory/paging.h:214-223 | free, outstanding and reserved pages always add up to the page count |
| Pages.AllocThenFree | kernel/memory/paging.h:214-223 | freeing the page just allocated restores the memory word for word |
| Pages.BitSetPageAllocator.constructor | kernel/memory/paging.h:213 | starts a run on whatever the memory holds |
| Pages.BitSetPageAllocator.Alloc | kernel/memory/paging.h:214-219 | sets the first clear bit, or panics and changes nothing exactly when no scanned bit is clear; with a page free it extends the run; with whole words it panics exactly when none is free |
| Pages.BitSetPageAllocator.Free | kernel/memory/paging.h:220-223 | clears one bit; continues the run if the page was outstanding |
| Pages.PageAllocator.constructor | kernel/memory/paging.cpp:4-11 | the bit set comes first on the heap after the kernel; nothing is reserved or zeroed |
| Pages.PageAllocator.AllocPage | kernel/memory/paging.h:252-255 | returns the address of the first clear bit and sets that bit alone, or panics and changes nothing exactly when no scanned bit is clear; with a page free that extends the run; with whole words it panics exactly when none is free |
| Pages.PageAllocator.FreePage | kernel/memory/paging.h:256-259 | clears exactly the bit of the page the address belongs to |
| Pages.PageAllocator.AllocThenFreePage | kernel/memory/paging.h:252-259 | `free_page(alloc_page())` restores the bitmap |
| BuddyRuns.AncestorIsQuotient | kernel/memory/paging.h:194-199 | repeated halving is division by a power of two |
| BuddyRuns.LevelIsQuotient | kernel/memory/paging.h:173 | level j has the page count divided by 2^j bits |
| BuddyRuns.NestedOrDisjoint | kernel/memory/paging.h:194-200 | a block shares pages with a larger one exactly when that is its ancestor |
| BuddyRuns.EarlierSmallerDisjoint | kernel/memory/paging.h:191-202 | in any run a block shares no page with an earlier block of equal or smaller order |
| BuddyRuns.NewBlockDisjoint | kernel/memory/paging.h:191-202 | a new block is disjoint from all earlier ones if and only if it lies inside none of a larger order |
| BuddyRuns.MarkedIsInitialSegment | kernel/memory/paging.h:193-199 | in every run the marked bits of every level form an initial segment |
| BuddyRuns.IndexIsCount | kernel/memory/paging.h:193 | the index a request receives is the number of marked bits of its level |
| BuddyRuns.NextBlock | kernel/memory/paging.h:191-193 | a request succeeds if and only if fewer bits are marked than the level has, and then receives the block at that number |
| BuddyRuns.OverlapForeseen | kernel/memory/paging.h:191-202 | before the call: the block to be received is disjoint from all earlier ones if and only if the block at the number of marked bits lies inside none of a larger order |
| BuddyRuns.MarkedBelowCount | kernel/memory/paging.h:193-199 | in every run a bit is marked if and only if it lies below the number of marked bits of its level |
| BuddyRuns.CountAfter | kernel/memory/paging.h:194-199 | marking a block moves the counter of its level and of each level above just past its ancestor, or leaves it |
| BuddyRuns.RunIsCounters | kernel/memory/paging.h:179-203 | over every run the N bitmaps equal N counters computed from the orders requested alone |
| BuddyRuns.BlockFromCounters | kernel/memory/paging.h:179-203 | every block of a run is the one at the counter of its order, so the orders requested determine all blocks |
| BuddyRuns.MonotoneRunDisjoint | kernel/memory/paging.h:191-202 | requests of non-decreasing order never receive overlapping blocks |
| BuddyRuns.AddressesDisjoint | kernel/memory/paging.h:200 | the byte interval that starts at the address returned for a block shares no address with that of an earlier block of equal or smaller order, even where intervals wrap |
| BuddyRuns.IntervalIsBlock | kernel/memory/paging.h:200 | the bytes from the returned address on, as many as 4096 * 2^order, are exactly those of the block's pages |
| BuddyRuns.BlockInMemory | kernel/memory/paging.h:200 | a block lies within the pages, and the page of the address returned is its first page |
| BuddyRuns.OrderCapacity | kernel/memory/paging.h:191-202 | at most `page_count >> k` requests of order k ever succeed |
| BuddyRuns.DisjointRunFits | kernel/memory/paging.h:191-202 | blocks that do not overlap never add up to more pages than there are |
| Buddy.GeometryIsMultiple | kernel/memory/paging.h:171-175 | all levels fill whole words if and only if the page count is a positive multiple of 64 * 2^(N-1) |
| Buddy.LargeThenSmallOverlap | kernel/memory/paging.h:195-199 | with 128 pages and two orders, a request of order 1 and then of order 0 receive overlapping blocks: descendants are not marked |
| Buddy.LevelsApart | kernel/memory/paging.h:171-175 | the words of different levels do not overlap |
| Buddy.AssignedLevel | kernel/memory/paging.h:197 | setting a bit of one level leaves every bit of every other level alone |
| Buddy.MarkStep | kernel/memory/paging.h:195-199 | one round of the marking loop adds the ancestor of one level and halves to that of the next |
| Buddy.FreeAtLevel | kernel/memory/paging.h:191 | a level has a clear bit exactly when some block of its order is unmarked |
| Buddy.FirstIsLegal | kernel/memory/paging.h:193 | what `first_clear` finds is the first unmarked block |
| Buddy.ExactAfter | kernel/memory/paging.h:195-199 | marking a block and its ancestors keeps the bitmaps the exact closure |
| Buddy.ZeroIsExact | kernel/memory/paging.h:171-175 | cleared levels mark no block |
| Buddy.NewLevel | kernel/memory/paging.h:173-174 | one level takes exactly its own words and clears them and one more |
| Buddy.NewLevels | kernel/memory/paging.h:171-175 | all levels lie one after the other on the heap and are zero at the end, and one word past the last is all that is written besides |
| Buddy.BuddyAllocator.constructor | kernel/memory/paging.h:168-178 | starts with exact, empty bitmaps and empty free lists on the shared heap, blocks beginning at the next page, and takes the pages below from `m_page_count` |
| Buddy.BuddyAllocator.Mark | kernel/memory/paging.h:194-199 | sets the bits of a block and all its ancestors, no other bit of any level, and no word outside the levels |
| Buddy.BuddyAllocator.Alloc | kernel/memory/paging.h:179-203 | panics exactly for a too large order, fails exactly when every block of the order is marked, else extends the run by the block at the number of marked bits and returns its address; the free-list branch is never taken, the bitmaps stay the exact closure and no other word changes |
| Formatters.DecodeDigits | kernel/utils/printf.cpp:44-48 | the digits of a number decode to it |
| Formatters.PlaceValue | kernel/utils/printf.cpp:44-48 | decoding is positional, in bases 2, 10 and 16 |
| Formatters.DigitsOfBases | kernel/utils/printf.cpp:44-48 | the digits of base two are '0' and '1', of base ten '0' to '9', of base sixteen also 'A' to 'F' |
| Formatters.SixteenDigits | kernel/utils/printf.cpp:51 | digit d is written as the d-th character of "0123456789ABCDEF" |
| Formatters.NoLeadingZero | kernel/utils/printf.cpp:38-48 | the digits of a positive number do not start with a zero |
| Formatters.FieldMeaning | kernel/utils/printf.cpp:70-86 | a padded field decodes to its number and has the width asked for or that of the numeral |
| Formatters.FieldSpells | kernel/utils/printf.cpp:70-86 | a padded field consists of digits of its base that stand for its number, is as wide as asked, and is wider only if its first digit is not a zero |
| Formatters.DecimalMeaning | kernel/utils/printf.cpp:2-28 | decimal text decodes to the signed number |
| Formatters.DecimalSpells | kernel/utils/printf.cpp:2-28 | decimal text is a minus sign exactly for negative numbers, then only digits, in base ten, without a leading zero |
| Formatters.DigitCount | kernel/utils/printf.cpp:71-76 | a number has at most n digits if and only if it is below base^n |
| Formatters.TextRead | kernel/utils/printf.h:6-9 | the buffer read as a C string gives back the text |
| Formatters.CountDigits | kernel/utils/printf.cpp:38-43 | the counting pass finds the number of digits |
| Formatters.FillDigits | kernel/utils/printf.cpp:44-48 | the backward pass writes each digit once and touches nothing else; it leaves the buffer exactly when there are too many digits or the field ends past it |
| Formatters.FillZeros | kernel/utils/printf.cpp:77-81 | the zero fill covers the field from index 2 on and nothing else; it leaves the buffer exactly when the field does |
| Formatters.WriteField | kernel/utils/printf.cpp:70-86 | for every count and padding: when the writes stay in the buffer, and the whole text then left, zero-filled if the width is enough and run into the prefix if not |
| Formatters.Itos | kernel/utils/printf.cpp:2-28 | for every int64 but the least, the buffer holds its decimal text and NULs |
| Formatters.Utos | kernel/utils/printf.cpp:29-50 | for every uint64 the buffer holds its decimal text and NULs |
| Formatters.HexZero | kernel/utils/printf.cpp:58-69 | zero is written as `padding` zeros, one for padding 0, none below; it leaves the buffer exactly for padding above 126 |
| Formatters.Itox | kernel/utils/printf.cpp:52-89 | for every uint64 and every `int` padding up to 126 the buffer holds prefix and padded field and NULs; it leaves the buffer exactly above that |
| Formatters.HexMeaning | kernel/utils/printf.cpp:52-89 | the text of `itox` is '0', 'x' and the number in digits of base sixteen, as wide as asked and wider only if needed; zero under a negative padding has no digit |
| Formatters.OneText | kernel/utils/printf.h:6-9 | a buffer holds one text only |
| Formatters.TruncatedCount | kernel/utils/printf.cpp:105-111 | counting the digits of the truncated value counts them all if and only if the number is below 2^31 |
| Formatters.Itob | kernel/utils/printf.cpp:90-124 | for every uint64 and `int` padding: when it stays in the buffer, the whole text it then leaves, and that this is the padded binary numeral if and only if `ItobFits` |
| Formatters.ItobExactness | kernel/utils/printf.cpp:90-124 | the text `itob` leaves is the padded binary numeral if and only if the argument is positive, the field fits, and nothing was cut off by the truncation to `int` or the padding makes up for it |
| Formatters.ItobCounts | kernel/utils/printf.cpp:105-111 | the digits counted are those of the positive part of the argument as an `int` |
| Formatters.ItobMeaning | kernel/utils/printf.cpp:90-124 | whenever `itob` stays in its buffer its text ends with the number in base two, and what the digits leave of the field before them is '0', 'b' and zeros |
| Formatters.Int32Is | kernel/utils/printf.cpp:105 | conversion to `int` keeps the residue modulo 2^32 |
| Formatters.BinaryZero | kernel/utils/printf.cpp:96-104 | zero is written as `padding - 2` zeros with no digit of its own |
| Printf.ScanUnparse | kernel/utils/printf.h:27-52 | scanning the text of any unambiguous token list gives back the list |
| Printf.ScanIsUnambiguous | kernel/utils/printf.h:27-52 | scanning any format without a dangling '%' gives an unambiguous list, so the two are inverse |
| Printf.ArgumentRendered | kernel/utils/printf.h:36-82 | for the characters c, d, u, x, b, p and s, bare or with a padding suffix, before any rest of a format: which arguments suit, that one is used, and what is shown for it, in terms of digits, bases and widths |
| Printf.PlainRendered | kernel/utils/printf.h:83-88 | any other directive uses no argument and shows a percent sign or the error message |
| Printf.CharacterRendered | kernel/utils/printf.h:27-31 | any character but a percent sign shows itself |
| Printf.HexAlone | kernel/utils/printf.h:67-70 | "%x" alone shows any argument in hexadecimal |
| Printf.PaddingStep | kernel/utils/printf.h:41-46 | the 32-bit accumulator holds the decimal value modulo 2^32 |
| Printf.TokenPrinted | kernel/utils/printf.h:53-89 | printing the first token and consuming its argument leaves the rendering of the rest to do |
| Printf.TextPrinted | kernel/utils/printf.h:27-31 | characters before the next '%' are printed as they stand |
| Printf.ReadPadding | kernel/utils/printf.h:40-47 | reads all and only the digits, without passing the NUL |
| Printf.ReadDirective | kernel/utils/printf.h:36-52 | the cursor rules agree with the token grammar, and no index passes the NUL |
| Printf.PrintLiterals | kernel/utils/printf.h:27-31 | shows the characters up to the next '%' or NUL |
| Printf.PrintDirective | kernel/utils/printf.h:53-89 | the switch shows what the conversion prints, digits run into the prefix of `%b` included, and consumes one argument exactly if it takes one |
| Printf.PrintText | kernel/utils/printf.h:26-35 | after the literal part, screen and output so far agree and the rest is still to do |
| Printf.PrintNext | kernel/utils/printf.h:36-90 | so it is after the directive |
| Printf.PrintRound | kernel/utils/printf.h:23-90 | so it is after a whole round, which moves the cursor on |
| Printf.VPrintf | kernel/utils/printf.h:15-91 | the terminal ends up as if the rendering of the format's tokens had been shown; one argument is used per conversion that takes one, in order; it terminates |
| PageLists.SameWalk | kernel/memory/page_list.cpp:6-49 | two well-linked sequences with the same first page visit the same pages |
| PageLists.LinksDetermineList | kernel/memory/page_list.cpp:6-49 | head and links determine the list |
| PageLists.Bypass | kernel/memory/page_list.cpp:35-38 | joining the neighbours of an interior page leaves a well-formed list without it |
| PageLists.Detach | kernel/memory/page_list.cpp:33-39 | works exactly for interior pages; otherwise a null neighbour is followed |
| PageLists.PageList.constructor | kernel/memory/page_list.h:24-25 | a new list is empty |
| PageLists.PageList.Empty | kernel/memory/page_list.cpp:51-54 | true exactly for the empty list |
| PageLists.PageList.InsertFirst | kernel/memory/page_list.cpp:6-21 | puts the page first and keeps the list well-formed, changing only that page and the old head |
| PageLists.PageList.Pop | kernel/memory/page_list.cpp:42-49 | panics exactly on the empty list, follows null exactly on one page, else removes and returns the first |
| PageLists.PageList.Unlink | kernel/memory/page_list.cpp:23-40 | removes an interior page and keeps the ends; follows null exactly at either end |
| PageLists.PageList.InsertThenPop | kernel/memory/page_list.cpp:6-49 | inserting and popping restores a non-empty list |
| AtExit.Table.constructor | kernel/icxxabi.cpp:7-8 | the table starts empty |
| AtExit.Table.Register | kernel/icxxabi.cpp:12-20 | appends one entry with the function, object and handle given, or returns -1 and changes nothing if 128 are taken |
| AtExit.Table.Finalize | kernel/icxxabi.cpp:22-99 | the calls made and the table left, for a function and for null |
| AtExit.ReverseOrder | kernel/icxxabi.cpp:60-98 | a finalize call runs entries in reverse order of registration, with their own function and object |
| AtExit.CountDown | kernel/icxxabi.cpp:40-98 | it calls every entry it hits once and no other |
| AtExit.FinalizeTwice | kernel/icxxabi.cpp:60-98 | finalizing the same function again calls nothing |
| AtExit.CallsFromTable | kernel/icxxabi.cpp:12-99 | over every run, an entry in the table is called as often as it falls due |
| AtExit.CallsOfRegistration | kernel/icxxabi.cpp:12-99 | over every run, a registration that found room is called once per later finalize of everything up to and including a finalize of its function |
| AtExit.TableBound | kernel/icxxabi.cpp:14-18 | over every run the table only grows, up to 128 entries |
| AtExit.CallsCarryEntry | kernel/icxxabi.cpp:22-99 | over every run, the calls on a slot carry the function and object it held |
| AtExit.CallsCarryRegistration | kernel/icxxabi.cpp:12-99 | over every run, each call of a registration that found room is made on the function registered with the object registered |
| AtExit.ExactlyOnce | kernel/icxxabi.cpp:22-58 | with one finalize of everything, at the end, that is once |
| AtExit.RunCallsOnce | kernel/icxxabi.cpp:12-99 | in such a run every non-null handler registered with room is called exactly once |
| AtExit.TwiceAtExit | kernel/icxxabi.cpp:40-57 | in the run that registers a handler and finalizes everything twice, the handler is called twice: entries are not unset |
| Multiboot.U32RoundTrip | kernel/multiboot/multiboot2.h:204-208 | a little-endian field reads back as the number stored |
| Multiboot.U32Weights | kernel/multiboot/multiboot2.h:204-208 | the four bytes of a field count 1, 2^8, 2^16 and 2^24 times |
| Multiboot.RoundUp32 | kernel/multiboot/multiboot2.cpp:3-6 | the next multiple of eight, or zero for the seven largest sizes, where the sum wraps |
| Multiboot.ReadHeader | kernel/multiboot/multiboot2.cpp:26-29 | type and size are read back from the serialised tag |
| Multiboot.NextTag | kernel/multiboot/multiboot2.cpp:29-31 | advancing by the padded size reaches the next tag |
| Multiboot.StartsAre | kernel/multiboot/multiboot2.cpp:26-31 | tags start one after the other at the next multiple of eight |
| Multiboot.TagInMemory | kernel/multiboot/multiboot2.h:204-208 | where a tag starts, memory holds its type, its size and its body, and after the last tag type 0 and size 8 |
| Multiboot.RememberedIsFound | kernel/multiboot/multiboot2.cpp:8-34 | for types 4 and 9, what is remembered is the 16 or 20 bytes of memory at the last tag of that type after the first tag, or nothing if there is none |
| Multiboot.LastTagWins | kernel/multiboot/multiboot2.cpp:8-21 | for memory information and ELF sections, the last tag dispatched is the one remembered |
| Multiboot.ParseTag | kernel/multiboot/multiboot2.cpp:8-21 | copies the 16 bytes of a tag of type 4 and the 20 of one of type 9, and ignores others |
| Multiboot.WalkStep | kernel/multiboot/multiboot2.cpp:27-33 | one round keeps the state of the walk and never underflows the header size |
| Multiboot.Advance | kernel/multiboot/multiboot2.cpp:29-32 | the round as the code does it |
| Multiboot.Walk | kernel/multiboot/multiboot2.cpp:23-34 | for every well-formed tag list the walk visits exactly the tag starts, ends at the end tag with 16 left, and remembers every tag after the first: the copies are those of the last tags of types 4 and 9, or none |

## Left out

- VideoDriver.Video.DelLine: the class keeps `pos_head` unbounded; where the 64-bit head would differ is stated by `HeadWraps` alone.
- Bitset.DynamicBitset.HasZero: bit count 0 is excluded; the source's loop bound then wraps to 2^64 - 1 and the scan leaves the set.
- Formatters.Itos: the least int64 is excluded, because negating it overflows.
- Formatters.Itox: a write outside the buffer is the result `None`, and what other memory it hits is not modelled; paddings less than 64 above the least `int` are excluded, because decrementing them overflows.
- Formatters.Itob: the same.
- Printf.VPrintf: formats with a '%' right before the NUL, arguments of the wrong type or number, the least int64, and paddings that overflow or whose text leaves the 128-byte buffer or its NUL are excluded; the source then reads or writes memory it does not own, or overflows. The printer is the video terminal; the serial port is not modelled.
- Printf.PrintDirective: excludes the same arguments.
- Buddy.BuddyAllocator.Alloc: page counts are positive multiples of 64 * 2^(N-1).
- PageLists.PageList.Pop and Unlink: after a null pointer is followed nothing is said about the list.
- AtExit.Table.Finalize: handlers that themselves register or finalize are not modelled.
- Multiboot.Walk: only well-formed tag lists; a field never dispatched is `None` here and uninitialised in the source.
- The const `operator[]` of `dynamic_bitset`, which shifts by an unreduced position.
- `Video::set_cursor` and `debug_pos`: debugging output outside the terminal.
- Port I/O, the serial driver, the interrupt controller, interrupt handlers and boot code: hardware effects.
- GDT, IDT and page-table entry packing: single constructors that split bits.
- `memcpy`, `min`, `max`, the unused list templates, the singleton and placement new: easy members.
