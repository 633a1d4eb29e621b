# CS11 Advanced C++ exercises: a Dafny model

This project models the algorithmic core of a set of C++ course exercises and
proves what each piece promises:

- **Hand-rolled vectors** (HW2, HW3 and HW4 `vector.hh`). `VectorSpec` says
  what each mutation does to the storage, as a value: the whole allocation
  plus a length. `BaseVector.VectorBase` (HW3/HW4) and `SimpleVector.Vector`
  (HW2) are classes over a Dafny `array`, and each method is proved to end in
  the state its `VectorSpec` function gives.
- **`Vector<bool>`** (HW4). Bits are packed 32 to a `uint32_t` word.
  - `WordBits` models the `Bit` proxy's reads and writes.
  - `BoolVectorSpec` gives each operation as a function on the fields and
    proves the packed words read back as the expected elements.
  - `BoolVector.VectorBool` is the class. Its insert and erase shift loops
    are proved element by element.
- **Integer helpers**: `smallestPow2` (HW4) and `GCD` and `sign` (HW1).
  C++'s truncating `/` and `%` are written out as `CDiv` and `CRem`.
- **`Rational`** (HW1).
  - The constructors and binary operators are functions on a `Frac` value.
    Each result is proved to be in lowest terms with a positive denominator,
    and to equal the intended rational.
  - The compound assignments and increments are methods of a class.
  - `operator<<` is a formatting function with a read-back lemma.
- **The `vim` clone's document** (`document.cpp`). A document is a list of
  lines, each keeping its terminator, plus a cursor and a dirty flag.
  - `TextBuffer` states each edit on a `Buffer` value and what it does to
    the document's text (all lines concatenated).
  - `TextBuffer.Document` is the class, proved to agree with those functions.
- **The undo/redo list** (`change.hpp`). `ChangeLog` states the list as a
  sequence with a current index, and the effect of undo and redo on the
  document. `ChangeLog.History` is the class.
- **The two game maps** (`Pacman/src/map.cpp`, `HW5/src/map.cpp`). Both read
  a file with the same nested loop, which `MapReader` states once as the
  list of stores it makes.
  - `GameMap.Map` (3-character cells with a decided type) and `CharMap.Map`
    (1-character cells) hold a Dafny `array2`.
  - Their `ReadFromFile` loops are proved against that list.
  - A lemma for each map shows that a file whose rows fit the grid reads back
    cell for cell.
- **Pacman and the ghosts** (`pacman/src/pacman.cpp`, `pacman/src/ghost.cpp`).
  Each has one movement step, the ghosts' move mask and state changes, and
  the four ghosts' targets.

Walls, the floating-point distance choice and the game state are parameters,
because the game object is not part of this model.

## Model

| member | source | states |
|---|---|---|
| IntHelpers.Pow2Ceil | HW4/common.hh:23-34 | the value is 0 for n <= 0, else a power of two r with n <= r and r/2 < n |
| IntHelpers.SmallestPow2 | HW4/common.hh:23-34 | the doubling loop returns 0 for n <= 0 and otherwise the least power of two at or above n (equal to Pow2Ceil) |
| IntHelpers.SmallestPow2IsLeast | HW4/common.hh:23-34 | no power of two at or above n is below smallestPow2's result |
| IntHelpers.Pow2Unique | HW4/common.hh:23-34 | the least power of two at or above n is unique |
| IntHelpers.Pow2CeilStep | HW4/common.hh:23-34 | going from n to n + 1, the result stays the same until n is itself a power of two, then doubles |
| IntHelpers.CRem | HW1/common.hh:20-22 | C++ `%` is a - (a/b)*b, with the sign of a and magnitude below \|b\| |
| IntHelpers.CDivTimes | HW1/common.hh:20-22 | truncating quotient and remainder recombine to a |
| IntHelpers.GCDDividesBoth | HW1/common.hh:20-22 | Euclid's GCD with C++ `%` divides both arguments |
| IntHelpers.GCDGreatest | HW1/common.hh:20-22 | every common divisor divides the GCD |
| IntHelpers.GCDZero | HW1/common.hh:20-22 | the GCD is 0 exactly when both arguments are 0, and GCD(a, 0) is a |
| IntHelpers.Sign | HW1/common.hh:34-36 | sign(n) times n is \|n\|; it is ±1 for nonzero n and 0 exactly for 0 |
| VectorSpec.Reinit | HW4/vector.hh:42-52 | reallocation to newCap slots keeps the elements when they fit and fills the new slots with T() |
| VectorSpec.Reserve | HW4/vector.hh:136-140 | elements unchanged; capacity becomes max(cap, n); slots past the size stay T() |
| VectorSpec.ShrinkToFit | HW4/vector.hh:144-148 | elements unchanged; capacity equals the size |
| VectorSpec.Resize | HW4/vector.hh:152-163 | size becomes count and the kept prefix is unchanged; capacity grows to the least power of two >= count only when count exceeds it; newly exposed elements are T() |
| VectorSpec.Clear | HW4/vector.hh:167 | no elements; capacity unchanged |
| VectorSpec.Grow | HW4/vector.hh:170-177 | push_back's growth loop leaves room for one more element, doubling max(1, cap) when full |
| VectorSpec.PushBack | HW4/vector.hh:170-177 | elements gain x at the end; capacity doubles max(1, cap) exactly when the vector was full |
| VectorSpec.Insert | HW4/vector.hh:191-200 | elements become e[..pos] + [x] + e[pos..]; the capacity is push_back's |
| VectorSpec.ShiftIn | HW4/vector.hh:191-200 | the shifting loop of insert keeps the size, capacity and slots past the size |
| VectorSpec.ShiftOut | HW4/vector.hh:217-237 | the shifting loop of erase moves the tail down over the removed range |
| VectorSpec.Erase | HW4/vector.hh:217-237 | an empty or reversed range changes nothing; otherwise the elements lose [first, last); capacity unchanged |
| VectorSpec.Reinit2 | HW2/vector.hh:33-43 | as Reinit, but a request for 0 slots allocates 1 |
| VectorSpec.ShrinkToFit2 | HW2/vector.hh:148-152 | elements unchanged; capacity is the size, or 1 for an empty vector that had slots |
| VectorSpec.Grow2 | HW2/vector.hh:174-181 | growth by cap << 1, which reinit turns from 0 into 1 |
| VectorSpec.PushBack2 | HW2/vector.hh:174-181 | elements gain x; capacity becomes max(1, 2·cap) when full |
| VectorSpec.Insert2 | HW2/vector.hh:195-204 | elements become e[..pos] + [x] + e[pos..] |
| VectorSpec.InsertAsWritten | HW4/vector.hh:191-200 | as written, `pos` points into a block push_back reallocates exactly when the vector is full; otherwise the elements become e[..pos] + [x] + e[pos..] |
| VectorSpec.InsertAsWritten2 | HW2/vector.hh:195-204 | the same for HW2: a stale `pos` exactly when the vector is full |
| VectorSpec.InsertAsWrittenOnFullVector | HW4/vector.hh:191-200 | Vector<int>(4) is full, so insert(begin(), 7) goes through a stale pointer as written in HW2 and HW4; the intended insert gives 7, 0, 0, 0, 0 |
| VectorSpec.EraseUndoesInsert | HW4/vector.hh:191-242 | erase(pos) right after insert(pos, x) gives back the elements |
| VectorSpec.EraseUndoesPushBack | HW4/vector.hh:170-242 | erasing the last element after push_back gives back the elements |
| VectorSpec.ResizeUpThenBack | HW4/vector.hh:152-163 | growing with resize and shrinking back restores the elements |
| VectorSpec.ClearThenResizeIsDefault | HW4/vector.hh:152-167 | after clear(), resize exposes only T() |
| VectorSpec.PushBackCapacity | HW4/vector.hh:170-177 | a vector grown only by push_back has capacity max(2, least power of two holding its elements) |
| VectorSpec.PushBack2Capacity | HW2/vector.hh:174-181 | HW2's capacity runs 0, 1, 2, 4, … as the least power of two holding the elements |
| BaseVector.VectorBase.Empty | HW4/vector.hh:63 | VectorBase(): no slots, no elements |
| BaseVector.VectorBase.OfSize | HW4/vector.hh:64 | VectorBase(size): size copies of T() in smallestPow2(size) slots |
| BaseVector.VectorBase.WithCapacity | HW4/vector.hh:65 | VectorBase(size, cap): size elements, cap slots, all T() |
| BaseVector.VectorBase.Reinit | HW4/vector.hh:42-52 | the copy loop into the new array yields VectorSpec.Reinit's storage |
| BaseVector.VectorBase.Reserve | HW4/vector.hh:136-140 | the storage becomes VectorSpec.Reserve of the old one |
| BaseVector.VectorBase.ShrinkToFit | HW4/vector.hh:144-148 | the storage becomes VectorSpec.ShrinkToFit of the old one |
| BaseVector.VectorBase.Resize | HW4/vector.hh:152-163 | the clearing loop yields VectorSpec.Resize's storage |
| BaseVector.VectorBase.Clear | HW4/vector.hh:167 | the storage becomes VectorSpec.Clear of the old one |
| BaseVector.VectorBase.PushBack | HW4/vector.hh:170-177 | the growth loop and the append leave VectorSpec.PushBack of the old storage |
| BaseVector.VectorBase.Insert | HW4/vector.hh:191-200 | the storage becomes VectorSpec.Insert of the old one |
| BaseVector.VectorBase.ShiftUp | HW4/vector.hh:196-199 | the backward copy loop computes ShiftIn |
| BaseVector.VectorBase.Erase | HW4/vector.hh:217-237 | the storage becomes VectorSpec.Erase of the old one |
| BaseVector.VectorBase.ShiftDown | HW4/vector.hh:230-232 | the forward copy loop computes ShiftOut |
| BaseVector.VectorBase.EraseAt | HW4/vector.hh:240-242 | erase(pos) is erase(pos, pos + 1) |
| SimpleVector.Vector.Empty | HW2/vector.hh:66 | Vector(): no slots, no elements |
| SimpleVector.Vector.OfSize | HW2/vector.hh:67 | Vector(size): size copies of T() in smallestPow2(size) slots |
| SimpleVector.Vector.WithCapacity | HW2/vector.hh:68 | Vector(size, cap): size elements in cap slots |
| SimpleVector.Vector.Reinit | HW2/vector.hh:33-43 | the copy loop yields VectorSpec.Reinit2's storage |
| SimpleVector.Vector.Reserve | HW2/vector.hh:140-144 | the storage becomes VectorSpec.Reserve of the old one |
| SimpleVector.Vector.ShrinkToFit | HW2/vector.hh:148-152 | the storage becomes ShrinkToFit2 of the old one |
| SimpleVector.Vector.Resize | HW2/vector.hh:156-167 | the storage becomes VectorSpec.Resize of the old one |
| SimpleVector.Vector.Clear | HW2/vector.hh:171 | the storage becomes VectorSpec.Clear of the old one |
| SimpleVector.Vector.PushBack | HW2/vector.hh:174-181 | the storage becomes PushBack2 of the old one |
| SimpleVector.Vector.Insert | HW2/vector.hh:195-204 | the storage becomes Insert2 of the old one |
| SimpleVector.Vector.ShiftUp | HW2/vector.hh:200-203 | the backward copy loop computes ShiftIn |
| SimpleVector.Vector.Erase | HW2/vector.hh:221-241 | the storage becomes VectorSpec.Erase of the old one |
| SimpleVector.Vector.ShiftDown | HW2/vector.hh:234-236 | the forward copy loop computes ShiftOut |
| SimpleVector.Vector.EraseAt | HW2/vector.hh:244-246 | erase(pos) is erase(pos, pos + 1) |
| WordBits.BitMask | HW4/vector.hh:771-776 | reading bit k is `w & (1 << k) != 0` |
| WordBits.AssignBit | HW4/vector.hh:751-756 | Bit::operator= (clear then OR in) sets bit k to b and leaves the other bits |
| WordBits.OrInBit | HW4/vector.hh:644 | push_back's `\|= b << k` sets bit k when b holds and leaves the other bits |
| WordBits.KeepLowBit | HW4/vector.hh:626 | `&= ~(-1 << n)` keeps exactly the bits below n |
| WordBits.SetBitBit | HW4/vector.hh:732-756 | writing element i of the word array changes element i only |
| WordBits.OrBitBit | HW4/vector.hh:644 | OR-ing into element i changes element i only |
| WordBits.ClearFromBit | HW4/vector.hh:626 | masking word n/32 clears the bits from n to the end of that word |
| WordBits.BoolsSetBit | HW4/vector.hh:732-756 | on the unpacked view, a bit write is a sequence update |
| WordBits.BoolsCopyBit | HW4/vector.hh:740-748 | `*it = *(it-1)` copies one unpacked element onto another |
| WordBits.BoolsOrBit | HW4/vector.hh:644 | on the unpacked view, OR-ing is an update to old \|\| b |
| BoolVectorSpec.Ceil32 | HW4/vector.hh:502 | `ceil(n/32.0)` is the least word count holding n bits |
| BoolVectorSpec.Init | HW4/vector.hh:496-516 | the constructors give size false elements, capacity cap, ceil(cap/32) zero words |
| BoolVectorSpec.At | HW4/vector.hh:547-553 | at(i) throws out_of_range exactly for i >= len, otherwise it reads element i |
| BoolVectorSpec.SetAt | HW4/vector.hh:584-588 | operator[] throws for i >= len; assigning through it changes element i only |
| BoolVectorSpec.PadWords | HW4/vector.hh:598-600 | the push_back(0) loop pads the word vector with zero words to the target |
| BoolVectorSpec.Reserve | HW4/vector.hh:597-604 | elements unchanged; capacity max(cap, newCap); ceil(newCap/32) words at least |
| BoolVectorSpec.ShrinkToFit | HW4/vector.hh:608-614 | elements unchanged; capacity is the size; ceil(len/32) words |
| BoolVectorSpec.Resize | HW4/vector.hh:618-631 | elements become the first count ones, padded with false; capacity max(cap, count) |
| BoolVectorSpec.Clear | HW4/vector.hh:635 | no elements, capacity unchanged |
| BoolVectorSpec.Grown | HW4/vector.hh:640-641 | the growth loop leaves room for one element, capacity max(1, 2·cap) when full |
| BoolVectorSpec.PushBack | HW4/vector.hh:638-646 | elements gain x at the end |
| BoolVectorSpec.InsertSeq | HW4/vector.hh:661-671 | shifting (pos, len] up and writing x at pos inserts x and keeps the clear tail |
| BoolVectorSpec.InsertedBits | HW4/vector.hh:661-671 | on the fields, insert's loop and final write leave the elements c[..pos] + [x] + c[pos..] |
| BoolVectorSpec.PushBackBits | HW4/vector.hh:640-645 | after the growth loop, OR-ing the bit into word len/32 (added as a zero word when missing) appends x |
| BoolVectorSpec.ShiftUpWords | HW4/vector.hh:668 | copying bit i - 1 onto bit i in the words extends insert's shift by one position |
| BoolVectorSpec.ShiftDownWords | HW4/vector.hh:686 | copying bit i + n onto bit i in the words extends erase's shift by one position |
| BoolVectorSpec.ShiftedUpStep | HW4/vector.hh:667-669 | one iteration of insert's loop extends the shifted range by one |
| BoolVectorSpec.ShiftedDownStep | HW4/vector.hh:685-688 | one iteration of erase's loop extends the shifted range by one |
| BoolVectorSpec.EraseSeq | HW4/vector.hh:675-692 | shifting down by n removes [first, first + n) and keeps the clear tail |
| BoolVectorSpec.ErasedBits | HW4/vector.hh:675-692 | on the fields, the loop and resize(len - n) leave the elements without [first, last) |
| BoolVector.VectorBool.constructor | HW4/vector.hh:514-516 | the fields are Init(size, cap) |
| BoolVector.VectorBool.Set | HW4/vector.hh:584-588 | `v[i] = x`: thrown exactly when SetAt reports out_of_range, else the state SetAt gives |
| BoolVector.VectorBool.Reserve | HW4/vector.hh:597-604 | the push_back(0) loop reaches BoolVectorSpec.Reserve's state |
| BoolVector.VectorBool.ShrinkToFit | HW4/vector.hh:608-614 | the state becomes BoolVectorSpec.ShrinkToFit of the old one |
| BoolVector.VectorBool.Resize | HW4/vector.hh:618-631 | the state becomes BoolVectorSpec.Resize of the old one |
| BoolVector.VectorBool.Clear | HW4/vector.hh:635 | the state becomes BoolVectorSpec.Clear of the old one |
| BoolVector.VectorBool.PushBack | HW4/vector.hh:638-646 | the growth loop and bit write reach BoolVectorSpec.PushBack's state |
| BoolVector.VectorBool.Insert | HW4/vector.hh:661-671 | size + 1; the elements are old[..pos] + [x] + old[pos..] |
| BoolVector.VectorBool.Erase | HW4/vector.hh:675-692 | an empty or reversed range changes nothing; otherwise the elements are old[..first] + old[last..] |
| BoolVector.VectorBool.EraseAt | HW4/vector.hh:695-697 | the element at pos is removed |
| BoolVector.MoveUp | HW4/vector.hh:666-669 | insert's backward loop on the words computes ShiftedUp |
| BoolVector.MoveDown | HW4/vector.hh:685-688 | erase's forward loop on the words computes ShiftedDown |
| BoolVectorAsWritten.ResizeMaskWord | HW4/vector.hh:626 | the masked word is the one holding element count - 1, and index -1 exactly when count is 0 |
| BoolVectorAsWritten.ResizeAsWritten | HW4/vector.hh:618-631 | resize as written gives the same size, capacity and word count as the corrected one |
| BoolVectorAsWritten.ResizeAsWrittenClearsKeptWord | HW4/vector.hh:626 | shrinking 64 set bits to 32 clears the kept bits as written and keeps them once corrected |
| BoolVectorAsWritten.PushBackAsWritten | HW4/vector.hh:638-646 | as written, push_back counts one more element but leaves the word vector's length where the growth loop left it |
| BoolVectorAsWritten.PushBackAsWrittenLosesBit | HW4/vector.hh:638-646 | after a shrinking resize, a pushed bit is lost by the next reserve as written and kept once corrected |
| BoolVectorAsWritten.ResizeAsWrittenAgrees | HW4/vector.hh:618-631 | unless it shrinks to a multiple of 32, resize as written equals the corrected resize |
| BoolVectorAsWritten.ResizeAsWrittenWipes | HW4/vector.hh:626 | shrinking to a positive multiple of 32 as written clears the last 32 kept elements |
| BoolVectorAsWritten.EraseAsWritten | HW4/vector.hh:675-692 | as written, erase removes [first, last) when the new size is not a multiple of 32, and otherwise leaves the last 32 kept elements false |
| BoolVectorAsWritten.EraseAsWrittenWipesKeptWord | HW4/vector.hh:675-692 | 32 set elements and a clear one: erase(end() - 1) as written makes element 0 false; the corrected erase keeps it true |
| BoolVectorAsWritten.InsertFirstCopyAsWritten | HW4/vector.hh:663-669 | insert's first `*it = *(it-1)` as written copies element len - 1 into element len, one past the last, and falls past the word array exactly when len / 32 is not a word |
| BoolVectorAsWritten.InsertAsWrittenWritesPastWords | HW4/vector.hh:663-669 | for Vector<bool>(31), after resize(32) the first copy of insert's loop as written falls past the one-word array |
| Rationals.Simplified | HW1/rational.cc:17-30 | simplify leaves lowest terms, a positive denominator and the same value |
| Rationals.SimplifiedCoprime | HW1/rational.cc:17-30 | simplify on coprime parts only fixes the sign |
| Rationals.SimplifyIdempotent | HW1/rational.cc:17-30 | simplify does nothing to a normalised fraction |
| Rationals.Make | HW1/rational.cc:35-44 | Rational(n, d) throws invalid_argument exactly when d is 0, else a normalised equal value |
| Rationals.FromInt | HW1/rational.cc:45-46 | Rational(n) and Rational() are n/1 |
| Rationals.Reciprocal | HW1/rational.cc:62-64 | fails exactly for a zero numerator; otherwise a normalised value whose product with f is 1 |
| Rationals.ReciprocalInvolutive | HW1/rational.cc:62-64 | the reciprocal of the reciprocal is the value itself |
| Rationals.Complement | HW1/rational.cc:114-119 | `~` gives the normalised (~n)/(~d) = (-n-1)/(-d-1) |
| Rationals.Add | HW1/rational.cc:132-140 | the sum over the common denominator, normalised |
| Rationals.Sub | HW1/rational.cc:154-160 | a normalised result |
| Rationals.SubIsAddNeg | HW1/rational.cc:132-160 | a - b is a + b·(-1) |
| Rationals.Div | HW1/rational.cc:174-180 | throws exactly when the divisor is 0; otherwise normalised |
| Rationals.DivIsMulReciprocal | HW1/rational.cc:174-180 | a / b is a times the reciprocal of b |
| Rationals.Mul | HW1/rational.cc:193-199 | the product of numerators over the product of denominators, normalised |
| Rationals.MulOne | HW1/rational.cc:193-199 | multiplying by 1 changes nothing |
| Rationals.AddZero | HW1/rational.cc:132-140 | adding 0 changes nothing |
| Rationals.DigitsRoundTrip | HW1/rational.cc:481-491 | the decimal digits of n read back as n |
| Rationals.IntReadsBack | HW1/rational.cc:481-491 | a printed int reads back as itself and contains no '/' |
| Rationals.FormatReadsBack | HW1/rational.cc:481-491 | operator<< prints '/' exactly when the denominator is not 1; both parts read back |
| Rationals.Rational.constructor | HW1/rational.cc:35-44 | the fields hold Make(n, d)'s value |
| Rationals.Rational.OfInt | HW1/rational.cc:45 | the fields hold n/1 |
| Rationals.Rational.Simplify | HW1/rational.cc:17-30 | divide by the GCD, then fix the sign: the fields become Simplified of the old ones |
| Rationals.Rational.AddAssign | HW1/rational.cc:213-217 | the value becomes Add(old, r) |
| Rationals.Rational.SubAssign | HW1/rational.cc:232-236 | the value becomes Sub(old, r) |
| Rationals.Rational.DivAssign | HW1/rational.cc:251-255 | throws exactly for a zero divisor and then leaves the value; otherwise the value becomes Div(old, r) |
| Rationals.Rational.MulAssign | HW1/rational.cc:269-273 | the value becomes Mul(old, r) |
| Rationals.Rational.Increment | HW1/rational.cc:287-291 | the value becomes old + 1, that is (n + d)/d |
| Rationals.Rational.Decrement | HW1/rational.cc:305-309 | the value becomes old - 1, that is (n - d)/d |
| Rationals.Rational.PostIncrement | HW1/rational.cc:323-331 | returns the old value; the value becomes old + 1 |
| Rationals.Rational.PostDecrement | HW1/rational.cc:345-353 | returns the old value; the value becomes old - 1 |
| TextBuffer.TextAppend | vim/src/document.cpp:206-216 | the text of two line lists is the concatenation of their texts |
| TextBuffer.ClampCursor | vim/src/document.cpp:83-100 | the clamped cursor is on an existing line; the column is at most the last character (the terminator when incNL); an in-range request is kept exactly |
| TextBuffer.InsertAtCursor | vim/src/document.cpp:124-145 | the buffer after insert(c) keeps every line non-empty |
| TextBuffer.InsertAtCursorText | vim/src/document.cpp:124-145 | insert(c) puts c into the text at the cursor's offset, leaves the cursor just after it, and marks the document dirty |
| TextBuffer.InsertKeepsTerminated | vim/src/document.cpp:124-145 | inserting anything but '\r' keeps every line ending in '\n' |
| TextBuffer.JoinAtLineStart | vim/src/document.cpp:164-178 | at a line start, the line is joined onto the one above and the cursor lands within it |
| TextBuffer.DeleteBeforeCursor | vim/src/document.cpp:159-195 | the buffer after deleteChar keeps every line non-empty |
| TextBuffer.DeleteBeforeCursorText | vim/src/document.cpp:159-195 | at offset 0 the lines stay, '\0' is returned, and the cursor column becomes -1 on a one-character first line; elsewhere the character before the cursor's offset is removed and returned, and the cursor moves onto its offset |
| TextBuffer.DeleteJoining | vim/src/document.cpp:163-195 | deleting at a line start removes the previous line's terminator and joins the lines |
| TextBuffer.DeleteJoiningShape | vim/src/document.cpp:163-195 | the joined line is the previous line without its terminator followed by the current line |
| TextBuffer.DeleteWithinLine | vim/src/document.cpp:159-195 | deleting inside a line removes the character before the cursor |
| TextBuffer.DeleteKeepsTerminated | vim/src/document.cpp:159-195 | deleteChar keeps every line ending in '\n' |
| TextBuffer.DeleteKeepsOneLinePerLine | vim/src/document.cpp:159-195 | deleteChar keeps each line's only '\n' as its last character: the '\n' a join brings inside a line is the one deleted |
| TextBuffer.InsertKeepsOneLinePerLine | vim/src/document.cpp:124-145 | inserting anything but '\r' keeps each line's only '\n' as its last character |
| TextBuffer.InsertThenDelete | vim/src/document.cpp:124-195 | deleteChar right after insert(c) returns c and restores the lines and cursor, including a split line |
| TextBuffer.LineEnd | vim/src/document.cpp:53-61 | the length of the first line: the first '\n', or the end of the text |
| TextBuffer.ImportDropsUnterminatedLine | vim/src/document.cpp:53-64 | importing "a\nb" as written gives only "a\n", so its text differs from the file |
| TextBuffer.ReadLines | vim/src/document.cpp:44-69 | the corrected read loop yields Lines(text): one line per piece, each ending in '\n' |
| TextBuffer.ScanLine | vim/src/document.cpp:52-55 | getline stops at the first '\n' or at the end of the text |
| TextBuffer.LinesShape | vim/src/document.cpp:44-69 | a read file has exactly one '\n' per line, as the last character; a non-empty file gives at least one line |
| TextBuffer.SaveAfterRead | vim/src/document.cpp:44-216 | saving a read file gives its text, plus a '\n' when the last line had none |
| TextBuffer.ReadAfterSave | vim/src/document.cpp:44-216 | reading back saved lines (one '\n' each) gives the same lines |
| TextBuffer.LastPosition | vim/src/document.cpp:320-344 | the document's last position lies on the text |
| TextBuffer.Document.constructor | vim/src/document.cpp:13-19 | the lines read from the file, cursor (0, 0), not dirty |
| TextBuffer.Document.SetCursor | vim/src/document.cpp:83-100 | the cursor becomes ClampCursor's and is returned |
| TextBuffer.Document.GetCursor | vim/src/document.cpp:111-113 | the cursor is on an existing line |
| TextBuffer.Document.Insert | vim/src/document.cpp:124-145 | the document becomes InsertAtCursor of the old one |
| TextBuffer.ReplaceOnLoneFirstLine | vim/src/vim.cpp:344-353 | replace on a first line holding only '\n': setCursor then deleteChar leave the lines unchanged and the cursor at column -1, off the text the following insert needs |
| TextBuffer.Document.DeleteChar | vim/src/document.cpp:159-195 | the document and returned character are DeleteBeforeCursor's |
| TextBuffer.Document.Save | vim/src/document.cpp:206-216 | the bytes written are the document's text |
| TextBuffer.Document.GetLine | vim/src/document.cpp:228-233 | line i, or the empty string exactly when i is outside the file |
| TextBuffer.Document.SetDirty | vim/src/document.cpp:257-259 | the dirty flag becomes d |
| TextBuffer.Document.GetDimensions | vim/src/document.cpp:271-279 | the line count and the character count, terminators included |
| TextBuffer.Document.NextWord | vim/src/document.cpp:293-344 | IsNextWord: b is the first blank at or after the scan start (one line down from a lone terminator); everything from b up to p is blank, and p is the first non-blank, lone-terminator line or last position from b; the result is p, except a one-letter word before a terminator is passed over to the next line's start; so the result is at or after the cursor |
| TextBuffer.ToBlank | vim/src/document.cpp:304-310 | the first loop ends on the first blank at or after the scan start (FirstBlankFrom) |
| TextBuffer.SkipBlanks | vim/src/document.cpp:312-333 | the blank scan reads only blanks from b to p and stops at p (BlankRun): a non-blank, a line holding only '\n', or the last position; (l, c) is left one past a non-blank p, at column 1 of a lone terminator, or on the last position (ScanStop) |
| TextBuffer.NextWordLands | vim/src/document.cpp:335-343 | a result meeting IsNextWord is at or after the cursor, on the text, and starts a line, is the last position, or holds a non-blank |
| TextBuffer.NextWordUnique | vim/src/document.cpp:293-344 | IsNextWord fixes b, p and the result, so NextWord's contract admits one result |
| TextBuffer.Document.PrevWord | vim/src/document.cpp:360-401 | IsPrevWord: (0, 0) from (0, 0); else w ends the backward run of non-blanks from the start; from a blank w, e is the first position back that is non-blank, (0, 0), or a lone-terminator line; everything after e up to w is blank (bar the unread last characters of lines above); the result is the start of e's word, (0, 0), or out_of_range for the lone-terminator line; a result other than (0, 0) is a word start at or before the cursor |
| TextBuffer.NonBlanksBack | vim/src/document.cpp:371-375 | the column where the backward run of non-blanks stops: a blank, or column 0 |
| TextBuffer.ScanBack | vim/src/document.cpp:382-400 | prevWord from w (BackFrom): a non-blank w is returned as is; from a blank w the scan back stops at e, with only blanks after e up to w: a non-blank gives the start of its word, a blank (0, 0) gives (0, 0), a line holding only '\n' gives out_of_range |
| TextBuffer.WordBegin | vim/src/document.cpp:396-400 | the start of the word holding a non-blank: no blank from it to e, a blank or the line start before it |
| TextBuffer.PrevWordUnique | vim/src/document.cpp:360-401 | IsPrevWord fixes the result, so PrevWord's contract admits one result |
| TextBuffer.Document.EndOfWord | vim/src/document.cpp:412-438 | the scan starts at the cursor when it is inside a word with more after it, else at nextWord's result (IsNextWord, so fixed); the character after the result is the first blank at or after the start (FirstBlankFrom), so the result is the last character of that word (column -1 when the start is a blank at the line start) |
| TextBuffer.BlankAfter | vim/src/document.cpp:433-435 | the loop ends on the first blank at or after the start, on its line (FirstBlankFrom) |
| ChangeLog.Place | vim/src/change.hpp:20-33 | setCursor inside a replay keeps the lines and dirty flag and lands on the text |
| ChangeLog.InsertAsWritten | vim/src/change.hpp:20-25 | doInsert as written keeps the document well formed |
| ChangeLog.DeleteAsWritten | vim/src/change.hpp:29-33 | doDelete as written keeps the document well formed |
| ChangeLog.ReplayInsert | vim/src/change.hpp:20-25 | the corrected doInsert keeps the document well formed |
| ChangeLog.ReplayDelete | vim/src/change.hpp:29-33 | the corrected doDelete keeps the document well formed |
| ChangeLog.UndoEffect | vim/src/change.hpp:101-135 | undoing an insertion deletes and undoing a deletion inserts, through the corrected doInsert/doDelete; the document stays well formed |
| ChangeLog.RedoEffect | vim/src/change.hpp:106-140 | redoing replays the record's own edit, through the corrected doInsert/doDelete; the document stays well formed |
| ChangeLog.InsertionRecord | vim/src/vim.cpp:397-399 | the record's deletion point is where insert leaves the cursor |
| ChangeLog.DeletionRecord | vim/src/vim.cpp:252-254 | the record's deletion point is the cursor at which the character was removed |
| ChangeLog.UndoInsertRestores | vim/src/change.hpp:101-105 | undoing a recorded insertion restores the lines and cursor from before it |
| ChangeLog.RedoInsertAfterUndo | vim/src/change.hpp:106-110 | redo after undo puts the inserted character back |
| ChangeLog.UndoDeleteRestores | vim/src/change.hpp:131-135 | undoing a recorded in-line deletion restores the lines |
| ChangeLog.RedoDeleteAfterUndo | vim/src/change.hpp:136-140 | redo after undo removes the same character again |
| ChangeLog.UndoInsertAsWrittenDeletesNeighbour | vim/src/change.hpp:29-33 | as written, undoing the insertion of 'c' at the end of "ab" deletes 'b'; corrected, it restores "ab" |
| ChangeLog.UndoDeleteAsWrittenMisplaces | vim/src/change.hpp:20-25 | as written, undoing the deletion of 'b' from "ab" gives "ba"; corrected, it restores "ab" |
| ChangeLog.AfterAdd | vim/src/change.hpp:57-68 | addChange drops every node after the current one, appends c and makes it current |
| ChangeLog.UndoMovesBack | vim/src/change.hpp:73-76 | undo keeps the list and moves back by one exactly when the current node holds a character; otherwise nothing changes |
| ChangeLog.RedoAfterAddIsNoOp | vim/src/change.hpp:57-80 | right after addChange, redo does nothing |
| ChangeLog.RedoAfterUndoReturns | vim/src/change.hpp:73-80 | redo after an undo that moved returns to the same node |
| ChangeLog.UndoRecordedInsertion | vim/src/change.hpp:57-76 | recording an insertion and undoing it gives back the document and the current node |
| ChangeLog.UndoRecordedDeletion | vim/src/change.hpp:57-76 | recording an in-line deletion and undoing it gives back the lines and the current node |
| ChangeLog.RedoRecordedInsertion | vim/src/change.hpp:57-80 | undo then redo of a recorded insertion gives back the list and the inserted text |
| ChangeLog.RedoRecordedDeletion | vim/src/change.hpp:57-80 | undo then redo of a recorded deletion gives the state the deletion left |
| ChangeLog.History.constructor | vim/src/change.hpp:42-47 | a list holding only the '\0' sentinel, which is current |
| ChangeLog.History.AddChange | vim/src/change.hpp:57-68 | the list becomes AfterAdd of the old one |
| ChangeLog.History.DoInsert | vim/src/change.hpp:20-25 | the document becomes ReplayInsert of the old one |
| ChangeLog.History.DoDelete | vim/src/change.hpp:29-33 | the document becomes ReplayDelete of the old one |
| ChangeLog.History.Undo | vim/src/change.hpp:73-76 | list and document become AfterUndo of the old ones (the edit replayed through the corrected doInsert/doDelete) |
| ChangeLog.History.Redo | vim/src/change.hpp:77-80 | list and document become AfterRedo of the old ones (the edit replayed through the corrected doInsert/doDelete) |
| MapReader.Fetch | Pacman/src/map.cpp:27-36 | the cell buffer after the reads holds the next characters of input, or keeps its old characters past the end |
| MapReader.LastConcat | Pacman/src/map.cpp:39-40 | a later store to a cell wins |
| MapReader.LastSnoc | Pacman/src/map.cpp:39-40 | one more store overrides only its own cell |
| MapReader.WritesCell | Pacman/src/map.cpp:26-41 | one loop step on a cell character: a store, then the next column or the next row |
| MapReader.WritesNewline | Pacman/src/map.cpp:31-42 | a '\n' ends the row and goes on while the row counter is below the height |
| MapReader.ReadRows | Pacman/src/map.cpp:12-43 | reading the text of rows that fit the width makes one store per cell, in order |
| MapReader.LastRowStores | Pacman/src/map.cpp:12-43 | in those stores, each grid cell is written at most once, with its own cell |
| MapReader.ReadRendered | Pacman/src/map.cpp:12-43 | a file whose rows fit the grid reads back cell for cell, and other cells are never stored to |
| MapReader.LongRowStoresPastWidth | Pacman/src/map.cpp:41 | a row with more cells than the width makes a store at column width, outside the grid |
| GameMap.Glyph | Pacman/src/map.cpp:152-168 | each drawn cell type is spelled with three characters |
| GameMap.DecideCellType | Pacman/src/map.cpp:152-168 | never decides an eaten dot or power-up |
| GameMap.DecideGlyph | Pacman/src/map.cpp:152-168 | each drawn type is decided from its characters; a non-wall cell holds exactly its type's characters |
| GameMap.TakeCell | Pacman/src/map.cpp:27-36 | the read loop fills the cell buffer as Fetch says and advances past it |
| GameMap.Map.constructor | Pacman/src/map.cpp:54-73 | every cell starts blank; then each cell holds the last store to it with its decided type, else stays blank |
| GameMap.Map.SetCell | Pacman/src/map.cpp:136-139 | only cell (x, y) changes, and to c |
| GameMap.Map.ReadFromFile | Pacman/src/map.cpp:12-43 | each grid cell holds the characters last stored to it and their decided type; every other cell is unchanged |
| GameMap.BoardReadsBack | Pacman/src/map.cpp:12-73 | after construction from a fitting board, cell (x, y) is the x-th cell of line y with its type, or blank |
| CharMap.Map.constructor | HW5/src/map.cpp:48-69 | every cell starts as a space; then each holds the last character stored to it |
| CharMap.Map.SetCell | HW5/src/map.cpp:135-138 | only cell (x, y) changes, and to c |
| CharMap.Map.ReadFromFile | HW5/src/map.cpp:12-37 | each grid cell holds the character last stored to it; every other cell is unchanged |
| CharMap.LinesRender | HW5/src/map.cpp:12-37 | a character file is the cell reader's input with one-character cells |
| CharMap.MapReadsBack | HW5/src/map.cpp:12-69 | a file of at most 24 lines of at most 80 characters reads back character for character; other cells stay unstored |
| GameCommon.Reverse | pacman/src/ghost.cpp:55-102 | the reverse of a direction is a different direction |
| GameCommon.ReverseReverse | pacman/src/ghost.cpp:55-102 | reversing twice gives the direction back |
| GameCommon.NeighbourDistinct | pacman/src/pacman.cpp:97-100 | a step always moves, and different directions reach different cells |
| GameCommon.NeighbourReverse | pacman/src/pacman.cpp:97-100 | a step followed by a step in the reverse direction returns |
| GameCommon.AheadOffset | pacman/src/ghost.cpp:365-366 | k cells ahead is k times the direction's offset |
| GameCommon.WrapCases | pacman/src/pacman.cpp:105-109 | the portal check changes the location only at a portal heading out, to the other portal |
| PacmanPlayer.StepCases | pacman/src/pacman.cpp:97-109 | a step ends on the free cell ahead, stays in front of a wall, or jumps to a portal; away from portals it never enters a wall |
| PacmanPlayer.StepBack | pacman/src/pacman.cpp:97-109 | away from portals, a free step followed by a step back returns to the start |
| PacmanPlayer.PortalRoundTrip | pacman/src/pacman.cpp:97-109 | walking W into the left portal comes out at the right one, and back |
| PacmanPlayer.Pacman.constructor | pacman/src/pacman.cpp:12-13 | starts at the Pacman start cell facing W |
| PacmanPlayer.Pacman.SetDirection | pacman/src/pacman.cpp:37-39 | the direction becomes d; the location is kept |
| PacmanPlayer.Pacman.OnStart | pacman/src/pacman.cpp:76-80 | back at the start cell facing W |
| PacmanPlayer.Pacman.Step | pacman/src/pacman.cpp:97-109 | one iteration of move() takes the location to StepResult and keeps the direction |
| Ghosts.MovesBit | pacman/src/ghost.cpp:52-105 | a direction's bit is set in the move mask exactly when that direction is offered |
| Ghosts.MovesSound | pacman/src/ghost.cpp:52-105 | an offered direction is not a wall; N is never offered from a no-up cell; reversing is offered only in ScatterInt |
| Ghosts.ReversalOnce | pacman/src/ghost.cpp:52-105 | offering the reversal turns ScatterInt into Scatter, after which it is not offered again |
| Ghosts.OfferSteps | pacman/src/ghost.cpp:52-105 | the four blocks in the source's order compute the move mask and the state after it |
| Ghosts.NextPlaceSound | pacman/src/ghost.cpp:118-196 | a moving ghost takes the chosen offered direction and never enters a wall except by a portal |
| Ghosts.PickIsNearest | pacman/src/ghost.cpp:131-185 | the distance scan in order N, W, S, E picks an offered direction no farther from the target than any other offered one |
| Ghosts.FrightenedPickIsNearest | pacman/src/ghost.cpp:138-185 | with `1/++dirs` as integer division, the frightened chance test never changes the distance pick, for every draw in [0, 1] |
| Ghosts.PinkyChase | pacman/src/ghost.cpp:364-367 | Pinky chases the cell four ahead of Pacman |
| Ghosts.InkyChase | pacman/src/ghost.cpp:420-431 | Inky's target is his own cell plus twice the vector from Blinky to two ahead of Pacman |
| Ghosts.InkyChaseShift | pacman/src/ghost.cpp:420-431 | Blinky two ahead of Pacman makes Inky target himself; Blinky moving one cell moves the target two cells the other way |
| Ghosts.Aim | pacman/src/ghost.cpp:304-499 | in chase each ghost's formula; in scatter its corner; a dying ghost at its target takes the game's state; otherwise unchanged |
| Ghosts.Ghost.constructor | pacman/src/ghost.cpp:19-27 | at (0, 0), facing N, in jail, targeting (0, 0); nothing about the restart flag, which the source leaves unset |
| Ghosts.Ghost.PossibleMoves | pacman/src/ghost.cpp:52-105 | returns Moves and leaves StateAfterMoves; nothing else changes |
| Ghosts.Ghost.Offer | pacman/src/ghost.cpp:55-102 | one block adds an open non-reversing direction, or the reversal once in ScatterInt |
| Ghosts.Ghost.UpdateLocation | pacman/src/ghost.cpp:118-196 | the location and direction become NextPlace of the mask and the chosen direction |
| Ghosts.Ghost.SetState | pacman/src/ghost.cpp:208-210 | the state becomes the argument; nothing else changes |
| Ghosts.Ghost.OnDeath | pacman/src/ghost.cpp:262-268 | the target becomes the ghost-house exit |
| Ghosts.Ghost.Restart | pacman/src/ghost.hpp:60 | the restart flag is set |
| Ghosts.Ghost.OnStart | pacman/src/ghost.cpp:277-466 | restart flag cleared, the game's state taken; Blinky at his start, the others at the exit |
| Ghosts.Ghost.Target | pacman/src/ghost.cpp:304-499 | the state and target become Aim's |

## Left out

- Integer width: all arithmetic is on unbounded integers. The 32-bit overflow of rational products, vector sizes and capacity doubling is not modelled.
- IntHelpers.SmallestPow2: requires n <= 2^30. Beyond that the 32-bit doubling overflows and the C++ loop never ends.
- BaseVector.VectorBase.OfSize: requires size <= 2^30, for the same reason.
- SimpleVector.Vector.OfSize: requires size <= 2^30, for the same reason.
- BaseVector.VectorBase.Resize: requires that a growing count is at most 2^30, for the same reason.
- SimpleVector.Vector.Resize: requires that a growing count is at most 2^30, for the same reason.
- BaseVector.VectorBase.Erase: follows HW4's guard `numDeleted <= 0`. HW3 returns only on `numDeleted == 0`, and its behaviour on a reversed range is not modelled.
- SimpleVector.Vector.Erase: requires first <= last. HW2's guard only catches an empty range, and what it does with a reversed range is not modelled.
- BaseVector.VectorBase.Insert: requires a non-empty vector, because the source copies the last element first.
- SimpleVector.Vector.Insert: requires a non-empty vector, because the source copies the last element first.
- VectorSpec.Insert: takes `pos` as an index. The source's `pos` is a pointer that push_back's realloc leaves dangling when the vector is full; that case is VectorSpec.InsertAsWritten (see Findings), and this is the intended insert.
- VectorSpec.Insert2: takes `pos` as an index, as VectorSpec.Insert does; HW2's full-vector case is VectorSpec.InsertAsWritten2 (see Findings).
- BaseVector.VectorBase.Insert: models the intended insert of VectorSpec.Insert. As written, inserting into a full vector writes through a `pos` that realloc may have moved (see Findings).
- SimpleVector.Vector.Insert: models the intended insert of VectorSpec.Insert2. As written, inserting into a full vector writes through a `pos` that realloc may have moved (see Findings).
- Copy and move constructors, assignment operators, iterators, `memcpy`/`malloc`, and the `Vector<T*>` specialisation are raw memory handling and are not modelled.
- BoolVector.VectorBool.Erase: states the elements, size and capacity, not the exact word array. It ends in the corrected resize. As written, an erase that leaves a positive multiple of 32 elements clears the last kept word (BoolVectorAsWritten.EraseAsWritten, see Findings), and one that leaves no element masks word -1.
- BoolVector.VectorBool.EraseAt: erase(pos, pos + 1) through the corrected erase, with the same as-written difference as BoolVector.VectorBool.Erase.
- BoolVectorSpec.ErasedBits: states the erase with the corrected resize. The as-written erase is BoolVectorAsWritten.EraseAsWritten.
- BoolVectorSpec.Clear: resize(0) through the corrected resize. As written, clear() on a non-empty vector masks word -1 (BoolVectorAsWritten.ResizeMaskWord), outside the word array, so it has no as-written model.
- BoolVector.VectorBool.Clear: the state becomes BoolVectorSpec.Clear's; as written this call masks word -1, as the line for BoolVectorSpec.Clear says.
- BoolVector.VectorBool.Insert: models the corrected loop; as written, the loop starts one element past the end (see Findings). States the elements, size and capacity, not the exact word array.
- BoolVector.VectorBool.Resize: models the corrected statements; see Findings.
- BoolVector.VectorBool.PushBack: models the corrected statements; see Findings.
- BoolVectorAsWritten.ResizeAsWritten: requires a positive count when shrinking, because the source then indexes word -1.
- Rational comparisons (`<`, `==`, …) and the `float`/`double` conversions go through floating point and are not modelled.
- operator<< writes to a stream. The model is the text it writes (Rationals.Format).
- Rationals.Rational.constructor: requires d != 0. The throwing case is Rationals.Make's InvalidArgument.
- Rationals.Sub: its value is stated through Rationals.SubIsAddNeg rather than in its own ensures.
- Rationals.Div: its value is stated through Rationals.DivIsMulReciprocal rather than in its own ensures.
- File I/O: the document's and the maps' files are given as their text, and save returns the text it writes.
- TextBuffer.Document.constructor: requires a non-empty file. An empty file leaves no lines, and every later call would index line -1. It reads the lines with the corrected loop, TextBuffer.ReadLines. As written, importFile drops a last line that has no '\n' (TextBuffer.ImportDropsUnterminatedLine, see Findings).
- TextBuffer.Document.NextWord: requires each line's only '\n' to be its last character. That holds for a file read by the constructor (TextBuffer.LinesShape) and is kept by deleteChar and by inserting anything but '\r' (TextBuffer.DeleteKeepsOneLinePerLine, TextBuffer.InsertKeepsOneLinePerLine). After an inserted '\r' the scan is not stated.
- TextBuffer.Document.EndOfWord: requires each line's only '\n' to be its last character, as TextBuffer.Document.NextWord does.
- Display, the key loop and search (vim/src/vim.cpp, display.cpp) are not part of this model. Only the records the key loop makes are (ChangeLog.InsertionRecord, ChangeLog.DeletionRecord).
- The change list's heap nodes, `delete` of discarded nodes and the `malloc`'d shared cell are a sequence and an index here.
- ChangeLog.UndoEffect: replays through the corrected doInsert/doDelete (ChangeLog.ReplayInsert, ChangeLog.ReplayDelete). As written, the cursor placement of change.hpp:20-25 and change.hpp:29-33 can edit the wrong character (ChangeLog.UndoInsertAsWrittenDeletesNeighbour, ChangeLog.UndoDeleteAsWrittenMisplaces, see Findings).
- ChangeLog.RedoEffect: replays through the corrected doInsert/doDelete, with the same as-written difference as ChangeLog.UndoEffect.
- ChangeLog.History.Undo: replays through the corrected doInsert/doDelete (ChangeLog.History.DoInsert, ChangeLog.History.DoDelete), with the same as-written difference as ChangeLog.UndoEffect.
- ChangeLog.History.Redo: replays through the corrected doInsert/doDelete, with the same as-written difference as ChangeLog.UndoEffect.
- ChangeLog.UndoDeleteRestores: covers a deletion inside a line. Undoing a deletion that joined two lines re-inserts the '\n' through insert, which splits the line again; that case is not stated.
- ChangeLog.RedoDeleteAfterUndo: requires a deletion inside a line, as ChangeLog.UndoDeleteRestores does; redo after undoing a joining deletion is not stated.
- ChangeLog.UndoRecordedDeletion: requires a deletion inside a line, as ChangeLog.UndoDeleteRestores does; undoing a recorded joining deletion is not stated.
- ChangeLog.RedoRecordedDeletion: requires a deletion inside a line, as ChangeLog.UndoDeleteRestores does; undo then redo of a recorded joining deletion is not stated.
- GameMap.Map.constructor: the type of the blank cell, left unset by the source, is a parameter. So is the cell buffer's unset initial contents in both readers.
- GameMap.Map.GetCell: a plain read, stated through SetCell's contract.
- CharMap.Map.GetCell: a plain read, stated through SetCell's contract.
- The HW5 display, the games' threads, `usleep` timing and the `onStart` waits for other ghosts and dot counts are concurrency and time; they are not modelled.
- Ghosts.Ghost.UpdateLocation: the floating-point distance comparison picks the direction. The frightened random override compares its draw with the integer `1/++dirs` and never changes that pick (Ghosts.FrightenedPickIsNearest). Here the pick is a parameter required to be an offered direction; Ghosts.PickIsNearest states what the as-written pick is.
- TextBuffer.Document.Insert: requires the cursor on the text. The replace command of vim/src/vim.cpp:344-353 runs setCursor(line, col + 1, true), deleteChar and insert with no clamp between; on a first line holding only '\n' the delete leaves column -1 and that insert indexes before the line, which is undefined behaviour (TextBuffer.ReplaceOnLoneFirstLine). That call is not modelled.
- Ghosts.Aim: Clyde's floating-point distance test is the parameter clydeFar.
- Ghosts.Ghost.constructor: the source leaves the restart flag unset; the model stores false and its contract promises nothing about the flag.
- The speeds and getters of Pacman and the ghosts carry no logic and are not modelled.

## Findings

| source | as written | input that shows it | evidently intended | confidence | as-written member | corrected member |
|---|---|---|---|---|---|---|
| HW4/vector.hh:626 | resize masks the last kept word with `~(-1 << count%32)`, which is 0 when count is a multiple of 32, and indexes word -1 for count 0 | Vector<bool> of 64 set bits resized to 32: element 0 reads false | clear only the bits from count on, and only when count does not end on a word boundary | high (not executed) | BoolVectorAsWritten.ResizeAsWrittenClearsKeptWord | BoolVectorSpec.Resize |
| HW4/vector.hh:644 | push_back ORs into word len/32 without making sure the word vector holds it | Vector<bool>(33, 64), resize(32), push_back(true), reserve(128): at(32) is false | push a zero word first when len/32 is past the word vector | high (not executed) | BoolVectorAsWritten.PushBackAsWrittenLosesBit | BoolVectorSpec.PushBack |
| HW4/vector.hh:666-669 | insert's loop starts at `end()` after resize(len + 1), one past the new last element | Vector<bool>(31): insert writes to word 1 of a one-word array | start the loop at the new last element | high (not executed) | BoolVectorAsWritten.InsertAsWrittenWritesPastWords | BoolVector.VectorBool.Insert |
| HW4/vector.hh:675-692 | erase ends with resize(len - numDeleted), whose mask clears the whole last kept word when the new size is a positive multiple of 32 | 32 set elements then a clear one, erase(end() - 1): element 0 reads false | keep the first len - numDeleted elements | high (not executed) | BoolVectorAsWritten.EraseAsWrittenWipesKeptWord | BoolVector.VectorBool.Erase |
| HW4/vector.hh:191-200 | insert takes `pos` as a `T*`, then push_back(arr[len-1]) reallocates when the vector is full, so the shift and `*pos = elem` go through a pointer into the released block | Vector<int>(4), insert(begin(), 7): capacity 4 is full, so push_back reallocates | take pos as an offset, or grow before taking pointers | high (not executed) | VectorSpec.InsertAsWrittenOnFullVector | VectorSpec.Insert |
| HW3/vector.hh:198-206 | the same insert as HW4 | Vector<int>(4), insert(begin(), 7) | the same | high (not executed) | VectorSpec.InsertAsWritten | BaseVector.VectorBase.Insert |
| HW2/vector.hh:195-204 | the same insert over HW2's push_back | Vector<int>(4), insert(begin(), 7) | the same | high (not executed) | VectorSpec.InsertAsWritten2 | SimpleVector.Vector.Insert |
| vim/src/document.cpp:53-64 | `while (!f.eof())` then `pop_back()` drops the last line when the file does not end in '\n' | a file "a\nb" imports as the single line "a\n" | read with `while (getline(f, line))` | high (not executed) | TextBuffer.ImportDropsUnterminatedLine | TextBuffer.ReadLines |
| vim/src/change.hpp:29-33 | doDelete places the cursor with setCursor's incNL left false, which pulls a column on the line terminator back by one | "ab" with the cursor after 'b', insert 'c', undo: the line becomes "ac" | place the cursor with incNL set, and for an inserted line break at the start of the line it opened | high (not executed) | ChangeLog.UndoInsertAsWrittenDeletesNeighbour | ChangeLog.UndoInsertRestores |
| vim/src/change.hpp:20-25 | doInsert places the cursor at col - 1 with incNL left false, which pulls a column on the line terminator back by one | "ab" with the cursor after 'b', delete 'b', undo: the line becomes "ba" | place the cursor with incNL set | high (not executed) | ChangeLog.UndoDeleteAsWrittenMisplaces | ChangeLog.UndoDeleteRestores |
| Pacman/src/map.cpp:41-42 | `while (col++ < _width)` and `while (row++ < _height)` test before counting, so one cell past the last column (and one row past the last) is stored to | a map line of more than 84 cells stores into column 84, outside the grid | store only inside the grid | high (not executed) | MapReader.LongRowStoresPastWidth | GameMap.Map.ReadFromFile |
| HW5/src/map.cpp:35-36 | the same loop bounds over single characters | a line of more than 80 characters stores into column 80, outside the grid | store only inside the grid | high (not executed) | MapReader.LongRowStoresPastWidth | CharMap.Map.ReadFromFile |
