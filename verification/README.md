# Kalantha core library, modelled in Dafny

This project models the freestanding core library of the Kalantha kernel. Each area is one Dafny module:

- **Address arithmetic** (`Memory`): `align_up`, `align_down`, `checked_align_up`, `difference`, `strlen_` and `streq_`.
- **Bump allocator** (`Bump`).
- **Non-owning views and a fixed array** (`Spans`, `StringViews`, `Arrays`).
- **Error model** (`Optional`, `Results`, `Try`, `Errors`): `Option_`, `Result_`, the `TRY`/`MUST` macros, and `ErrC`/`Error`.
- **Integer types and their limits** (`IntKinds`): the types the numeric code is instantiated with.
- **Integer parser and serialiser** (`CharConv`).
- **Byte-order routines** (`Endian`).
- **`min`/`max`/`clamp`** (`Algorithm`).
- **Buffered character writer** (`OStreams`).

How the C++ is represented:

- **Addresses** are integers below 2^64 (`Memory.U64`), and null is 0. `usize` arithmetic that can wrap is written out modulo 2^64.
- **Views.** A view is a pair of addresses into a memory, given as a sequence indexed by address. Its elements are `Contents(mem, view)`. `CharConv` and `OStreams` take a view as the characters it shows.
- **Mutation.** A member that mutates an object returns its new state. A member with a by-reference out-parameter returns that parameter's final value.
- **Bit tests** are stated arithmetically:
  - `align & (align - 1) == 0` holds exactly when `align` is 0 or a power of two;
  - `x & ~(align - 1)` is `x - x % align`.
- **Byte swaps** work on `bv64` bit patterns.
- **`KTA_ASSERT`** becomes a `requires`.

## Model

| member | source | states |
|---|---|---|
| Memory.Wrap | Kalantha/Core/Memory.hpp:133-137 | unsigned 64-bit wrap-around: the identity below 2^64, and one modulus added or removed just outside that range |
| Memory.MaskDown | Kalantha/Core/Memory.hpp:111-113 | `x & ~(align-1)` is the largest multiple of a nonzero `align` at or below `x`, and is 0 for align 0 |
| Memory.AlignUp | Kalantha/Core/Memory.hpp:97-105 | null unless `align` is a power of two; otherwise a multiple of `align`, with `p <= r < p + align`, and equal to `p` when `p` is aligned |
| Memory.AlignDown | Kalantha/Core/Memory.hpp:107-115 | null unless `align` is a power of two; otherwise a multiple of `align`, with `r <= p < r + align` |
| Memory.AlignUpDownConsistent | Kalantha/Core/Memory.hpp:97-115 | the two roundings bracket `p` and lie at most `align` apart; they coincide exactly when `p` is aligned |
| Memory.CheckedAlignUpAsWritten | Kalantha/Core/Memory.hpp:117-131 | the routine exactly as written: it fails unchanged when `space < size`, and never grows `space` |
| Memory.AlignZeroFailsButMoves | Kalantha/Core/Memory.hpp:118-130 | with `align == 0` the guard lets the call through: it returns null yet moves `ptr` 8→16 and `space` 56→48 |
| Memory.CheckedAlignUp | Kalantha/Core/Memory.hpp:117-131 | corrected routine: fails with `ptr` and `space` untouched when `space < size`, `align` is not a power of two, or padding plus size exceeds `space`; on success returns the aligned `A >= ptr`, sets `ptr = A + size` and `space -= (A - ptr) + size` |
| Memory.AsWrittenWithPowerOfTwo | Kalantha/Core/Memory.hpp:117-131 | for a power-of-two alignment the as-written routine agrees with the corrected one |
| Memory.AsWrittenAligned | Kalantha/Core/Memory.hpp:118-123 | for a power-of-two alignment the as-written routine returns an aligned address or null |
| Memory.AsWrittenClaim | Kalantha/Core/Memory.hpp:120-130 | away from the top of the address space, the as-written routine claims the padding up to `AlignUp` plus the block, or fails without moving `ptr` or `space` |
| Memory.CheckedAlignUpFailureChangesNothing | Kalantha/Core/Memory.hpp:118-126 | a null return leaves `ptr` and `space` exactly as they were |
| Memory.CheckedAlignUpSuccessive | Kalantha/Core/Memory.hpp:128-129 | two successive successful claims return increasing, non-overlapping blocks |
| Memory.Difference | Kalantha/Core/Memory.hpp:133-137 | `start + d == end` modulo 2^64, so `d == end - start` when `start <= end` and 0 for equal pointers |
| Memory.StrLen | Kalantha/Core/Memory.hpp:79-84 | the index of the first NUL at or after `p`: a NUL there, none before it |
| Memory.StrEq | Kalantha/Core/Memory.hpp:86-94 | true exactly when the two C strings have the same characters, lengths included |
| Bump.IsValid | Kalantha/Allocators/BumpAllocator.hpp:36-41 | a valid allocator has `end - cur` bytes remaining, at most the range size, and nothing remaining exactly when the cursor is at the end |
| Bump.IsWithinRange | Kalantha/Allocators/BumpAllocator.hpp:43-48 | holds exactly when `beg <= p` and `p` is less than `end - beg` above `beg`, i.e. `beg <= p < end`; a non-empty range is implied, and null is outside the range of every valid allocator |
| Bump.New | Kalantha/Allocators/BumpAllocator.hpp:97-101 | the cursor starts at `begin`; a non-null, ordered range is valid with `end - begin` bytes remaining |
| Bump.Remaining | Kalantha/Allocators/BumpAllocator.hpp:67-71 | `cur + n == end` while the cursor is below the end, else 0 |
| Bump.AllocateBlock | Kalantha/Allocators/BumpAllocator.hpp:50-65 | the corrected allocator, which refuses `align == 0`: `beg`/`end` never change; size 0, an invalid allocator or no space give null with the state unchanged; success happens exactly when an aligned block of `size` fits below `end`, and then returns `AlignUp(align, cur)` with `cur := block + size`, keeping `beg <= cur <= end` |
| Bump.AllocateBlockAsWritten | Kalantha/Allocators/BumpAllocator.hpp:50-65 | the allocator over the as-written `checked_align_up`: same early exits, `beg`/`end` untouched, and for every nonzero alignment exactly the corrected `AllocateBlock` |
| Bump.AlignZeroLeaksSpace | Kalantha/Allocators/BumpAllocator.hpp:59-64 | as written, an `align == 0` request on [8, 64) returns null yet leaves 48 of 56 bytes; the corrected allocator leaves all 56 |
| Bump.AllocationsDisjoint | Kalantha/Allocators/BumpAllocator.hpp:50-65 | two successive successful allocations are increasing, disjoint and inside `[beg, end)` |
| Bump.RemainingAccounts | Kalantha/Allocators/BumpAllocator.hpp:67-71 | after an allocation, the remaining bytes are the range size minus the cursor's distance from `beg` |
| Bump.NullAllocatorServesNothing | Kalantha/Allocators/BumpAllocator.hpp:36-41 | a null or moved-from allocator returns null for every request and has nothing remaining |
| Bump.Deallocate | Kalantha/Allocators/BumpAllocator.hpp:24-27 | always an error whose code is `NotImplemented` |
| Bump.MoveConstruct | Kalantha/Allocators/BumpAllocator.hpp:73-82 | the target takes the three pointers; the source is nulled and invalid |
| Bump.MoveAssign | Kalantha/Allocators/BumpAllocator.hpp:84-95 | as move construction, except that self-assignment changes nothing |
| Bump.FillWithBytes | Kalantha/Allocators/BumpAllocator.hpp:50-71 | one-byte requests on a fresh range return `begin + i` for the i-th request, until nothing remains; the next request is null |
| Spans.Default | Kalantha/Core/Span.hpp:105 | a default span has both pointers null, so it is well formed and empty |
| Spans.FromPtrLen | Kalantha/Core/Span.hpp:101-103 | `Span(p, len)` starts at `p` and has size `len` |
| Spans.Size | Kalantha/Core/Span.hpp:35-38 | `beg + size == end` |
| Spans.IsEmpty | Kalantha/Core/Span.hpp:45 | empty exactly when the two ends coincide, for every span, the size being the wrapped pointer difference |
| Spans.SizeBytes | Kalantha/Core/Span.hpp:40-43 | the size times the element size, when that product does not wrap |
| Spans.At | Kalantha/Core/Span.hpp:49-56 | `at(i)` and the delegating `operator[]` require `i < size` and yield element `i` |
| Spans.Store | Kalantha/Core/Span.hpp:49-56 | a write through `at(i)` changes element `i` and no other address |
| Spans.Front | Kalantha/Core/Span.hpp:58-62 | requires a non-null, non-empty span; yields element 0 |
| Spans.Back | Kalantha/Core/Span.hpp:64-68 | requires a non-null, non-empty span; yields the last element |
| Spans.Subspan | Kalantha/Core/Span.hpp:70-74 | requires `o + c <= size`; the result lies inside the span, starts at `beg + o` and has size `c` |
| Spans.SubspanFrom | Kalantha/Core/Span.hpp:76-79 | requires `o <= size`; the suffix from `o` to the end |
| Spans.First | Kalantha/Core/Span.hpp:81-84 | the first `n` elements |
| Spans.Last | Kalantha/Core/Span.hpp:86-89 | the last `n` elements, starting at `end - n` |
| Spans.DropFront | Kalantha/Core/Span.hpp:91-94 | all but the first `n` elements: the same span as `subspan(n)` |
| Spans.DropBack | Kalantha/Core/Span.hpp:96-99 | all but the last `n` elements |
| Spans.WithinContents | Kalantha/Core/Span.hpp:70-99 | a view inside another views the matching slice of its elements |
| Spans.SliceContents | Kalantha/Core/Span.hpp:70-99 | element `i` of every sub-view is element `offset + i` of the parent |
| Spans.SliceAlgebra | Kalantha/Core/Span.hpp:70-99 | `first(n) ++ drop_front(n)` is the whole span; `last(n) == drop_front(size - n)`; `drop_back(n) == first(size - n)`; `subspan(o, c) == first(drop_front(o), c)`; `subspan(o) == drop_front(o)` |
| Spans.StoreThroughSubview | Kalantha/Core/Span.hpp:49-74 | a store through a subspan is seen by the parent at `offset + i` |
| StringViews.Size | Kalantha/Core/StringView.hpp:29-32 | `beg + size == end` |
| StringViews.IsEmpty | Kalantha/Core/StringView.hpp:24 | empty exactly when the two ends coincide, for every view |
| StringViews.SizeBytes | Kalantha/Core/StringView.hpp:34-37 | the size times the character size, when that product does not wrap |
| StringViews.Default | Kalantha/Core/StringView.hpp:94-97 | a default view has both pointers null, so it is well formed and empty |
| StringViews.FromCStr | Kalantha/Core/StringView.hpp:68-72 | the view ends at the first NUL, and its characters are the C string |
| StringViews.FromPtrLen | Kalantha/Core/StringView.hpp:74-77 | exactly `len` characters from `p`, NULs included |
| StringViews.FromArray | Kalantha/Core/StringView.hpp:79-83 | an array of `n` characters gives a view of `n - 1` |
| StringViews.ArrayAgreesWithCStr | Kalantha/Core/StringView.hpp:68-83 | the array and pointer constructors agree exactly when the array's only NUL is its last element; otherwise the pointer view is shorter |
| StringViews.At | Kalantha/Core/StringView.hpp:51-55 | requires `beg + i < end`; yields character `i` |
| StringViews.Index | Kalantha/Core/StringView.hpp:85-87 | `operator[]` reads `beg + i` unchecked; it agrees with `at` whenever `i < size` |
| StringViews.Subview | Kalantha/Core/StringView.hpp:57-61 | requires `o + c <= size`; a well-formed view inside the parent, at `beg + o`, of size `c` |
| StringViews.SubviewFrom | Kalantha/Core/StringView.hpp:63-66 | the suffix from `o` |
| StringViews.SubviewContents | Kalantha/Core/StringView.hpp:57-66 | a subview shows the matching slice of the parent's characters |
| StringViews.SubviewOfSubview | Kalantha/Core/StringView.hpp:57-61 | chained subviews compose: offsets add |
| StringViews.Equals | Kalantha/Core/StringView.hpp:39-43 | true exactly when the two views show the same characters, whatever their addresses |
| StringViews.NotEquals | Kalantha/Core/StringView.hpp:45-49 | true exactly when the characters differ, so it is the negation of `==` |
| Arrays.Size | Kalantha/Core/Array.hpp:68 | the number of elements held, repeats counted, and every element held sits at an index below it |
| Arrays.IsEmpty | Kalantha/Core/Array.hpp:69 | empty exactly when the array holds no element at all |
| Arrays.Default | Kalantha/Core/Array.hpp:71-75 | `sz_` elements, all value-initialised |
| Arrays.FromArgs | Kalantha/Core/Array.hpp:65-66 | the arguments first, then value-initialised elements |
| Arrays.FromCArray | Kalantha/Core/Array.hpp:57-59 | the C array's elements, in order |
| Arrays.Fill | Kalantha/Core/Array.hpp:31-33 | every element becomes `v`; the size is unchanged |
| Arrays.At | Kalantha/Core/Array.hpp:45-48 | requires `i < size`; yields element `i` |
| Arrays.Store | Kalantha/Core/Array.hpp:45-52 | assignment through `at(i)` changes element `i` only |
| Arrays.Front | Kalantha/Core/Array.hpp:35-38 | requires a non-empty array; yields element 0 |
| Arrays.Back | Kalantha/Core/Array.hpp:40-43 | requires a non-empty array; yields element `sz_ - 1` |
| Optional.HasValue | Kalantha/Core/Option.hpp:123-124 | true exactly when the Option is not empty, and then it holds the value `value()` yields |
| Optional.Empty | Kalantha/Core/Option.hpp:126-127 | the default and `None_` constructors give an empty Option |
| Optional.Make | Kalantha/Core/Option.hpp:105-109 | constructing from a value holds that value |
| Optional.Value | Kalantha/Core/Option.hpp:27-50 | `value()`, `*` and `->` require a value and yield it |
| Optional.ReleaseValue | Kalantha/Core/Option.hpp:52-58 | requires a value; returns it and leaves the Option empty |
| Optional.Clear | Kalantha/Core/Option.hpp:60-64 | leaves the Option empty |
| Optional.ClearIdempotent | Kalantha/Core/Option.hpp:60-64 | clearing twice is clearing once |
| Optional.ValueOr | Kalantha/Core/Option.hpp:66-69 | the held value if present, else the fallback |
| Optional.Emplace | Kalantha/Core/Option.hpp:93-98 | afterwards the Option holds `x`, whatever it held before |
| Optional.CopyConstruct | Kalantha/Core/Option.hpp:111-115 | the copy equals the source |
| Optional.MoveConstruct | Kalantha/Core/Option.hpp:117-121 | the target takes the source's state; the source is left empty |
| Optional.MoveAssign | Kalantha/Core/Option.hpp:71-80 | transfers and empties the source; self-assignment changes nothing |
| Optional.CopyAssign | Kalantha/Core/Option.hpp:82-91 | the target equals the source |
| Results.HasValue | Kalantha/Core/Result.hpp:78-79 | decided by the value side alone: true exactly when it holds a value |
| Results.FromValue | Kalantha/Core/Result.hpp:88-89 | only the value side is populated, with `x` |
| Results.FromError | Kalantha/Core/Result.hpp:90-91 | only the error side is populated, with `e` |
| Results.Default | Kalantha/Core/Result.hpp:92 | only the error side is populated, with `E{}` |
| Results.Create | Kalantha/Core/Result.hpp:23-26 | `create` gives a Result that has a value |
| Results.Value | Kalantha/Core/Result.hpp:40-41 | requires the value side; yields it |
| Results.Error | Kalantha/Core/Result.hpp:43-44 | requires the error side; yields it |
| Results.ValueOr | Kalantha/Core/Result.hpp:28-32 | the value when present, else the fallback |
| Results.ErrorOr | Kalantha/Core/Result.hpp:34-38 | the error when there is no value, else the fallback |
| Results.ReleaseValue | Kalantha/Core/Result.hpp:46-48 | returns the value and empties the value side; the error side stays as it was |
| Results.ReleaseError | Kalantha/Core/Result.hpp:50-52 | returns the error and empties the error side |
| Results.CallIfError | Kalantha/Core/Result.hpp:54-58 | the callback runs exactly when there is no value and receives the Result itself; the Result comes back as the callback left it, or untouched when it did not run |
| Results.CallIfValue | Kalantha/Core/Result.hpp:60-64 | the callback runs exactly when there is a value and receives the Result itself; the Result comes back as the callback left it, or untouched when it did not run |
| Results.ExactlyOneCallbackRuns | Kalantha/Core/Result.hpp:54-64 | of `call_if_error` and `call_if_value` exactly one runs its callback and the other returns the Result untouched; when the callback leaves the Result alone, both return it unchanged |
| Results.MoveConstruct | Kalantha/Core/Result.hpp:84 | the target takes both sides; both of the source's Options are emptied |
| Results.ReleaseLeavesNeitherSide | Kalantha/Core/Result.hpp:46-48 | after `release_value` a Result has neither side: "exactly one side" holds at construction only |
| Try.TryOrReturn | Kalantha/Core/Try.hpp:11-17 | continues with the released value exactly when the result has one; otherwise the enclosing function returns the released error |
| Try.Must | Kalantha/Core/Try.hpp:20-26 | requires a value; yields it |
| Try.MustOption | Kalantha/Core/Try.hpp:20-26 | the same over an Option, as `from_chars_` uses it |
| Try.BindAgreesWithTry | Kalantha/Core/Try.hpp:11-17 | early return through `TRY` agrees with propagating the failure with Dafny's `:-` |
| Errors.Value | Kalantha/Core/Errors.hpp:22-28 | the underlying `uint16`: the listed codes are exactly those numbered below 6 |
| Errors.DefaultCode | Kalantha/Core/Errors.hpp:30-36 | a default `ErrC` is `None` |
| Errors.CodesEqual | Kalantha/Core/Errors.hpp:23 | equality compares the underlying value |
| Errors.ToString | Kalantha/Core/Errors.hpp:52-59 | each listed code's identifier text reads back as that code; unlisted codes give "???" |
| Errors.Description | Kalantha/Core/Errors.hpp:61-68 | "???" exactly for unlisted codes |
| Errors.NamesAndDescriptionsDistinct | Kalantha/Core/Errors.hpp:14-20 | distinct listed codes have distinct names and descriptions |
| Errors.DefaultError | Kalantha/Core/Errors.hpp:43-48 | message "---", code `None` |
| Errors.FromCode | Kalantha/Core/Errors.hpp:46 | message "---" and the given code |
| Errors.WithMessage | Kalantha/Core/Errors.hpp:47 | the given message and code |
| IntKinds.Min | Kalantha/Core/Limits.hpp:24-92 | `-max - 1` for a signed type, 0 for an unsigned one |
| IntKinds.Max | Kalantha/Core/Limits.hpp:24-92 | positive and below 2^bits |
| IntKinds.LimitsSpanTheType | Kalantha/Core/Limits.hpp:24-92 | the limits enclose exactly 2^bits values |
| IntKinds.ToUnsigned | Kalantha/Arch/Generic/Endian.hpp:86-89 | the pattern congruent to `v` modulo 2^bits, and `v` itself when non-negative |
| IntKinds.FromUnsigned | Kalantha/Arch/Generic/Endian.hpp:91-94 | the in-range value congruent to the pattern |
| IntKinds.CastsRoundTrip | Kalantha/Arch/Generic/Endian.hpp:86-94 | the two casts are inverse bijections |
| Endian.ByteSwap16 | Kalantha/Arch/Generic/Endian.hpp:102-108 | exchanges the two bytes |
| Endian.ByteSwap32 | Kalantha/Arch/Generic/Endian.hpp:115-122 | reverses the four bytes |
| Endian.ByteSwap64 | Kalantha/Arch/Generic/Endian.hpp:129-147 | reverses the eight bytes |
| Endian.ByteSwap16Involutive | Kalantha/Arch/Generic/Endian.hpp:102-108 | swapping twice is the identity |
| Endian.ByteSwap32Involutive | Kalantha/Arch/Generic/Endian.hpp:115-122 | swapping twice is the identity |
| Endian.ByteSwap64Involutive | Kalantha/Arch/Generic/Endian.hpp:129-147 | swapping twice is the identity |
| Endian.ByteSwap | Kalantha/Arch/Generic/Endian.hpp:154-193 | the identity on one-byte types, otherwise the width's swap of the pattern, staying within the width |
| Endian.ByteSwapRoundTrip | Kalantha/Arch/Generic/Endian.hpp:154-193 | `byteswap` is an involution for every width, signed types included |
| Endian.ByteSwapExamples | Kalantha/Arch/Generic/Endian.hpp:102-193 | 0x1234 ↔ 0x3412, 0x12345678 ↔ 0x78563412, the 64-bit vector, and −2 as `int16` ↔ 0xFEFF |
| Endian.OrderValue | Kalantha/Arch/Generic/Endian.hpp:54-63 | `Little = 0`, `Big = 1` |
| Endian.IsLittleEndian | Kalantha/Arch/Generic/Endian.hpp:69-71 | true exactly when the native order has value 0, `Little` |
| Endian.IsBigEndian | Kalantha/Arch/Generic/Endian.hpp:77-79 | true exactly when the native order has value 1, `Big` |
| Endian.HostToBig | Kalantha/Arch/Generic/Endian.hpp:200-203 | no change on a big-endian host |
| Endian.HostToLittle | Kalantha/Arch/Generic/Endian.hpp:210-213 | no change on a little-endian host |
| Endian.BigToHost | Kalantha/Arch/Generic/Endian.hpp:220-223 | no change on a big-endian host; `host_to_big` of its result gives back the input |
| Endian.LittleToHost | Kalantha/Arch/Generic/Endian.hpp:230-233 | no change on a little-endian host; `host_to_little` of its result gives back the input |
| Endian.HostConversionsRoundTrip | Kalantha/Arch/Generic/Endian.hpp:69-79 | exactly one of little and big holds; `big_to_host ∘ host_to_big` and `little_to_host ∘ host_to_little` are the identity; the two outward conversions differ by exactly one byte swap |
| Algorithm.Min | Kalantha/Core/Algorithm.hpp:14-17 | one of the arguments, no larger than either; `a` on a tie |
| Algorithm.Max | Kalantha/Core/Algorithm.hpp:19-22 | one of the arguments, no smaller than either; `a` on a tie |
| Algorithm.Clamp | Kalantha/Core/Algorithm.hpp:24-27 | within `[lo, hi]` when `lo <= hi`; `v` when it is already inside; `lo` below `lo`; otherwise `hi` above `hi`, whether or not `lo <= hi` |
| Algorithm.ClampIsMinOfMax | Kalantha/Core/Algorithm.hpp:14-27 | on a well-formed range, clamping is `min(max(v, lo), hi)`, down to the object returned |
| Algorithm.MinMaxSplit | Kalantha/Core/Algorithm.hpp:14-22 | min and max hand back both arguments between them |
| CharConv.IsSpace | Kalantha/Core/CharConv.hpp:26 | exactly space, tab and newline; none of them is a digit in any base |
| CharConv.ToLower | Kalantha/Core/CharConv.hpp:24 | maps an upper-case letter to its lower-case partner |
| CharConv.DigitValue | Kalantha/Core/CharConv.hpp:40-46 | defined exactly on `0-9`, `A-F` and `a-f`; below 16, and below 10 exactly for decimal digits |
| CharConv.IsDigit | Kalantha/Core/CharConv.hpp:48-59 | a digit of the base exactly when the base is one of 2, 8, 10, 16 and the character's value, case folded, is below the base |
| CharConv.IsDigitMeansValueBelowBase | Kalantha/Core/CharConv.hpp:48-59 | a character is a digit of a base exactly when the base is one of 2, 8, 10, 16 and its value is below the base; hex is case-insensitive |
| CharConv.DigitChar | Kalantha/Core/CharConv.hpp:113 | the upper-case character written for a digit reads back as that digit |
| CharConv.Run | Kalantha/Core/CharConv.hpp:76 | the longest prefix of digits of the base: the loop stops at the first non-digit |
| CharConv.Accumulate | Kalantha/Core/CharConv.hpp:76-81 | the checked digit loop never exceeds the limit |
| CharConv.OverflowCheck | Kalantha/Core/CharConv.hpp:79 | `out > (max - digit) / base` holds exactly when `out * base + digit > max` |
| CharConv.AccumulateMeaning | Kalantha/Core/CharConv.hpp:76-81 | the loop reports overflow exactly when the positional value of the digit run exceeds the limit, and otherwise computes that value |
| CharConv.LeadingSpaces | Kalantha/Core/CharConv.hpp:68 | skips exactly the leading spaces, tabs and newlines |
| CharConv.Negate | Kalantha/Core/CharConv.hpp:83-88 | `-out` in the type: plain negation when signed, two's complement when unsigned |
| CharConv.NegationUnique | Kalantha/Core/CharConv.hpp:87 | unsigned negation has exactly one in-range result |
| CharConv.ParseNumber | Kalantha/Core/CharConv.hpp:71-90 | the sign and the digit loop: the result is in range, and the only error is `Overflow` |
| CharConv.ParseNumberOutcome | Kalantha/Core/CharConv.hpp:71-90 | succeeds exactly when the magnitude is within the bound, with the signed or wrapped value |
| CharConv.Parse | Kalantha/Core/CharConv.hpp:62-91 | `from_chars_`: empty and all-blank input give `InvalidArg` with `out == 0`; the only errors are `InvalidArg` and `Overflow`; `out` stays in range |
| CharConv.NumberMeaning | Kalantha/Core/CharConv.hpp:71-90 | the corrected parser succeeds on a sign-and-digits text exactly when it denotes an in-range value, and yields that value |
| CharConv.NumberMeaningUnsigned | Kalantha/Core/CharConv.hpp:71-90 | without a minus sign: success exactly when the magnitude is at most the maximum, yielding the magnitude |
| CharConv.NumberMeaningNegativeSigned | Kalantha/Core/CharConv.hpp:71-90 | after a minus sign in a signed type: success exactly when the magnitude is at most the minimum's, yielding its negation |
| CharConv.NumberMeaningNegativeUnsigned | Kalantha/Core/CharConv.hpp:71-90 | after a minus sign in an unsigned type: success exactly on the one in-range value congruent to the negated magnitude |
| CharConv.ParseMeaning | Kalantha/Core/CharConv.hpp:62-91 | the corrected `from_chars_` succeeds with `v` exactly when the input is "0", or is blanks, an optional sign and digits whose value in the type is `v` |
| CharConv.PermissiveParses | Kalantha/Core/CharConv.hpp:62-90 | a lone sign, or text without a digit of the base, reads as 0 with success; trailing characters are ignored; "abc" is 0 in base 10 but 0xABC in base 16 |
| CharConv.FromCharsAsWritten | Kalantha/Core/CharConv.hpp:148-159 | `from_chars` as written: an unknown base gives "Invalid numerical base!" with `InvalidArg`, and `out` is left as it was |
| CharConv.FromChars | Kalantha/Core/CharConv.hpp:148-159 | `from_chars` with the signed minimum readable; the same base dispatch |
| CharConv.Numeral | Kalantha/Core/CharConv.hpp:111-116 | a positive magnitude's digits, most significant first, with no leading zero |
| CharConv.NumeralValue | Kalantha/Core/CharConv.hpp:111-116 | reading the numeral back gives the magnitude |
| CharConv.Text | Kalantha/Core/CharConv.hpp:99-144 | `to_chars`' output is never empty: "0" for zero, otherwise prefix, `-` if negative, then the digits |
| CharConv.TextHasNoNul | Kalantha/Core/CharConv.hpp:99-144 | rendered text contains no NUL, so it survives as a C string |
| CharConv.TextExamples | Kalantha/Core/CharConv.hpp:99-144 | "123", "-123", "0xFF", "0xA0", "077", "0b1010", "0", and "0x-FF" for −255 in hex |
| CharConv.RoundTrip | Kalantha/Core/CharConv.hpp:62-144 | parsing the rendered text, with its prefix stripped, gives back every in-range value with success |
| CharConv.RoundTripNonzero | Kalantha/Core/CharConv.hpp:62-144 | the same for a nonzero value, on either parser except at the signed minimum |
| CharConv.BodyShape | Kalantha/Core/CharConv.hpp:106-120 | the text after the prefix has no leading blank and starts with `-` exactly for negative values |
| CharConv.BodyMagnitude | Kalantha/Core/CharConv.hpp:106-116 | the digits after the sign have the value's magnitude |
| CharConv.RoundTripAsWritten | Kalantha/Core/CharConv.hpp:62-144 | as written, the round trip holds for every value except a signed type's minimum |
| CharConv.SignedMinRejected | Kalantha/Core/CharConv.hpp:83-88 | `to_chars` renders −128 as "-128", the as-written parser reports `Overflow` with `out == 12` on it, and the corrected one yields −128 |
| CharConv.ReverseAppend | Kalantha/Core/CharConv.hpp:137-141 | reversing a concatenation reverses and swaps the parts |
| CharConv.ReverseReverse | Kalantha/Core/CharConv.hpp:137-141 | reversing twice is the identity |
| CharConv.LowDigitsReverse | Kalantha/Core/CharConv.hpp:111-116 | the loop appends exactly the numeral's digits, least significant first |
| CharConv.AppendOrder | Kalantha/Core/CharConv.hpp:111-135 | the appended sequence (digits, sign, reversed prefix) is the reversed text |
| CharConv.AppendPlan | Kalantha/Core/CharConv.hpp:111-135 | the reversed text splits into the low digits, then the sign and reversed prefix |
| CharConv.BufferTooSmall | Kalantha/Core/CharConv.hpp:94 | the "buffer too small!" error carries `Overflow` |
| CharConv.AppendNextChar | Kalantha/Core/CharConv.hpp:93-97 | succeeds exactly when `i < size`, writing `ch` at `i` and advancing; otherwise nothing changes |
| CharConv.Emit | Kalantha/Core/CharConv.hpp:93-97 | one more character of the planned text lands at its place, or the buffer is full with the text's prefix |
| CharConv.AppendDigits | Kalantha/Core/CharConv.hpp:111-116 | writes the low digits in order, failing exactly when they do not fit |
| CharConv.AppendSignAndPrefix | Kalantha/Core/CharConv.hpp:118-135 | appends the sign and reversed prefix, failing exactly when the whole text does not fit |
| CharConv.ReverseWritten | Kalantha/Core/CharConv.hpp:137-141 | the swap loop reverses the first `n` characters and leaves the rest |
| CharConv.ToCharsIn | Kalantha/Core/CharConv.hpp:99-144 | succeeds exactly when the text fits; the buffer then starts with the text, the rest untouched, and the count is its length; on failure the buffer holds as much of the reversed text as fits |
| CharConv.ToChars | Kalantha/Core/CharConv.hpp:161-172 | an unknown base gives "Invalid numerical base!" with `InvalidArg` and an unchanged buffer; otherwise as `to_chars_` |
| OStreams.New | Kalantha/Core/OStream.hpp:150-156 | a new stream is valid, empty and in base 10, with its whole buffer remaining and zeroed |
| OStreams.BufferMaxSize | Kalantha/Core/OStream.hpp:146 | in a valid stream, the length of the whole buffer, at least 1 |
| OStreams.BufferCurrent | Kalantha/Core/OStream.hpp:148 | in a valid stream, the number of characters held back in the buffer, at most its size |
| OStreams.BufferRemaining | Kalantha/Core/OStream.hpp:147 | `current + remaining == max size` |
| OStreams.BufferData | Kalantha/Core/OStream.hpp:145 | the whole buffer of `len` characters |
| OStreams.ToBuffer | Kalantha/Core/OStream.hpp:30-38 | requires a non-empty view that fits; the buffered text grows by exactly the view, and the rest of the buffer and the configuration are untouched |
| OStreams.Flush | Kalantha/Core/OStream.hpp:40-50 | hands `buf[0..curr)` to the handler only when something is buffered and a handler is set; `curr` becomes 0 |
| OStreams.Write | Kalantha/Core/OStream.hpp:52-70 | empty: no change; fits: appended to the buffered text; does not fit: flush, then the buffered text is the new data; larger than the buffer: flush, then the data goes to the handler directly and nothing stays buffered |
| OStreams.FlushConserves | Kalantha/Core/OStream.hpp:40-50 | with a handler, flushing loses and reorders nothing |
| OStreams.WriteConserves | Kalantha/Core/OStream.hpp:52-70 | with a handler, a write appends exactly its characters to the stream's output |
| OStreams.DirectWriteConserves | Kalantha/Core/OStream.hpp:59-61 | a view longer than the buffer reaches the output after everything buffered before it |
| OStreams.FlushedWriteConserves | Kalantha/Core/OStream.hpp:62-64 | a view that does not fit what is left follows the flushed characters |
| OStreams.BufferedWriteConserves | Kalantha/Core/OStream.hpp:65-66 | a view that fits is appended to what is buffered |
| OStreams.ConcatSnoc | Kalantha/Core/OStream.hpp:44 | handing one more chunk extends the output by that chunk |
| OStreams.NoHandlerNoOutput | Kalantha/Core/OStream.hpp:43-44 | without a handler nothing is ever emitted |
| OStreams.WriteChar | Kalantha/Core/OStream.hpp:120-125 | writes the one character, and nothing for NUL (the C string is empty) |
| OStreams.Endl | Kalantha/Core/OStream.hpp:127-129 | a newline and a flush: the buffer is empty and everything written so far has been emitted |
| OStreams.Hex | Kalantha/Core/OStream.hpp:135-138 | sets base 16 and changes nothing else |
| OStreams.Dec | Kalantha/Core/OStream.hpp:140-143 | sets base 10 and changes nothing else |
| OStreams.Shown | Kalantha/Core/OStream.hpp:78-79 | the 40-character buffer as a C string: the text, cut at 39 characters |
| OStreams.ShownIsCString | Kalantha/Core/OStream.hpp:78-80 | the 40-character buffer holding the text, terminated at index 39 and padded with NULs, reads as the text cut at 39 characters |
| OStreams.WriteNumber | Kalantha/Core/OStream.hpp:72-96 | writes the number's text when it fits in 40 characters (cut at 39), and otherwise changes nothing |
| OStreams.WriteInt | Kalantha/Core/OStream.hpp:72-96 | the integer in the stream's current base |
| OStreams.WritePointer | Kalantha/Core/OStream.hpp:98-110 | the address in base 16 as a 64-bit unsigned number |
| OStreams.DefaultStreamExamples | Kalantha/Core/OStream.hpp:52-70 | "hello" is buffered with 1019 of 1024 remaining; 1025 characters bypass the buffer |

## Left out

- `Atomic`, `CPUID`, the platform detection headers, and the compile-time metaprogramming (tuples, traits, concepts, iterators): these are hardware, concurrency or type-level code with no runtime behaviour to model.
- Placement `new`, `launder`, `construct_at` and `destroy_at`: `Option` and `Result` hold values in datatypes, not raw storage.
- `allocate_<T>`: it is `allocate_block(alignof(T), sizeof(T))` followed by construction in place. The model stops at `AllocateBlock`, with alignment and size as parameters.
- `AllocatorBase`: its deducing-`this` forwarding adds no behaviour.
- The assertion and panic machinery: every `KTA_ASSERT` is a `requires`. `MUST` calls `ASSERT`, which is not defined among these headers; it is modelled as the same `requires`.
- The output handler's effect and the global `outs`/`errs`/`nulls` streams: the handler is a flag plus a log of the views passed to it.
- `operator<<(None_)` returns the stream unchanged, so it adds nothing; `operator<<(StringView)` and `operator<<(Flush_)` are `Write` and `Flush`.
- The endianness builtins (`__builtin_bswap*`): the model is the portable shift-and-mask code, which computes the same byte reversal. `Native` is a parameter, since the platform fixes it.
- Floating point: the conversions do not support it.
- Iterators, `data()`, `begin()`/`end()`: these are pointer accessors; the model uses addresses and indices.
- Memory.CheckedAlignUp: the success and failure outcomes are stated when `ptr + align + space <= 2^64`; above that the as-written `usize` arithmetic wraps, and only the alignment of the result and the early exits are stated.
- Memory.AlignUp: the bounds `p <= r < p + align` are stated only when `p + align` stays below 2^64. Beyond that the C++ wraps to a small address, and the model states only alignment.
- Bump.AllocateBlock: success and placement are stated when `end + align <= 2^64`, where the aligned cursor cannot wrap. Near the top of the address space only the early exits and the unchanged `beg`/`end` are stated.
- Spans.SizeBytes: the product is stated only when it does not wrap; past that it is reduced modulo 2^64 without a stated relation.
- StringViews.SizeBytes: as for spans.
- Endian.ByteSwap: it states the end bytes for the 32- and 64-bit widths; the full reversal is stated on `ByteSwap32` and `ByteSwap64`, which it calls.
- Results.Error: it is the checked accessor. The C++ `error()` dereferences an empty Option, whose own `value()` asserts.
- Results.ErrorOr: it requires a populated side. After `release_value` both sides are empty, and `error_or` then dereferences the empty error Option, which asserts.
- `ErrC::Overflow` is used by the conversions but is missing from the `ErrC` list (Kalantha/Core/Errors.hpp:14-20). It is modelled as a seventh code, for which `to_string` and `description` fall to their default "???".
- The `usize` overflow of `offset + count` in the subspan checks: the sums are unbounded integers, as if the check could not wrap.

Behaviour of the code worth knowing:

- `Result_` keeps "exactly one side" only at construction. `release_value` empties the value side without filling the error side (`Results.ReleaseLeavesNeitherSide`).
- `to_chars` places the prefix before the sign, so −255 in hex is "0x-FF". The round trip therefore parses the text with its prefix stripped (`CharConv.Body`).
- `from_chars` accepts a lone sign, or no digits at all after the blanks: in base 10, "abc" parses as 0 with success. It ignores anything after the digits (`CharConv.PermissiveParses`).

## Findings

| source | as written | input that shows it | evidently intended | confidence | as-written member | corrected member |
|---|---|---|---|---|---|---|
| Kalantha/Core/Memory.hpp:118 | the guard `(align & (align - 1)) != 0` lets `align == 0` through. The mask `align - 1` is then all ones, so the routine returns null but still moves `ptr` and shrinks `space` | `checked_align_up(0, 16, ptr = 8, space = 56)` returns null with `ptr = 16`, `space = 48`; a `BumpAllocator` over [8, 64) asked for alignment 0 loses 8 bytes | reject `align == 0` like any non-power-of-two, leaving `ptr` and `space` unchanged, as `align_up` does | not executed | Memory.AlignZeroFailsButMoves | Memory.CheckedAlignUp |
| Kalantha/Core/CharConv.hpp:76-88 | digits are accumulated as a positive value bounded by the type's maximum, so the magnitude of a signed minimum overflows. The later `out == mini` test can never hold | `from_chars("-128", out)` for `int8` returns `Overflow` with `out == 12`, although `to_chars(-128)` produces "-128" | negative input may reach `max + 1` in magnitude, so every value `to_chars` renders parses back | not executed | CharConv.SignedMinRejected | CharConv.RoundTrip |
