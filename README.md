# Draig diagram interpreter and its ring buffer, in Dafny

Draig turns a small line-oriented diagram language into SVG. A program is
split into trimmed, non-blank lines. Each line is split at spaces and tabs into
a token buffer; its first word, lower-cased, selects a command. The commands:

- define named pins (`Pin`, `Split`, `Offset`, `Corner`, `Project`);
- move groups of pins (`Move`, `Reset`, `MoveTo`, `Centre`/`Center`, `MoveOver`);
- set chart state (`Translate`/`Group`, `Fill`, `Stroke`, `ClearFill`, `ClearStroke`);
- draw markup between pins (`Box`, `SmallBox`, `Table`, `AutoBox`, `AutoTable`,
  `Line`, `Arrow`, `FlipLine`, `FlipArrow`).

Once every line has run, the canvas is fitted to the final pins.

The token buffer is `Dq<T>`, a growable double-ended queue. It keeps a ring
inside one power-of-two array, with head and tail cursors that wrap by masking.

This project models both parts and proves what they promise.

| module (file) | models |
|---|---|
| `Wrappers` (`wrappers.dfy`) | `Option`, `Result` and `Outcome`. Exceptions become `Failure` values. |
| `Int32` (`int32.dfy`) | 32-bit two's-complement wrap-around for C# `int` arithmetic. |
| `Internal` (`dq.dfy`) | `Dq<T>` as a class over an `array<T>` with `head`/`tail` fields, and the ghost sequence `Contents` it stands for. `Valid()` ties them together: the capacity is a power of two of at most 2^30; `|Contents| == (tail - head) mod capacity`; `Contents[k]` sits in slot `(head + k) mod capacity`. Every operation is an imperative method or a function with a contract over `Contents`. |
| `Text` (`text.dfy`) | The .NET string operations the interpreter relies on: `Split`, `string.Join`, `Trim`, `ToLowerInvariant`, `Replace`, `int.Parse`, `int.ToString`. Also `Clean`. |
| `Geometry` (`geometry.dfy`) | `Vec2d` over exact reals; midpoint, corner, offset and `ProjectPoint`. |
| `PinGroups` (`groups.dfy`) | The pin registry as `map<string, Vec2d>`. The group moves `Move`, `Reset`, `MoveTo`, `Centre` and `MoveOver`, with their extents. |
| `Markup` (`markup.dfy`) | The emitted markup as fragment datatypes (rectangle with table cells, path). Table row wrapping. |
| `Commands` (`commands.dfy`) | A functional specification of every command handler over a `World`: pins, fill, stroke, translate offset and line counter. Also the dispatch, the run over all lines and the canvas. |
| `Rendering` (`rendering.dfy`) | The interpreter as the source writes it. `ChartState` and the pin table are classes the handlers update in place. Each handler consumes its `Dq<string>` of tokens with `RemoveFirst`/`AddFirst`. `DrawBox` and `RenderToSvg` are loops. Every handler method is proved equal to its `Commands` counterpart. |
| `Laws` (`laws.dfy`) | Properties of whole commands and runs: round trips, group placement, box geometry, case-insensitive dispatch, line numbering, canvas bounds. |

Pin coordinates are exact `real`s. Inputs come from `int.Parse`, and the only
operations on them are `+`, `-`, `*`, and `/` by a non-zero value. Every
creating handler allocates a fresh `Vec2d`, so no two names share a point, and
the registry is modelled as a map of values. Markup text (number formatting,
CSS) is not generated. The fragments carry the values the markup is built from:
positions, sizes, ids, colours, markers and captions.

Some behaviours of the code, as modelled:

- `Delete(i)` takes a physical array slot. It does not take a logical index.
- `MoveOver base rel pins...` moves the listed pins by `base - rel`. It does
  not move `rel` itself unless `rel` is listed again. The relative pin does
  count towards the extents.
- `AllocateElements(n)` picks the least power of two strictly greater than `n`,
  and at least 8.
- `Slice` fails when its end is past the length, because `Get` throws. It does
  not clamp.

## Model

| member | source | states |
|---|---|---|
| Int32.Wrap | csharp/draig/DraigCore/Rendering/DiagramToSvg.cs:552 | the wrapped value is a 32-bit `int` congruent to the input modulo 2^32, and equals the input whenever the input already fits |
| Int32.WrapAdd | csharp/draig/DraigCore/Rendering/DiagramToSvg.cs:552 | wrapping after each addition gives the same value as wrapping once at the end |
| Internal.DoubledIsPow2 | csharp/draig/DraigCore/Internal/Dq.cs:468-489 | doubling a power of two gives a power of two, so `DoubleCapacity` keeps the mask arithmetic valid |
| Internal.MaskIsRemainder | csharp/draig/DraigCore/Internal/Dq.cs:89 | for a cursor within one lap of the array, masking with `capacity - 1` is the remainder: one step back from 0 lands on the last slot |
| Internal.MaxCapacityIsPow2 | csharp/draig/DraigCore/Internal/Dq.cs:437 | the largest capacity, 0x4000_0000, is a power of two |
| Internal.PowerAbove | csharp/draig/DraigCore/Internal/Dq.cs:452-459 | the bit-smearing step yields a power of two strictly above `n`, and at most twice `n` |
| Internal.PowerAboveBound | csharp/draig/DraigCore/Internal/Dq.cs:452-459 | that power of two is no larger than any power of two above `n`, so it is the least one |
| Internal.AllocationSizeIsTight | csharp/draig/DraigCore/Internal/Dq.cs:444-462 | allocation succeeds exactly for 0 < n < 2^30, and otherwise fails with the invalid-count error; below 8 it picks 8, and otherwise a power of two above `n` and at most twice `n` |
| Internal.Copied | csharp/draig/DraigCore/Internal/Dq.cs:162 | `Array.Copy` semantics: the `length` destination slots from `dstIndex` take the source's values from `srcIndex`; every other slot keeps its value |
| Internal.ArrayCopy | csharp/draig/DraigCore/Internal/Dq.cs:162 | copying within one array or between two leaves the destination as `Copied` describes, reading the source as it was before the copy |
| Internal.Without | csharp/draig/DraigCore/Internal/Dq.cs:148-181 | removing position `k` keeps the elements before `k` in place and moves every later one down by one |
| Internal.WithoutIsSplice | csharp/draig/DraigCore/Internal/Dq.cs:148-181 | removing position `k` is the prefix before `k` joined to the suffix after it |
| Internal.DeleteOffsets | csharp/draig/DraigCore/Internal/Dq.cs:149-157 | the masked distances: `(t - h)` is the length; a slot `i` passes the guard exactly when it is the slot of logical position `front = (i - h) mod cap`; then `back` is `length - front` |
| Internal.FrontInPlaceKeepsRing | csharp/draig/DraigCore/Internal/Dq.cs:161-169 | when the front is shorter and does not wrap, shifting it up by one slot, blanking the old head and advancing the head leaves a valid ring holding the contents without position `k` |
| Internal.FrontWrappedKeepsRing | csharp/draig/DraigCore/Internal/Dq.cs:163-169 | the same for a front that wraps: the three-step move (low part, last slot into slot 0, high part) leaves the contents without position `k` |
| Internal.BackInPlaceKeepsRing | csharp/draig/DraigCore/Internal/Dq.cs:171-173 | when the back is shorter and does not wrap, shifting it down by one slot and retreating the tail removes position `k` |
| Internal.BackWrappedKeepsRing | csharp/draig/DraigCore/Internal/Dq.cs:174-178 | the same for a back that wraps, with the tail retreating across slot 0 |
| Internal.RingPrepend | csharp/draig/DraigCore/Internal/Dq.cs:88-91 | writing `e` one slot before the head and moving the head there holds `[e] + contents` |
| Internal.RingAppend | csharp/draig/DraigCore/Internal/Dq.cs:97-101 | writing `e` at the tail slot holds `contents + [e]` |
| Internal.SwapInRing | csharp/draig/DraigCore/Internal/Dq.cs:377 | swapping the slots of logical positions `p` and `q` swaps those two elements of the contents and nothing else |
| Internal.DropWhileIsLongestMatchingPrefix | csharp/draig/DraigCore/Internal/Dq.cs:357-362 | what `TrimLeading` keeps is a suffix of the input; everything dropped satisfies the predicate, and the first element kept does not |
| Internal.ReversedAt | csharp/draig/DraigCore/Internal/Dq.cs:367-381 | the reversed sequence has the same length, and position `j` holds the element at `n - 1 - j` |
| Internal.ReverseStep | csharp/draig/DraigCore/Internal/Dq.cs:376-380 | each swap of the `i`-th pair from both ends extends the mirrored prefix and suffix by one |
| Internal.MirroredIsReversed | csharp/draig/DraigCore/Internal/Dq.cs:373-380 | after `length / 2` swaps the whole sequence is reversed |
| Internal.ReversedTwice | csharp/draig/DraigCore/Internal/Dq.cs:367-381 | reversing twice restores the contents |
| Internal.Dq.constructor | csharp/draig/DraigCore/Internal/Dq.cs:34-36 | a new buffer is empty, valid and has capacity 8 |
| Internal.Dq.OfSize | csharp/draig/DraigCore/Internal/Dq.cs:42-45 | an empty valid buffer over a fresh array of the given power-of-two capacity |
| Internal.Dq.Copy | csharp/draig/DraigCore/Internal/Dq.cs:66-71 | the copy has the same contents and capacity and its own fresh array |
| Internal.Dq.OfCapacity | csharp/draig/DraigCore/Internal/Dq.cs:42-45 | `new Dq(n)` fails exactly when `AllocateElements(n)` rejects `n`; otherwise it is empty with the computed capacity |
| Internal.Dq.OfArray | csharp/draig/DraigCore/Internal/Dq.cs:55-59 | `new Dq(c)` holds `c` in order; an empty `c` is rejected, as `AllocateElements(0)` throws |
| Internal.Dq.FromValue | csharp/draig/DraigCore/Internal/Dq.cs:20-24 | a fresh buffer holding just `v` |
| Internal.Dq.DoubleCapacity | csharp/draig/DraigCore/Internal/Dq.cs:468-489 | on a full ring it fails exactly at capacity 2^30 and then changes nothing; otherwise the new array is twice the size, holds the same contents from slot 0, and has `head = 0`, `tail = old capacity` |
| Internal.Dq.AddFirst | csharp/draig/DraigCore/Internal/Dq.cs:88-91 | the contents become `[e] + old`; the array grows only when the ring fills; it fails only when the ring would reach 2^30 elements, and then leaves it looking empty |
| Internal.Dq.AddLast | csharp/draig/DraigCore/Internal/Dq.cs:97-101 | the contents become `old + [e]`, with the same growth and failure rule as `AddFirst` |
| Internal.Dq.PollFirst | csharp/draig/DraigCore/Internal/Dq.cs:494-503 | returns the first element and drops it from the contents |
| Internal.Dq.PollLast | csharp/draig/DraigCore/Internal/Dq.cs:508-516 | returns the last element and drops it from the contents |
| Internal.Dq.RemoveFirst | csharp/draig/DraigCore/Internal/Dq.cs:108-111 | on an empty buffer it fails with "vector empty" and changes nothing; otherwise it returns the first element and leaves the rest in order |
| Internal.Dq.RemoveLast | csharp/draig/DraigCore/Internal/Dq.cs:118-121 | on an empty buffer it fails and changes nothing; otherwise it returns the last element and leaves the rest in order |
| Internal.Dq.GetFirst | csharp/draig/DraigCore/Internal/Dq.cs:128-131 | the first element, or the empty-vector failure |
| Internal.Dq.GetLast | csharp/draig/DraigCore/Internal/Dq.cs:138-141 | the last element, or the empty-vector failure |
| Internal.Dq.Length | csharp/draig/DraigCore/Internal/Dq.cs:242-244 | the masked distance from head to tail is the number of elements, always below the capacity |
| Internal.Dq.IsEmpty | csharp/draig/DraigCore/Internal/Dq.cs:186-188 | `head == tail` exactly when the contents are empty |
| Internal.Dq.NotEmpty | csharp/draig/DraigCore/Internal/Dq.cs:193-195 | `head != tail` exactly when there are elements |
| Internal.Dq.HasIndex | csharp/draig/DraigCore/Internal/Dq.cs:333-335 | true exactly for `0 <= idx < length` |
| Internal.Dq.Get | csharp/draig/DraigCore/Internal/Dq.cs:291-308 | element `index` of the contents, found in either half of a wrapped ring; out-of-range and negative indexes fail with their own errors |
| Internal.Dq.GetOr | csharp/draig/DraigCore/Internal/Dq.cs:317-326 | element `index` when in range, the default otherwise |
| Internal.Dq.SlotOf | csharp/draig/DraigCore/Internal/Dq.cs:303-307 | the source's split between the right-hand and wrapped parts finds the slot `(head + index) mod capacity` |
| Internal.Dq.Set | csharp/draig/DraigCore/Internal/Dq.cs:251-263 | in range only position `index` changes; out of range nothing changes |
| Internal.Dq.Edit | csharp/draig/DraigCore/Internal/Dq.cs:270-282 | in range position `index` becomes `v` of its old value and nothing else changes; out of range nothing changes |
| Internal.Dq.Delete | csharp/draig/DraigCore/Internal/Dq.cs:148-181 | for a slot inside the occupied ring it removes exactly that element and keeps the others in order, whichever side moves and whether or not the ring wraps; for any other slot it fails with "possible concurrent modification" and changes nothing |
| Internal.Dq.ShiftFrontOver | csharp/draig/DraigCore/Internal/Dq.cs:160-169 | moving the front side over the deleted slot removes logical position `front` |
| Internal.Dq.ShiftFrontInPlace | csharp/draig/DraigCore/Internal/Dq.cs:161-162 | the unwrapped front move removes logical position `front` |
| Internal.Dq.MoveFrontInPlace | csharp/draig/DraigCore/Internal/Dq.cs:162-168 | the array after the block copy and blanking of the old head |
| Internal.Dq.ShiftFrontWrapped | csharp/draig/DraigCore/Internal/Dq.cs:163-169 | the wrapped front move removes logical position `front` |
| Internal.Dq.MoveFrontWrapped | csharp/draig/DraigCore/Internal/Dq.cs:164-166 | the array after the three-step wrapped copy |
| Internal.Dq.ShiftBackOver | csharp/draig/DraigCore/Internal/Dq.cs:170-180 | moving the back side over the deleted slot removes logical position `front` |
| Internal.Dq.ShiftBackInPlace | csharp/draig/DraigCore/Internal/Dq.cs:171-173 | the unwrapped back move removes logical position `front` |
| Internal.Dq.ShiftBackWrapped | csharp/draig/DraigCore/Internal/Dq.cs:174-178 | the wrapped back move removes logical position `front` |
| Internal.Dq.MoveBackWrapped | csharp/draig/DraigCore/Internal/Dq.cs:175-177 | the array after the three-step wrapped copy towards the tail |
| Internal.Dq.Clear | csharp/draig/DraigCore/Internal/Dq.cs:203-215 | the buffer becomes empty and keeps its array |
| Internal.Dq.TruncateTo | csharp/draig/DraigCore/Internal/Dq.cs:342-350 | keeps the first `min(length, n)` elements, and none when `n <= 0` |
| Internal.Dq.TrimLeading | csharp/draig/DraigCore/Internal/Dq.cs:357-362 | drops the longest prefix whose elements all satisfy the comparator |
| Internal.Dq.Reverse | csharp/draig/DraigCore/Internal/Dq.cs:367-381 | the contents are reversed in place |
| Internal.Dq.SwapInward | csharp/draig/DraigCore/Internal/Dq.cs:375-380 | swapping pairs inward from both ends of the ring holds the reversed sequence |
| Internal.Dq.SwapSlots | csharp/draig/DraigCore/Internal/Dq.cs:377 | the tuple swap exchanges two slots and nothing else |
| Internal.Dq.Slice | csharp/draig/DraigCore/Internal/Dq.cs:389-399 | negative bounds count from the length; a negative start or an empty range gives a fresh empty buffer; an end beyond the length fails as `Get` does; otherwise a fresh buffer holding elements `start..end-1` |
| Internal.Dq.SliceOf | csharp/draig/DraigCore/Internal/Dq.cs:394-398 | the result buffer is sized for the range, or the slice fails when the range is too large to allocate |
| Internal.Dq.AppendRange | csharp/draig/DraigCore/Internal/Dq.cs:395-397 | the copy loop appends elements `s..e-1` in order, or fails at the first index past the end |
| Internal.Dq.ToArray | csharp/draig/DraigCore/Internal/Dq.cs:226-237 | a fresh array holding the contents front to back, wrapped or not |
| Text.TrimStart | csharp/draig/DraigCore/Rendering/DiagramToSvg.cs:660-663 | a suffix of the input, all the removed characters are white space, and the result starts with none |
| Text.TrimEnd | csharp/draig/DraigCore/Rendering/DiagramToSvg.cs:660-663 | a prefix of the input, all the removed characters are white space, and the result ends with none |
| Text.Trim | csharp/draig/DraigCore/Rendering/DiagramToSvg.cs:660-663 | the result has no white space at either end, is no longer than the input, and is empty exactly when the input is all white space |
| Text.TrimIsSlice | csharp/draig/DraigCore/Rendering/DiagramToSvg.cs:660-663 | the trimmed text is a contiguous slice of the input |
| Text.TrimmedIsFixed | csharp/draig/DraigCore/Rendering/DiagramToSvg.cs:660-663 | trimming an already trimmed text changes nothing |
| Text.TrimKeepsAbsent | csharp/draig/DraigCore/Rendering/DiagramToSvg.cs:660-663 | trimming removes characters and never adds one |
| Text.Split | csharp/draig/DraigCore/Rendering/DiagramToSvg.cs:588 | at least one piece, one more than the separators in the text, and no piece contains a separator |
| Text.Join | csharp/draig/DraigCore/Rendering/DiagramToSvg.cs:406 | joining nothing is empty; joining one piece is that piece |
| Text.JoinCons | csharp/draig/DraigCore/Rendering/DiagramToSvg.cs:406 | joining `[x] + parts` is `x`, the separator, and the join of `parts` |
| Text.JoinSplit | csharp/draig/DraigCore/Rendering/DiagramToSvg.cs:406-408 | joining the pieces of a split with the same separator gives back the text |
| Text.SplitWithout | csharp/draig/DraigCore/Rendering/DiagramToSvg.cs:588 | text without a separator splits into itself alone |
| Text.SplitAt | csharp/draig/DraigCore/Rendering/DiagramToSvg.cs:588 | a separator splits the text into the pieces before it followed by the pieces after it |
| Text.TrimmedNonEmpty | csharp/draig/DraigCore/Rendering/DiagramToSvg.cs:662-663 | the pieces kept are trimmed and non-empty, and no more than were given |
| Text.TrimmedNonEmptyOne | csharp/draig/DraigCore/Rendering/DiagramToSvg.cs:662-663 | a single piece is kept trimmed, or dropped when it is blank |
| Text.TrimmedNonEmptyAppend | csharp/draig/DraigCore/Rendering/DiagramToSvg.cs:662-663 | the entries of two runs of pieces are the entries of the first followed by those of the second |
| Text.Lines | csharp/draig/DraigCore/Rendering/DiagramToSvg.cs:658-664 | every program line is trimmed and non-empty |
| Text.LinesOfOneLine | csharp/draig/DraigCore/Rendering/DiagramToSvg.cs:658-664 | a program without a CR or LF is the one trimmed line, or no line when it is blank |
| Text.LinesAt | csharp/draig/DraigCore/Rendering/DiagramToSvg.cs:658-664 | a CR or an LF splits the program into the lines before it followed by the lines after it |
| Text.LinesAtCrLf | csharp/draig/DraigCore/Rendering/DiagramToSvg.cs:658-664 | so does a CR LF pair: the empty piece between the two characters adds no line |
| Text.LinesAfterBreak | csharp/draig/DraigCore/Rendering/DiagramToSvg.cs:658-664 | a line break at the start of the program adds no line |
| Text.LinesHaveNoBreaks | csharp/draig/DraigCore/Rendering/DiagramToSvg.cs:658-664 | no program line contains a CR or an LF |
| Text.NoBreaksSurvive | csharp/draig/DraigCore/Rendering/DiagramToSvg.cs:662-663 | trimming and dropping empties introduces no line breaks |
| Text.LowerChar | csharp/draig/DraigCore/Rendering/DiagramToSvg.cs:590 | only an ASCII letter or the Kelvin sign lowers to an ASCII lower-case letter; other ASCII characters are unchanged |
| Text.Lower | csharp/draig/DraigCore/Rendering/DiagramToSvg.cs:590 | lowering keeps the length and lowers each character |
| Text.LowerMatchesIgnoringCase | csharp/draig/DraigCore/Rendering/DiagramToSvg.cs:590-593 | a word lowers to a lower-case keyword exactly when it matches that keyword letter by letter ignoring case |
| Text.Replace | csharp/draig/DraigCore/Rendering/DiagramToSvg.cs:85-93 | `string.Replace` introduces no character found in neither the text nor the replacement |
| Text.ReplaceRemovesChar | csharp/draig/DraigCore/Rendering/DiagramToSvg.cs:85-93 | replacing a character by text without it removes every occurrence |
| Text.ReplaceAbsentIsIdentity | csharp/draig/DraigCore/Rendering/DiagramToSvg.cs:85-93 | replacing a pattern that cannot occur changes nothing |
| Text.Escape | csharp/draig/DraigCore/Rendering/DiagramToSvg.cs:88-90 | after the `&`, `<` and `>` replacements the text holds no `<` or `>`, and gains no newline or backslash |
| Text.Clean | csharp/draig/DraigCore/Rendering/DiagramToSvg.cs:85-93 | text without newlines or backslashes cleans to text without `<` or `>`, so the markup it is spliced into stays well formed |
| Text.CleanKeepsPlainText | csharp/draig/DraigCore/Rendering/DiagramToSvg.cs:85-93 | text without `&`, `<`, `>`, newlines or backslashes is left as it is |
| Text.ParseInt | csharp/draig/DraigCore/Rendering/DiagramToSvg.cs:178-179 | `int.Parse` succeeds only with a value in the 32-bit range; the error kinds are stated by `Text.ParseDigits`, `Text.ParseNegativeDigits`, `Text.ParseTrailingText` and `Text.ParseNoDigits` |
| Text.ParseDigits | csharp/draig/DraigCore/Rendering/DiagramToSvg.cs:178-179 | a run of decimal digits parses to its value when that fits in 32 bits, and is an overflow error otherwise |
| Text.ParseNegativeDigits | csharp/draig/DraigCore/Rendering/DiagramToSvg.cs:178-179 | a minus sign and a run of digits parses to the negated value when it fits, and is an overflow error otherwise |
| Text.ParseTrailingText | csharp/draig/DraigCore/Rendering/DiagramToSvg.cs:178-179 | digits followed by a character that is not a digit, a space or NUL are a format error |
| Text.ParseNoDigits | csharp/draig/DraigCore/Rendering/DiagramToSvg.cs:178-179 | text without any digit is a format error |
| Text.UnsignedDigits | csharp/draig/DraigCore/Rendering/DiagramToSvg.cs:178-179 | once the sign is read, a run of digits yields its value, checked against the 32-bit range for the sign |
| Text.DigitChar | csharp/draig/DraigCore/Rendering/DiagramToSvg.cs:501 | a digit value maps to a decimal digit character |
| Text.Digits | csharp/draig/DraigCore/Rendering/DiagramToSvg.cs:501 | a non-empty run of decimal digits whose value is `n` |
| Text.FormatInt | csharp/draig/DraigCore/Rendering/DiagramToSvg.cs:501 | `int.ToString` starts with a digit or a minus sign |
| Text.ParseFormat | csharp/draig/DraigCore/Rendering/DiagramToSvg.cs:501 | `int.Parse` of `n.ToString()` gives back `n`; `Laws.CornerTablePlaces` uses it for the column count that `AutoTable` pushes back before calling `DrawBox` |
| Geometry.Midpoint | csharp/draig/DraigCore/Rendering/DiagramToSvg.cs:366-370 | the point is as far from the first pin as the second is from it |
| Geometry.MidpointUnique | csharp/draig/DraigCore/Rendering/DiagramToSvg.cs:366-370 | it is the only such point |
| Geometry.Corner | csharp/draig/DraigCore/Rendering/DiagramToSvg.cs:254-258 | the corner is level with the first pin horizontally and the second vertically, so the two legs are perpendicular |
| Geometry.Offset | csharp/draig/DraigCore/Rendering/DiagramToSvg.cs:386-390 | the new pin lies `(dx, dy)` from the source pin |
| Geometry.OffsetInverse | csharp/draig/DraigCore/Rendering/DiagramToSvg.cs:386-390 | offsetting by `(-dx, -dy)` undoes an offset |
| Geometry.ProjectPoint | csharp/draig/DraigCore/Rendering/DiagramToSvg.cs:95-109 | the result lies on the line through `v1` and `v2`, and `p - result` is perpendicular to it; when `v1 == v2` the result is `v1` |
| Geometry.ProjectionFacts | csharp/draig/DraigCore/Rendering/DiagramToSvg.cs:99-102 | the length guard (`len2 == 0` becomes 1) keeps the scaled direction parallel, and orthogonal to the residual whenever the length is non-zero |
| Geometry.PerpendicularAndParallel | csharp/draig/DraigCore/Rendering/DiagramToSvg.cs:95-109 | a vector both perpendicular and parallel to a non-zero direction is zero, which makes the projection unique |
| Geometry.ProjectIdempotent | csharp/draig/DraigCore/Rendering/DiagramToSvg.cs:95-109 | projecting a projected point again changes nothing |
| Geometry.ProjectFixesEnds | csharp/draig/DraigCore/Rendering/DiagramToSvg.cs:95-109 | both line ends project onto themselves |
| PinGroups.FirstUndefined | csharp/draig/DraigCore/Rendering/DiagramToSvg.cs:215-216 | the pin a group command throws on: none exactly when every listed name is defined, otherwise a listed name that is not |
| PinGroups.FirstUndefinedAt | csharp/draig/DraigCore/Rendering/DiagramToSvg.cs:215-216 | the error names the first undefined pin in list order |
| PinGroups.ShiftAll | csharp/draig/DraigCore/Rendering/DiagramToSvg.cs:215-220 | applying one shift per listed name moves each pin once for every time it is listed, and leaves the registry's names unchanged |
| PinGroups.ShiftAllStep | csharp/draig/DraigCore/Rendering/DiagramToSvg.cs:215-220 | the loop body: one more listed name shifts that pin once more |
| PinGroups.ShiftDistinct | csharp/draig/DraigCore/Rendering/DiagramToSvg.cs:215-220 | for a list without repeats each listed pin moves by exactly the shift and every other pin stays put |
| PinGroups.MinAlong | csharp/draig/DraigCore/Rendering/DiagramToSvg.cs:270-282 | the running `Math.Min` is below the start and every listed coordinate, and is the start or one of them |
| PinGroups.MaxAlong | csharp/draig/DraigCore/Rendering/DiagramToSvg.cs:306-319 | the running `Math.Max` is above the start and every listed coordinate, and is the start or one of them |
| PinGroups.MinStep | csharp/draig/DraigCore/Rendering/DiagramToSvg.cs:280-281 | the loop body: one more name takes the minimum with its coordinate |
| PinGroups.MaxStep | csharp/draig/DraigCore/Rendering/DiagramToSvg.cs:316-317 | the loop body: one more name takes the maximum with its coordinate |
| PinGroups.MinAttained | csharp/draig/DraigCore/Rendering/DiagramToSvg.cs:270-282 | starting from the pin range's top, the minimum of a non-empty group is one of its pins' coordinates |
| PinGroups.MaxAttained | csharp/draig/DraigCore/Rendering/DiagramToSvg.cs:306-319 | starting from the pin range's bottom, the maximum of a non-empty group is one of its pins' coordinates |
| PinGroups.MoveGroup | csharp/draig/DraigCore/Rendering/DiagramToSvg.cs:207-223 | `Move dx dy pins...` over distinct names moves each listed pin by `(dx, dy)` and leaves every other pin unchanged |
| PinGroups.Negate | csharp/draig/DraigCore/Rendering/DiagramToSvg.cs:288-289 | subtracting an offset is adding its negation |
| PinGroups.ResetPutsGroupAtOrigin | csharp/draig/DraigCore/Rendering/DiagramToSvg.cs:264-291 | after `Reset` on distinct pins, no listed pin is left of or above the origin, one lies on each axis, and unlisted pins stay put |
| PinGroups.MoveToAlignsWithBase | csharp/draig/DraigCore/Rendering/DiagramToSvg.cs:293-354 | after `MoveTo` no listed pin is left of or above the base, and one is level with it on each axis |
| PinGroups.CentreBalancesAroundBase | csharp/draig/DraigCore/Rendering/DiagramToSvg.cs:339-352 | after `Centre` the group's extreme pins on each axis sit symmetrically about the base |
| PinGroups.CentreAxis | csharp/draig/DraigCore/Rendering/DiagramToSvg.cs:339-352 | the same for one axis |
| PinGroups.BalancedAfterShift | csharp/draig/DraigCore/Rendering/DiagramToSvg.cs:339-343 | shifting by `min - base + (max - min) / 2` balances the extremes about the base |
| PinGroups.MoveOverKeepsShape | csharp/draig/DraigCore/Rendering/DiagramToSvg.cs:324-352 | after `MoveOver` each moved pin stands to the base as it stood to the relative pin, and every other pin stays put |
| Markup.LabelShift | csharp/draig/DraigCore/Rendering/DiagramToSvg.cs:556-559 | a caption is nudged only when the line carries an arrow head |
| Markup.CellAt | csharp/draig/DraigCore/Rendering/DiagramToSvg.cs:446-449 | a cell keeps its text; borders and padding appear only when there are at least two cells: a right border except in the last column, padding with more than one column, a bottom border in the first row |
| Markup.Layout | csharp/draig/DraigCore/Rendering/DiagramToSvg.cs:440-457 | rows hold one to `cols` cells, every row but the last is full, and each cell is laid out as `CellAt` says |
| Markup.LayoutKeepsText | csharp/draig/DraigCore/Rendering/DiagramToSvg.cs:440-457 | read row by row, the table holds exactly the cell texts in order |
| Markup.Table | csharp/draig/DraigCore/Rendering/DiagramToSvg.cs:440-457 | the table built from the cell texts holds exactly those texts, read row by row |
| Markup.SingleCellTable | csharp/draig/DraigCore/Rendering/DiagramToSvg.cs:448 | a single cell gets no borders or padding |
| Markup.BoxBetween | csharp/draig/DraigCore/Rendering/DiagramToSvg.cs:413-420 | the rectangle has non-negative size and spans exactly from one pin to the other on each axis |
| Markup.BoxIgnoresPinOrder | csharp/draig/DraigCore/Rendering/DiagramToSvg.cs:413-420 | swapping the two pins gives the same rectangle |
| Commands.Parse | csharp/draig/DraigCore/Rendering/DiagramToSvg.cs:178-179 | a parse failure becomes a command failure with the same cause |
| Commands.Translated | csharp/draig/DraigCore/Rendering/DiagramToSvg.cs:189-196 | a new pin lies at `(x, y)` measured from the translate offset |
| Commands.AddPin | csharp/draig/DraigCore/Rendering/DiagramToSvg.cs:172-187 | `Pin name x y` succeeds exactly with three words whose last two parse; it then sets `name` to `(x, y)` plus the translate offset, overwriting any earlier value, and changes nothing else |
| Commands.Translate | csharp/draig/DraigCore/Rendering/DiagramToSvg.cs:198-205 | `Translate x y` succeeds exactly with two parsable words, sets only the translate offset, and leaves every pin as it was |
| Commands.MovePin | csharp/draig/DraigCore/Rendering/DiagramToSvg.cs:207-223 | `Move dx dy pins...` succeeds exactly when both offsets parse and every listed pin is defined; the pins are then moved as `MoveGroup` says, with no markup and no other change |
| Commands.ProjectPin | csharp/draig/DraigCore/Rendering/DiagramToSvg.cs:225-242 | `Project name a b x` succeeds exactly when all three source pins exist, and defines `name` as the projection of `x` onto line `ab`, without the translate offset |
| Commands.PinAtCorner | csharp/draig/DraigCore/Rendering/DiagramToSvg.cs:244-262 | `Corner name a b` succeeds exactly when both pins exist, and defines `name` at `(a.X, b.Y)` |
| Commands.SplitPin | csharp/draig/DraigCore/Rendering/DiagramToSvg.cs:356-374 | `Split name a b` succeeds exactly when both pins exist, and defines `name` at their midpoint |
| Commands.PinByOffset | csharp/draig/DraigCore/Rendering/DiagramToSvg.cs:376-393 | `Offset name src dx dy` fails on an undefined source before parsing; on success it defines `name` at `src + (dx, dy)` |
| Commands.ResetPinsToOrigin | csharp/draig/DraigCore/Rendering/DiagramToSvg.cs:264-291 | `Reset pins...` succeeds exactly when at least one pin is listed and all are defined, and then moves the group by minus its minima |
| Commands.MoveToPin | csharp/draig/DraigCore/Rendering/DiagramToSvg.cs:293-354 | `MoveTo`, `Centre` and `MoveOver` succeed exactly when there are a base and at least one more name, all defined; the group is then placed against the base, centred on it, or moved by `base - rel` with `rel` not moved |
| Commands.MoveGroupWith | csharp/draig/DraigCore/Rendering/DiagramToSvg.cs:321-352 | the offset choice: the extents for `MoveTo`/`Centre`, and the relative pin, dropped from the moved names, for `MoveOver` |
| Commands.BoxPieces | csharp/draig/DraigCore/Rendering/DiagramToSvg.cs:406-408 | a table's cell texts, joined with `|`, give back the cleaned text, they number one more than the `|` characters in it and none contains a `|`; a plain box has the cleaned text as its one cell |
| Commands.DrawBox | csharp/draig/DraigCore/Rendering/DiagramToSvg.cs:395-463 | a successful `Box`/`SmallBox`/`Table` leaves the state unchanged and emits a rectangle |
| Commands.BoxWithColumns | csharp/draig/DraigCore/Rendering/DiagramToSvg.cs:402-463 | once the column count is read, a successful box leaves the state unchanged and emits a rectangle |
| Commands.BoxAt | csharp/draig/DraigCore/Rendering/DiagramToSvg.cs:404-463 | once the column count and both pin names are read, the box succeeds exactly when the text has fewer than 2^30 pieces and both pins are defined; it then leaves the state unchanged and emits the rectangle spanned by the two pins, in the fill colour, with the pieces laid out as a table of column width `width / cols` |
| Commands.DrawAutoBox | csharp/draig/DraigCore/Rendering/DiagramToSvg.cs:465-503 | a successful `AutoBox`/`AutoTable` emits a rectangle and changes only pins |
| Commands.AutoBoxAt | csharp/draig/DraigCore/Rendering/DiagramToSvg.cs:472-503 | the same once the column count is read |
| Commands.AutoBoxSized | csharp/draig/DraigCore/Rendering/DiagramToSvg.cs:480-503 | the same once the position is read: it checks the size, adds the eight pins and draws the box |
| Commands.AutoPins | csharp/draig/DraigCore/Rendering/DiagramToSvg.cs:487-496 | the registry gains exactly the eight generated names and keeps every other pin; the top-left pin is `(x, y)` and the bottom-right pin `(x + width, y + height)` with 32-bit sums, both moved by the translate offset |
| Commands.CornerNamesDiffer | csharp/draig/DraigCore/Rendering/DiagramToSvg.cs:487-496 | the top-left and bottom-right names differ from each other and from the six other generated names |
| Commands.DrawLine | csharp/draig/DraigCore/Rendering/DiagramToSvg.cs:505-572 | a line succeeds exactly when both pins exist; it takes id `curve_n` from the counter and raises the counter by one; the path joins the two pins left to right, or right to left when flipped; an arrow head sits on the second pin's end; the caption is absent exactly when the cleaned text is empty, and otherwise is the cleaned text with each `_` replaced by a non-breaking space |
| Commands.SetFillColor | csharp/draig/DraigCore/Rendering/DiagramToSvg.cs:574-578 | `Fill`/`ClearFill` never fail and change only the fill; the fill is set exactly when a colour word is given, and is then the first word after the keyword |
| Commands.SetLineColor | csharp/draig/DraigCore/Rendering/DiagramToSvg.cs:580-584 | `Stroke`/`ClearStroke` never fail and change only the stroke; the stroke is set exactly when a colour word is given, and is then the first word after the keyword |
| Commands.Tokens | csharp/draig/DraigCore/Rendering/DiagramToSvg.cs:588 | a line always has a first word, possibly empty |
| Commands.Dispatch | csharp/draig/DraigCore/Rendering/DiagramToSvg.cs:593-649 | any keyword outside the listed cases fails with an invalid-command error naming the line, and `#` does nothing |
| Commands.HandleCommand | csharp/draig/DraigCore/Rendering/DiagramToSvg.cs:586-651 | a line of 2^30 words or more fails when its buffer is built; otherwise a first word that lowers to no keyword fails with an invalid-command error naming the line |
| Commands.Run | csharp/draig/DraigCore/Rendering/DiagramToSvg.cs:122-129 | the collected markup never contains an empty fragment |
| Commands.RunStopsAtFailure | csharp/draig/DraigCore/Rendering/DiagramToSvg.cs:122-129 | once a prefix of the program fails, the whole program fails with the same error |
| Commands.RunStep | csharp/draig/DraigCore/Rendering/DiagramToSvg.cs:122-129 | one more line runs its command on the state the earlier lines left |
| Commands.ToInt32 | csharp/draig/DraigCore/Rendering/DiagramToSvg.cs:134-135 | the `(int)` cast gives an `int`, and truncates a non-negative coordinate that fits |
| Commands.ExtentStep | csharp/draig/DraigCore/Rendering/DiagramToSvg.cs:134-135 | one step of the extents loop keeps the larger of the running extent and the truncated coordinate |
| Commands.ExtentStepKeeps | csharp/draig/DraigCore/Rendering/DiagramToSvg.cs:132-136 | that step keeps the extent over the pins seen so far |
| Commands.Extent | csharp/draig/DraigCore/Rendering/DiagramToSvg.cs:132-136 | the extent is at least 100, covers every pin's truncated coordinate, and is 100 or one of them |
| Commands.ExtentUnique | csharp/draig/DraigCore/Rendering/DiagramToSvg.cs:132-136 | the extent does not depend on the order the pins are visited in |
| Commands.Canvas | csharp/draig/DraigCore/Rendering/DiagramToSvg.cs:131-145 | a run that succeeds gets a canvas at origin `(-10, -10)` around its markup; a failed run has none |
| Commands.RenderLines | csharp/draig/DraigCore/Rendering/DiagramToSvg.cs:111-170 | rendering lines succeeds exactly when running them from a fresh state succeeds; the canvas then starts at `(-10, -10)` and holds the run's markup; no lines give the empty 120 by 120 canvas |
| Commands.Render | csharp/draig/DraigCore/Rendering/DiagramToSvg.cs:658-664 | rendering a program succeeds exactly when running its trimmed, non-empty lines succeeds, and then holds their markup; a blank program gives the empty 120 by 120 canvas |
| Rendering.ChartState.constructor | csharp/draig/DraigCore/Rendering/DiagramToSvg.cs:676-682 | no fill or stroke, a zero translate offset and a line counter starting at 1 |
| Rendering.PinTable.constructor | csharp/draig/DraigCore/Rendering/DiagramToSvg.cs:115 | the registry starts empty |
| Rendering.AddPin | csharp/draig/DraigCore/Rendering/DiagramToSvg.cs:172-187 | consuming the tokens and writing the pin in place does what `Commands.AddPin` says |
| Rendering.AddPinInt | csharp/draig/DraigCore/Rendering/DiagramToSvg.cs:189-196 | sets one pin to the position measured from the translate offset |
| Rendering.Translate | csharp/draig/DraigCore/Rendering/DiagramToSvg.cs:198-205 | does what `Commands.Translate` says |
| Rendering.MovePin | csharp/draig/DraigCore/Rendering/DiagramToSvg.cs:207-223 | does what `Commands.MovePin` says |
| Rendering.MoveListed | csharp/draig/DraigCore/Rendering/DiagramToSvg.cs:215-220 | the loop either stops at the first undefined pin or moves the whole group |
| Rendering.ProjectPin | csharp/draig/DraigCore/Rendering/DiagramToSvg.cs:225-242 | does what `Commands.ProjectPin` says |
| Rendering.PinAtCorner | csharp/draig/DraigCore/Rendering/DiagramToSvg.cs:244-262 | does what `Commands.PinAtCorner` says |
| Rendering.SplitPin | csharp/draig/DraigCore/Rendering/DiagramToSvg.cs:356-374 | does what `Commands.SplitPin` says |
| Rendering.PinByOffset | csharp/draig/DraigCore/Rendering/DiagramToSvg.cs:376-393 | does what `Commands.PinByOffset` says |
| Rendering.ResetPinsToOrigin | csharp/draig/DraigCore/Rendering/DiagramToSvg.cs:264-291 | does what `Commands.ResetPinsToOrigin` says |
| Rendering.Minima | csharp/draig/DraigCore/Rendering/DiagramToSvg.cs:270-282 | the extents loop finds the first undefined pin, or the group's minima |
| Rendering.ShiftListed | csharp/draig/DraigCore/Rendering/DiagramToSvg.cs:285-289 | the apply loop subtracts the offset once per listed name |
| Rendering.MoveToPin | csharp/draig/DraigCore/Rendering/DiagramToSvg.cs:293-354 | does what `Commands.MoveToPin` says |
| Rendering.MoveGroupFrom | csharp/draig/DraigCore/Rendering/DiagramToSvg.cs:302-354 | once the base pin is found, the extents, the offset and the apply loop do what `Commands.MoveToPin` says |
| Rendering.MoveToPinDefined | csharp/draig/DraigCore/Rendering/DiagramToSvg.cs:293-354 | with every pin defined, the command's only effect is the group move |
| Rendering.Extents | csharp/draig/DraigCore/Rendering/DiagramToSvg.cs:306-319 | the loop finds the first undefined pin, or the group's minima and maxima from the pin-range bounds |
| Rendering.MoveOffset | csharp/draig/DraigCore/Rendering/DiagramToSvg.cs:321-343 | the offset from the relative pin or the minima, plus half the span when centring; `MoveOver` consumes the relative pin |
| Rendering.MoveGroupWithShifts | csharp/draig/DraigCore/Rendering/DiagramToSvg.cs:321-352 | the group move is one shift by minus that offset over the names still in the buffer |
| Rendering.DrawBox | csharp/draig/DraigCore/Rendering/DiagramToSvg.cs:395-463 | does what `Commands.DrawBox` says |
| Rendering.BoxWithColumns | csharp/draig/DraigCore/Rendering/DiagramToSvg.cs:402-463 | checking the column count and reading both pin names from the buffer, then drawing, does what `Commands.BoxWithColumns` says |
| Rendering.BoxAt | csharp/draig/DraigCore/Rendering/DiagramToSvg.cs:404-463 | after the column count, does what `Commands.BoxAt` says |
| Rendering.LayOutCells | csharp/draig/DraigCore/Rendering/DiagramToSvg.cs:438-457 | the nested loops draining the text buffer build the table `Markup.Layout` describes |
| Rendering.LayoutStep | csharp/draig/DraigCore/Rendering/DiagramToSvg.cs:440-457 | one pass of the outer loop emits the next row and leaves the rest of the table to the later rows |
| Rendering.FillRow | csharp/draig/DraigCore/Rendering/DiagramToSvg.cs:444-454 | the inner loop takes up to `cols` cells from the front of the buffer as one row |
| Rendering.DrawAutoBox | csharp/draig/DraigCore/Rendering/DiagramToSvg.cs:465-503 | does what `Commands.DrawAutoBox` says |
| Rendering.DrawAutoBoxAt | csharp/draig/DraigCore/Rendering/DiagramToSvg.cs:474-503 | after the column count, does what `Commands.AutoBoxAt` says |
| Rendering.AutoBoxSized | csharp/draig/DraigCore/Rendering/DiagramToSvg.cs:478-503 | after the position, does what `Commands.AutoBoxSized` says |
| Rendering.PlaceAutoBox | csharp/draig/DraigCore/Rendering/DiagramToSvg.cs:482-502 | with a valid size, adding the eight pins and pushing the box words back draws the box `Commands.AutoBoxSized` describes |
| Rendering.AddAutoPins | csharp/draig/DraigCore/Rendering/DiagramToSvg.cs:485-496 | the eight `AddPinInt` calls, with halves by integer division and wrapping sums, leave the registry `Commands.AutoPins` describes |
| Rendering.PushBoxArgs | csharp/draig/DraigCore/Rendering/DiagramToSvg.cs:499-501 | the buffer regains `[cols]`, `name_tl`, `name_br` in front of the text |
| Rendering.Push | csharp/draig/DraigCore/Rendering/DiagramToSvg.cs:499 | one `AddFirst` puts the word at the front |
| Rendering.DrawLine | csharp/draig/DraigCore/Rendering/DiagramToSvg.cs:505-572 | does what `Commands.DrawLine` says |
| Rendering.SetFillColor | csharp/draig/DraigCore/Rendering/DiagramToSvg.cs:574-578 | does what `Commands.SetFillColor` says |
| Rendering.SetLineColor | csharp/draig/DraigCore/Rendering/DiagramToSvg.cs:580-584 | does what `Commands.SetLineColor` says |
| Rendering.HandleCommand | csharp/draig/DraigCore/Rendering/DiagramToSvg.cs:586-651 | tokenising into a buffer, lowering the first word and dispatching does what `Commands.HandleCommand` says |
| Rendering.Dispatch | csharp/draig/DraigCore/Rendering/DiagramToSvg.cs:593-649 | the switch calls the handler `Commands.Dispatch` names |
| Rendering.DispatchLines | csharp/draig/DraigCore/Rendering/DiagramToSvg.cs:626-649 | the later cases of the switch |
| Rendering.RenderToSvg | csharp/draig/DraigCore/Rendering/DiagramToSvg.cs:111-170 | running every line from a fresh state and fitting the canvas gives `Commands.RenderLines` |
| Rendering.RunLines | csharp/draig/DraigCore/Rendering/DiagramToSvg.cs:122-129 | the command loop computes `Commands.Run` and leaves its final state in the tables |
| Rendering.CanvasOf | csharp/draig/DraigCore/Rendering/DiagramToSvg.cs:131-145 | the canvas is the extents plus the 20-unit margin, with wrap-around |
| Rendering.CanvasExtents | csharp/draig/DraigCore/Rendering/DiagramToSvg.cs:132-136 | the extents loop computes `Commands.Extent` on both axes |
| Rendering.Render | csharp/draig/DraigCore/Rendering/DiagramToSvg.cs:658-664 | splitting the program into trimmed, non-empty lines and rendering them gives `Commands.Render` |
| Laws.PinRoundTrip | csharp/draig/DraigCore/Rendering/DiagramToSvg.cs:172-187 | `Pin name x y` with the coordinates written as numbers stores `(x, y)` plus the translate offset |
| Laws.PinParsed | csharp/draig/DraigCore/Rendering/DiagramToSvg.cs:172-187 | the same for any words that parse to `x` and `y` |
| Laws.TranslateThenPin | csharp/draig/DraigCore/Rendering/DiagramToSvg.cs:172-205 | after `Translate a b`, `Pin name x y` lands at `(x + a, y + b)`, and earlier pins are untouched |
| Laws.TranslatedSum | csharp/draig/DraigCore/Rendering/DiagramToSvg.cs:181-185 | an integer position measured from an integer offset is the sum of the two |
| Laws.OffsetPlaces | csharp/draig/DraigCore/Rendering/DiagramToSvg.cs:376-393 | `Offset` ignores the translate offset and places the pin at the source plus `(dx, dy)` |
| Laws.OffsetBack | csharp/draig/DraigCore/Rendering/DiagramToSvg.cs:376-393 | an offset of `(-dx, -dy)` from a pin that was placed at `a + (dx, dy)` lands back on `a` |
| Laws.OffsetRoundTrip | csharp/draig/DraigCore/Rendering/DiagramToSvg.cs:376-393 | `Offset p src dx dy` then `Offset q p -dx -dy` puts `q` on `src` |
| Laws.ResetCommand | csharp/draig/DraigCore/Rendering/DiagramToSvg.cs:264-291 | after `Reset` on distinct pins, none is left of or above the origin, one lies on each axis, and every unlisted pin is unchanged |
| Laws.MoveToCommand | csharp/draig/DraigCore/Rendering/DiagramToSvg.cs:293-354 | after `MoveTo base pins...` the group's top left corner is the base |
| Laws.CentreCommand | csharp/draig/DraigCore/Rendering/DiagramToSvg.cs:293-354 | after `Centre base pins...` the group's extremes are symmetric about the base on both axes |
| Laws.MoveOverCommand | csharp/draig/DraigCore/Rendering/DiagramToSvg.cs:293-354 | after `MoveOver base rel pins...` each listed pin stands to the base as it stood to `rel`, and every other pin, `rel` included, is unchanged |
| Laws.TableKeepsText | csharp/draig/DraigCore/Rendering/DiagramToSvg.cs:406-457 | a table's cells, read row by row and joined with `|`, give back the cleaned text |
| Laws.TableCommand | csharp/draig/DraigCore/Rendering/DiagramToSvg.cs:395-463 | `Table cols a b text...` with a valid column count succeeds exactly when both pins exist and the text has fewer than 2^30 pieces; it then emits the rectangle between the two pins, with column width `width / cols` and the `|`-separated cleaned text laid out in rows of `cols` |
| Laws.TableIsBoxAt | csharp/draig/DraigCore/Rendering/DiagramToSvg.cs:400-404 | with a column count of at least one, `Table` reads the count and continues as `BoxAt` |
| Laws.BoxAtTable | csharp/draig/DraigCore/Rendering/DiagramToSvg.cs:404-463 | the table case of `BoxAt`, with the pieces written as the split of the cleaned text at `|` |
| Laws.BoxCommand | csharp/draig/DraigCore/Rendering/DiagramToSvg.cs:395-425 | `Box a b` succeeds exactly when both pins exist, and then draws the rectangle between them in either order with the current fill |
| Laws.FillThenBox | csharp/draig/DraigCore/Rendering/DiagramToSvg.cs:574-578 | after `Fill colour ...`, a box that is drawn has that fill colour |
| Laws.StrokeThenLine | csharp/draig/DraigCore/Rendering/DiagramToSvg.cs:580-584 | after `Stroke colour ...`, a line that is drawn has that stroke colour |
| Laws.AutoCorners | csharp/draig/DraigCore/Rendering/DiagramToSvg.cs:487-496 | when no sum wraps, the generated top-left pin is `(x, y)` plus the translate offset, and the bottom-right pin is that moved by the size |
| Laws.CornerOffset | csharp/draig/DraigCore/Rendering/DiagramToSvg.cs:487-496 | the far corner, translated, is the near corner moved by the size |
| Laws.BoxFromCorners | csharp/draig/DraigCore/Rendering/DiagramToSvg.cs:413-420 | a box between a pin and that pin moved by a positive size is exactly that rectangle |
| Laws.AutoBoxIsBox | csharp/draig/DraigCore/Rendering/DiagramToSvg.cs:465-503 | `AutoBox name x y w h text...` is `Box name_tl name_br text...` over the registry with the eight pins added |
| Laws.AutoBoxReadsCorner | csharp/draig/DraigCore/Rendering/DiagramToSvg.cs:472-478 | `AutoBox` first reads the name and the position |
| Laws.SizedIsBox | csharp/draig/DraigCore/Rendering/DiagramToSvg.cs:480-502 | with a valid size the rest of `AutoBox` is that box |
| Laws.CornerBoxPlaces | csharp/draig/DraigCore/Rendering/DiagramToSvg.cs:487-502 | the box drawn from the generated corners starts at the translated position and has exactly the given size |
| Laws.AutoBoxPlaces | csharp/draig/DraigCore/Rendering/DiagramToSvg.cs:465-503 | `AutoBox` with a positive size and no wrapping sum succeeds and draws its box at the translated position with exactly that size |
| Laws.AutoTableFiveArgs | csharp/draig/DraigCore/Rendering/DiagramToSvg.cs:468-479 | `AutoTable` with five words passes the length check but runs out of words before the height, and fails with the empty-vector error |
| Laws.AutoTableIsTable | csharp/draig/DraigCore/Rendering/DiagramToSvg.cs:465-503 | `AutoTable cols name x y w h text...` with a valid column count and size is `Table cols name_tl name_br text...` over the registry with the eight pins added |
| Laws.TableReadsCorner | csharp/draig/DraigCore/Rendering/DiagramToSvg.cs:468-478 | `AutoTable` first reads the column count, the name and the position |
| Laws.SizedIsTable | csharp/draig/DraigCore/Rendering/DiagramToSvg.cs:479-502 | with a valid size the rest of `AutoTable` is that table |
| Laws.CornerTablePlaces | csharp/draig/DraigCore/Rendering/DiagramToSvg.cs:487-502 | the table drawn from the generated corners succeeds exactly when the text has fewer than 2^30 pieces, starts at the translated position, has exactly the given size, and lays the pieces out with column width `width / cols` |
| Laws.AutoTablePlaces | csharp/draig/DraigCore/Rendering/DiagramToSvg.cs:465-503 | `AutoTable` with a positive size and no wrapping sum succeeds exactly when the text has fewer than 2^30 pieces, and then draws its table at the translated position with exactly that size and column width `width / cols` |
| Laws.DispatchIgnoresLine | csharp/draig/DraigCore/Rendering/DiagramToSvg.cs:593-646 | the line text matters only to the invalid-command error |
| Laws.KeywordIgnoresCase | csharp/draig/DraigCore/Rendering/DiagramToSvg.cs:588-593 | two lines with the same arguments whose keywords differ only in letter case run the same command |
| Laws.Comments | csharp/draig/DraigCore/Rendering/DiagramToSvg.cs:595-648 | a `#` word on its own is a comment that changes nothing, but `#foo` is an invalid command |
| Laws.DispatchNumbers | csharp/draig/DraigCore/Rendering/DiagramToSvg.cs:551-552 | every successful command either leaves the counter alone and emits no path, or emits a path with the current counter as its id and raises the counter by one |
| Laws.CommandNumbers | csharp/draig/DraigCore/Rendering/DiagramToSvg.cs:586-651 | the same for a whole command line |
| Laws.PathCount | csharp/draig/DraigCore/Rendering/DiagramToSvg.cs:551-552 | a run has no more paths than fragments |
| Laws.NumberedStep | csharp/draig/DraigCore/Rendering/DiagramToSvg.cs:122-129 | one more numbered command keeps the run's ids consecutive |
| Laws.NumberedAppend | csharp/draig/DraigCore/Rendering/DiagramToSvg.cs:122-129 | appending a fragment that carries the next id keeps the ids consecutive |
| Laws.RunNumbersLines | csharp/draig/DraigCore/Rendering/DiagramToSvg.cs:122-129 | in any successful run the paths carry consecutive ids counting up from the starting counter (1 in a fresh render) in program order, wrapping as an `int`, and the counter ends one past the last |
| Laws.CanvasCoversPins | csharp/draig/DraigCore/Rendering/DiagramToSvg.cs:132-140 | when the margin does not wrap, the canvas is at least 120 by 120 and reaches 20 past every pin's truncated coordinates |
| Laws.CanvasWidthWraps | csharp/draig/DraigCore/Rendering/DiagramToSvg.cs:139-140 | a pin within 20 of the largest `int` makes the margin wrap and the canvas width negative |

## Left out

- The SVG text itself is not generated. This covers the fixed header, the `<defs>` markers and the `DiagramStyles` constant, which the `T.g` library builds and are treated as an opaque wrapper. It also covers the interpolated strings of each fragment. Their C# `double` formatting and culture are outside the model.
- IEEE floating point: coordinates are exact reals, so rounding in `ProjectPoint`, `Split`, `Centre` and the division behind the column width is not modelled.
- The `(int)` cast of a coordinate above `int.MaxValue` is modelled as saturating. NaN cannot arise from the commands.
- Exception messages: each exception becomes a typed error carrying the names the message mentions, not its text.
- The state a handler leaves behind when it throws part way through (for example pins already moved by `Move` before it meets an unknown pin). A failed command ends `Render`, so callers never observe that state.
- `Program.cs`, the browser scripts, `Module.cs`, `Process.cs` and `Step.cs` are not part of this model. They hold I/O, DOM handling and plain data.
- `volatile` on the cursors: there is no concurrency.
- The blanking of free array slots (Dq.cs:409-411 promises every slot outside the ring holds `null`). `Clear`, `PollFirst`, `PollLast` and `Delete` write an arbitrary value of `T` there, and `Valid()` does not track free slots. Only the garbage collector can observe the difference.
- The enumerator: iterating over a `Dq` walks the `ToArray` snapshot, so only `Internal.Dq.ToArray` is modelled.
- `Dq.FromValues` is `new Dq(T[])` and is covered by `Internal.Dq.OfArray`. The indexer is `Get`/`Set`.
- Internal.Dq.PollFirst: requires a non-empty buffer, so the rule that a `null` element is not removed (Dq.cs:498, 511) is left out. The command tokens are never null.
- Internal.Dq.PollLast: requires a non-empty buffer, for the same reason.
- Internal.Dq.Delete: requires `i` to be a slot of the array. With an index outside the array, `Array.Copy` throws or the wrong slot is written; that is not modelled.
- Internal.AllocationSizeIsTight: `AllocateElements(0x4000_0000)` would ask for an array of 2^31 elements, which .NET cannot allocate. It is modelled as the invalid-count failure, so valid capacities stop at 2^30.
- Text.LowerChar: lower-cases ASCII letters and the Kelvin sign only. Other non-ASCII letters keep their case; no keyword contains them.
- Text.ParseInt: models `int.Parse` under the invariant culture. Current-culture signs, thousands separators and other number styles are left out.
- Commands.DrawBox: its own contract states only that the state is unchanged and a rectangle is emitted. The success condition and the geometry are stated by `Commands.BoxAt`, `Laws.BoxCommand` and `Laws.TableCommand`, and the table cells by `Laws.TableKeepsText` and `Markup.Layout`.
- Commands.DrawAutoBox: its own contract states only that a rectangle is emitted and only pins change. Its placement is proved in `Laws.AutoBoxPlaces` and `Laws.AutoTablePlaces`, under the condition that no `x + width` or `y + height` sum wraps. Wrapped sums are modelled in `Commands.AutoPins`, which states where the two corners land; no lemma states the box drawn between wrapped corners.
- Commands.AutoBoxAt: its own contract states only what `Commands.DrawAutoBox` states; the same lemmas give its placement.
- Commands.AutoBoxSized: the same as `Commands.AutoBoxAt`; `Laws.SizedIsBox` and `Laws.SizedIsTable` reduce it to a box or a table.
- Commands.BoxWithColumns: its own contract states only that the state is unchanged and a rectangle is emitted; `Commands.BoxAt` states the rest.
- Commands.MoveToPin: the `Centre`-with-relative-pin combination is not reachable from any keyword, so no contract states it.
- Commands.Run: its own contract states only that no empty fragment is collected. `Commands.RunStep` and `Commands.RunStopsAtFailure` state how lines compose.
- Laws.ResetCommand: holds only for pins inside the `int` range and without repeated names. A name listed twice is moved twice, as `PinGroups.ShiftAll` states.
- Laws.MoveToCommand: holds for distinct names inside the `int` range.
- Laws.CentreCommand: holds for distinct names inside the `int` range.
