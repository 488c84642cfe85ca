# Iskandria core, modelled in Dafny

This project models the small, self-contained integer, string and container
pieces of the Iskandria game engine and its Zaimoni.STL support library,
together with the template preprocessor used to generate its source files.
Each source file is modelled by one Dafny module in one file:

| Dafny file | module | source |
|---|---|---|
| template_toolkit.dfy | `TemplateToolkit` | tools/TemplateToolkit.py |
| grid_tile.dfy | `GridTile` | gridtile.hpp |
| xcom_like.dfy | `XComLike` | XCOMlike.hpp |
| dicounter.dfy | `DiCounter` | dicounter.hpp |
| int_range.dfy | `IntRange` | int_range.hpp |
| format_util.dfy | `FormatUtil` | Zaimoni.STL/Pure.C/format_util.c |
| json_value.dfy, json_read.dfy, json_write.dfy | `JsonValue`, `JsonRead`, `JsonWrite` | Zaimoni.STL/Pure.CPP/json.hpp, json.cpp |
| enum_json.dfy | `EnumJson` | Zaimoni.STL/Pure.CPP/enum_json.h |
| lru_cache.dfy | `LruCache` | Zaimoni.STL/Pure.CPP/LRUcache.hpp |
| memory.dfy | `Memory` | Zaimoni.STL/core.RAM/memory.cpp |
| interval.dfy | `Intervals` | Zaimoni.STL/interval.hpp |
| overprecise.dfy | `Overprecise` | overprecise.hpp |
| box.dfy | `Box` | Zaimoni.STL/GDI/box.hpp |
| slice.dfy | `Slices` | slice.hpp |
| matrix.dfy | `Matrices` | matrix.hpp |
| euclidean.dfy | `Euclidean` | Euclidean.hpp |
| z_n.dfy | `ZMod` | z_n.hpp |
| object.dfy | `Objects` | object.hpp |
| world_manager.dfy | `WorldManagers` | world_manager.cpp, world_manager.hpp |
| mass.dfy | `Masses` | mass.hpp, mass.cpp |
| ptr2.dfy | `IntrusivePointers` | Zaimoni.STL/ptr2.hpp |
| flat_alg2.dfy | `FlatAlg` | Zaimoni.STL/flat_alg2.hpp |
| c_int.dfy | `CInt` | C integer limits and truncating `/` and `%` shared by the modules above |
| wrappers.dfy | `Wrappers` | the `Option` type |

The form follows the source.
- Code that changes state in place becomes a Dafny `class` whose methods have
  `modifies` clauses and loop invariants. Examples are the template loop, the
  counters, the LRU cache, the pointer table, the matrix in-place operations,
  object collection, the handler lists and the reference-counted pointer.
- Each such method is proved equal to a specification function, and the
  properties are proved about that function.
- Pure computations become functions and lemmas.

C's fixed-width integers are mathematical integers bounded by the limits in
`CInt`: `UINTMAX_MAX` and `INTMAX_MAX` are those of a 64-bit target. C's
truncating division and remainder are written out in `CInt.Quot` and
`CInt.Rem`, because Dafny's own operators are Euclidean.

A few behaviours of the code differ from the natural reading of the
surrounding design. The model follows the code in each case.
- In tools/TemplateToolkit.py, an `IF` opener met while a block is pending is
  not pushed, so the first `END IF` closes the outer block
  (`TemplateToolkit.NestedBlocksOuterKept`, `TemplateToolkit.NestedBlocksOuterDropped`).
- The name that `IF NOT` looks up is cut from the unstripped line
  (`TemplateToolkit.IfNotTestsTrailingSpace`).
- The source types a world-manager file handler as returning `void`, yet
  `load` and `save` read an `int` from each call. The model follows the
  loops and takes each handler's result as a parameter.

Where the code looks plainly wrong, the model keeps the code as written
next to a corrected definition, and proves the evidently intended property
about the corrected one. Some operations exist in both versions, such as
`Objects.GcAllAsWritten` and `Objects.GcAll`. `Memory.Heap.Calloc` uses only
the corrected overflow test. The JSON reader and writer follow the code as
written, and the corrected escapes are stated beside them. See "## Findings".

## Model

| member | source | states |
|---|---|---|
| TemplateToolkit.ParseArgs | tools/TemplateToolkit.py:20-30 | The argument loop yields exactly the jobs of the reference definition `Jobs`: each file name is paired with the bindings made before it. |
| TemplateToolkit.BindingOverwrites | tools/TemplateToolkit.py:21-27 | `-D<name> v` binds `name` to `v`, and a later binding of the same name overwrites the earlier one. |
| TemplateToolkit.OutputName | tools/TemplateToolkit.py:33-37 | A trailing `.tmpl` is stripped, otherwise `.out` is appended; the output name never equals the input name. |
| TemplateToolkit.RStripSpec | tools/TemplateToolkit.py:44 | `rstrip` keeps a prefix that does not end in whitespace and removes only whitespace. |
| TemplateToolkit.RStripIdempotent | tools/TemplateToolkit.py:44 | Stripping a stripped line changes nothing. |
| TemplateToolkit.LStripSpec | tools/TemplateToolkit.py:63 | `lstrip` keeps a suffix that does not start with whitespace and removes only whitespace. |
| TemplateToolkit.IfName | tools/TemplateToolkit.py:79 | The name that `IF` looks up is characters 6 to len-3 of the stripped line. |
| TemplateToolkit.Target | tools/TemplateToolkit.py:58 | The placeholder is the name wrapped in `[% ` and ` %]`. |
| TemplateToolkit.ReplaceAllAbsent | tools/TemplateToolkit.py:59-60 | Splitting on a separator that does not occur and joining gives the line back. |
| TemplateToolkit.ReplaceAllSelf | tools/TemplateToolkit.py:60 | Joining the pieces with the separator itself gives the line back. |
| TemplateToolkit.ReplaceAllSameLength | tools/TemplateToolkit.py:60 | A value as long as its placeholder keeps the line's length. |
| TemplateToolkit.SubstAllNoPlaceholder | tools/TemplateToolkit.py:57-60 | A line holding no placeholder of a bound name passes substitution unchanged. |
| TemplateToolkit.SubstituteLine | tools/TemplateToolkit.py:57-60 | The substitution loop over the bindings gives the reference substitution `SubstAll`. |
| TemplateToolkit.FindCloser | tools/TemplateToolkit.py:63-89 | The line found is the first closer at or after the start; None means no closer follows. |
| TemplateToolkit.ResolveShape | tools/TemplateToolkit.py:39-99 | A processed file has at most as many lines as its source, each ending in a newline; a failure names a line index of the list being processed. |
| TemplateToolkit.ResolvePlain | tools/TemplateToolkit.py:57-62 | A top-level plain line is stripped, substituted and given back its newline, in front of the rest of the file's result. |
| TemplateToolkit.ResolvePlainFile | tools/TemplateToolkit.py:57-62 | A file without markers becomes its lines stripped, substituted and newline-terminated, in order. |
| TemplateToolkit.SettledEndIf | tools/TemplateToolkit.py:45-48 | A top-level `[% END IF %]` ends processing with the unbalanced-END-IF failure at its index. |
| TemplateToolkit.SettledOpen | tools/TemplateToolkit.py:49-56 | A top-level `IF` or `IF NOT` opener becomes the one pending block, recorded with its kind. |
| TemplateToolkit.OpenAtSkip | tools/TemplateToolkit.py:88-89 | While a block is pending, a line that is not a closer is skipped, including nested openers. |
| TemplateToolkit.Pop | tools/TemplateToolkit.py:70-82 | `s.pop(n)` removes exactly element `n` and keeps the others in order. |
| TemplateToolkit.Del | tools/TemplateToolkit.py:73-84 | `del s[a:b]` removes exactly the slice and keeps the others in order. |
| TemplateToolkit.Spliced | tools/TemplateToolkit.py:66-86 | Resolving a block keeps the lines before the opener. It then removes only the two markers when the body is kept, or the whole block otherwise. |
| TemplateToolkit.ResolveClosed | tools/TemplateToolkit.py:63-87 | A closed block is resolved and the scan resumes at the opener's index on the shortened list. |
| TemplateToolkit.ClosedTail | tools/TemplateToolkit.py:74-86 | After the rewind, the shortened tail resolves exactly as the unshortened one did. |
| TemplateToolkit.OpenAtClose | tools/TemplateToolkit.py:63-87 | The closer resolves the pending opener, whose kind is the one recorded. |
| TemplateToolkit.CloseBlock | tools/TemplateToolkit.py:63-87 | The END IF branch empties the stacks, rewinds the index to the pending opener's index, and splices the block out: the opener and the closer go when the test keeps the block, the whole block otherwise. The list that results is settled up to the opener. |
| TemplateToolkit.ResolveUnclosed | tools/TemplateToolkit.py:91-96 | A block with no closer after it makes the file fail at the opener's index, by kind. |
| TemplateToolkit.OpenAtEnd | tools/TemplateToolkit.py:91-96 | A block still pending when the scan ends gives the unclosed-IF or unclosed-IF-NOT failure. |
| TemplateToolkit.Process | tools/TemplateToolkit.py:39-96 | The in-place scanning loop with its stacks and rewinds computes the reference definition `Resolve` for every file. |
| TemplateToolkit.IfNotTestsTrailingSpace | tools/TemplateToolkit.py:68 | An `IF NOT X` line that ends in a newline tests the name `X ` with a trailing space, so its body is kept although `X` is bound. |
| TemplateToolkit.NestedBlocksOuterKept | tools/TemplateToolkit.py:44-89 | When the outer block is kept, the nested inner block is resolved on the rewind. |
| TemplateToolkit.NestedBlocksOuterDropped | tools/TemplateToolkit.py:45-89 | When the outer block is dropped, the inner opener goes with it and the outer END IF is left unbalanced at top level. |
| TemplateToolkit.Run | tools/TemplateToolkit.py:30-99 | Jobs are processed in order. Each written file is the resolved template under its output name. The first failing file stops the run with status 1 before it is written. |
| XComLike.Rotate | XCOMlike.hpp:24 | `rotate` is `(origin + delta) % 8`, always a facing. |
| XComLike.RotateByNorth | XCOMlike.hpp:24 | Turning by N changes nothing. |
| XComLike.RotateComposes | XCOMlike.hpp:24 | Turns compose and commute. |
| XComLike.InvRotateAsWritten | XCOMlike.hpp:25 | `inv_rotate` as written equals `origin - delta` when `delta <= origin`, and otherwise falls in 249..255, outside the facings. |
| XComLike.InvRotateLeavesRange | XCOMlike.hpp:25 | Undoing E from N gives 254, not W. |
| XComLike.InvRotateInverts | XCOMlike.hpp:24-25 | The corrected `inv_rotate` and `rotate` undo each other, and agree with the code whenever `delta <= origin`. |
| GridTile.AbsDelta | gridtile.hpp:337 | `abs_delta` is the distance from the origin on the low side and from the half-offset centre on the high side. |
| GridTile.ExactRotate | gridtile.hpp:319-355 | Success iff the point is the origin with offset 0, or the facing is N or S, or the facing is E or W with offset code 0 or 3. N and a failure leave the point alone. |
| GridTile.ExactRotateTurns | gridtile.hpp:333-352 | About the centre, S negates both doubled coordinates, E maps (u, v) to (v, -u) and W maps it to (-v, u). |
| GridTile.RotateSouthTwice | gridtile.hpp:340-344 | Rotating to S twice is the identity for every offset code. |
| GridTile.RotateWestUndoesEast | gridtile.hpp:345-352 | W undoes E and E undoes W, for the offset codes that admit them. |
| GridTile.RotateEastFourTimes | gridtile.hpp:349-352 | E applied four times is the identity. |
| GridTile.ExactReflectAsWritten | gridtile.hpp:357-387 | As written: N/S changes only y and E/W only x; the diagonals fail. |
| GridTile.ExactReflectUsesWrongDelta | gridtile.hpp:374-378 | Mirroring (1, 5) through the origin in x gives (-5, 5), and mirroring again gives (5, 5), not the start. |
| GridTile.ExactReflect | gridtile.hpp:357-387 | The corrected reflection has the same success rule and changes the same coordinate. |
| GridTile.ExactReflectMirrors | gridtile.hpp:357-387 | The corrected reflection negates one doubled coordinate, so reflecting twice is the identity. |
| GridTile.MapCell.SetNWall | gridtile.hpp:190-200 | Sets the north wall id. Bit 0 becomes `reversed`; the other flags and fields are kept, and `n_reversed` reads it back. |
| GridTile.MapCell.SetWWall | gridtile.hpp:195-201 | Sets the west wall id. Bit 1 becomes `reversed`; the other flags and fields are kept, and `w_reversed` reads it back. |
| GridTile.FlagBitsIndependent | gridtile.hpp:190-201 | Each flag setter writes its own bit and leaves the other bit unchanged. |
| GridTile.WallViews | gridtile.hpp:217-298 | Only diagonal views draw walls or want neighbours. West-wall views are north-wall views turned a quarter. South-neighbour views are east-neighbour views turned a quarter. A neighbour's wall is drawn only for a view that wants that neighbour. |
| DiCounter.AddConserves | dicounter.hpp:22-45 | On a balanced counter, `add` keeps it balanced and in range and conserves value plus leftover. Something is left over only when the positive side is saturated. |
| DiCounter.AddZero | dicounter.hpp:23 | `add(0)` changes nothing. |
| DiCounter.AddDrawsDown | dicounter.hpp:24-33 | With a negative side, `add` shrinks it by `src`, or uses it up and moves the rest positive; `src` becomes 0. |
| DiCounter.AddSaturates | dicounter.hpp:35-43 | With no negative side, `add` saturates at `UINTMAX_MAX` and leaves the excess in `src`. |
| DiCounter.Counter.AddCapacity | dicounter.hpp:21 | `add_capacity() == UINTMAX_MAX - positive`. |
| DiCounter.Counter.SubCapacity | dicounter.hpp:65 | `sub_capacity() == UINTMAX_MAX - negative`. |
| DiCounter.Counter.Add | dicounter.hpp:22-45 | The new sides and the leftover are those of `AddStep`; the counter stays valid. |
| DiCounter.Counter.Sub | dicounter.hpp:65 | `sub` is `add` with the sides exchanged. |
| DiCounter.Counter.SafeAdd | dicounter.hpp:46-62 | `safe_add` is `add` under its assertion that the value fits, so nothing is left over. |
| DiCounter.Counter.SafeSub | dicounter.hpp:65 | `safe_sub` is `safe_add` with the sides exchanged. |
| DiCounter.AddMaxToFresh | dicounter.hpp:35-39 | Adding `UINTMAX_MAX` to a fresh counter fills the positive side and leaves capacity 0. |
| IntRange.Range.Size | int_range.hpp:133-136 | `size()` is 0 iff the range is empty, and otherwise the number of integers it holds. |
| IntRange.Range.SizeInWidth | int_range.hpp:133-136 | `size()` for a `size_type` of `w` bits, as a `size_t`: 0 for an empty range. When `size_type` is at least as wide as `int`, the count modulo 2^w; a narrower one is promoted to `int` and does not wrap at 2^w. |
| IntRange.FullRangeSizeWraps | int_range.hpp:133-138 | The full range of a signed type is not empty, yet its `size()` wraps to 0. |
| IntRange.SizeInWidthExact | int_range.hpp:133-136 | For a `size_type` at least as wide as `int` and no wider than `size_t`, a count that fits is exact. |
| IntRange.NarrowSizeExact | int_range.hpp:133-136 | For a promoted `size_type`, bounds of one sign give the exact count. |
| IntRange.NarrowSignedSize | int_range.hpp:133-136 | For a promoted `size_type`, bounds on both sides of zero give the count less 2^w as a `size_t`, so `int_range<signed char>(-1, 0).size()` is 2^64 - 254; the full range gives 0. |
| IntRange.Range.At | int_range.hpp:171-175 | `r[n]` is the n-th element, `lower + n`. |
| IntRange.ElementsBetweenBounds | int_range.hpp:133-138 | The range holds exactly the integers between its bounds. |
| IntRange.EqualIffSameElements | int_range.hpp:141-146 | `==` holds iff the two ranges hold the same integers, so all empty ranges are equal. |
| IntRange.LessIsStrictOrder | int_range.hpp:187-193 | `<` is irreflexive, transitive and total up to `==`, with empty ranges first. |
| IntRange.IntRange.PopFront | int_range.hpp:178 | `pop_front` drops the least element and keeps the others. |
| IntRange.IntRange.PopBack | int_range.hpp:179 | `pop_back` drops the greatest element and keeps the others. |
| IntRange.Iterator.Increment | int_range.hpp:57-60 | `++` advances unless already past `upper`, so it never passes `upper + 1`. |
| IntRange.Iterator.Decrement | int_range.hpp:68-71 | `--` steps back unless at `lower`, so it never goes below `lower`. |
| FormatUtil.Digits | Zaimoni.STL/Pure.C/format_util.c:13-28 | The radix digits of a number form a canonical digit string whose value is the number. |
| FormatUtil.DigitsUnique | Zaimoni.STL/Pure.C/format_util.c:13-28 | A number has exactly one canonical digit string, so the digits written are determined by the number. |
| FormatUtil.DigitChar | Zaimoni.STL/Pure.C/format_util.c:20 | A digit is written as '0'-'9' and then as uppercase 'A'-'Z', and the character reads back as the same digit. |
| FormatUtil.LeadingPower | Zaimoni.STL/Pure.C/format_util.c:16-17 | The first loop finds the power of the radix of the leading digit, without passing the target. |
| FormatUtil.NextDigit | Zaimoni.STL/Pure.C/format_util.c:19-23 | One pass of the digit loop yields the next digit of the number and the remainder and power for the rest. |
| FormatUtil.UmaxToA | Zaimoni.STL/Pure.C/format_util.c:13-28 | `z_umaxtoa` writes the radix digits most significant first, then a NUL, and leaves the rest of the buffer alone; 0 is written as "0". |
| FormatUtil.NegQuotRem | Zaimoni.STL/Pure.C/format_util.c:50-58 | C's truncating `/` and `%` of two non-positive numbers equal the negated division of their magnitudes. |
| FormatUtil.NegLeadingPower | Zaimoni.STL/Pure.C/format_util.c:50-51 | For a negative number, the first loop finds the negated power of the leading digit, so that INTMAX_MIN needs no positive counterpart. |
| FormatUtil.NegNextDigit | Zaimoni.STL/Pure.C/format_util.c:54-58 | One pass of the negative digit loop yields the next digit of the magnitude, never negative. |
| FormatUtil.NegDigitLoop | Zaimoni.STL/Pure.C/format_util.c:53-62 | The negative digit loop writes the magnitude's digits after the '-' and then a NUL. |
| FormatUtil.NegativeToA | Zaimoni.STL/Pure.C/format_util.c:49-61 | A negative number is written as '-' followed by the digits of its magnitude and a NUL. |
| FormatUtil.ImaxToA | Zaimoni.STL/Pure.C/format_util.c:33-64 | `z_imaxtoa` writes the signed text, '-' and magnitude for a negative number, then a NUL, for every `intmax_t` including INTMAX_MIN. |
| FormatUtil.DigitVal | Zaimoni.STL/Pure.C/format_util.c:115-143 | Every character stands for a digit of at most 36, and 36 means the character is a digit in no radix. |
| FormatUtil.LowerCaseDigits | Zaimoni.STL/Pure.C/format_util.c:143-171 | For a radix above 10, a lowercase letter is the same digit as the uppercase one. |
| FormatUtil.SpaceRun | Zaimoni.STL/Pure.C/format_util.c:111 | The skipped prefix is the longest run of C whitespace. |
| FormatUtil.DigitRun | Zaimoni.STL/Pure.C/format_util.c:121-179 | The digits read are the longest run of radix digits, which stops at the first non-digit. |
| FormatUtil.AccumulateDigit | Zaimoni.STL/Pure.C/format_util.c:121-178 | One digit is accumulated iff the new value stays within UINTMAX_MAX, and the accumulated value is then the value of the digits so far. |
| FormatUtil.AtoUmax | Zaimoni.STL/Pure.C/format_util.c:107-184 | `z_atoumax` gives the reference result `ParseUmax`. No leading digit gives 0 with EINVAL, overflow gives 0 with ERANGE, and otherwise the result is the value of the digit run with errno untouched. |
| FormatUtil.AtoUmaxReadsUmaxToA | Zaimoni.STL/Pure.C/format_util.c:107-184 | Reading back what `z_umaxtoa` wrote returns the number, with errno untouched. |
| FormatUtil.ImaxFromUmax | Zaimoni.STL/Pure.C/format_util.c:189-204 | A negative x up to INTMAX_MAX+1 gives -x, including INTMAX_MIN, and a non-negative x up to INTMAX_MAX gives x. Anything else gives 0 with ERANGE. |
| FormatUtil.ImaxFromUmaxRejoinsSign | Zaimoni.STL/Pure.C/format_util.c:189-204 | The sign and the magnitude that `z_imaxtoa` writes are put back together by `imax_from_umax`. |
| JsonValue.FindPut | Zaimoni.STL/Pure.CPP/json.cpp:284-302 | After `map[k] = v`, `k` finds `v` and every other key finds what it found before. |
| JsonValue.FindErase | Zaimoni.STL/Pure.CPP/json.cpp:251-271 | After `map::erase(k)`, `k` is absent and every other key finds what it found before. |
| JsonValue.PutSorted | Zaimoni.STL/Pure.CPP/json.cpp:284-302 | Inserting keeps the entries in `std::map` key order. |
| JsonValue.EraseSorted | Zaimoni.STL/Pure.CPP/json.cpp:251-271 | Erasing keeps the entries in key order. |
| JsonValue.SortedExtensional | Zaimoni.STL/Pure.CPP/json.hpp:87-94 | Two sorted entry lists are equal when every key finds the same value in both, so a map is determined by its lookups. |
| JsonValue.Collapse | Zaimoni.STL/Pure.CPP/json.cpp:257-260 | An object built from a list of entries is empty iff the list is, since its map pointer is freed when no entry is left. Its lookups and keys are those of the entries. |
| JsonValue.IsScalar | Zaimoni.STL/Pure.CPP/json.hpp:79 | `is_scalar` holds exactly for the string and literal modes. |
| JsonValue.Scalar | Zaimoni.STL/Pure.CPP/json.hpp:80 | `scalar` is the text of a string or literal, and the empty discard string otherwise. |
| JsonValue.Size | Zaimoni.STL/Pure.CPP/json.cpp:66-76 | `size` counts an object's keys or an array's members, and is 1 for a scalar with text. |
| JsonValue.EmptyIffSizeZero | Zaimoni.STL/Pure.CPP/json.cpp:54-76 | A well-formed value is empty exactly when its size is 0. |
| JsonValue.Get | Zaimoni.STL/Pure.CPP/json.hpp:87-94 | `get(key)` finds a value iff the value is an object with a map that holds `key`. |
| JsonValue.Keys | Zaimoni.STL/Pure.CPP/json.cpp:242-249 | `keys` lists exactly the keys `get` finds. |
| JsonValue.IsLegalJsLiteral | Zaimoni.STL/Pure.CPP/json.cpp:273-282 | A legal literal is a non-null, non-empty text. `true`, `false` and `null` are legal, and so is any text whose first character is a sign or a digit. Every other text is illegal. |
| JsonValue.FromJsonString | Zaimoni.STL/Pure.CPP/json.cpp:813-818 | Converting to a string succeeds iff the value is a scalar, and gives its text. |
| JsonValue.FromJsonChar | Zaimoni.STL/Pure.CPP/json.cpp:834-839 | Converting to a char succeeds iff the value is a scalar. The result is the text's first character, or NUL for an empty text. |
| JsonValue.FromJsonBool | Zaimoni.STL/Pure.CPP/json.cpp:841-855 | Converting to bool succeeds iff the text is `true` or `false`, and gives true iff it is `true`. |
| JsonValue.FilterMembers | Zaimoni.STL/Pure.CPP/json.cpp:157-162 | The filtered members are exactly the members the predicate accepts. |
| JsonValue.DoomedKeys | Zaimoni.STL/Pure.CPP/json.cpp:145-147 | A key is collected for removal exactly when it is present with a value the predicate rejects. |
| JsonValue.Node.Reset | Zaimoni.STL/Pure.CPP/json.cpp:34-52 | `reset` leaves a `none` value with a null pointer. |
| JsonValue.Node.Push | Zaimoni.STL/Pure.CPP/json.cpp:78-96 | A value that is not an array is reset to an empty array first, and `src` goes at the end. |
| JsonValue.Node.Set | Zaimoni.STL/Pure.CPP/json.cpp:284-302 | A value that is not an object is reset to an empty object first. Then `key` finds `v` and every other key finds what it found before. |
| JsonValue.Node.SetText | Zaimoni.STL/Pure.CPP/json.hpp:127 | A null text sets nothing. Otherwise `key` gets a literal when the text is a legal literal and a string when it is not. |
| JsonValue.Node.Unset | Zaimoni.STL/Pure.CPP/json.cpp:263-271 | Only an object with a map changes, and only for a non-empty key. `key` is then absent and every other key is unchanged. |
| JsonValue.Node.UnsetAll | Zaimoni.STL/Pure.CPP/json.cpp:251-261 | For an object with a map and a non-empty key list, exactly the listed keys are removed. |
| JsonValue.Node.DestructiveGrep | Zaimoni.STL/Pure.CPP/json.cpp:135-169 | A scalar is only passed to the predicate, and an empty container gives false. Otherwise the rejected members are removed, order is kept, and the result says whether anything is left. |
| JsonValue.Node.BecomeKey | Zaimoni.STL/Pure.CPP/json.hpp:95-102 | An object replaces itself by the value of `key` iff it has one. |
| JsonValue.Node.ExtractKey | Zaimoni.STL/Pure.CPP/json.hpp:103-110 | Returns true iff `key` is present. The value then moves into `dest` and `key` is unset, except that the empty key is left bound to `none`. Otherwise nothing changes. |
| JsonValue.Node.Decode | Zaimoni.STL/Pure.CPP/json.hpp:218-228 | Only an array with a non-null destination decodes, and an array without members succeeds iff n == 0. Otherwise the sizes must agree and each member converts into its slot. Success iff every conversion succeeds. |
| JsonValue.EraseEach | Zaimoni.STL/Pure.CPP/json.cpp:254-256 | The erase loop removes exactly the listed keys and keeps the map sorted. |
| JsonValue.DoomedOf | Zaimoni.STL/Pure.CPP/json.cpp:145-147 | The collecting loop gives exactly the keys the predicate rejects. |
| JsonValue.FilterBackward | Zaimoni.STL/Pure.CPP/json.cpp:157-162 | Erasing rejected members from the back gives the members the predicate accepts, in order. |
| JsonRead.SkipWs | Zaimoni.STL/Pure.CPP/json.cpp:325-360 | The position reached is the first non-whitespace character at or after the start, or the end. |
| JsonRead.ConsumeWhitespace | Zaimoni.STL/Pure.CPP/json.cpp:325-360 | `consume_whitespace` skips to that position, counts the line breaks passed, and returns false exactly at the end of the stream. |
| JsonRead.OneBreakEach | Zaimoni.STL/Pure.CPP/json.cpp:325-360 | `\r`, `\n`, `\r\n` and `\n\r` each count as one line; two like breaks or a split pair count as two. |
| JsonRead.UnixLines | Zaimoni.STL/Pure.CPP/json.cpp:325-360 | Without carriage returns, every `\n` counts as a line. |
| JsonRead.DosLines | Zaimoni.STL/Pure.CPP/json.cpp:325-360 | `k` CRLF pairs count as `k` lines. |
| JsonRead.StartMode | Zaimoni.STL/Pure.CPP/json.cpp:363-379 | `[` starts an array, `{` an object, `"` a string; any of `,}]:` and NUL start nothing; anything else starts a literal. |
| JsonRead.Unescape | Zaimoni.STL/Pure.CPP/json.cpp:599-633 | The escapes as the code decodes them: `\n` gives a carriage return and `\v` a form feed. Exactly the letters `r n t v f b " ' \` give one character; any other letter keeps its backslash. |
| JsonRead.StrFromAt | Zaimoni.STL/Pure.CPP/json.cpp:594-646 | One character of a string: an escaped one is unescaped, a backslash starts an escape, a quote ends the string, anything else is kept. |
| JsonRead.FinishReadingString | Zaimoni.STL/Pure.CPP/json.cpp:591-649 | `finish_reading_string` reads the text of the reference definition `StrFrom` and stops just after the closing quote, or at the end of the stream. |
| JsonRead.WsRejected | Zaimoni.STL/Pure.CPP/json.cpp:651-654 | Every whitespace character ends a literal. |
| JsonRead.LitEnd | Zaimoni.STL/Pure.CPP/json.cpp:656-671 | A literal runs up to the first rejected character or the end. |
| JsonRead.FinishReadingLiteral | Zaimoni.STL/Pure.CPP/json.cpp:656-671 | `finish_reading_literal` stops exactly where the literal ends. |
| JsonRead.ReadValue | Zaimoni.STL/Pure.CPP/json.cpp:414-442 | A value read moves forward, a scalar read has text, and a key never reads as an object or an array. |
| JsonRead.ReadObject | Zaimoni.STL/Pure.CPP/json.cpp:482-543 | Reading after `{` gives an object, which has a map exactly when it has entries; `{}` is one without. |
| JsonRead.ReadEntry | Zaimoni.STL/Pure.CPP/json.cpp:499-525 | An entry read has a value and moves forward. |
| JsonRead.AfterMember | Zaimoni.STL/Pure.CPP/json.cpp:527-587 | After a member the reader stops at the end, at the closing bracket, or moves past a `,`. |
| JsonRead.ReadArray | Zaimoni.STL/Pure.CPP/json.cpp:547-589 | Reading after `[` gives an array, which has a vector exactly when it has elements; `[]` is one without. |
| JsonRead.ReadJsonValue | Zaimoni.STL/Pure.CPP/json.cpp:414-442 | The reading method gives the reference result `ReadValue`. |
| JsonRead.ReadJson | Zaimoni.STL/Pure.CPP/json.cpp:383-412 | The top-level reader gives the reference result `ReadTop`. |
| JsonRead.ReadObjectEntry | Zaimoni.STL/Pure.CPP/json.cpp:499-525 | One pass of the object loop gives the reference entry `ReadEntry`. |
| JsonRead.ReadEntryValue | Zaimoni.STL/Pure.CPP/json.cpp:505-525 | The `:` and value step gives the reference result `EntryValue`. |
| JsonRead.FinishReadingObject | Zaimoni.STL/Pure.CPP/json.cpp:482-543 | `finish_reading_object` gives the reference result `ReadObject`. |
| JsonRead.FinishReadingArray | Zaimoni.STL/Pure.CPP/json.cpp:547-589 | `finish_reading_array` gives the reference result `ReadArray`. |
| JsonRead.NextMember | Zaimoni.STL/Pure.CPP/json.cpp:527-587 | The tail of both loops gives the reference result `AfterMember`. |
| JsonRead.ReadValueSound | Zaimoni.STL/Pure.CPP/json.cpp:414-442 | Every value read is well formed and passes `syntax_ok`, unless it is `none`. |
| JsonRead.ArrayItemsKeepOrder | Zaimoni.STL/Pure.CPP/json.cpp:563-588 | Array elements are kept in the order read, each new one after those before it. |
| JsonRead.ObjectItemsKeepKeys | Zaimoni.STL/Pure.CPP/json.cpp:526 | A key read stays in the object; later entries can only replace its value. |
| JsonRead.LastEntryWins | Zaimoni.STL/Pure.CPP/json.cpp:526-536 | An entry followed by `}` or the end of the stream completes the object with its value under its key, replacing any earlier value; every other key keeps what the earlier entries gave it. |
| JsonRead.ArrayEndsWithStream | Zaimoni.STL/Pure.CPP/json.cpp:565-577 | An element followed only by whitespace up to the end of the stream completes the array with all elements read so far, in order. |
| JsonRead.KeyWithoutColonFails | Zaimoni.STL/Pure.CPP/json.cpp:499-514 | A key not followed by `:`, or at the end of the stream, makes the entry and the whole object throw, on the line reached. |
| JsonRead.EmptyStream | Zaimoni.STL/Pure.CPP/json.cpp:383-412 | An empty stream is `none`, and a stream starting with `,` throws on line 1. |
| JsonRead.EmptyObject | Zaimoni.STL/Pure.CPP/json.cpp:490-494 | `{}` is an object without a map. |
| JsonRead.EmptyArray | Zaimoni.STL/Pure.CPP/json.cpp:555-560 | `[]` is an array without a vector. |
| JsonRead.TruncatedArray | Zaimoni.STL/Pure.CPP/json.cpp:573-577 | `[1,2` at the end of the stream gives the elements read so far, in order. |
| JsonRead.DuplicateKey | Zaimoni.STL/Pure.CPP/json.cpp:526 | In `{a:1,a:2}` the repeated key keeps the later value. |
| JsonRead.MissingColon | Zaimoni.STL/Pure.CPP/json.cpp:510-514 | `{a 1}` throws. |
| JsonRead.DosLineInError | Zaimoni.STL/Pure.CPP/json.cpp:325-360 | After two DOS line ends, a stray `,` is reported on line 3. |
| JsonWrite.EscapeChar | Zaimoni.STL/Pure.CPP/json.cpp:673-715 | `write_string` writes a backslash before exactly the escaped characters, and any other character as itself. |
| JsonWrite.Quoted | Zaimoni.STL/Pure.CPP/json.cpp:678-715 | A written string is wrapped in quotes. |
| JsonWrite.WriteString | Zaimoni.STL/Pure.CPP/json.cpp:678-715 | The writing loop writes the quote, each character escaped as needed, and the closing quote. |
| JsonWrite.EscapedReadsBack | Zaimoni.STL/Pure.CPP/json.cpp:591-715 | For text without `\n`, `\v` or NUL, the string reader takes back exactly what `write_string` wrote, up to the closing quote. |
| JsonWrite.LetterUnescapes | Zaimoni.STL/Pure.CPP/json.cpp:603-676 | The reader turns each escape letter back into its character, except those of `\n` and `\v`. |
| JsonWrite.StringReadsBack | Zaimoni.STL/Pure.CPP/json.cpp:591-715 | Written as a string and read as a value, text without `\n`, `\v` or NUL round-trips. |
| JsonWrite.LiteralText | Zaimoni.STL/Pure.CPP/json.cpp:651-726 | `write_literal` writes the text bare iff no character is rejected, and otherwise as a quoted string. |
| JsonWrite.WriteLiteral | Zaimoni.STL/Pure.CPP/json.cpp:717-726 | The search loop gives the reference output `LiteralText`. |
| JsonWrite.LiteralReadsBack | Zaimoni.STL/Pure.CPP/json.cpp:656-726 | A non-empty literal written bare reads back as the same literal, when what follows ends a literal. |
| JsonWrite.Write | Zaimoni.STL/Pure.CPP/json.cpp:771-786 | `JSON::write` gives the reference text `WriteValue` for every value and indent. |
| JsonWrite.WriteElement | Zaimoni.STL/Pure.CPP/json.cpp:734-746 | One array element is its value written one level deeper, then its separator. |
| JsonWrite.WriteArray | Zaimoni.STL/Pure.CPP/json.cpp:728-749 | The array loop writes every element with its separator, in order. |
| JsonWrite.WriteMember | Zaimoni.STL/Pure.CPP/json.cpp:760-766 | One object member is its key as a literal, a colon, its value and its separator. |
| JsonWrite.WriteObject | Zaimoni.STL/Pure.CPP/json.cpp:751-769 | The object loop writes every member in key order. |
| JsonWrite.NewlineReadsBackAsCr | Zaimoni.STL/Pure.CPP/json.cpp:606-608 | As written, a string holding a line feed is read back holding a carriage return. |
| JsonWrite.VtReadsBackAsFf | Zaimoni.STL/Pure.CPP/json.cpp:612-614 | As written, a string holding a vertical tab is read back holding a form feed. |
| JsonWrite.NulSwallowsQuote | Zaimoni.STL/Pure.CPP/json.cpp:673-715 | As written, NUL is written as a lone backslash, so the reader takes the closing quote as an escaped quote and runs on. |
| JsonWrite.EscapeCharIntended | Zaimoni.STL/Pure.CPP/json.cpp:673-715 | Corrected writer: the escaped characters get a backslash and their letter, and NUL is written as itself. |
| JsonWrite.LetterUnescapesIntended | Zaimoni.STL/Pure.CPP/json.cpp:603-633 | With the corrected escapes, every escape letter is undone. |
| JsonWrite.UnescapeIntended | Zaimoni.STL/Pure.CPP/json.cpp:603-633 | Corrected escapes: `\n` gives a line feed and `\v` a vertical tab. Exactly the letters `r n t v f b " ' \` give one character; any other letter keeps its backslash. |
| JsonWrite.EscapedReadsBackIntended | Zaimoni.STL/Pure.CPP/json.cpp:591-715 | With both corrections, every string is read back as written. |
| JsonWrite.CharReadsBackIntended | Zaimoni.STL/Pure.CPP/json.cpp:591-715 | With both corrections, each written character is read back as itself ahead of whatever follows. |
| JsonWrite.EmptyKeyUnreadable | Zaimoni.STL/Pure.CPP/json.cpp:717-769 | As written, an object with an empty key is written starting `{:`, which the reader rejects. |
| JsonWrite.LiteralTextIntended | Zaimoni.STL/Pure.CPP/json.cpp:717-726 | Corrected `write_literal`: never empty, and bare exactly for non-empty text with no rejected character. |
| JsonWrite.KeyReadsBackIntended | Zaimoni.STL/Pure.CPP/json.cpp:717-726 | With the correction, every key written and followed by `:` is read back as a scalar holding that key. |
| EnumJson.Key | Zaimoni.STL/Pure.CPP/enum_json.h:42-46 | `JSON_key(k)` is `table[k - origin]` when in range, and null otherwise. |
| EnumJson.LastIndex | Zaimoni.STL/Pure.CPP/enum_json.h:52-54 | The index found is the last entry equal to the string, or -1 when there is none. |
| EnumJson.Parsed | Zaimoni.STL/Pure.CPP/enum_json.h:49-55 | A null, empty or unknown string gives `TYPE(0)`. Otherwise the result is the enum value of the last matching entry. |
| EnumJson.Parse | Zaimoni.STL/Pure.CPP/enum_json.h:49-55 | The downward search loop gives the reference result `Parsed`. |
| EnumJson.KeyThenParse | Zaimoni.STL/Pure.CPP/enum_json.h:42-55 | With distinct entries, every value in range whose key is not empty parses back from its key. |
| EnumJson.ParseThenKey | Zaimoni.STL/Pure.CPP/enum_json.h:42-55 | A string that parses to anything but `TYPE(0)` is that value's key. |
| EnumJson.RepeatedKeyParsesLate | Zaimoni.STL/Pure.CPP/enum_json.h:52-54 | With a repeated entry, the earlier enum value does not parse back from its key. |
| LruCache.WithoutKeys | Zaimoni.STL/Pure.CPP/LRUcache.hpp:74-75 | Erasing a list entry removes exactly its key and keeps the keys unique. |
| LruCache.ToFrontKeys | Zaimoni.STL/Pure.CPP/LRUcache.hpp:29-48 | Splicing an entry to the front keeps the set of keys and their uniqueness. |
| LruCache.PushFrontKeys | Zaimoni.STL/Pure.CPP/LRUcache.hpp:51-52 | A new key put in front adds just that key and keeps the keys unique. |
| LruCache.UniqueSize | Zaimoni.STL/Pure.CPP/LRUcache.hpp:64 | With unique keys there are as many keys in the index as entries in the list. |
| LruCache.Cache.Size | Zaimoni.STL/Pure.CPP/LRUcache.hpp:64 | `size()` is the number of entries, since index and list agree. |
| LruCache.Cache.Get | Zaimoni.STL/Pure.CPP/LRUcache.hpp:26-33 | A present key gives its value and moves to the front with the other entries in order. A missing key gives null and changes nothing. |
| LruCache.Cache.Set | Zaimoni.STL/Pure.CPP/LRUcache.hpp:44-53 | A present key gets the new value and moves to the front, so the size is unchanged. A new key is put in front, so the size grows by 1. |
| LruCache.Cache.Unset | Zaimoni.STL/Pure.CPP/LRUcache.hpp:56-62 | A present key leaves both the index and the list; a missing key changes nothing. |
| LruCache.Cache.Expire | Zaimoni.STL/Pure.CPP/LRUcache.hpp:65-72 | `expire(n)` drops the min(n, size) least recently used entries and keeps the rest in order. |
| LruCache.Cache.Unlink | Zaimoni.STL/Pure.CPP/LRUcache.hpp:74-78 | The entry is erased; the list is cleared when the index is empty and the index when the list is empty; consistent state stays consistent. |
| Memory.IdxOfPointerInPtrList | Zaimoni.STL/core.RAM/memory.cpp:211-229 | On a table sorted by descending address, the result is 0 iff no record has the address, and otherwise one above the index of a record that has it. |
| Memory.InsertAtSplit | Zaimoni.STL/core.RAM/memory.cpp:285-298 | The new record goes after every record whose address is not lower, so equal addresses stay in order. The rest follow in their order. |
| Memory.InsertAtDescending | Zaimoni.STL/core.RAM/memory.cpp:285-298 | Inserting keeps the table in descending address order. |
| Memory.InsertAtPermutes | Zaimoni.STL/core.RAM/memory.cpp:285-298 | Inserting adds the new record and nothing else. |
| Memory.OnePassInsertSort | Zaimoni.STL/core.RAM/memory.cpp:285-298 | The swap loop places the appended record by the reference insertion `InsertAt` and leaves the slots after it alone. |
| Memory.Swap | Zaimoni.STL/core.RAM/memory.cpp:292-294 | One swap moves the new record one place toward the front. |
| Memory.ShiftDown | Zaimoni.STL/core.RAM/memory.cpp:340-343 | The `memmove` shifts the later records down one place over the removed one. |
| Memory.DescendingWithout | Zaimoni.STL/core.RAM/memory.cpp:336-346 | Removing a record keeps the table descending. |
| Memory.Heap.MetaFree | Zaimoni.STL/core.RAM/memory.cpp:336-346 | `__MetaFree` removes record `CurrIdx-1` with the rest in order, clears the freed slot, decrements the count and keeps the table sorted. |
| Memory.Heap.Malloc | Zaimoni.STL/core.RAM/memory.cpp:670-699 | `malloc(0)`, a full index or no address gives NULL and no change. Otherwise the block is registered in sorted place and returned. |
| Memory.CallocCheck | Zaimoni.STL/core.RAM/memory.cpp:707 | As written, the overflow test divides by zero exactly when `size` is 0. |
| Memory.CallocCheckExact | Zaimoni.STL/core.RAM/memory.cpp:707 | For a non-zero size, the test accepts exactly the products that fit in `size_t`. |
| Memory.CallocZeroSize | Zaimoni.STL/core.RAM/memory.cpp:707 | `calloc(num, 0)` divides by zero whatever `num` is. |
| Memory.CallocCheckIntended | Zaimoni.STL/core.RAM/memory.cpp:707 | The corrected test never divides by zero. |
| Memory.CallocCheckIntendedExact | Zaimoni.STL/core.RAM/memory.cpp:707-712 | The corrected test accepts exactly the products that fit, zero included. |
| Memory.Heap.Calloc | Zaimoni.STL/core.RAM/memory.cpp:704-713 | An overflowing product gives NULL and no change. Otherwise `calloc(num, size)` acts as `malloc(num*size)`. A zero product, a full table or no free hole gives NULL and no change. Success returns the hole and inserts the record `(hole, num*size)` in address order. |
| Memory.Heap.Free | Zaimoni.STL/core.RAM/memory.cpp:718-740 | `free(NULL)` does nothing. An unknown block is reported and nothing changes. A known block's record is removed, the others keep their order, and the count drops by one. |
| Intervals.RearrangeSumUnsigned | Zaimoni.STL/interval.hpp:31-43 | The total is unchanged and both stay in range. Code 0 iff `lhs` was already MAX, and then nothing changes. Code -1 iff `rhs` was absorbed whole, leaving 0. Code -2 leaves `lhs` saturated at MAX. |
| Intervals.RearrangeSumSigned | Zaimoni.STL/interval.hpp:45-63 | The total is unchanged. Code -1 iff the sum fits, and then `rhs` is 0. Code 0 iff `lhs` is already at the extreme `rhs` pushes toward. Code -2 saturates `lhs` at that extreme, and `rhs` keeps its sign with a smaller magnitude. |
| Intervals.RearrangeProductUnsigned | Zaimoni.STL/interval.hpp:65-76 | The product is unchanged. Code -1 iff `lhs` is below MAX and the product fits, and then `rhs` becomes 1. Otherwise nothing changes. |
| Intervals.Interval.Hull | Zaimoni.STL/interval.hpp:329-337 | `hull(x, y)` orders the endpoints: a normal interval holding both points, with bounds taken from them. |
| Intervals.Interval.SelfIntersect | Zaimoni.STL/interval.hpp:225-228 | The new interval holds exactly the points held by both, so it never widens. |
| Intervals.Interval.SelfUnion | Zaimoni.STL/interval.hpp:229-232 | The new bounds are the outer bounds of both; it holds `x` and every old point, so it never narrows. |
| Intervals.Interval.SelfUnionLower | Zaimoni.STL/interval.hpp:233 | Only the lower bound moves, down to `x` when needed; every old point stays. |
| Intervals.Interval.SelfUnionUpper | Zaimoni.STL/interval.hpp:234 | Only the upper bound moves, up to `x` when needed; every old point stays. |
| Intervals.ContainsIntervalMeans | Zaimoni.STL/interval.hpp:216-217 | For a normal interval, bound-wise containment is containment of every point. |
| Intervals.EqualsScalarMeans | Zaimoni.STL/interval.hpp:260-264 | `i == s` iff `s` is the interval's only point. |
| Intervals.CompareScalarMeans | Zaimoni.STL/interval.hpp:273-280 | Greater iff every point lies above `s`, less iff every point lies below, equivalent iff `s` is the only point, otherwise unordered. |
| Intervals.CompareMeans | Zaimoni.STL/interval.hpp:291-302 | Interval `<=>` is greater iff `rhs` lies wholly below, less iff wholly above, and equivalent only for one common point. |
| Intervals.CompareFlips | Zaimoni.STL/interval.hpp:291-302 | Swapping the operands flips the ordering. |
| Intervals.ComparePoint | Zaimoni.STL/interval.hpp:273-302 | On a single point, interval `<=>` agrees with scalar `<=>`. |
| Overprecise.WithSign | overprecise.hpp:58-76 | The value with the requested sign has the same magnitude. |
| Overprecise.SetSignbitSigned | overprecise.hpp:58-67 | Signed `set_signbit` succeeds iff the value with the requested sign is representable, and then takes it. A failure, only below -MAX, leaves `x` alone. |
| Overprecise.SetSignbitUnsigned | overprecise.hpp:69-76 | Unsigned `set_signbit` is true iff `x == 0` or the sign requested is positive. |
| Overprecise.SelfNegateSigned | overprecise.hpp:86-93 | Signed `self_negate` succeeds iff `-x` is representable, and then negates. |
| Overprecise.SelfNegateUnsigned | overprecise.hpp:95-100 | Unsigned `self_negate` is true iff `x == 0`. |
| Overprecise.StandardForm | overprecise.hpp:251-273 | The exponent is kept or becomes 1, and so is the base. Exponent 0 remains only for `0^0`. |
| Overprecise.StandardFormIdempotent | overprecise.hpp:251-273 | The normal form is a fixed point of normalisation. |
| Overprecise.StandardFormKeepsValue | overprecise.hpp:251-273 | For a natural exponent, normalising keeps the value `base^n`. |
| Overprecise.StandardFormUnit | overprecise.hpp:252-271 | For base 1 or -1 and every exponent, negative ones included, the result is `(1,1)`, or `(-1,1)` exactly for base -1 with an odd exponent. |
| Overprecise.PowerTerm.constructor | overprecise.hpp:239 | `power_term(x, n)` stores the normal form of `(x, n)`. |
| Overprecise.PowerTerm.Normalize | overprecise.hpp:251-273 | `_standard_form()` replaces the pair by its normal form. |
| Box.InBoxTranslate | Zaimoni.STL/GDI/box.hpp:32-41 | Translating the corners and the point by the same vector keeps containment. |
| Box.InBoxScale | Zaimoni.STL/GDI/box.hpp:32-53 | Scaling the corners and the point by the same positive factor keeps containment. |
| Box.Box.Translate | Zaimoni.STL/GDI/box.hpp:37-41 | `+=` moves both corners by `rhs`, so the box holds exactly the moved points. |
| Box.Box.TranslateBack | Zaimoni.STL/GDI/box.hpp:43-47 | `-=` moves both corners back by `rhs`, so the box holds exactly the moved points. |
| Box.Box.ScaleBy | Zaimoni.STL/GDI/box.hpp:49-53 | `*=` multiplies both corners; for a positive factor the box holds exactly the scaled points. |
| Box.LinfBorderSweep | Zaimoni.STL/GDI/box.hpp:64-83 | Point 0 is the corner `(x0-r, y0-r)`, and for `r >= 1` every point lies at L-infinity distance exactly `r` from the centre. |
| Box.SweepThenIndex | Zaimoni.STL/GDI/box.hpp:75-82 | Each index below `8r` is recovered from its point, so no point is visited twice. |
| Box.IndexThenSweep | Zaimoni.STL/GDI/box.hpp:75-82 | Every point at distance exactly `r` is visited by the sweep. |
| Slices.MakeSlice | slice.hpp:18-20 | Under the constructor's assertions the slice is valid: length and stride positive, and the last position within `size_t`. |
| Slices.Index | slice.hpp:26-29 | `index(n)`, for `n` below the length, lies between `start` and the `size_t` limit. |
| Slices.IndexIncreasing | slice.hpp:26-29 | Positions increase by at least the stride, so distinct indices never share a position. |
| Slices.IndexLast | slice.hpp:26-29 | No position lies beyond the last one. |
| Slices.SliceArray.Size | slice.hpp:47 | `size()` is the slice length, and every position lies in the array. |
| Slices.SliceArray.Set | slice.hpp:45 | Writing through `operator[](n)` changes exactly element `index(n)` of the array, and every other element of the slice keeps its value. |
| Euclidean.Fold | Euclidean.hpp:103-109 | The folding loop that adds the last entry into the first gives the sum of the accumulator. |
| Euclidean.Dot | Euclidean.hpp:85-110 | `dot` is the inner product, the sum of `lhs[i]*rhs[i]`. |
| Euclidean.InnerProductSymmetric | Euclidean.hpp:85-110 | The inner product does not depend on the order of its arguments. |
| Euclidean.LesbegueOne | Euclidean.hpp:178-205 | `Lesbegue<1>` is the sum of `|rhs[i] - lhs[i]|`. |
| Euclidean.ManhattanMetric | Euclidean.hpp:178-205 | The L1 distance is symmetric and is 0 exactly between equal points. |
| Euclidean.LesbegueZeroAsWritten | Euclidean.hpp:207-226 | As written, the result is the largest signed difference `rhs[i]-lhs[i]`, or 0 when none is positive. |
| Euclidean.LesbegueZeroAsWrittenIgnoresNegative | Euclidean.hpp:222 | As written, two different points can be at distance 0. |
| Euclidean.LesbegueZero | Euclidean.hpp:207-226 | Corrected: the largest `|rhs[i]-lhs[i]|`, which is 0 exactly between equal points. |
| Matrices.SubUndoesAdd | matrix.hpp:19-42 | `-=` undoes `+=` elementwise. |
| Matrices.OverUndoesTimes | matrix.hpp:46-67 | `/=` undoes `*=` by the same non-zero factor, under C's truncating division. |
| Matrices.InPlaceSum | matrix.hpp:18-29 | `dest[i] += src[i]` for exactly the first `n` elements, even when `dest` and `src` are the same array; the rest is untouched. |
| Matrices.InPlaceDifference | matrix.hpp:31-42 | `dest[i] -= src[i]` for exactly the first `n` elements. |
| Matrices.InPlaceScalarProduct | matrix.hpp:45-55 | `dest[i] *= src` for exactly the first `n` elements. |
| Matrices.InPlaceScalarQuotient | matrix.hpp:57-67 | `dest[i] /= src`, as C divides, for exactly the first `n` elements. |
| Matrices.Vector.constructor | matrix.hpp:91 | `vector(src)` copies the first `N` elements of `src`. |
| Matrices.Vector.Size | matrix.hpp:113 | `size()` is `N`, which is positive. |
| Matrices.Vector.Set | matrix.hpp:109-112 | Writing through `operator[](n)` changes element `n` and no other. |
| Matrices.Vector.AddAssign | matrix.hpp:116-119 | `+=` gives the elementwise sum; `src` may be the vector itself. |
| Matrices.Vector.SubAssign | matrix.hpp:120-123 | `-=` gives the elementwise difference. |
| Matrices.Vector.MulAssign | matrix.hpp:124-127 | `*=` multiplies every element. |
| Matrices.Vector.DivAssign | matrix.hpp:128-131 | `/=` divides every element, as C divides. |
| Matrices.Plus | matrix.hpp:134-139 | `operator+` returns the elementwise sum in a fresh vector and leaves both arguments unchanged. |
| Matrices.PositionInRange | matrix.hpp:432-441 | Element `(r, c)` is stored at `r*cols + c`, inside the array, and the row and column are recovered from the position. |
| Matrices.PositionOnto | matrix.hpp:432-441 | Every position of the array holds exactly one element. |
| Matrices.Matrix.constructor | matrix.hpp:422 | A new matrix has `R` rows and `C` columns. |
| Matrices.Matrix.Set | matrix.hpp:437-441 | Writing through `operator()(r, c)` changes element `(r, c)` and no other. |
| Matrices.Matrix.AddAssign | matrix.hpp:444-447 | `+=` gives the elementwise sum. |
| Matrices.Matrix.SubAssign | matrix.hpp:448-451 | `-=` gives the elementwise difference. |
| Matrices.Matrix.MulAssign | matrix.hpp:452-455 | `*=` multiplies every element. |
| Matrices.Matrix.DivAssign | matrix.hpp:456-459 | `/=` divides every element, as C divides. |
| Matrices.OuterRowsAt | matrix.hpp:518-530 | Element `(i, j)` of the outer product is `lhs[i] * rhs[j]`. |
| Matrices.FillRow | matrix.hpp:524-526 | The inner loop fills one row with `lhs[r] * rhs[c]` for every column and leaves the earlier rows alone. |
| Matrices.OuterProduct | matrix.hpp:388-400 | The outer product of a vector and a covector is a fresh matrix with `tmp(r, c) == lhs[r] * rhs[c]` for every element. |
| Matrices.RowColAsWrittenOverrun | matrix.hpp:462-465 | As written, with two rows and one column, the last row view reaches past the end of the array and the first column view stops after one of its two elements. |
| Matrices.RowPositionsAsWritten | matrix.hpp:462 | As written, `row(r)` has length `R`. Its first `C` positions are those of row `r`. When `R > C` it goes on into row `r + 1`, and for the last row it reaches position `R*C`, one past the array. |
| Matrices.ColPositionsAsWritten | matrix.hpp:463 | As written, `col(c)` has length `C`, shorter than the column when `C < R`. When `R != C` its second position is not the column's second element. |
| Matrices.RowPositions | matrix.hpp:462 | Corrected `row(r)`: length `C`, reaching exactly the elements of row `r`. |
| Matrices.ColPositions | matrix.hpp:463 | Corrected `col(c)`: length `R` and stride `C`, reaching exactly the elements of column `c`. |
| Matrices.SquareViewsAgree | matrix.hpp:462-463 | For a square matrix the views as written and the corrected ones agree, as in `matrix_square`. |
| CInt.Quot | Zaimoni.STL/Pure.C/format_util.c:50-58 | C's `/` rounds toward zero: the magnitude is the quotient of the magnitudes, and the sign is negative iff the operands' signs differ. |
| CInt.Rem | Zaimoni.STL/Pure.C/format_util.c:54-58 | C's `%` completes `/`, is smaller than the divisor in magnitude, and takes the sign of the dividend. |
| CInt.DivFits | Zaimoni.STL/core.RAM/memory.cpp:707 | `max / d >= n` holds exactly when `n * d` stays within `max`. |
| Objects.GcBitsAsWritten | object.hpp:45-46 | As written, `gc_this(gc)` leaves the flag raised only when `gc` is true and the flag was already raised, so it can never raise the flag. |
| Objects.GcBitsAsWrittenMasks | object.hpp:45 | As written, `gc_this(true)` clears every bit but bit 0, and `gc_this(false)` clears the upper 32 bits and keeps bits 1-31. |
| Objects.GcBits | object.hpp:45-46 | Corrected `gc_this(gc)`: afterwards `gc_this()` reads `gc`, and every other bit of the bitmap is kept. |
| Objects.GcBitsAsWrittenCounterexample | object.hpp:45 | Flagging a clear bitmap leaves it unflagged, and clearing the flag of a bitmap with only bit 32 set wipes that bit; the corrected version does neither. |
| Objects.Object.constructor | object.hpp:36-43 | `Object` has no constructor, so a new object's id and bitmap are whatever the derived constructor leaves, given as parameters, with the given number of owners. |
| Objects.Object.SetGcAsWritten | object.hpp:45 | The bitmap becomes the as-written mask of the old one; id and owners are unchanged. |
| Objects.Object.SetGc | object.hpp:45 | The bitmap becomes the corrected mask of the old one; id and owners are unchanged. |
| Objects.InitSyntheticIds | object.hpp:50-57 | Every object gets as id the 1-based position of its last entry in the cache; bitmaps and owner counts are unchanged. |
| Objects.InitGivesPositions | object.hpp:50-57 | In a cache without repeated objects, each object's id is its 1-based position. |
| Objects.ReadSyntheticId | object.hpp:81-87 | Reading id `id` succeeds exactly when `1 <= id <= size`, and then gives entry `id - 1`; otherwise the program dies. |
| Objects.IdRoundTrip | object.hpp:50-87 | After numbering, reading back any object's id finds that same object, so writing then reading an id is the identity. |
| Objects.FilterMembers | object.hpp:64-72 | An entry survives the collection loop exactly when some position holding it is selected. |
| Objects.FilterAll | object.hpp:64-77 | When every position is selected, the collected cache is the original cache. |
| Objects.KeepMask | object.hpp:66-68 | An entry is kept by the corrected `gc_all` when it is non-null and either unflagged or shared by more than one owner. |
| Objects.NonNullMask | object.hpp:66 | The as-written `gc_all` keeps exactly the non-null entries. |
| Objects.AfterGcAsWritten | object.hpp:67-69 | As written, every kept object leaves the loop unflagged. |
| Objects.AfterGc | object.hpp:67-69 | In the corrected version, an object stays flagged exactly when it was flagged and has at most one owner, which is the case where it is dropped. |
| Objects.CollectEntryAsWritten | object.hpp:64-71 | As written, one loop pass always keeps a non-null entry, because the loop's copy adds one to `use_count()`. Only the flag changes. |
| Objects.CollectEntry | object.hpp:64-71 | In the corrected version, one loop pass keeps the entry exactly when the keep rule says so, and only the flag changes. |
| Objects.GcAllAsWritten | object.hpp:60-78 | As written, the new cache is the non-null entries in order, and every object is unflagged with its id and owners unchanged. |
| Objects.GcAll | object.hpp:60-78 | In the corrected version, the new cache is the entries selected by the keep rule, in order. Ids and owners are unchanged, and nothing left in the cache is null or flagged. |
| Objects.KeptAreClean | object.hpp:64-72 | If every selected entry is non-null and unflagged, so is every entry of the collected cache. |
| Objects.CollectedIsStable | object.hpp:60-78 | Collecting a cache that was just collected removes nothing: the collection is idempotent. |
| Objects.AsWrittenKeepsSoleOwner | object.hpp:67-68 | A flagged object with a single owner survives the as-written collection and is dropped by the corrected one. |
| ZMod.FromUnsigned | z_n.hpp:21 | `Z_<n>(uintmax_t src)` holds the residue of `src`: below `n` and congruent to `src`; it is `src` itself when `src < n`. |
| ZMod.FromSignedAsWritten | z_n.hpp:22 | As written, the stored value is below `n`. It is congruent to `src` when `src` is non-negative, but to `src - 1` when `src` is negative. |
| ZMod.ToSignedAsWritten | z_n.hpp:26 | As written, a value up to `n / 2` converts to itself. A larger value converts to a non-positive number congruent to `x + 1`, not to `x`. |
| ZMod.AsWrittenRoundTrip | z_n.hpp:22-26 | As written, signed values in the window still come back unchanged, because the two off-by-one errors cancel. |
| ZMod.AsWrittenCounterexample | z_n.hpp:22-26 | `Z_<5>(-1)` holds 3, which is not congruent to -1, and the residues 4 and 0 both convert to 0. |
| ZMod.FromSigned | z_n.hpp:22 | Corrected: the stored value is the residue of `src` for any sign, and it agrees with the unsigned constructor on non-negative values. |
| ZMod.ToSigned | z_n.hpp:26 | Corrected: the result is the representative of `x` in `(n / 2 - n, n / 2]`, and it fits `intmax_t`. |
| ZMod.RoundTrip | z_n.hpp:22-26 | Every signed value in `(n / 2 - n, n / 2]` survives the conversion to `Z_<n>` and back. |
| ZMod.ResidueRoundTrip | z_n.hpp:22-26 | Every residue survives the conversion to `intmax_t` and back, so the conversion is injective. |
| WorldManagers.Registered | world_manager.cpp:59-65 | Registering keeps the old list as a prefix and adds at most one entry. The handlers afterwards are the old ones plus `src` when it is not null, and a list free of repeats stays so. |
| WorldManagers.RegisterIdempotent | world_manager.cpp:59-65 | Registering the same handler twice is the same as registering it once. |
| WorldManagers.RunUntilFailure | world_manager.cpp:37-53 | The code passed on is 0 exactly when no handler fails, and then every handler ran. Otherwise it is the first negative code, and the handler that returned it was the last one called. |
| WorldManagers.Calls | world_manager.cpp:24-30 | One call per listed handler, in list order. |
| WorldManagers.WorldManager.constructor | world_manager.cpp:13-15 | A new manager has four empty handler lists. |
| WorldManagers.WorldManager.Register | world_manager.cpp:59-65 | The search for a duplicate followed by `push_back` gives exactly `Registered`. |
| WorldManagers.WorldManager.RegisterUpdate | world_manager.cpp:68-71 | The update list is registered into, no list gets a repeat, and the other three lists are unchanged. |
| WorldManagers.WorldManager.RegisterGc | world_manager.cpp:73-76 | The gc list is registered into, and the other three lists are unchanged. |
| WorldManagers.WorldManager.RegisterLoad | world_manager.cpp:78-81 | The load list is registered into, and the other three lists are unchanged. |
| WorldManagers.WorldManager.RegisterSave | world_manager.cpp:83-86 | The save list is registered into, and the other three lists are unchanged. |
| WorldManagers.WorldManager.RunUpdate | world_manager.cpp:21-25 | `update()` calls every update handler once, in order. |
| WorldManagers.WorldManager.RunGc | world_manager.cpp:27-31 | `gc()` calls every gc handler once, in order. |
| WorldManagers.WorldManager.RunLoad | world_manager.cpp:33-42 | `load` returns -1 with no calls for a null file or an empty list. Otherwise it calls load handlers in order up to and including the first failure and returns that handler's code, or 0. |
| WorldManagers.WorldManager.RunSave | world_manager.cpp:44-54 | `save` returns -1 with no calls for a null file or an empty list. Otherwise it first runs every gc handler, then the save handlers up to the first failure. |
| WorldManagers.RunFileHandlers | world_manager.cpp:37-41 | The shared loop calls exactly the handlers up to the first failure and returns what `RunUntilFailure` says. |
| Masses.Measured.Code | mass.hpp:16-22 | Each measured quantity has its enumerator value, 0 to 4. |
| Masses.Units.Code | constants.hpp:17-22 | Each system of units has its enumerator value, below `SYSTEMS_COUNT`. |
| Masses.MeasuredOf | mass.hpp:16-22 | Decoding a measurement code from 1 to 4 gives the quantity with that code. |
| Masses.UnitsOf | constants.hpp:17-22 | Decoding a system code gives the system with that code. |
| Masses.Mass.SystemCode | mass.hpp:33 | `system_code()` is the block of four modes that the mode lies in. |
| Masses.Mass.MeasurementCode | mass.hpp:34 | `measurement_code()` is never `NONE`, and together with `system_code()` it rebuilds the mode. |
| Masses.Default | mass.hpp:27 | The default mass has mode 0. |
| Masses.Make | mass.cpp:4-7 | The constructor's mode decodes back to the system and the quantity it was given, and it fits in a byte. |
| Masses.DefaultDecodes | mass.hpp:27-34 | The default mass reads back as a mass in MKS units. |
| Masses.EncodeDecode | mass.cpp:5 | Every mode below `4 * SYSTEMS_COUNT` is the encoding of the pair it decodes to. |
| Masses.MakeInjective | mass.cpp:5 | Different pairs of quantity and system never share a mode. |
| IntrusivePointers.CountAfterGet | Zaimoni.STL/ptr2.hpp:33 | `get()` adds one to the count, unless the count is saturated at `UINTPTR_MAX`. |
| IntrusivePointers.CountAfterRelease | Zaimoni.STL/ptr2.hpp:39 | `release()` takes one from the count, unless the count is zero or saturated. |
| IntrusivePointers.CountAfter | Zaimoni.STL/ptr2.hpp:33-39 | Any series of uses keeps the count within `uintptr_t`. |
| IntrusivePointers.ReleaseUndoesGet | Zaimoni.STL/ptr2.hpp:33-39 | Below saturation, `release()` undoes `get()`. |
| IntrusivePointers.SaturatedStays | Zaimoni.STL/ptr2.hpp:33-39 | Once saturated, the count never changes, so the object is never deleted. |
| IntrusivePointers.IntrusivePtr.constructor | Zaimoni.STL/ptr2.hpp:19-20 | A new pointer holds `src`, with no users, so `operator bool` is true iff `src` is non-null. |
| IntrusivePointers.IntrusivePtr.Get | Zaimoni.STL/ptr2.hpp:32-35 | `get()` returns the held object unchanged, updates the count by `CountAfterGet` and leaves `operator bool` as it was. |
| IntrusivePointers.IntrusivePtr.Release | Zaimoni.STL/ptr2.hpp:38-44 | `release()` updates the count by `CountAfterRelease`. When the count is then zero, the object is deleted and the pointer becomes null and empty. Otherwise nothing is deleted and `operator bool` is unchanged. |
| IntrusivePointers.IntrusivePtr.EmptyAsWritten | Zaimoni.STL/ptr2.hpp:46 | As written, `empty()` answers the same as `operator bool`. |
| IntrusivePointers.IntrusivePtr.Empty | Zaimoni.STL/ptr2.hpp:46 | Corrected: `empty()` is the negation of `operator bool`. |
| IntrusivePointers.EmptyAsWrittenOnObject | Zaimoni.STL/ptr2.hpp:20-46 | As written, a pointer made from an object reports itself empty. |
| FlatAlg.Cmp | Zaimoni.STL/flat_alg2.hpp:9-15 | `cmp` is 0, -1 or 1 exactly when the left side is equal to, less than or greater than the right. |
| FlatAlg.CmpAntisymmetric | Zaimoni.STL/flat_alg2.hpp:9-15 | Swapping the arguments negates `cmp`. |
| FlatAlg.Min | Zaimoni.STL/flat_alg2.hpp:17-24 | `min` returns one of its arguments, and its key is no greater than the first two. |
| FlatAlg.Max | Zaimoni.STL/flat_alg2.hpp:26-33 | `max` returns one of its arguments, and its key is no less than the first two. |
| FlatAlg.MinIsLastLeast | Zaimoni.STL/flat_alg2.hpp:17-24 | `min` returns an argument with the least key, and of several tied arguments it returns the last. |
| FlatAlg.MaxIsFirstGreatest | Zaimoni.STL/flat_alg2.hpp:26-33 | `max` returns an argument with the greatest key, and of several tied arguments it returns the first. |

## Left out

- tools/TemplateToolkit.py: reading and writing files, printing and the process exit status are not modelled as effects; each run ends in an `Outcome`. The order in which a Python 2.7 dict yields its keys is unspecified, so `Process` takes that order as a parameter. The `TypeError` that `','.join` raises on the integer list at the end is folded into the unclosed-block outcome, because no output is written either way.
- gridtile.hpp: `exact_rotate` and `exact_reflect` write through their `x` and `y` references. The model returns the new point and the success flag as a value, so aliasing of the two references is not modelled.
- Zaimoni.STL/Pure.C/format_util.c: `errno` is a returned value, not a global. The caller's buffer is assumed large enough, as the source assumes. The radix is taken to be at most 36 (`FormatUtil.UmaxToA`, `FormatUtil.ImaxToA` and `FormatUtil.AtoUmax` require it); the source also accepts larger ones, writing characters past `Z` and reading characters past `Z` and `z` as digits.
- Zaimoni.STL/Pure.CPP/json.cpp: the `std::istream` is the text with a read position. The text of exception messages is not modelled, only the failure and its line. `destructive_merge`, the `fromJSON` overloads for `int` and `unsigned int`, and the `decode` overloads into vectors and key-indexed arrays are not part of this model. Only `decode(T*, n)` is. A `std::map` is its entries in key order.
- Zaimoni.STL/core.RAM/memory.cpp: page allocation, the operating system calls, locking, zero-filling and the error reports are left out. The block chosen by `__FindHole` and `__CreateAtBottom` is the parameter `hole`. The guard of `free` on `RawBlock.raw` (memory.cpp:720-721), which makes `free` do nothing once the pool is gone at shutdown, is not modelled: the pool is taken to exist.
- matrix.hpp: the matrix-matrix and matrix-vector products, the floating-point element types and the `std::ostream` output are not part of this model.
- Zaimoni.STL/GDI/box.hpp: `/=` is not part of this model. The point type is taken to have integer coordinates.
- Zaimoni.STL/interval.hpp: interval `*=`, `/=` and every floating-point operation, including the NaN handling in `hull`, are left out. Only integer endpoints are modelled.
- overprecise.hpp: the floating-point `set_signbit`, `self_negate` and `power_term` overloads are left out. The model covers the integer ones.
- slice.hpp: the `const` overload of `slice_array::operator[]` reads like `Get`, and the copy constructor only copies the view, so neither has a member of its own. The `slice_array` constructor does not check that the slice's last position lies inside the array; the model requires it, since every access relies on it.
- object.hpp: `write_synthetic_id` writes to a file and is left out. `use_count()` is the field `owners`, so the model does not track which `shared_ptr`s are the owners. `gc_all` returns the new cache instead of swapping it into its argument.
- Zaimoni.STL/Pure.CPP/LRUcache.hpp: `get` and `get_c` call `splice` on the list inside `const` member functions (lines 29 and 37), and `expire` applies `- 1` to a `std::list` iterator (line 68); neither compiles once instantiated. `LruCache.Cache.Get` and `LruCache.Cache.Expire` follow the evident intent: move the entry to the front, and drop the last entry.
- Objects.GcAll: requires that no object appears twice in the cache; `GcAllAsWritten` requires the same. The source does not say what a repeated entry does.
- world_manager.cpp: handlers are foreign function pointers. What a load or save handler returns is a parameter, and the model reports which handlers were called instead of running them. The `WorldView` camera list and the singleton machinery are not part of this model.
- mass.hpp, mass.cpp: the interval value and its conversions to mass, energy, length and momentum are floating point and are left out.
- Zaimoni.STL/ptr2.hpp: the destructor's unconditional `delete` is not modelled. Copy and move are deleted in the source, so there is nothing of theirs to model.
- Fixed-width integers: `CInt` bounds a value where the source's width matters. Elsewhere, such as the matrix and Euclidean element arithmetic and the `Linf_border_sweep` coordinates, integers are unbounded and overflow is not modelled.
- `size_t` widths: `Memory` takes `size_t` to be 32 bits, because its records hold 4-byte addresses and sizes (Zaimoni.STL/core.RAM/memory.cpp:105-106). `Objects` takes the `_bitmap` `size_t` to be 64 bits, the width on which its `gc_this` mask finding shows. The source does not fix one width.
- IntRange.Range.Size: counts in unbounded integers. What the code computes in `size_type` is modelled apart, by `IntRange.Range.SizeInWidth`, for a width given as a parameter, since `T` is a template parameter; `int` is taken to be 32 bits and `size_t` 64 bits.

## Findings

Each row names the members that follow the code as written, with a lemma that shows the discrepancy, and the corrected members, with the evidently intended property proved about them.

| source | as written | input that shows it | evidently intended | confidence | as-written member | corrected member |
|---|---|---|---|---|---|---|
| XCOMlike.hpp:25 | `inv_rotate` computes `(origin - delta) % 8` in `int`, and the cast to the `unsigned char` enum keeps a negative remainder's low byte | `inv_rotate(N, E)` is 254, not `W` | the facing `d` steps anticlockwise of `origin`, which `rotate` undoes | high; not executed | XComLike.InvRotateAsWritten, XComLike.InvRotateLeavesRange | XComLike.InvRotate, XComLike.InvRotateInverts |
| gridtile.hpp:374-378 | the E/W reflection moves `x` by `abs_delta.second`, the `y` distance | reflecting (1, 5) about (0, 0) for E gives (-5, 5), and reflecting again gives (5, 5) | use `abs_delta.first`, so that reflecting twice is the identity | high; not executed | GridTile.ExactReflectAsWritten, GridTile.ExactReflectUsesWrongDelta | GridTile.ExactReflect, GridTile.ExactReflectMirrors |
| Zaimoni.STL/core.RAM/memory.cpp:707 | the overflow test `(size_t)(-1)/size >= num` divides by `size` | `calloc(1, 0)` divides by zero | a zero size fits, and the test accepts exactly the products within `size_t` | high; not executed | Memory.CallocCheck, Memory.CallocZeroSize | Memory.CallocCheckIntended, Memory.CallocCheckIntendedExact |
| Euclidean.hpp:222 | `Lesbegue<0>` takes absolute values only when `1 == N % 2`, which is false for `N == 0` | lhs = [1], rhs = [0] gives 0 | the L-infinity distance, the largest absolute difference, 0 only between equal points | high; not executed | Euclidean.LesbegueZeroAsWritten, Euclidean.LesbegueZeroAsWrittenIgnoresNegative | Euclidean.LesbegueZero |
| matrix.hpp:462-465 | `row(r)` uses a slice of length `R`, and `col(c)` uses length `C` and stride `R` | in a 2-by-1 matrix, `row(1)` reaches position 2 of a 2-element array, and `col(0)` stops after one element | `row` has length `C` with stride 1, and `col` has length `R` with stride `C` | high; not executed | Matrices.RowPositionsAsWritten, Matrices.ColPositionsAsWritten, Matrices.RowColAsWrittenOverrun | Matrices.RowPositions, Matrices.ColPositions, Matrices.SquareViewsAgree |
| z_n.hpp:22 | a negative `src` is stored as `(n-1) - norm(src) % n`, which is the residue of `src - 1` | `Z_<5>(intmax_t(-1))` holds 3, which is -2 modulo 5 | the residue of `src` | medium, since the two errors cancel on the round trip; not executed | ZMod.FromSignedAsWritten, ZMod.AsWrittenCounterexample | ZMod.FromSigned, ZMod.RoundTrip |
| z_n.hpp:26 | a residue `x > n/2` converts to `-((n-1) - x)`, which is congruent to `x + 1` | in `Z_<5>`, both 4 and 0 convert to 0 | the representative of `x` nearest zero, which is `x - n` | medium, since the two errors cancel on the round trip; not executed | ZMod.ToSignedAsWritten, ZMod.AsWrittenCounterexample | ZMod.ToSigned, ZMod.ResidueRoundTrip |
| object.hpp:45 | `gc_this(true)` does `_bitmap &= 1U`, and `gc_this(false)` masks with a 32-bit `~(1U)` | `gc_this(true)` on a clear bitmap leaves the flag clear, and `gc_this(false)` on bitmap `1 << 32` clears bit 32 | set bit 0 to `gc` and keep the other bits | high; not executed | Objects.GcBitsAsWritten, Objects.GcBitsAsWrittenCounterexample | Objects.GcBits |
| object.hpp:64-68 | the loop copies each `shared_ptr` (`auto i`), so `i.use_count()` counts the copy too and `1 >= i.use_count()` never holds | a flagged object owned only by the cache is kept and unflagged | drop flagged objects that have a single owner | medium; not executed | Objects.GcAllAsWritten, Objects.AsWrittenKeepsSoleOwner | Objects.GcAll, Objects.CollectedIsStable |
| Zaimoni.STL/ptr2.hpp:46 | `empty()` returns `x`, the same as `operator bool` | an `intrusive_ptr` made from a non-null pointer reports itself empty | true exactly when no object is held | high; not executed | IntrusivePointers.IntrusivePtr.EmptyAsWritten, IntrusivePointers.EmptyAsWrittenOnObject | IntrusivePointers.IntrusivePtr.Empty |
| Zaimoni.STL/Pure.CPP/json.cpp:606-608 | the reader decodes the escape `\n` as a carriage return | the string holding one line feed is written as `"\n"` and read back as a carriage return | `\n` decodes to a line feed | high; not executed | JsonWrite.NewlineReadsBackAsCr | JsonWrite.UnescapeIntended, JsonWrite.EscapedReadsBackIntended |
| Zaimoni.STL/Pure.CPP/json.cpp:612-614 | the reader decodes the escape `\v` as a form feed | the string holding one vertical tab is read back as a form feed | `\v` decodes to a vertical tab | high; not executed | JsonWrite.VtReadsBackAsFf | JsonWrite.UnescapeIntended, JsonWrite.EscapedReadsBackIntended |
| Zaimoni.STL/Pure.CPP/json.cpp:678-715 | the writer puts a backslash before NUL but no letter after it | the string holding one NUL is written as quote, backslash, quote, and the reader takes the closing quote as escaped | write NUL as itself | medium; not executed | JsonWrite.NulSwallowsQuote | JsonWrite.EscapeCharIntended, JsonWrite.EscapedReadsBackIntended |
| Zaimoni.STL/Pure.CPP/json.cpp:717-726 | `write_literal` writes the empty string bare, that is as nothing | an object whose only key is empty is written starting `{:`, which the reader rejects | write the empty string quoted | medium; not executed | JsonWrite.EmptyKeyUnreadable | JsonWrite.LiteralTextIntended, JsonWrite.KeyReadsBackIntended |
