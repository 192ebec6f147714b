# Verified model of the ucore libraries

This project models the shared library code of the ucore teaching kernel (the copies of lab 6, which
the later labs repeat) and the user program `forktree`, and proves what that code is for:

- **Skew heap** (`SkewTree.dfy`, `SkewHeap.dfy`). Entries with parent, left and right pointers,
  overwritten in place by merge, insert and remove. The pointers always spell out a tree; the tree is
  that of the value-level skew heap; runs of operations refine a priority queue; and any m operations
  on at most n entries at a time make at most 4 m (1 + lg n) calls of merge, removals of inner nodes
  included. The comparator is a parameter of which only `cmp(x, y) == -1` being a strict weak order is
  asked; the key an entry is compared by is a field of the entry, and an entry that is out of the heap
  may get another key before it comes back.
- **Random numbers** (`Rand.dfy`, with `Numbers.dfy`). The Hull-Dobell theorem for power-of-two
  moduli, and from it the period 2^48 of `rand` and exactly how often each value is returned in it.
- **Formatter** (`Format.dfy`, `FormatGrammar.dfy`, `FormatRender.dfy`, `FormatFields.dfy`,
  `FormatStandard.dfy`, `Printfmt.dfy`). A declarative grammar of formats that is proved unambiguous, the text that the
  pieces of a format render, and the scanning loops of `vprintfmt` with their jumps and their back-up
  over an unrecognised directive, which print exactly that text, and end. `vsnprintf` keeps the
  longest prefix that fits; `vcprintf` gives the console all of it. For every directive that the
  standard and the code share it is proved exactly when its field is that of the standard.
- **Numeral parser and round trips** (`Digits.dfy`, `Strtol.dfy`, `StrtolStandard.dfy`,
  `RoundTrip.dfy`). Exactly on which inputs `strtol` does what the standard asks for, and exactly which
  printed fields it reads back.
- **Inputs and outputs written out** (`Literals.dfy`). What formats print and `strtol` reads, in
  characters and numbers, so that each constant of the code is stated a second time.
- **Circular lists** (`Ring.dfy`, `RingFamily.dfy`). The link operations refine operations on
  sequences, over whole families of disjoint rings. An entry that `list_init` or `list_del_init` left
  alone in its ring may be added to another one, as the run queue of the scheduler does.
- **Memory and strings** (`CString.dfy`). Overlapping moves in one memory, and how the comparison
  functions agree.
- **Hash** (`Hash.dfy`). Every bucket of `hash32` holds the same number of keys.
- **forktree** (`ForkTree.dfy`). Processes as a state machine under any scheduler, for any depth.

`dafny verify dfyconfig.toml` checks everything.

## How the model reads the code

- Integer widths are explicit: 64-bit wrap-around in `rand`, `strtol`, `%d` and `%p`, 32-bit
  arguments without the flag `l` (a `long` has 64 bits on RV64, like a `long long`), 32-bit products
  in `hash32`. Masks of low bits are remainders, right shifts are divisions by powers of two.
- A C string is the sequence of its characters before the NUL; for the functions of `string.c` it is
  a sequence of bytes that may be read up to the first 0.
- Variable arguments are a sequence of numbers and strings. Reading past its end, or an argument of
  the other kind, which C leaves undefined, gives 0 or NULL.
- `Perform`, `PerformOne`, `RunFromEmpty`, `TakeEach` and `TakeAll` (heap), `Take` (random numbers),
  `AddThenDel`, `DelThenAdd`, `DeletedLooksEmpty` and `PerformAll` (lists) are clients written to
  state what sequences of calls do; the library has no such functions.
- Ghost parameters and results (trees, rings, families, counts of calls) only carry the
  abstract value that a pointer structure stands for.

Where the code differs from its own documentation or from ISO/IEC 9899:2011, the model follows the
code:

- `do_div` does not put its second argument in parentheses, so `rand` returns values in
  [1, RAND_MAX], and never 0 as its comment and section 7.22.2.1 of the standard allow.
- The note at `list_del` says that `list_empty` is not true of the deleted entry; it is true exactly
  when that entry was alone in its ring.
- The number conversions depart from section 7.21.6.1 of the standard in these ways: the flag `-`,
  which a comment says pads on the right, pads numbers on the left with `-` characters; a sign comes
  before any padding and is not counted in the width; a precision is read but ignored, and a `0` right
  after the dot is a pad flag; `#` is ignored; a negative width from a star is no width where the
  standard justifies to the left. For `%s` a dot with no number behind it sets no precision, and zeros
  after the dot pad with zeros; `%c` ignores its width. `FormatStandard` says exactly when each of `%d`,
  `%u`, `%o`, `%x`, `%s` and `%c` comes out as in the standard all the same. `%e` prints an error, and
  the directives of the standard that the code does not know are printed as they stand.
- `strtol` differs from section 7.22.1.4 of the standard on five kinds of input: it eats blanks, a sign
  or the prefix `0x` that no digit follows; it does not know the prefix `0X`; it does not skip white
  space other than blanks and tabs; and a value outside `long` wraps. `StrtolStandard.MeetsStandard`
  says exactly when it does what the standard asks for.
- `vprintfmt` prints an unrecognised directive as it stands, from its `%` through the offending
  character, but the stars of that directive have taken their arguments.

## Model

| member | source | states |
|---|---|---|
| SkewTree.RootIsMinimum | lab6/libs/skew_heap.h:37-57 | in an ordered heap no element is smaller than the root |
| SkewTree.MergeElems | lab6/libs/skew_heap.h:29-59 | a merge has exactly the elements of both heaps, with multiplicity |
| SkewTree.InsertElems | lab6/libs/skew_heap.h:61-67 | an insert adds exactly one element |
| SkewTree.RemoveElems | lab6/libs/skew_heap.h:69-85 | removing any element, root or inner, takes out that one alone |
| SkewTree.MergeOrdered | lab6/libs/skew_heap.h:29-59 | the merge of ordered heaps is ordered, ties included |
| SkewTree.RemoveOrdered | lab6/libs/skew_heap.h:69-85 | removing any element keeps the heap order |
| SkewTree.DrainSorts | lab6/libs/skew_heap.h:69-85 | taking off the root again and again yields a sorted permutation of the elements |
| SkewTree.MergeWalksSpines | lab6/libs/skew_heap.h:29-59 | the calls of a merge are one for each entry met on the two right spines until one of these ends, and one for the end |
| SkewTree.MergeAmortised | lab6/libs/skew_heap.h:29-59 | calls plus new potential of a merge stay within old potential plus logarithms of both sizes |
| SkewTree.SiblingsAmortised | lab6/libs/skew_heap.h:74 | the same for merging the two subtrees below a removed node |
| SkewTree.RemoveAmortised | lab6/libs/skew_heap.h:69-85 | the same for removing any node: shrinking its ancestors makes at most logarithmically many right children heavy |
| SkewTree.ApplyRefines | lab6/libs/skew_heap.h:61-85 | one insert or remove keeps the order and performs the set operation |
| SkewTree.RunRefinesPriorityQueue | lab6/libs/skew_heap.h:61-85 | after any run of inserts, removes and re-inserts the heap holds exactly the present items and its root is a minimum of them |
| SkewTree.OpAmortised | lab6/libs/skew_heap.h:61-85 | one operation costs at most 4 (1 + k) calls against the potential when sizes stay below 2^(k+1) |
| SkewTree.RunAmortised | lab6/libs/skew_heap.h:61-85 | the same summed over a run from any heap |
| SkewTree.AmortisedBound | lab6/libs/skew_heap.h:61-85 | m operations from the empty heap with at most n elements at a time make at most 4 m (1 + lg n) calls of merge |
| SkewHeap.Init | lab6/libs/skew_heap.h:23-27 | all three links are NULL and nothing else changes |
| SkewHeap.Merge | lab6/libs/skew_heap.h:29-59 | the links of two disjoint heaps, whose roots may still hang below others, become those of the value-level merge: one tree on the union, child and parent links agreeing, the root's own parent link untouched |
| SkewHeap.MergeBeside | lab6/libs/skew_heap.h:40 | the recursive call leaves the subtree that is swapped alone |
| SkewHeap.MergeBelowFirst | lab6/libs/skew_heap.h:37-47 | the branch in which a stays on top: children swapped, parent link of the merged child set |
| SkewHeap.MergeBelowSecond | lab6/libs/skew_heap.h:48-58 | the other branch, on ties too |
| SkewHeap.SwapIn | lab6/libs/skew_heap.h:42-44 | the three assignments of a branch give the links of the new tree |
| SkewHeap.Insert | lab6/libs/skew_heap.h:61-67 | a heap with b added, whatever the stale links of b were, and a NULL parent at its root |
| SkewHeap.MergeChildren | lab6/libs/skew_heap.h:74 | the subtrees below b are merged while all entries outside keep their links |
| SkewHeap.Relink | lab6/libs/skew_heap.h:75-84 | exactly the links that change: the parent of the replacement, and the child link that led to b |
| SkewHeap.Splice | lab6/libs/skew_heap.h:73-84 | the replacement hangs where b did, on the side b was on, or becomes the root with a NULL parent |
| SkewHeap.ParentLeadsBack | lab6/libs/skew_heap.h:77-81 | the parent link of an inner node leads to the node above it, and the test of its left link tells the side |
| SkewHeap.GraftShape | lab6/libs/skew_heap.h:75-82 | redirecting that one child link gives the links of the tree with the subtree replaced |
| SkewHeap.RemoveIsGraft | lab6/libs/skew_heap.h:69-85 | removing by value is replacing the subtree of the element by the merge of its children |
| SkewHeap.SpliceShape | lab6/libs/skew_heap.h:75-84 | the same for all cases of the splice, with the nodes that remain |
| SkewHeap.Remove | lab6/libs/skew_heap.h:69-85 | removing any entry leaves a heap on exactly the others; the links of the removed entry stay as they were |
| SkewHeap.PerformOne | lab6/libs/skew_heap.h:61-85 | one command: an entry outside the heap gets any key and is inserted, or one inside is removed |
| SkewHeap.ItemsKeepKeys | lab6/libs/skew_heap.h:61-85 | the items of a heap are its entries with the keys that they hold now |
| SkewHeap.Perform | lab6/libs/skew_heap.h:61-85 | any run of such commands keeps the links in the shape of the run on values, and makes the counted calls |
| SkewHeap.RunFromEmpty | lab6/libs/skew_heap.h:61-85 | over any run from NULL, re-inserts with other keys included, the returned pointer is NULL exactly when nothing is present and otherwise a present minimum by the current keys, within the amortised bound |
| SkewHeap.TakeEach | lab6/libs/skew_heap.h:69-85 | removing the returned root until NULL yields every entry once, in the drained order, and changes no key |
| SkewHeap.TakeAll | lab6/libs/skew_heap.h:69-85 | from an ordered heap those entries come sorted by their keys |
| Lcg.OrbitClosedForm | lab6/libs/rand.c:13 | the state after n steps in closed form |
| Lcg.SumHalves | lab6/libs/rand.c:13 | 1 + a + ... + a^(n-1) is divisible by exactly the powers of two that divide n, for a = 1 mod 4 |
| Lcg.FullPeriod | lab6/libs/rand.c:13 | the n-th iterate equals the start exactly when 2^k divides n, for every multiplier 1 mod 4 and odd increment |
| Lcg.NoRepeat | lab6/libs/rand.c:13 | no state occurs twice within a period |
| Lcg.EachStateOnce | lab6/libs/rand.c:13 | every state below the modulus occurs at exactly one place of a period |
| Lcg.PeriodCount | lab6/libs/rand.c:13 | the steps of a period that lead into a set of states are as many as those states |
| Rand.Generator.constructor | lab6/libs/rand.c:4 | the generator starts from 1 |
| Rand.Generator.Srand | lab6/libs/rand.c:22-25 | the seed is the state |
| Rand.Generator.Next | lab6/libs/rand.c:11-16 | the wrapping computation takes the exact step mod 2^48 and returns the value of the new state, both also given in numbers |
| Rand.SeedAndCall | lab6/libs/rand.c:11-25 | the first number after any seed: ((25214903917 seed + 11) mod 2^48 / 4096) mod 2147483647 + 1 |
| Rand.FirstEver | lab6/libs/rand.c:4-16 | without a seed the first number is 6155983 |
| Rand.WrapIsHarmless | lab6/libs/rand.c:13 | wrapping product and sum at 64 bits does not change the low 48 bits |
| Rand.Take | lab6/libs/rand.c:11-16 | n calls return the values of the next n states, and the calls that the counts below speak of are those that return v |
| Rand.PeriodIsModulus | lab6/libs/rand.c:13 | from any state below 2^48 the period is 2^48: back at the start exactly at its multiples |
| Rand.EveryStateOnce | lab6/libs/rand.c:13 | every state is visited exactly once in a period |
| Rand.StatesPerValue | lab6/libs/riscv.h:235-241 | each of 1 to 32 is the value of 33 * 4096 states, each of 33 to RAND_MAX of 32 * 4096, every other of none |
| Rand.ExactCounts | lab6/libs/rand.c:12-16 | the same numbers count the calls that return v in a period from any seed |
| Rand.EventuallyReturned | lab6/libs/rand.c:11-16 | exactly the values 1 to RAND_MAX are returned within a period |
| Hash.RoundTrip | lab6/libs/hash.c:14 | multiplying by the inverse mod 2^32 gives the key back |
| Hash.FullWidthIsBijection | lab6/libs/hash.c:13-17 | with 32 bits hash32 is a bijection of the keys |
| Hash.MemberHashes | lab6/libs/hash.c:13-17 | the keys whose product is in the range of a bucket hash to it |
| Hash.HashedIsMember | lab6/libs/hash.c:13-17 | and no other key does |
| Hash.Hash32Bounds | lab6/libs/hash.c:13-17 | hash32 is the high bits: the 32-bit product with 2654404609 lies in the hash's range of 2^(32 - bits) products |
| Hash.Hash32OfOne | lab6/libs/hash.c:13-17 | hash32(1, 10) is 632 |
| Hash.BucketsBalanced | lab6/libs/hash.c:13-17 | for 1 to 32 bits hash32 takes each value below 2^bits for exactly 2^(32 - bits) of the 2^32 keys |
| Ring.ListInit | lab6/libs/list.h:40-43 | the entry alone is a ring |
| Ring.LinkBetween | lab6/libs/list.h:141-146 | the four link assignments, also when the entries coincide |
| Ring.LinkAcross | lab6/libs/list.h:154-158 | the two link assignments |
| Ring.LinkedInRing | lab6/libs/list.h:141-146 | such a change of links between neighbours turns a ring into the ring with the entry inserted |
| Ring.LinkedOutRing | lab6/libs/list.h:154-158 | linking across an entry gives the ring without it |
| Ring.ListAddBefore | lab6/libs/list.h:66-69 | the ring with the new entry just before the given one, prev == next included |
| Ring.ListAddAfter | lab6/libs/list.h:79-82 | the ring with the new entry just after it |
| Ring.ListAdd | lab6/libs/list.h:53-56 | the same as adding after |
| Ring.ListDel | lab6/libs/list.h:84-94 | the ring without the entry, whose own links stay; a lone entry stays a ring |
| Ring.ListDelInit | lab6/libs/list.h:102-106 | the ring without the entry, and the entry a ring of its own |
| Ring.ListEmpty | lab6/libs/list.h:112-115 | the test holds exactly in the one-entry ring, also when prev == next |
| Ring.DeletedLooksEmpty | lab6/libs/list.h:84-94 | after list_del the test is true of the entry exactly when it was alone |
| Ring.ListNext | lab6/libs/list.h:121-124 | the successor in the ring, whose predecessor is the entry |
| Ring.ListPrev | lab6/libs/list.h:130-133 | the predecessor in the ring, whose successor is the entry |
| Ring.Rotated | lab6/libs/list.h:141-146 | a ring may be read from any of its entries |
| Ring.InsertRemove | lab6/libs/list.h:66-94 | inserting and removing on sequences undo each other |
| Ring.AddThenDel | lab6/libs/list.h:66-94 | adding before or after and deleting again restores every link |
| Ring.DelThenAdd | lab6/libs/list.h:84-94 | deleting an entry and adding it after its old predecessor restores every link, for a lone entry too |
| RingFamily.StepKeeps | lab6/libs/list.h:40-106 | every operation, adding an entry from a ring of its own included, keeps every live entry in exactly one ring |
| RingFamily.StepEntries | lab6/libs/list.h:40-106 | which entries are live after an operation: only a deleted one that was not alone goes, only the named one comes |
| RingFamily.FreeAgain | lab6/libs/list.h:102-106 | after list_init or list_del_init the entry may be added next to any other live one |
| RingFamily.ForgetEntries | lab6/libs/list.h:66-82 | giving up the one-entry ring of an entry to be added takes that entry and no other out of the family |
| RingFamily.EffectIsStepAt | lab6/libs/list.h:40-106 | the effect of an operation does not depend on where its entry is looked up |
| RingFamily.UnnamedStays | lab6/libs/list.h:40-158 | a ring in which an operation names no entry is in the family after it as it was |
| RingFamily.OthersKept | lab6/libs/list.h:40-158 | when only the links of one ring and one entry changed, all other rings are still linked as they were |
| RingFamily.Perform | lab6/libs/list.h:40-158 | an operation on the links of a family of rings performs the step on sequences; entries to add may be new or alone in their ring, and stand just before or after the given one |
| RingFamily.PerformAll | lab6/libs/list.h:40-158 | so does any sequence of operations |
| CString.Memmove | lab6/libs/string.c:292-311 | the destination gets the old source bytes for any overlap, all else is unchanged, dst is returned |
| CString.MoveBackwards | lab6/libs/string.c:300-303 | the backward loop is right whenever dst is not before src |
| CString.MoveForwards | lab6/libs/string.c:305-307 | the forward loop is right whenever dst is not inside the source after its start |
| CString.Memcpy | lab6/libs/string.c:327-339 | what the forward loop leaves in every case: with dst ahead the first dst - src bytes repeat; dst is returned |
| CString.CopyAgrees | lab6/libs/string.c:299-307 | with dst ahead the forward copy equals the move exactly on contents of period dst - src |
| CString.ForwardExactlyWhenSafe | lab6/libs/string.c:299 | the forward copy is right for all contents exactly when the branch takes it |
| CString.Strnlen | lab6/libs/string.c:33-40 | the length of the string, at most len |
| CString.Strncpy | lab6/libs/string.c:76-86 | in one memory, overlapping or not: the bytes brought up to the first NUL met, NULs up to len, nothing else; dst is returned |
| CString.NextByte | lab6/libs/string.c:79-82 | what the loop reads at a place that it may itself have overwritten |
| CString.FetchedIsString | lab6/libs/string.c:76-86 | that is the string at src cut to len exactly when dst does not begin inside it, or it repeats with the period dst - src |
| CString.FirstPlaceDecides | lab6/libs/string.c:103-132 | the first place at which two strings differ decides the sign and size of their comparison |
| CString.Strcmp | lab6/libs/string.c:103-113 | the difference of the first bytes that differ |
| CString.Strncmp | lab6/libs/string.c:126-132 | the same of the strings cut to n |
| CString.Memcmp | lab6/libs/string.c:355-366 | the same of the first n bytes of two blocks |
| CString.CompareZero | lab6/libs/string.c:103-132 | zero exactly for equal strings, and for equal blocks |
| CString.CompareSwap | lab6/libs/string.c:103-132 | swapping the operands negates the result |
| CString.CompareTransitive | lab6/libs/string.c:103-113 | the comparison orders strings |
| CString.WideBoundIsStrcmp | lab6/libs/string.c:126-132 | a bound that covers both strings makes strncmp strcmp |
| CString.NarrowBoundIsMemcmp | lab6/libs/string.c:126-132 | a bound within both strings makes strncmp memcmp |
| CString.MemcmpOfTerminated | lab6/libs/string.c:355-366 | memcmp over the shorter string and its NUL is strcmp |
| Digits.DigitLaw | lab6/libs/string.c:236-247 | by character numbers: the decimal digits and the letters of either case are the digits 0 to 35, and no other character is a digit |
| Digits.NumeralDigits | lab6/libs/printfmt.c:54 | every digit that printnum prints is one of '0' to '9' and 'a' to 'f', and a digit of the base |
| Digits.NumeralValue | lab6/libs/printfmt.c:39-54 | the digits that printnum prints have the value of the number |
| Digits.NumeralUnique | lab6/libs/printfmt.c:39-54 | they are the only such digits, of the characters '0' to '9' and 'a' to 'f', without a superfluous leading zero |
| Strtol.FindDigits | lab6/libs/string.c:204-230 | sign, base and start of the digits after blanks, sign and prefix |
| Strtol.ReadDigits | lab6/libs/string.c:233-253 | the loop stops after the longest run of digits of the base, with their value wrapped to 64 bits |
| Strtol.Strtol | lab6/libs/string.c:203-259 | the value, wrapped, of exactly that run with its sign, and the place after it |
| StrtolStandard.MeetsStandard | lab6/libs/string.c:203-259 | value and end are those of section 7.22.1.4 of ISO/IEC 9899:2011 exactly under a condition on what follows blanks, sign and prefix, and on the size of the value |
| StrtolStandard.NumberAgrees | lab6/libs/string.c:221-253 | the same from behind the sign on |
| StrtolStandard.OtherSpace | lab6/libs/string.c:209-211 | white space other than blanks stops the code, not the standard |
| StrtolStandard.EatsWithoutNumber | lab6/libs/string.c:209-224 | a blank, a sign and a prefix alone, each eaten |
| StrtolStandard.StopsEarly | lab6/libs/string.c:209-224 | an upper-case prefix and a newline, each stopping the code |
| StrtolStandard.Overflows | lab6/libs/string.c:251-252 | digits with the value 2^63 give the least long in the code and the greatest in the standard |
| StrtolStandard.CaseDoesNotMatter | lab6/libs/string.c:236-247 | changing the case of letters, but for the letter of a prefix, changes neither value nor end |
| Literals.ReadsHex | lab6/libs/string.c:233-253 | "1F" and "1f" in base 16 are 31 |
| Literals.ReadsSigns | lab6/libs/string.c:208-219 | a tab, a plus and a minus sign before 42 |
| FormatGrammar.TextOfParse | lab6/libs/printfmt.c:132-285 | the pieces of any format are well formed and spell the format |
| FormatGrammar.ParseOfText | lab6/libs/printfmt.c:132-285 | parsing spelt-out well-formed pieces gives them back |
| FormatGrammar.ParseIsUnique | lab6/libs/printfmt.c:132-285 | a format has exactly one division into well-formed pieces, the parsed one |
| FormatRender.PlainFormat | lab6/libs/printfmt.c:132-146 | literal text and one plain directive render the text and the conversion |
| FormatRender.DirectiveFormat | lab6/libs/printfmt.c:140-275 | one directive with any modifiers renders its conversion of the arguments left |
| FormatRender.PairFormat | lab6/libs/printfmt.c:132-275 | two plain directives render their conversions one after the other |
| FormatRender.FramedFormat | lab6/libs/printfmt.c:132-275 | a directive with modifiers and a plain one, each with text behind it, render in order |
| FormatRender.NumberFormat | lab6/libs/printfmt.c:204 | what the fall-back format of %e renders |
| FormatRender.NameFormat | lab6/libs/printfmt.c:207 | what the format of a named error renders |
| FormatFields.FlagsMeaning | lab6/libs/printfmt.c:148-190 | wherever they stand, the last pad flag wins, '#' and 'l' add up, each star takes an argument |
| FormatFields.FlagsKeepNumbers | lab6/libs/printfmt.c:148-190 | flags between the numbers do not change width and precision, so a '0' after the dot is a flag |
| FormatFields.StandardNumbers | lab6/libs/printfmt.c:158-185 | width, dot and precision in the usual order, each a number or a star, negative values included, set width and precision |
| FormatStandard.SpecApplies | lab6/libs/printfmt.c:140-190 | the field and the arguments left that the code makes of flags, width, precision and length as the standard writes them |
| FormatStandard.SignedMeetsStandard | lab6/libs/printfmt.c:235-270 | %d prints what section 7.21.6.1 of ISO/IEC 9899:2011 says exactly when there are digits to print and the code's padding has the place, count and characters of the standard's |
| FormatStandard.UnsignedMeetsStandard | lab6/libs/printfmt.c:245-270 | the same for %u, %o and %x, '#' included |
| FormatStandard.SimpleSigned | lab6/libs/printfmt.c:235-270 | without precision and stars %d is right exactly when the width does not exceed the digits, or the number is not negative and there is no '-' |
| FormatStandard.SimpleUnsigned | lab6/libs/printfmt.c:245-270 | the same for %u, %o and %x, where '#' must ask for nothing, or in octal for a zero that '0' pads by |
| FormatStandard.StringMeetsStandard | lab6/libs/printfmt.c:212-232 | %s is right exactly when neither a dot with no number, nor zeros behind the dot, nor a negative width changes the text, by a condition on string, width and precision |
| FormatStandard.CharMeetsStandard | lab6/libs/printfmt.c:193-195 | %c is right exactly when its width is at most one |
| FormatStandard.MinusDiffers | lab6/libs/printfmt.c:148-151 | "%-5d" of 42: the code's text and that of the standard |
| FormatStandard.SignDiffers | lab6/libs/printfmt.c:235-242 | "%6d" of -42: one character too long |
| FormatStandard.PrecisionDiffers | lab6/libs/printfmt.c:182-185 | "%.5d" of 42: the precision is ignored |
| FormatFields.StringLayout | lab6/libs/printfmt.c:212-232 | %s has max(width, shown length) characters: the sanitised prefix contiguous, padding on one side |
| FormatFields.NumberLayout | lab6/libs/printfmt.c:39-54 | printnum has max(width, digits) characters: padding, then the numeral with no leading zero |
| Printfmt.Sink.Buffer | lab6/libs/printfmt.c:339 | an empty bounded sink |
| Printfmt.Sink.Put | lab6/libs/printfmt.c:299-305 | a character more is put, in a buffer stored only while it fits |
| Printfmt.Sink.Finish | lab6/libs/printfmt.c:345-347 | the buffer holds the longest prefix that fits and a NUL, and nothing beyond it has changed |
| Printfmt.NumFieldStep | lab6/libs/printfmt.c:43-54 | a padded numeral is the field of the quotient, one narrower, and the last digit |
| Printfmt.Printnum | lab6/libs/printfmt.c:39-54 | the recursion prints the padded numeral |
| Printfmt.PutBody | lab6/libs/printfmt.c:221-228 | the loop prints the shown characters, '?' for unprintable ones with '#', and counts them off the width |
| Printfmt.PutString | lab6/libs/printfmt.c:216-231 | both padding loops and the body print the string field |
| Printfmt.ReadNumber | lab6/libs/printfmt.c:159-167 | the value of the longest run of decimal digits |
| Printfmt.ScanModifiers | lab6/libs/printfmt.c:141-190 | the jumps back to the switch apply the modifiers of the grammar and stop at the first other character |
| Printfmt.PutSigned | lab6/libs/printfmt.c:235-242 | sign and magnitude of any 64-bit value, the least one included |
| Printfmt.PutPointer | lab6/libs/printfmt.c:257-262 | the prefix and the hexadecimal field |
| Printfmt.PutError | lab6/libs/printfmt.c:198-209 | the text of an error of either sign: its name or its number |
| Printfmt.PutConversion | lab6/libs/printfmt.c:192-275 | every conversion character prints its text and takes its argument |
| Printfmt.PutLiterals | lab6/libs/printfmt.c:133-138 | text up to the next '%' is printed as it is |
| Printfmt.ModifierChars | lab6/libs/printfmt.c:146-190 | no character of the modifiers is a '%' |
| Printfmt.BackUp | lab6/libs/printfmt.c:280 | the back-up loop stops right after the directive's own '%' |
| Printfmt.RescanIsVerbatim | lab6/libs/printfmt.c:278-282 | scanning on from there as literal text prints the rest of the directive verbatim, and nothing twice |
| Printfmt.PutUnrecognised | lab6/libs/printfmt.c:278-282 | the default case prints the '%' and leaves exactly the rest to print |
| Printfmt.PutDirective | lab6/libs/printfmt.c:140-283 | one directive, recognised or not, prints what its piece renders |
| Printfmt.Vprintfmt | lab6/libs/printfmt.c:125-285 | for every format and arguments the machine ends, and the characters it gives putch are exactly the rendering of the parsed format, in order |
| Printfmt.Vsnprintf | lab6/libs/printfmt.c:337-348 | returns the length of the whole text; the buffer holds its first min(length, size - 1) characters, a NUL, and old contents; size 0 or NULL gives -3 |
| Printfmt.Vcprintf | lab6/kern/libs/stdio.c:26-31 | the console is given the whole text, and its length is returned |
| Literals.PrintsInt | lab6/libs/printfmt.c:235-242 | %d prints in decimal the int congruent to the argument mod 2^32 |
| Literals.PrintsLong | lab6/libs/printfmt.c:86-97 | %ld the long congruent to it mod 2^64 |
| Literals.PrintsUnsigned | lab6/libs/printfmt.c:245-270 | %u, %o and %x print the unsigned int congruent to it, in decimal, octal and hexadecimal |
| Literals.PrintsUnsignedLong | lab6/libs/printfmt.c:68-79 | with 'l' the unsigned long |
| Literals.PrintsPointer | lab6/libs/printfmt.c:257-262 | %p prints 0x and 64 bits in hexadecimal |
| Literals.DigitsPrinted | lab6/libs/printfmt.c:54 | by character numbers, nothing but '0' to '9' and 'a' to 'f' is printed of a number in any base |
| Literals.PrintsFf | lab6/libs/printfmt.c:54 | %x of 255 is "ff" |
| Literals.PrintsFlags | lab6/libs/printfmt.c:148-156 | "%-5d" and "%05d" of 42 are "---42" and "00042" |
| Literals.PrintsChar | lab6/libs/printfmt.c:193-195 | %c prints the character with the low eight bits |
| Literals.PrintsPercent | lab6/libs/printfmt.c:273-275 | %% prints one '%' |
| Literals.PrintsNull | lab6/libs/printfmt.c:213-215 | %s of NULL prints "(null)" |
| Literals.PrintsSanitized | lab6/libs/printfmt.c:222-227 | %#s prints '?' for every character but the numbers 32 to 126 |
| Literals.PrintsUnknown | lab6/libs/printfmt.c:278-282 | a '%' and any character that is no modifier and no conversion are printed as they are |
| Literals.PrintsLonePercent | lab6/libs/printfmt.c:278-282 | so is a '%' at the end |
| Literals.ErrorSign | lab6/libs/printfmt.c:10-14 | %e prints the same for a number and its negative |
| Literals.PrintsErrorName | lab6/libs/printfmt.c:17-28 | the nine names, each for the code of either sign |
| Literals.PrintsErrorNumber | lab6/libs/printfmt.c:203-205 | every other number is printed as "error" and its magnitude |
| RoundTrip.UnsignedRoundTrip | lab6/libs/printfmt.c:39-54 | for base 2 to 16 strtol reads a padded numeral back, ending at its end, exactly when it is below 2^63 and the pad is not '-', there is none, or the field is "-0" |
| RoundTrip.NegativeRoundTrip | lab6/libs/printfmt.c:235-242 | a negative decimal is read back exactly when it is unpadded or zero-padded |
| RoundTrip.SignedRoundTrip | lab6/libs/string.c:203-259 | exactly when strtol reads a %d field of any 64-bit value back |
| RoundTrip.PointerRoundTrip | lab6/libs/printfmt.c:257-270 | %p output is read back with base 0 or 16 exactly when it is below 2^63 and unpadded or zero-padded |
| RoundTrip.FormattedSigned | lab6/libs/printfmt.c:140-270 | the same condition for what the format of %d with any modifiers prints of any argument |
| RoundTrip.FormattedUnsigned | lab6/libs/printfmt.c:140-270 | the same for %u, %o and %x, each read in its base |
| RoundTrip.FormattedPointer | lab6/libs/printfmt.c:140-270 | the same for %p |
| RoundTrip.PlainDecimalRoundTrip | lab6/libs/printfmt.c:235-242 | what the format "%d" prints of any int, strtol reads back |
| ForkTree.ChildNameFormat | lab6/user/forktree.c:16 | the format of a child's name renders the name of the process with the branch appended |
| ForkTree.ForkChild | lab6/user/forktree.c:9-22 | no child from full depth on; else one whose name came through the buffer of depth + 1 characters whole |
| ForkTree.NoTruncation | lab6/user/forktree.c:9-22 | under every schedule all names are binary strings of at most the depth, and that of every child fits the buffer |
| ForkTree.TreeBranches | lab6/user/forktree.c:24-30 | the names below a name are itself and those below its two branches |
| ForkTree.StepConserves | lab6/user/forktree.c:9-30 | a step of any process keeps printed and pending names together the same |
| ForkTree.NeverTwice | lab6/user/forktree.c:9-30 | under every schedule, at every moment, no name was printed twice or is no binary string of at most the depth |
| ForkTree.Complete | lab6/user/forktree.c:9-36 | at quiescence under every schedule each binary string of at most the depth was printed exactly once, by 2^(depth+1) - 1 processes |
| ForkTree.SameLength | lab6/user/forktree.c:9-36 | every schedule ends, and a schedule is quiescent exactly when it has 5 (2^(depth+1) - 1) - 1 steps |
| ForkTree.LineTells | lab6/user/forktree.c:26 | a printed line determines process number and name |
| ForkTree.PrintLine | lab6/user/forktree.c:26 | the text of the line: the number in at least four hexadecimal digits, and the name |
| ForkTree.CompleteLines | lab6/user/forktree.c:9-36 | at quiescence, whatever the process numbers, each binary string of at most the depth is the name in exactly one printed line, and no other string in any |
| ForkTree.AlwaysParentsFirst | lab6/user/forktree.c:24-30 | under every schedule a name is printed after that of its parent |

## Left out

- Printfmt.Vprintfmt: widths, precisions and the count of characters do not overflow `int`; a putch
  that changes the format or the arguments while they are printed is not modelled. The sinks are the two
  that the library passes, the buffer and the console, which records what putch is called with.
- Printfmt.Vsnprintf: the buffer does not overlap the format or the string arguments.
- Printfmt.PutError: the least `int`, whose negation is undefined, counts as an error without a name.
- Printfmt.Printnum: base 1, which its comment allows, does not terminate in the code and is excluded;
  no conversion uses it.
- CString.Strnlen: the conversion of a negative precision to a huge bound appears only as `Shown` in
  the formatter.
- CString.Memmove: offsets into one memory; address arithmetic does not wrap.
- Hash.BucketsBalanced: a width of 0 bits, a shift by 32 that C leaves undefined, is excluded.
- RingFamily.Perform: an entry in a ring with others is not initialised or added again, which would
  tear that ring; nor is an entry added next to itself.
- ForkTree.Complete: all forks succeed and a print is one step; the scheduler and the kernel's fork are
  not part of this model. In ForkTree.CompleteLines the process numbers are given, below 2^31.
- FormatStandard.SignedMeetsStandard: the flags '+' and space and the other lengths of the standard,
  which the code does not know; flags that the standard leaves undefined for a conversion are excluded
  for %s and have no effect on the standard's field for %d and %u.
- strlen, strcpy, strchr, strfind, memset: simpler relatives of what is modelled.
- atomic.h, readline.c, the rounding macros, the host tools and the other user programs: single
  instructions, console input and output, or workloads over kernel calls.
