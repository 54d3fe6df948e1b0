# Verified models of VersatileEngine's cores

The project models five parts of the repository and proves what they are for.

**Decimal to binary64** (`deps/simdjson/src/from_chars.cpp`). The text of a number is parsed into a decimal of up to 768
digits, which is shifted in place by powers of two and rounded. `DecimalNumber` holds the mutable decimal and its two shifts,
`DecimalToBinary` the scaling loops and the rounding, `TextToFloat` the whole way from text to word. The result is the correctly
rounded number in the sense of section 4.3.1 of IEEE 754-2019, also for decimals of which digits were dropped: what is kept is
related to the exact number by saying that no multiple of a certain power of two lies between them. Two comments of the source,
at lines 357 and 399, are swapped; the model follows the code. One thing in the source is wrong on extreme inputs: an exponent
of 655360 or more is cut, and with a mantissa of more than 65000 digits the cut exponent can denote another number.
`TextToFloat.CapCanMislead` gives such a text, and `TextToFloat.CapExact` says exactly on which texts the cut does no harm.

**pugixml** (`deps/pugixml/src/pugixml.cpp`). `PageAllocator` models blocks, pages and string headers. `DomTree`, `DomMove` and
`DomCopy` model the linked nodes: child lists with a cyclic `prev` and a null-terminated `next`, moves, and the stackless copy
of a subtree, which may be copied into itself. `DocumentNumbers` numbers every such document in preorder; `DocumentOrder` and
`XPathAxes` prove the pointer walks against that numbering. `NodeSort` puts node sets into document order, with that comparison,
by a three-way quicksort; `ProbedSet` is the quadratic-probing set that removes duplicates from unordered ones. `XPathExpr`
gives query expressions a meaning, `XPathOptimizer` states the rewrites on expressions and proves that they keep it, and
`XPathTree` runs them in place over linked nodes and proves that this is the same. `XmlText`, `XmlGap`, `XmlReader` and
`XmlPrinter` are in-place decoding through a moving gap and its inverse, the escaping printer; `XmlUtf8` proves what bytes a
character reference gives, and `XmlMeaning` what texts are references and what every byte decodes to. `IntegerText` converts integers
in wrapping arithmetic.

**md4c** (`deps/md4c/md4c.c`). `EmphasisMarks` defines emphasis by a plain backward search for the nearest opener allowed by the
rule of three; `OpenerStacks` and `EmphasisResolver` prove that the stacks threaded through the mark array compute just that,
splits included; `EmphasisScanner` and `EmphasisSpans` add the collection of marks from text and the balanced events.
`LinkLabels` and `RefDefs` model the table of link reference definitions, in which the first definition wins. Here too the source
is not always right: the hash of a label sees white space at its end, the comparison does not, so a query such as `[a ]` can be
sought in the wrong slot, although section 4.7 of CommonMark 0.31 strips it. `RefDefs.LookupCanMiss` gives such a case, and
`RefDefs.Lookup` says exactly when the right definition is found. Labels of definitions never end in white space, since
`md_is_link_label` (lines 1939-1985) cuts it.

**The module scheduler** (`ve/src/entry.cpp`). `ModuleKeys`, `ModuleGraph` and `DependencyOrder` model priority inheritance along
dotted keys and Kahn's sort with a heap; `ModuleLifecycle` runs the modules from start to end.

**The UTF-8 validator** (`deps/simdjson/src/fallback.cpp`) is `Utf8Validator`.

Code that rewrites fields and buffers is modelled by classes and arrays that are rewritten in the same order; what such a method
computes is stated by a function or an invariant, and the lemmas are about those. A `NULL` pointer is -1, a pointer into the
document is an index into a sequence of records. What a machine word can hold is written out where it matters: the 64-bit carry
and the wrapping index of the shifts, the 32-bit code of a numeric reference, and the 16, 32 or 64-bit integers.

## Model

| member | source | states |
|---|---|---|
| TextToFloat.FromChars | deps/simdjson/src/from_chars.cpp:570-584 | The word packs the sign and the correct rounding of the number read with its exponent capped; it is the correct rounding of the number the text denotes if and only if `ReadingsMeet` |
| TextToFloat.CapExact | deps/simdjson/src/from_chars.cpp:132-140 | Given a correct rounding of the capped reading, it also is one of the exact reading exactly when the exponent is below 655360 or absent, the mantissa is zero, the smaller reading overflows, or the larger vanishes |
| TextToFloat.CapHarmlessMeets | deps/simdjson/src/from_chars.cpp:132-140 | An exponent below 655360 or a mantissa of at most 65000 digits is enough for the two readings to meet |
| TextToFloat.CapCanMislead | deps/simdjson/src/from_chars.cpp:132-140 | A concrete text (100000 zeros after the point, twenty ones, exponent 1000001) whose capped reading is below one while the number overflows: no result is right for both |
| TextToFloat.FarReadings | deps/simdjson/src/from_chars.cpp:132-140 | Two positive numbers at least 2^2100 apart round to the same binary64 exactly when the smaller overflows or the larger vanishes |
| TextToFloat.PackFields | deps/simdjson/src/from_chars.cpp:576-580 | The or of the three shifted fields loses nothing: fraction, exponent and sign can be read back from the word |
| DecimalText.ParseDecimal | deps/simdjson/src/from_chars.cpp:70-143 | The decimal parsed from the text stands for the number with the capped exponent: stored digits are its leading 768 digits, `truncated` tells exactly whether anything nonzero was dropped |
| DecimalText.ReadMantissa | deps/simdjson/src/from_chars.cpp:76-108 | Sign, whole digits, point and fraction are consumed to `MantissaEnd`; leading zeros are not counted; the point is minus the number of fraction digits |
| DecimalText.ReadDigits | deps/simdjson/src/from_chars.cpp:83-89 | A run of digits is consumed to its end, each counted, stored only up to the 768th |
| DecimalText.TrailingZeros | deps/simdjson/src/from_chars.cpp:109-115 | Going backwards over zeros and the point counts exactly the final zero digits |
| DecimalText.DropZeros | deps/simdjson/src/from_chars.cpp:109-122 | Final zeros are dropped, the rest cut to 768 digits; `truncated` holds exactly when more remained |
| DecimalText.ReadExponentPart | deps/simdjson/src/from_chars.cpp:123-141 | The exponent read is the signed capped value of the exponent digits |
| DecimalText.CappedExact | deps/simdjson/src/from_chars.cpp:132-139 | The capped loop gives the exponent itself when it is below 655360, and never less than 65536 once it differs |
| NumberText.TextMeansLiteral | deps/simdjson/src/from_chars.cpp:70-143 | For every literal (whole part, optional fraction, optional exponent) the number scanned from its text is the number the literal denotes |
| DecimalNumber.Decimal.Trim | deps/simdjson/src/from_chars.cpp:228-232 | Trailing zeros go, the value stays |
| DecimalNumber.Decimal.NumberOfNewDigits | deps/simdjson/src/from_chars.cpp:234-327 | The result is exact: the shifted digit string has precisely numDigits + r digits, for every shift up to 60 |
| DecimalShift.NewDigitsExact | deps/simdjson/src/from_chars.cpp:311-326 | Comparing the digits with those of 5^shift as fractions decides the exact number of digits of the product with 2^shift |
| DecimalNumber.Decimal.LeftShift | deps/simdjson/src/from_chars.cpp:358-397 | The value becomes 2^shift times the old one, cut below the 768th digit; `truncated` is set exactly when something nonzero was cut |
| DecimalNumber.Decimal.ShiftDigitsLeft | deps/simdjson/src/from_chars.cpp:363-390 | Both loops together produce every digit of the product, in place, from right to left |
| DecimalNumber.Decimal.ShiftStoredDigits | deps/simdjson/src/from_chars.cpp:363-379 | While digits remain, the written digits and the 64-bit carry together make up the rest times 2^shift; the wrapping index is where the next digit belongs |
| DecimalSteps.CarryRoom | deps/simdjson/src/from_chars.cpp:380-390 | As long as the carry is nonzero there is still room for a digit, so the predicted count is never exceeded |
| DecimalNumber.Decimal.RightShift | deps/simdjson/src/from_chars.cpp:400-444 | The value becomes the old one divided by 2^shift, cut below the 768th digit, with `truncated` exact; or zero when the result lies below 10^-2048 |
| DecimalNumber.Decimal.ReadLeading | deps/simdjson/src/from_chars.cpp:401-418 | The digits read until the quotient becomes nonzero, with zeros supplied past the end as powers of two |
| DecimalNumber.Decimal.EmitQuotient | deps/simdjson/src/from_chars.cpp:427-442 | All quotient digits are produced; the drain loop ends after at most shift + 1 turns; digits past the 768th only set `truncated` |
| DecimalSteps.DrainStep | deps/simdjson/src/from_chars.cpp:433-441 | Each drain turn adds a factor of two to the remainder, and after shift of them it is zero |
| DecimalSteps.QuotientValue | deps/simdjson/src/from_chars.cpp:427-442 | Once the remainder is zero the digits written denote the value divided by 2^shift |
| DecimalNumber.Decimal.Round | deps/simdjson/src/from_chars.cpp:331-355 | The nearest integer to the tracked exact number, ties to even, even though digits may have been dropped; all ones above 10^18 |
| Rounding.NearestEvenIsNearest | deps/simdjson/src/from_chars.cpp:331-355 | The integer so defined is at least as near as any other, and even when another ties |
| Rounding.RoundDecision | deps/simdjson/src/from_chars.cpp:343-353 | The half-way test on the held digits decides how the exact number rounds |
| DecimalToBinary.ScaleDown | deps/simdjson/src/from_chars.cpp:482-494 | The first loop ends and brings the point to at most 0 while the held value keeps tracking the number over 2^exp2 |
| DecimalToBinary.ScaleUp | deps/simdjson/src/from_chars.cpp:496-515 | The second loop ends with the value in [1/2, 1), digits dropped or not; its infinity branch cannot be reached |
| DecimalToBinary.GapCloses | deps/simdjson/src/from_chars.cpp:496-515 | Each left shift below 1/2 makes 10/value smaller by at least one, which is why the loop ends |
| DecimalToBinary.ScaleSubnormal | deps/simdjson/src/from_chars.cpp:517-526 | The exponent is raised to -1022 if it is below, and 2^(exp2-52) is then the unit in the last place of the number |
| DecimalToBinary.RoundMantissa | deps/simdjson/src/from_chars.cpp:533-542 | The mantissa is the number in units of its last place, rounded to even, with the carry into the next binade handled |
| DecimalToBinary.ComputeFloat | deps/simdjson/src/from_chars.cpp:446-556 | For every decimal, truncated or not, the result is the correctly rounded binary64 of the number it stands for: normal, subnormal, zero, carry and infinity |
| Binary64.RoundInUnits | deps/simdjson/src/from_chars.cpp:536-554 | Rounding in units of the last place to an even-tied integer is correct rounding among all finite binary64 numbers |
| Binary64.EncodeExact | deps/simdjson/src/from_chars.cpp:549-555 | Packing an integer below 2^53 and its exponent into fields is exact |
| Utf8Validator.ValidateUtf8 | deps/simdjson/src/fallback.cpp:367-427 | True exactly for the octet sequences of the grammar in section 4 of RFC 3629, with the 16-byte skip at any alignment |
| Utf8Validator.CharIsEncoding | deps/simdjson/src/fallback.cpp:386-424 | A character of the grammar is the encoding of its own code point, which is a scalar value: no overlong form, no surrogate, nothing past U+10FFFF |
| Utf8Validator.EncodingIsChar | deps/simdjson/src/fallback.cpp:386-424 | Conversely the encoding of every scalar value is a character of the grammar |
| Utf8Validator.FirstChar | deps/simdjson/src/fallback.cpp:386-424 | Every parse of a sequence begins with the same character, since its first byte fixes the length |
| ModuleKeys.AncestorIsDottedPrefix | ve/src/entry.cpp:121-125 | Repeated parentKey reaches exactly the nonempty proper prefixes that end before a dot |
| ModuleKeys.FindNearest | ve/src/entry.cpp:385-395 | The walk over parent keys finds the nearest listed ancestor, if there is one |
| ModuleKeys.NearestIsNearest | ve/src/entry.cpp:343-356 | The nearest listed ancestor is an ancestor, and every other listed ancestor is an ancestor of it |
| ModuleKeys.StableSortCorrect | ve/src/entry.cpp:338-341 | The stable sort used for depths and priorities is sorted, a permutation, and keeps equal ranks in their order |
| ModuleGraph.CollectBase | ve/src/entry.cpp:308-329 | A module is listed exactly when the factory has it, its configuration does not disable it, and, if its key begins with `ve.service.`, it has one; its configured priority counts before the factory's, and that before 100 |
| ModuleGraph.Inherit | ve/src/entry.cpp:343-356 | Each module's priority becomes the maximum of its own base priority and those of all its enabled ancestors |
| ModuleGraph.InheritNearest | ve/src/entry.cpp:345-355 | Looking at the nearest ancestor only gives the maximum over all ancestors |
| ModuleGraph.EffectiveUnique | ve/src/entry.cpp:343-356 | The maximum over a module and its enabled ancestors is one number, so the effective priority is determined |
| ModuleGraph.BuildModuleGraph | ve/src/entry.cpp:304-370 | The slots are the modules so listed, once each, with effective priorities over those base priorities, the smaller priority first and of equal ones the key with fewer dots |
| ModuleGraph.AncestorsFirst | ve/src/entry.cpp:365-369 | In that order every ancestor stands before its descendants |
| DependencyOrder.BuildEdges | ve/src/entry.cpp:380-418 | The adjacency lists describe exactly the parent edges and the explicit edges between known modules, and the in-degrees count them with multiplicity |
| DependencyOrder.TopoSort | ve/src/entry.cpp:427-441 | Each entry listed is the first of those ready; whatever is not listed is fed from something not listed |
| DependencyOrder.Release | ve/src/entry.cpp:438-440 | Taking an entry's edges off the counts keeps them exact and makes ready exactly what has nothing left before it |
| DependencyOrder.BeforeMeans | ve/src/entry.cpp:421-426 | The comparison of the heap: the smaller priority, then fewer dots in the key, then the earlier place |
| DependencyOrder.GreedyIsLeast | ve/src/entry.cpp:421-441 | A complete greedy listing is a topological order, and the lexicographically least one under priority, depth and index |
| DependencyOrder.ResolveDepends | ve/src/entry.cpp:372-454 | Slots are reordered if and only if the graph is acyclic; then into the least topological order; on a cycle they stay as they are |
| DependencyOrder.StuckCycle | ve/src/entry.cpp:443-446 | If the sort runs dry before all slots are listed there is a cycle |
| Graphs.RepeatGivesCycle | ve/src/entry.cpp:443-446 | A walk longer than the number of vertices contains a cycle |
| DependencyOrder.NoDependsNoChange | ve/src/entry.cpp:443-454 | Without explicit depends the order does not change |
| DependencyOrder.ParentsFirst | ve/src/entry.cpp:443-454 | Parents stand before their children after the sort, and also after a failed one |
| DependencyOrder.DependsFirst | ve/src/entry.cpp:443-454 | After a successful sort every module stands behind those it depends on |
| ModuleLifecycle.EntryState.Init | ve/src/entry.cpp:456-518 | Instances in sorted order; INIT told forwards, READY backwards, to the created ones |
| ModuleLifecycle.EntryState.TellReady | ve/src/entry.cpp:503-511 | READY goes to the created modules from last to first, once each |
| ModuleLifecycle.EntryState.Deinit | ve/src/entry.cpp:536-565 | DEINIT told backwards to all, then all deleted backwards; the state is left empty |
| ModuleLifecycle.EntryState.DeleteAll | ve/src/entry.cpp:550-555 | Every created instance is deleted once, from last to first |
| ModuleLifecycle.RunNests | ve/src/entry.cpp:490-555 | For two created modules in order: INIT of the first before the second, READY, DEINIT and deletion of the second before the first, each once |
| ModuleLifecycle.RunRespectsDependencies | ve/src/entry.cpp:490-555 | What must enclose another (ancestor always, dependency when the graph is acyclic) does so over the whole run |
| ModuleLifecycle.Exec | ve/src/entry.cpp:569-576 | From empty state to empty state: the run goes through exactly the modules that are listed, with the base priorities their configuration says, in the least topological order or on a cycle in the listed one, and every ancestor, and on an acyclic graph every dependency, encloses what depends on it in INIT, READY, DEINIT and deletion |
| EmphasisScanner.FlankingRules | deps/md4c/md4c.c:3031-3107 | The flags of a run's mark, told by the characters on both sides: left- and right-flanking by white space, the edge of the line and punctuation as in section 6.2 of CommonMark 0.31 for `*`, with its restriction inside words for `_`, and for `~` no word in front of an opener or behind a closer |
| EmphasisScanner.CollectMarks | deps/md4c/md4c.c:2995-3342 | The marks collected are exactly `MarksOf` the text: token after token, an escape, a usable run with its dummies, or a NUL gives its marks, all else none, and the terminator comes last; in them every emphasis mark is a whole run with its flags and its original length |
| EmphasisScanner.RunsAreMarked | deps/md4c/md4c.c:3031-3107 | Without reference to the scan: a delimiter mark is among the marks of a text if and only if it spans a maximal run of its character that is not escaped, has the flags that the characters around the run give it, can open or close, and of `~` is at most two long |
| EmphasisScanner.ReadToken | deps/md4c/md4c.c:3031-3330 | The characters at one place give the marks, and the place to go on, that `Token` says: escape pairs are skipped, runs taken whole, unusable runs passed over |
| OpenerStacks.AllowedIsRuleOfThree | deps/md4c/md4c.c:2566-2588 | The set of stacks a closer may look at is exactly the rule of three on original run lengths, for the same character |
| OpenerStacks.TopIsLast | deps/md4c/md4c.c:2590-2606 | The top of a stack is the last live opener of that kind, and its link leads to the rest |
| OpenerStacks.ThreadedInsert | deps/md4c/md4c.c:2650-2656 | A mark put above the live ones of its kind is threaded by one link |
| OpenerStacks.ThreadedCut | deps/md4c/md4c.c:2699-2708 | Popping everything from an opener on leaves all stacks threaded through what is below it |
| EmphasisMarks.SplitKeeps | deps/md4c/md4c.c:3710-3724 | Splitting a mark keeps the layout: every mark of length k still has its k-1 dummies, pairs are untouched, original run lengths remembered |
| EmphasisMarks.PairKeeps | deps/md4c/md4c.c:2682-2696 | Resolving a free opener with an equally long closer keeps all pairs equal in length and uncrossed |
| EmphasisMarks.StepKeeps | deps/md4c/md4c.c:3726-3788 | One step of the plain backward search keeps everything that holds of the marks |
| EmphasisMarks.ResolvedStays | deps/md4c/md4c.c:4040-4092 | A resolved mark is never changed by a later step |
| EmphasisMarks.SplitFree | deps/md4c/md4c.c:3710-3724 | A split encloses nothing new, and the new part is free when the old one was |
| EmphasisResolver.Inlines.SplitEmphMark | deps/md4c/md4c.c:3710-3724 | The last n characters become the mark at the dummy that was kept for them |
| EmphasisResolver.Inlines.Push | deps/md4c/md4c.c:2650-2656 | Links the mark to the old top and makes it the top |
| EmphasisResolver.Inlines.PopOpeners | deps/md4c/md4c.c:2699-2708 | All stacks lose exactly the openers from the given mark on |
| EmphasisResolver.Inlines.ResolveRange | deps/md4c/md4c.c:2682-2696 | Links two marks to each other and marks them resolved |
| EmphasisResolver.Inlines.FindOpener | deps/md4c/md4c.c:3731-3764 | The opener chosen over the allowed stacks is exactly the nearest live opener a plain backward scan finds, or none |
| EmphasisResolver.FoundIsNearest | deps/md4c/md4c.c:3753-3764 | The allowed opener with the largest end is the nearest one under the rule of three |
| EmphasisResolver.Inlines.JoinOpener | deps/md4c/md4c.c:3766-3782 | Opener or closer is split when lengths differ, what lies above is popped, the pair resolved: together one plain step |
| EmphasisResolver.SplitThreads | deps/md4c/md4c.c:3772-3774 | After cutting the opener the stacks are threaded through its remaining part |
| EmphasisResolver.Inlines.AnalyzeEmph | deps/md4c/md4c.c:3726-3788 | One call is one step of the plain backward search |
| EmphasisResolver.Inlines.AnalyzeTilde | deps/md4c/md4c.c:3790-3810 | For `~` the nearest opener of the same length, likewise one plain step |
| EmphasisResolver.Inlines.AnalyzeMarks | deps/md4c/md4c.c:4030-4093 | The loop over all marks, skipping what is resolved, is the plain search over all marks |
| EmphasisResolver.Inlines.ResolveEmphasis | deps/md4c/md4c.c:4122-4147 | The resolved marks are those of the plain search, with equal lengths and no crossing, and all stacks are empty again |
| EmphasisSpans.EmitSpans | deps/md4c/md4c.c:4201-4300 | The events emitted for the marks, in their order |
| EmphasisSpans.EnterEmphasis | deps/md4c/md4c.c:4272-4281 | An opener of length k gives k % 2 emphasis and then k / 2 strong enters |
| EmphasisSpans.LeaveEmphasis | deps/md4c/md4c.c:4282-4291 | A closer gives the same in reverse |
| EmphasisSpans.MarkMeans | deps/md4c/md4c.c:4250-4300 | The events of a resolved mark of n characters, one by one: a deletion, n underlines, or one emphasis for odd n around n / 2 strong emphases; a closer leaves the same from the inside out |
| EmphasisSpans.NestUpTo | deps/md4c/md4c.c:4201-4300 | After every mark the spans still open are those of the unclosed openers, innermost last |
| EmphasisSpans.Balanced | deps/md4c/md4c.c:4201-4300 | Enter and leave events are balanced and properly nested |
| EmphasisScanner.LineSpans | deps/md4c/md4c.c:4096-4127 | For every line of text: the events are those of exactly the marks of the text, resolved as the plain search does, and they are balanced and nested |
| LinkLabels.CompareLabels | deps/md4c/md4c.c:1635-1699 | Compares the folded, whitespace-collapsed labels code by code, without building them |
| LinkLabels.LoadFold | deps/md4c/md4c.c:1635-1662 | One step of folding: a run of white space is one space, a character its fold, the end a space |
| LinkLabels.CanonicalMeans | deps/md4c/md4c.c:1604-1662 | The folded form word by word: blanks in front do not count, a word is the folds of its characters, blanks between words one space |
| LinkLabels.HashLabel | deps/md4c/md4c.c:1604-1633 | The hash is a function of the folded, collapsed label, so labels that fold alike hash alike |
| LinkLabels.EqualIsSame | deps/md4c/md4c.c:1664-1699 | Without trailing white space, comparing equal means being the same label |
| LinkLabels.TrailingSpace | deps/md4c/md4c.c:1604-1633 | White space at the end of a label adds one space to its folded form, and so to what is hashed |
| LinkLabels.TrailingUnseen | deps/md4c/md4c.c:1664-1699 | The comparison does not see white space at the end: it is zero exactly when the definition's label folds like the query stripped of it |
| LinkLabels.DifferenceChains | deps/md4c/md4c.c:1664-1699 | The comparison is transitive |
| RefDefs.FillTable | deps/md4c/md4c.c:1746-1828 | Each bucket lists definitions of its slot only, and for each definition of the slot one as early that folds alike |
| RefDefs.SortBucket | deps/md4c/md4c.c:1831-1841 | A bucket is sorted by hash, label and position; same members |
| RefDefs.ForceFirst | deps/md4c/md4c.c:1843-1850 | Every entry of a sorted bucket is replaced by the first of its equals |
| RefDefs.BuildTable | deps/md4c/md4c.c:1745-1857 | Every bucket of the table is ready: sorted, holding for each label of its slot the first definition, and only firsts |
| RefDefs.Search | deps/md4c/md4c.c:1909-1914 | Binary search in a sorted bucket hits an equal entry, whichever it is, or there is none |
| RefDefs.Lookup | deps/md4c/md4c.c:1878-1916 | For every query: the first definition whose label folds like the query without white space at its end, if the query is findable, and none otherwise; so the right answer if and only if the query is findable or no definition has that label, and always for queries without white space at the end |
| RefDefs.FindIn | deps/md4c/md4c.c:1899-1915 | In a list, the entry that has the query's hash and label, or none |
| RefDefs.LookupExact | deps/md4c/md4c.c:1604-1633 | A query without white space at its end is findable in every table: it is its own stripped form |
| RefDefs.LookupCanMiss | deps/md4c/md4c.c:1878-1916 | Among definitions a, b, c the query `a ` is missed: its hash names another slot |
| XmlText.ReferenceShrinks | deps/pugixml/src/pugixml.cpp:2499-2637 | A decoded reference is never longer than its source, which is why decoding fits in place |
| XmlText.DigitMeans | deps/pugixml/src/pugixml.cpp:2510-2545 | In either base a character is worth k exactly when it is the k-th decimal digit or the k-th letter-digit of either case |
| XmlGap.Gap.Push | deps/pugixml/src/pugixml.cpp:2468-2482 | The pending gap is closed and a new one opened; the text kept so far stays the same |
| XmlGap.Gap.Flush | deps/pugixml/src/pugixml.cpp:2485-2496 | After closing the last gap the kept text lies in one piece at the beginning |
| XmlReader.ReadReference | deps/pugixml/src/pugixml.cpp:2499-2637 | Finds the reference at an ampersand, or where to go on if it is none; `XmlMeaning.ReferredRead` and `XmlMeaning.ReadRefers` say which texts are references and to what |
| XmlReader.ReadNumber | deps/pugixml/src/pugixml.cpp:2505-2552 | Numeric references, decimal and hexadecimal, in wrapping 32-bit arithmetic, up to the semicolon |
| XmlReader.WriteUtf8 | deps/pugixml/src/pugixml.cpp:1520-1563 | Writes the bytes of the code and nothing else; they are the one character of the grammar in section 4 of RFC 3629 that has this code point if and only if the code is a scalar value |
| XmlUtf8.Utf8IsEncoding | deps/pugixml/src/pugixml.cpp:1520-1563 | The bytes computed for a code are a character of the grammar whose code point is that code exactly for the scalar values |
| XmlUtf8.SpelledOnce | deps/pugixml/src/pugixml.cpp:1520-1563 | No other bytes spell that character |
| XmlReader.ConvertEscape | deps/pugixml/src/pugixml.cpp:2499-2637 | Decodes one reference over its own source; input not yet read is untouched |
| XmlReader.ConvertBlank | deps/pugixml/src/pugixml.cpp:2849-2890 | Converts one blank, taking a carriage return and line feed as one |
| XmlReader.ParseAttribute | deps/pugixml/src/pugixml.cpp:2835-2927 | Leaves exactly the decoded value, NUL-terminated, and all bytes behind the closing quote unchanged, in simple, eol and wconv mode, with or without escapes; none when unterminated |
| XmlReader.ParsePcdata | deps/pugixml/src/pugixml.cpp:2710-2759 | Leaves exactly the decoded and, if asked, trimmed text, and everything behind it unchanged, in all eight modes |
| XmlMeaning.ReferredRead | deps/pugixml/src/pugixml.cpp:2499-2637 | Each of the five names and each number between `&#` or `&#x` and a semicolon is read as a reference: to its character, and to the bytes of the number modulo 2^32 |
| XmlMeaning.ReadRefers | deps/pugixml/src/pugixml.cpp:2499-2637 | Nothing else is read as one |
| XmlMeaning.DecodeMeans | deps/pugixml/src/pugixml.cpp:2835-2927 | What both parsers leave is the text decoded piece by piece: a reference becomes what it refers to, white space and line ends become what the mode says, a carriage return and line feed together one, and every other byte stays, an ampersand that begins no reference included |
| XmlMeaning.CharacterDecoded | deps/pugixml/src/pugixml.cpp:2505-2552 | For every scalar value, decimal or hexadecimal digits with that value between `&#` or `&#x` and a semicolon decode to the UTF-8 character of that code point, whatever follows |
| XmlMeaning.TrimMeans | deps/pugixml/src/pugixml.cpp:2741-2746 | Trimming takes away all blanks, tabs and line ends at the end of a text and nothing else |
| XmlPrinter.TextOutputEscaped | deps/pugixml/src/pugixml.cpp:3977-4027 | The printed text is the escaped value, byte by byte, up to the first NUL |
| XmlMeaning.PrintMeans | deps/pugixml/src/pugixml.cpp:3977-4027 | What is printed for each byte, by place and flags: the named reference for what would begin or end markup, two decimal digits for a control character or nothing when these are skipped, and every other byte itself |
| XmlPrinter.RoundTrip | deps/pugixml/src/pugixml.cpp:3977-4027 | What is printed for a NUL-free attribute value decodes to the value in every mode with escapes; for text when line ends are kept or it has no carriage return |
| XmlPrinter.RoundTripLineEnds | deps/pugixml/src/pugixml.cpp:3977-4027 | Text read back with line ends converted is the text with its line ends converted |
| XmlPrinter.TextRoundTripExactly | deps/pugixml/src/pugixml.cpp:3977-4027 | Text comes back unchanged if and only if line ends are kept or it has no carriage return, and it is not trimmed or does not end in white space |
| XmlPrinter.SkipIsDrop | deps/pugixml/src/pugixml.cpp:4017-4024 | Skipping control characters prints what is printed without them |
| IntegerText.StringToInteger | deps/pugixml/src/pugixml.cpp:4570-4651 | In wrapping arithmetic of 16, 32 or 64 bits: the value of the text clamped to [lo, hi], for digit strings of any length, decimal or hexadecimal |
| IntegerText.TextValueMeans | deps/pugixml/src/pugixml.cpp:4570-4600 | The value of a text: blanks, an optional `-` or `+`, decimal digits or hexadecimal ones behind `0x` or `0X`, and whatever is no digit; the digits in their base, negative behind `-` |
| IntegerText.DecimalOverflowExact | deps/pugixml/src/pugixml.cpp:4629-4637 | The test on digit count, leading digit and high bit detects overflow exactly |
| IntegerText.HexOverflowExact | deps/pugixml/src/pugixml.cpp:4607-4609 | The test on the digit count detects hexadecimal overflow exactly |
| IntegerText.Saturated | deps/pugixml/src/pugixml.cpp:4640-4650 | Saturation on the wrapped magnitude is clamping of the true value, for both signs |
| IntegerText.IntegerToString | deps/pugixml/src/pugixml.cpp:4702-4720 | Writes the signed decimal at the end of the buffer, and never passes its beginning |
| IntegerText.RoundTrip | deps/pugixml/src/pugixml.cpp:4570-4720 | The text written for any integer has that integer as its value |
| IntegerText.WriteAndRead | deps/pugixml/src/pugixml.cpp:4570-4720 | Writing and then reading back, both in wrapping words of 16, 32 or 64 bits, signed or unsigned, gives every representable integer itself |
| ProbedSet.ProbesDiffer | deps/pugixml/src/pugixml.cpp:8114-8130 | Triangular probes over a power of two differ from one another |
| ProbedSet.ProbesReachAll | deps/pugixml/src/pugixml.cpp:8114-8130 | Every slot is probed |
| ProbedSet.HashInsert | deps/pugixml/src/pugixml.cpp:8101-8134 | Inserts exactly when the key is new, and never falls off the end while a slot is free |
| ProbedSet.RemoveByHash | deps/pugixml/src/pugixml.cpp:9509-9545 | Keeps exactly the first occurrence of each node, in order, in place |
| ProbedSet.OccurrencesAreUnique | deps/pugixml/src/pugixml.cpp:9509-9545 | First occurrences are distinct, have the same members, and come in the original order |
| ProbedSet.OccurrencesAreFirsts | deps/pugixml/src/pugixml.cpp:9523-9530 | When no address stands for two nodes, what is kept is, in order, every node and every attribute that is not null and not among the earlier ones |
| NodeSort.InsertionSort | deps/pugixml/src/pugixml.cpp:8010-8030 | Sorts a range of nodes into document order, comparing as the source does, and rearranges nothing else |
| NodeSort.Partition3 | deps/pugixml/src/pugixml.cpp:8044-8069 | Nodes before the pivot, the pivot, and nodes behind it in three groups, in place |
| NodeSort.Median3 | deps/pugixml/src/pugixml.cpp:8032-8042 | The position returned is that of a median of the three; no element moves |
| NodeSort.Sort | deps/pugixml/src/pugixml.cpp:8071-8099 | A permutation of the range in document order, for any array of nodes of the document and any length, with recursion at most log2 of it deep |
| NodeSort.Less | deps/pugixml/src/pugixml.cpp:8670-8722 | The comparator decides, through the pointer walks, whether one node has the smaller preorder number; false for a node and itself |
| NodeSort.GetOrder | deps/pugixml/src/pugixml.cpp:9365-9379 | Comparing neighbours finds exactly whether the whole set strictly rises, or else never rises, in document order |
| NodeSort.Reverse | deps/pugixml/src/pugixml.cpp:7979-7983 | Reads the array backwards, in place |
| NodeSort.XPathSort | deps/pugixml/src/pugixml.cpp:9381-9402 | For any array of nodes of one document: ends as a permutation of it in document order, or in reverse document order when asked, whether the set was marked as ordered, was found to be ordered, or had to be sorted |
| NodeSort.OrderIsUnique | deps/pugixml/src/pugixml.cpp:9381-9402 | Two arrays in document order with the same nodes are equal, so sorting has only one possible result |
| NodeSort.XPathFirst | deps/pugixml/src/pugixml.cpp:9404-9422 | The node returned is in the set and before all others in document order, whichever order the set is in; none exactly for the empty set |
| NodeSort.Unique | deps/pugixml/src/pugixml.cpp:7985-8008 | Keeps, in place, every element that differs from the one before it, and only those |
| NodeSort.CollapsedSet | deps/pugixml/src/pugixml.cpp:7985-8008 | For a set in document order or its reverse this leaves each node exactly once, in the same order |
| PageAllocator.Allocator.constructor | deps/pugixml/src/pugixml.cpp:7503-7544 | A document starts with one full sentinel page |
| PageAllocator.Allocator.AllocateMemory | deps/pugixml/src/pugixml.cpp:578-590 | The new block overlaps no live one and all books stay exact; a page is added only when the last one is too full |
| PageAllocator.Allocator.AllocateMemoryOob | deps/pugixml/src/pugixml.cpp:744-781 | A new last page for a small block; a page of its own, in front of the last, for a large one |
| PageAllocator.Allocator.DeallocateMemory | deps/pugixml/src/pugixml.cpp:630-672 | Exactly the one block goes, and the books stay exact; its page leaves the list, and nothing else changes in it, exactly when it is not the last page and no live block is left on it |
| PageAllocator.Allocator.FreeBytes | deps/pugixml/src/pugixml.cpp:632-671 | The bookkeeping does one of three things: counts, resets the last page, or unlinks the page |
| PageAllocator.Allocator.AllocateString | deps/pugixml/src/pugixml.cpp:674-706 | Reserves header and characters, rounded up, and writes a header in 16-bit units that encodes the block |
| PageAllocator.Allocator.DeallocateString | deps/pugixml/src/pugixml.cpp:708-725 | Frees, from the header alone, exactly the block reserved for the string, also when it is too large to be encoded, and its page under the same condition |
| PageAllocator.PagesAreHeld | deps/pugixml/src/pugixml.cpp:640-671 | Every page but the first and the last holds a live block |
| PageAllocator.NothingLeaks | deps/pugixml/src/pugixml.cpp:630-671 | Once every block is freed only the first page and the last one are left, and the last one is empty |
| PageAllocator.HeaderTells | deps/pugixml/src/pugixml.cpp:708-725 | A header gives back page and size of its block |
| PageAllocator.ChainRemove | deps/pugixml/src/pugixml.cpp:658-664 | Unlinking an inner page leaves a properly linked list of the others |
| DomTree.Tree.AppendNode | deps/pugixml/src/pugixml.cpp:1268-1287 | Acts as adding at the end of the child list; cyclic prev and null-terminated next hold for all lists |
| DomTree.Tree.PrependNode | deps/pugixml/src/pugixml.cpp:1289-1305 | Acts as adding at the front |
| DomTree.Tree.InsertNodeAfter | deps/pugixml/src/pugixml.cpp:1307-1324 | Acts as inserting right behind the given child |
| DomTree.Tree.InsertNodeBefore | deps/pugixml/src/pugixml.cpp:1326-1343 | Acts as inserting right in front of it |
| DomTree.Tree.RemoveNode | deps/pugixml/src/pugixml.cpp:1345-1365 | Acts as taking one child out, which is left without parent and siblings |
| DomTree.Tree.AppendNewNode | deps/pugixml/src/pugixml.cpp:1449-1459 | A new node at the end of the list, all others as they were |
| DomTree.Relinked | deps/pugixml/src/pugixml.cpp:1268-1365 | Relinking one list keeps all other lists and every parent link |
| DomMove.AllowMove | deps/pugixml/src/pugixml.cpp:4427-4458 | True exactly when the kinds fit, both nodes are in one document, and the target is not under the node moved; elements take all kinds but document, null, declaration and doctype, documents all but document and null, no other node any |
| DomMove.AppendMove | deps/pugixml/src/pugixml.cpp:6467-6481 | Moves exactly when allowed; the result is an acyclic document, every node in the document it was in; the child lists are the old ones with the moved node left out of its list and put last in the target list |
| DomMove.PrependMove | deps/pugixml/src/pugixml.cpp:6483-6497 | The same with the moved node put first |
| DomMove.InsertMoveAfter | deps/pugixml/src/pugixml.cpp:6499-6515 | The same with the moved node put right behind a child of the target |
| DomMove.InsertMoveBefore | deps/pugixml/src/pugixml.cpp:6517-6533 | The same with the moved node put right in front of it |
| DomMove.MoveRanked | deps/pugixml/src/pugixml.cpp:4436-4458 | A move to a target that is not under the moved node makes no cycle |
| DomMove.MoveTop | deps/pugixml/src/pugixml.cpp:4436-4458 | A move inside a document leaves every node in the document it was in |
| DomCopy.CopyTree | deps/pugixml/src/pugixml.cpp:4500-4552 | Ends, and the copy is isomorphic to the source subtree as it was before, without the copy itself when that lies inside; all other nodes are unchanged |
| DomCopy.AppendCopy | deps/pugixml/src/pugixml.cpp:4516-4531 | One node copied under its image keeps what holds of the copy so far |
| DomCopy.NextNode | deps/pugixml/src/pugixml.cpp:4533-4548 | Going to the next sibling, or up until there is one, leads to the next node to copy or to the end |
| DocumentOrder.NodeIsBefore | deps/pugixml/src/pugixml.cpp:8589-8630 | For two different nodes of one document: true exactly when the first has the smaller preorder number |
| DocumentOrder.IsBeforeSibling | deps/pugixml/src/pugixml.cpp:8565-8587 | Following both sibling chains decides which of two siblings comes first |
| DocumentOrder.ClimbTogether | deps/pugixml/src/pugixml.cpp:8591-8599 | Climbing in step finds equal parents, or tells which node is higher and by how much |
| DocumentOrder.CompareUneven | deps/pugixml/src/pugixml.cpp:8604-8629 | Nodes of different height are brought to one height and compared; an ancestor comes first |
| DocumentOrder.SiblingsDecide | deps/pugixml/src/pugixml.cpp:8565-8630 | Nodes in subtrees of different siblings are ordered as the siblings are |
| DocumentNumbers.DocumentIsNumbered | deps/pugixml/src/pugixml.cpp:8565-8630 | Every linked, acyclic document has a preorder numbering that the links obey, and it numbers exactly the nodes under the root |
| DocumentNumbers.PreorderNumbers | deps/pugixml/src/pugixml.cpp:8565-8630 | The preorder listing, with subtrees as intervals, is such a numbering |
| XPathAxes.Descendants | deps/pugixml/src/pugixml.cpp:10504-10534 | The walk lists exactly the descendants that pass the test, in document order |
| XPathAxes.Following | deps/pugixml/src/pugixml.cpp:10554-10589 | The walk lists exactly the nodes after the subtree, in document order |
| XPathAxes.Preceding | deps/pugixml/src/pugixml.cpp:10591-10631 | The walk lists exactly the earlier nodes that are no ancestors, in reverse document order |
| XPathAxes.Ancestors | deps/pugixml/src/pugixml.cpp:10633-10651 | The walk lists exactly the ancestors, in reverse document order |
| XPathAxes.NodeIsAncestor | deps/pugixml/src/pugixml.cpp:8632-8637 | True exactly for the node itself and its ancestors |
| XPathAxes.PickedMeans | deps/pugixml/src/pugixml.cpp:10480-10502 | What a walk pushes are, in order and each at its place, exactly the nodes of the axis that pass the test |
| XPathAxes.AxesPartition | deps/pugixml/src/pugixml.cpp:10480-10671 | Self, ancestor, descendant, preceding and following are pairwise disjoint and cover the document (section 2.2 of XPath 1.0) |
| XPathAxes.AxesOrdered | deps/pugixml/src/pugixml.cpp:10765-10769 | Each axis is without repeats and in the declared order |
| Translation.TranslateTableGenerate | deps/pugixml/src/pugixml.cpp:9117-9147 | The table built is exactly that of the first matches; there is one exactly when all characters of `from` and their counterparts are ASCII |
| Translation.TableIsTranslate | deps/pugixml/src/pugixml.cpp:9095-9177 | Looking up the table gives the same text as searching |
| Translation.TranslateBySearch | deps/pugixml/src/pugixml.cpp:9095-9115 | The text left by searching, in place: the same, for every character set |
| Translation.TranslateMeans | deps/pugixml/src/pugixml.cpp:9095-9115 | The text that `Translate` gives lists, in order, what the characters that remain turn into, and only those |
| Translation.TranslateInPlace | deps/pugixml/src/pugixml.cpp:9149-9177 | The text left by the table, in place: characters absent from `from` stay, one whose first place in `from` has a counterpart becomes that, all others are gone, in the old order and nothing else; the write position never passes the read position |
| XPathOptimizer.OptimizePreserves | deps/pugixml/src/pugixml.cpp:11551-11627 | For every document, context and query the optimized expression evaluates to the same node set, string, number or boolean |
| XPathOptimizer.MergeSame | deps/pugixml/src/pugixml.cpp:11593-11607 | descendant-or-self::node() followed by a step is one step of the merged axis when every predicate is position-invariant |
| XPathOptimizer.PredSame | deps/pugixml/src/pugixml.cpp:11568-11591 | A predicate keeps the same nodes in the same order once position()= is dropped and it is classified |
| XPathOptimizer.PickIsKeep | deps/pugixml/src/pugixml.cpp:10312-10339 | Picking the node at a constant position is filtering by that position |
| XPathOptimizer.FilterSame | deps/pugixml/src/pugixml.cpp:11577-11591 | A position-invariant filter does not depend on the order of the set, which is then not sorted |
| XPathOptimizer.AttributeSame | deps/pugixml/src/pugixml.cpp:11617-11626 | The fast attribute comparison equals the comparison of the attribute step |
| XPathOptimizer.PositionFreeValue | deps/pugixml/src/pugixml.cpp:11629-11657 | What is_posinv_expr accepts has the same value at every position |
| XPathOptimizer.NodeSetFree | deps/pugixml/src/pugixml.cpp:11643-11649 | A node set never depends on the position or size of the context |
| XPathOptimizer.MergeMade | deps/pugixml/src/pugixml.cpp:11590-11604 | //x is in fact merged into one step on each of the four axes, also with an attribute comparison as predicate |
| XPathOptimizer.PositionMade | deps/pugixml/src/pugixml.cpp:11568-11588 | In //x[position()=n] the predicate is shortened and constant, and the steps stay two |
| XPathOptimizer.AttributeMade | deps/pugixml/src/pugixml.cpp:11620-11628 | @name='value' and @name=$value become one comparison, which is position-free |
| XPathOptimizer.TableMade | deps/pugixml/src/pugixml.cpp:11606-11618 | translate() with constant ASCII arguments uses the table of these |
| XPathTree.Query.IsPosInvExpr | deps/pugixml/src/pugixml.cpp:11629-11657 | The recursion over the links decides position invariance of the expression they spell |
| XPathTree.Query.OptimizeSelf | deps/pugixml/src/pugixml.cpp:11566-11627 | The rewrites of one node, in their order, written into that node only |
| XPathTree.Query.Optimize | deps/pugixml/src/pugixml.cpp:11551-11564 | Operands and list first, then the node: the links then spell the optimized tree, nodes outside are untouched |
| XPathTree.OptTreeIs | deps/pugixml/src/pugixml.cpp:11551-11627 | The tree optimized in place is the linked form of the optimized expression |
| XPathTree.Query.OptimizeQuery | deps/pugixml/src/pugixml.cpp:11551-11627 | A query optimized in place evaluates to the same in every document and context |

## Left out

- TextToFloat.FromChars: texts of more than 2^31 - 655360 characters, on which the position of the point can leave 32 bits; the overload with an end pointer, which runs the same steps on a bounded text.
- Powers of five: the digits of 5^shift are a definition, not the table of the source.
- simdjson's vector back ends, run-time dispatch, the structural scanner and stage 2.
- Utf8Validator.ValidateUtf8: positions are unbounded; a buffer is taken to be shorter than 2^64 bytes.
- Allocation failure everywhere; compact and wide-character modes; shared-string flags; files, streams and handle wrappers.
- PageAllocator.Allocator.AllocateMemory: where the system puts a new page is a parameter, required only to overlap no page in use; a large block before any small one, on which the source fails its own assertion, is excluded.
- PageAllocator.Allocator.AllocateString: what is stored in a block, apart from string headers, is not modelled.
- DomTree.Tree.AppendNode: the nodes are records of one sequence, so memory of removed nodes is not given back; name, value and attributes are one field.
- DomCopy.CopyTree: copying between documents and the sharing of strings.
- DocumentOrder.NodeIsBefore: a node compared with itself, nodes of different documents, attributes, and the comparison by buffer address.
- NodeSort.XPathSort: sets that hold attributes or nodes of several documents, and the comparison by buffer address.
- XPathAxes.Descendants: the early stop after one node, and the attribute, child, sibling, parent and self axes, which are single loops or steps.
- XPathOptimizer.OptimizePreserves: evaluation is a definition over sets and lists, not the evaluator with its buffers and early stops; functions and operators that no rewrite looks at are parameters, apart from `id`, which gives the empty set.
- XPathTree.Query.Optimize: the class of a constant position one is not told apart from other constants, since it only allows stopping early; the evaluator is not run on the rewritten nodes.
- Translation.TranslateInPlace: characters are single codes, and the text is a whole array instead of ending at a NUL.
- XmlReader.ParseAttribute: the mode that normalises white space; comments and CDATA.
- XmlPrinter.TextOutputEscaped: the buffered writer; output is a sequence of bytes.
- IntegerText.StringToInteger: floating-point conversions.
- EmphasisScanner.CollectMarks: code spans, entities, autolinks, brackets, `$` and tables are taken to be absent, and white space is not collapsed; white space and punctuation are given predicates; a line is one paragraph.
- EmphasisResolver.Inlines.AnalyzeTilde: strikethrough is taken to be switched on.
- LinkLabels.CompareLabels: folding and white space are given functions; a label holds no line break, since those are joined by spaces before.
- RefDefs.BuildTable: the library sort and search are written out as an insertion sort and a binary search, of which only the contract is used.
- ModuleGraph.BuildModuleGraph: the order in which the hash map lists its keys is a parameter; the node tree is a map giving enabled, priority and depends.
- DependencyOrder.TopoSort: the heap is a set from which the least entry is taken.
- ModuleLifecycle.Exec: plugins, configuration files, the main loop and logging; which factories can create an instance is a parameter.
- The rest of md4c, the Qt files, the network service and header-only files.
