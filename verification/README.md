# Proofs about the run-time core of libc++, libc++abi and their CUDA fork

The repository holds a C++ standard library and the run-time support that compiled C++ code calls. Most of it is
headers; the source files with algorithms of their own are modelled here, one group of Dafny modules each, and what
their comments, their documentation and the Itanium C++ ABI promise is proved for all inputs or for all runs.

* **Casts and catches** (`class_hierarchy`, `cast_*`, `dynamic_cast`, `catch_search`, `catch_ambiguity`). A class is a value with an
  ordered list of bases, each with its offset or its offset in the vtable, and with the two flags of
  `__vmi_class_type_info`. The rule for `dynamic_cast` in words is `CastFindings.IsCastResult`; the unpruned search
  is `CastFindings.Full`; the pruned, flag-driven search is `CastSearch`, and `DynamicCasting` is the same search
  updating the fields of the search record.
* **Primes** (`primes` to `next_prime`, `mersenne_prime`). The wheel search of `__next_prime`, with the two limits of its overflow check
  proved prime by certificates, so that nothing about primes is assumed.
* **Unicode conversions** (`unicode_forms`, `transcoding`, `utf8_*`, `utf16_codecs`, `ucs2_codecs`, `converters`). One turn of a
  converter's loop is a function from the rest of the input to what the turn consumes and emits; `Transcoding.Run` is
  the loop with its room checks; `Converters` writes it out over output arrays.
* **Protocols** (`guard_bytes`, `futex_guard`, `mutex_guard`, `call_once`, `shared_mutex`, `shared_weak_count`). Each is a state
  machine whose steps are the atomic operations and critical sections of the source, interleaved in any way.
* **Stateful run-time structures**: the emergency heap (`heap_layout`, `heap_operations`, `emergency_heap`), the debug
  database (`chain_table`, `debug_table`, `iterator_links`, `debug_database`), caught exceptions (`caught_stack`,
  `exception_ownership`), exception tables (`leb128`, `exception_table`, `personality`), arrays of objects
  (`array_calls`, `array_lifecycle`) and generalized slices (`gslice`).

Where the code does not do what it is documented or meant to do, the model keeps the code, and a lemma says exactly
when the promise holds:

| what fails | when exactly | members |
|---|---|---|
| a handler for an ambiguous base class can catch | below a class whose first base completes the ambiguity, the second base leads publicly back to the address met first, and nothing elsewhere is met after that | `CatchesRightlyUnless`, `AmbiguousBaseIsCaught` |
| UTF-16 to UTF-8 and back loses text | the lead byte of a two-byte character exceeds the maximal code | `Utf16RoundTrip`, `LimitLosesText` |
| UCS-4 to UTF-8 or UTF-16 and back loses text | the maximal code is above the last code point, and so is a number in the text | `Ucs4RoundTrips`, `RoundTrips` |
| freeing a chunk loses the rest of the free list, or its end | a right merge behind the head of the list, unless the merged chunk's successor in the list is the chunk at offset 0 | `FreeKeepsOrder`, `FreeListBecomesCyclic` |
| an allocation is too small for its payload | the rounding addition wraps around | `PayloadFits`, `WrappedSizeIsTooSmall` |
| a failed registration of an iterator loses others | its bucket was not empty | `PushFails`, `InsertI`, `BucketInUse` |
| the indices of a generalized slice are written past the end of their array | the product of the sizes is a word or more, and not a multiple of 2^64 | `Init`, `SizesThatOverflow` |
| sized array deletion passes another size | there is no padding and the elements take room | `DeletedSizeIsAllocatedSize`, `UnpaddedSizeIsLost` |
| a copied iterator points to a container that does not list it | it comes to a full container that it was not in, and there is no memory for a larger array | `Reassign`, `IteratorCopy`, `AstrayIsInvalid`, `CopyGoesAstray` |
| an exception is destroyed while a handler for it runs | a foreign runtime catches it although it has a handler left, and it has no further reference | `ForeignCatchSpares`, `DestroyedInHandler` |
| references, handler counts and frames disagree, and an exception can be destroyed in flight | an exception is rethrown while it is in flight, or a foreign runtime catches it although it has a handler left | `CallInv`, `OnlyOrderlyRuns`, `DestroyedInFlight` |
| the count of uncaught exceptions is too high | by one for each native exception that a foreign runtime caught | `UncaughtCounts`, `ForeignCatchLeavesCount` |

Conventions. Machine integers are unbounded numbers with the wrap-around written out. Masks and shifts are written as
remainders, quotients and products. Atomic operations are sequentially consistent. What the system, user code or
another library decides (whether `malloc` or a constructor succeeds, which thread moves next, what a hash is, which
handler types catch an exception) is a parameter. Pointers are numbers; NULL is 0, or -1 in the heap, whose offsets
begin at 0. Exceptions and aborts are values of the result or states of a thread.

## Model

| member | source | states |
|---|---|---|
| ClassHierarchy.ReachesTransitive | libcxxabi/src/private_typeinfo.cpp:1260-1298 | base subobjects of base subobjects are base subobjects, at the addresses that offsets and vtables give |
| ClassHierarchy.ReachedClassIsBase | libcxxabi/src/private_typeinfo.cpp:571-588 | a subobject's class is a base of the class it was reached from |
| CastFindings.CastTargetIsUnique | libcxxabi/src/private_typeinfo.cpp:590-604 | the rule in words allows at most one result |
| CastFindings.FullFindsDst | libcxxabi/src/private_typeinfo.cpp:795-835 | the unpruned search meets exactly the destination subobjects of the hierarchy |
| CastFindings.FullFindsStatic | libcxxabi/src/private_typeinfo.cpp:795-835 | it sees the source subobject publicly exactly if there is an all-public path, unless a destination leads there |
| CastFindings.FullFindsPathToDst | libcxxabi/src/private_typeinfo.cpp:795-835 | it records a public path to a destination exactly if there is one |
| CastFindings.FullDecidesRule | libcxxabi/src/private_typeinfo.cpp:590-604 | what the unpruned search finds is all that the rule in words asks for |
| CastAbove.StopWithoutSharedBase | libcxxabi/src/private_typeinfo.cpp:1156-1225 | without a shared base, a subobject met through one base is not met through a later one |
| CastAbove.StopWithoutRepeatedClass | libcxxabi/src/private_typeinfo.cpp:1156-1225 | without a repeated class, another subobject of the source class met through one base excludes the right one later |
| CastAbove.StopAboveIsSafe | libcxxabi/src/private_typeinfo.cpp:1185-1222 | each early exit above a destination leaves the recorded route and the two found flags as the full search leaves them |
| CastAbove.SearchAboveReports | libcxxabi/src/private_typeinfo.cpp:1135-1258 | the search above a destination reports exactly what lies above it, although it may stop early |
| CastBelow.DecideLeadsReports | libcxxabi/src/private_typeinfo.cpp:837-1005 | for a new destination the search decides whether it leads to the source subobject and whether its class derives from the source class at all |
| CastBelow.RevisitStands | libcxxabi/src/private_typeinfo.cpp:770-792 | a destination that was looked at before contributes its path only |
| CastBelow.StopBelowIsSafe | libcxxabi/src/private_typeinfo.cpp:837-1005 | each early exit below the destination type leaves a state that still stands for all findings of the bases it skips |
| CastBelow.SearchBelowStands | libcxxabi/src/private_typeinfo.cpp:837-1130 | the pruned search's state stands for the findings of the unpruned search, over all hierarchies whose flags hold |
| CastBelow.AnswerIsCastResult | libcxxabi/src/private_typeinfo.cpp:656-706 | the answer read off the counters and paths is the one the rule in words gives |
| CastBelow.DynamicCastFollowsRule | libcxxabi/src/private_typeinfo.cpp:571-707 | `__dynamic_cast` returns exactly what the rule in words specifies |
| CastBelow.ShortCutFollowsRule | libcxxabi/src/private_typeinfo.cpp:628-656 | casting to the class of the complete object returns the object if and only if there is a public path from it to the source subobject, as the rule demands |
| DynamicCasting.DynamicCastInfo.ProcessStaticTypeAboveDst | libcxxabi/src/private_typeinfo.cpp:723-768 | a path to an object of the source class above a destination is taken into the recorded route: first destination, best access, ambiguity, and when the search is over; the found flags tell whether it was the right object |
| DynamicCasting.DynamicCastInfo.ProcessStaticTypeBelowDst | libcxxabi/src/private_typeinfo.cpp:770-793 | whatever findings the record stands for, afterwards it stands for them joined with this path to the source class |
| DynamicCasting.DynamicCastInfo.SearchAboveDst | libcxxabi/src/private_typeinfo.cpp:1156-1278 | the search above, updating the record, refines the specification |
| DynamicCasting.DynamicCastInfo.SearchBelowDst | libcxxabi/src/private_typeinfo.cpp:837-1130 | the search below, updating the record, refines the specification |
| DynamicCasting.DynamicCast | libcxxabi/src/private_typeinfo.cpp:611-707 | the stateful search returns what the rule in words specifies |
| CatchSearch.CatchInfo.ProcessFoundBaseClass | libcxxabi/src/private_typeinfo.cpp:240-266 | the record remembers one more visit: first address, number of addresses, access |
| CatchSearch.CatchInfo.HasUnambiguousPublicBase | libcxxabi/src/private_typeinfo.cpp:269-332 | the record remembers all visits of the search |
| CatchSearch.VisitsAreReal | libcxxabi/src/private_typeinfo.cpp:269-332 | every visit is of a base subobject, reached publicly if the visit says so |
| CatchSearch.VisitsAreComplete | libcxxabi/src/private_typeinfo.cpp:310-332 | every base subobject is visited, with its public path if it has one, or two addresses were met |
| CatchSearch.OneAddressDecides | libcxxabi/src/private_typeinfo.cpp:240-332 | if one address was met it is the only one, and the recorded access is public exactly if an all-public path exists |
| CatchSearch.NumberClassifies | libcxxabi/src/private_typeinfo.cpp:240-332 | `number_to_static_ptr` is 0, 1 or more exactly as there are no, one or several base addresses of the handler's class |
| CatchAmbiguity.SearchMeaning | libcxxabi/src/private_typeinfo.cpp:240-332 | the search ends with a public path exactly if there is an unambiguous public base, or the hierarchy is of the kind `CaughtThoughAmbiguous`: below a class whose first base completes the ambiguity the second base leads publicly back to the address that is met first |
| CatchAmbiguity.CanCatch | libcxxabi/src/private_typeinfo.cpp:214-237 | a handler catches exactly those two kinds, at the address met first; an unambiguous public base is always caught, at its address |
| CatchAmbiguity.CatchesRightlyUnless | libcxxabi/src/private_typeinfo.cpp:214-332 | it catches exactly unambiguous public bases if and only if the hierarchy is not of that kind, which is read off the bases, offsets and vtables |
| CatchAmbiguity.UnsharedIsCaughtRightly | libcxxabi/src/private_typeinfo.cpp:214-332 | so it does if no class reaches one subobject of the handler's class through two of its bases |
| CatchAmbiguity.AmbiguousBaseIsCaught | libcxxabi/src/private_typeinfo.cpp:310-332 | a hierarchy of that kind |
| PrimeTables.SmallPrimeIsPrime | libcxx/src/hash.cpp:22-72 | the entries of `small_primes` after the first are prime |
| PrimeTables.SmallGapIsComposite | libcxx/src/hash.cpp:22-72 | no prime lies between two entries |
| PrimeTables.WheelStep | libcxx/src/hash.cpp:74-128 | `indices` and the 48 increments visit exactly the numbers that 2, 3, 5 and 7 do not divide |
| LargePrimes.PrimeDivisorsAreOneMore | libcxx/src/hash.cpp:149-167 | Pocklington's criterion, used for the limits of the overflow check |
| PrimeCertificates.Limit32 | libcxx/src/hash.cpp:149-156 | 0xFFFFFFFB is prime |
| PrimeCertificates.Limit64 | libcxx/src/hash.cpp:158-167 | 0xFFFFFFFFFFFFFFC5 is prime |
| Fermat.LittleTheorem | libcxx/src/hash.cpp:149-167 | Fermat's little theorem, which the certificates rest on |
| NextPrimeSearch.SmallCase | libcxx/src/hash.cpp:174-176 | up to 211 the table lookup gives the next prime |
| NextPrimeSearch.FirstCandidate | libcxx/src/hash.cpp:183-187 | no prime lies between n and the first candidate |
| NextPrimeSearch.TrySmallPrimes | libcxx/src/hash.cpp:196-206 | division by the table's primes decides, or leaves no divisor below 211 |
| NextPrimeSearch.NextDivisor | libcxx/src/hash.cpp:207-546 | the way to the next trial divisor skips no divisor and does not wrap around |
| NextPrimeSearch.TryWheel | libcxx/src/hash.cpp:207-546 | stopping at `q < i` decides whether the candidate is prime |
| NextPrimeSearch.TrialDivision | libcxx/src/hash.cpp:196-546 | a candidate passes exactly if it is prime |
| NextPrimeSearch.NextCandidate | libcxx/src/hash.cpp:549-557 | after a composite candidate the next one fits the word and no prime lies between |
| NextPrimeSearch.SearchIsBounded | libcxx/src/hash.cpp:183-559 | without a word to overflow the search ends as well: a prime that is at least n, of which there is one, is never passed |
| NextPrimeSearch.Advance | libcxx/src/hash.cpp:549-557 | the same for the code that moves to it |
| NextPrimeSearch.SearchCandidates | libcxx/src/hash.cpp:183-559 | the loop ends with the least prime that is at least n |
| NextPrimeSearch.NextPrime | libcxx/src/hash.cpp:169-559 | 0 for 0, otherwise the least prime that is at least n, or an overflow report exactly above the limit |
| UnicodeForms.Utf8Unique | libcxx/src/locale.cpp:2221-2388 | no code point has two UTF-8 forms in RFC 3629 |
| UnicodeForms.Utf16Unique | libcxx/src/locale.cpp:1724-1799 | no code point has two UTF-16 forms in RFC 2781 |
| Transcoding.Resume | libcxx/src/locale.cpp:1724-2388 | stopping on full output or at the end of the input and going on gives the output and status of one call |
| Transcoding.Ends | libcxx/src/locale.cpp:1724-2388 | with enough room a conversion takes the good characters its input begins with, writes what it would write for them alone, and what is left decides how it ends: ok if nothing is, partial if it is cut short, else an error |
| Transcoding.RoomDecides | libcxx/src/locale.cpp:1724-2388 | with less room the output is a beginning of that with enough, and the call ends with partial exactly if the room is not enough |
| Transcoding.RoundTrip | libcxx/src/locale.cpp:1724-2388 | turns that undo each other make conversions that undo each other |
| Transcoding.MarkComesFirst | libcxx/src/locale.cpp:1731-1740 | an encoder writes the mark and then the text, or nothing, with partial, if there is no room for the mark |
| Transcoding.OneMarkIsSkipped | libcxx/src/locale.cpp:1884-1891 | a decoder that is asked to skips exactly one mark at the beginning |
| Transcoding.MatchingHeaders | libcxx/src/locale.cpp:1731-1740 | turns that undo each other make calls that undo each other with the same header mode on both sides |
| Transcoding.MatchingHeadersIf | libcxx/src/locale.cpp:1731-1740 | so do turns that undo each other on some units only, on the texts of these units |
| Utf8Codecs.Ucs4ToUtf8Meaning | libcxx/src/locale.cpp:2221-2275 | for every limit a turn rejects exactly surrogates and what exceeds it, and writes the UTF-8 form of a code point |
| Utf8Codecs.Utf8ToUcs4Meaning | libcxx/src/locale.cpp:2277-2388 | a turn takes one UTF-8 character up to the limit and emits its code point |
| Utf8Codecs.Utf8ToUcs4Complete | libcxx/src/locale.cpp:2277-2388 | it takes every such character |
| Utf8Codecs.Utf16ToUtf8Meaning | libcxx/src/locale.cpp:1724-1799 | a turn takes one UTF-16 character and writes the UTF-8 form of its code point |
| Utf8Codecs.Utf16ToUtf8Complete | libcxx/src/locale.cpp:1724-1799 | it takes every character up to the limit |
| Utf8Codecs.CutShortMeaning | libcxx/src/locale.cpp:1724-2388 | a turn finds its input cut short exactly if there are less bytes than the first one announces, or a high surrogate alone, with the comparisons of the first unit with the limit that the code makes |
| Utf8Codecs.Utf8Beginning | libcxx/src/locale.cpp:1878-2388 | the beginning of a UTF-8 character is cut short |
| Utf8Codecs.Utf16Beginning | libcxx/src/locale.cpp:1741-1799 | so is that of a surrogate pair |
| Utf8Codecs.MalformedNeeds | libcxx/src/locale.cpp:1724-2388 | the room without which malformed input is not found: for one unit in the decoders, none in the encoders, and that of the form for a character above the limit as a surrogate pair |
| Utf8Codecs.Utf8ToUtf16Meaning | libcxx/src/locale.cpp:1878-1997 | a turn takes one UTF-8 character and writes the UTF-16 form of its code point |
| Utf8Codecs.DecodersAgree | libcxx/src/locale.cpp:1878-2388 | the two UTF-8 decoders accept the same characters, but for the lead byte that one compares with the limit |
| Utf8Theorems.Ucs4RoundTrips | libcxx/src/locale.cpp:2221-2388 | for every limit: what the UCS-4 encoder accepts comes back if and only if it is made of code points; what the decoder accepts always comes back |
| Utf8Theorems.Utf8ToUcs4Accepts | libcxx/src/locale.cpp:2277-2388 | the decoder accepts exactly the UTF8-octets of section 4 of RFC 3629, up to the limit |
| Utf8Theorems.Utf8ToUcs4Ends | libcxx/src/locale.cpp:2277-2388 | after UTF8-octets up to the limit, an incomplete character as announced by its first byte ends with partial, anything else that begins with no character up to the limit with an error |
| Utf8Theorems.Ucs4ToUtf8Accepts | libcxx/src/locale.cpp:2221-2275 | for every limit the encoder accepts exactly sequences of numbers up to the limit that are no surrogates, which are the scalar values if the limit is a code point |
| Utf8Theorems.Ucs4ToUtf8Ends | libcxx/src/locale.cpp:2221-2275 | the encoder stops with an error exactly at the first surrogate or number above the limit |
| Utf8Theorems.Utf8RoundTrip | libcxx/src/locale.cpp:1724-1997 | UTF-8 to UTF-16 and back gives the input back, whatever the limit |
| Utf8Theorems.Utf16RoundTrip | libcxx/src/locale.cpp:1724-1997 | UTF-16 to UTF-8 and back gives the input back if and only if the lead bytes of its two-byte characters are within the limit; otherwise the decoder reports an error |
| Utf8Theorems.LimitLosesText | libcxx/src/locale.cpp:1892-1896 | a limit and a text for which it does |
| Utf8Theorems.HeadersRoundTripUtf16 | libcxx/src/locale.cpp:1724-1997 | whole calls with matching header modes give exactly the texts back that come back without headers, for every limit |
| Utf8Theorems.HeadersRoundTripUcs4 | libcxx/src/locale.cpp:2221-2388 | the same for UCS-4 |
| Utf8Theorems.UnmatchedHeaderUcs4 | libcxx/src/locale.cpp:2283-2288 | when only the decoder is asked to skip a header, exactly the texts that begin with U+FEFF do not come back |
| Utf8Theorems.UnmatchedHeaderUtf16 | libcxx/src/locale.cpp:1884-1891 | the same for UTF-16 |
| Utf8Theorems.Utf8ToUtf16Accepts | libcxx/src/locale.cpp:1878-1997 | for every limit the decoder accepts exactly the texts of characters up to the limit whose first byte is within the limit too; unless the limit is 0x80 to 0xC2 these are the UTF8-octets of section 4 of RFC 3629 |
| Utf8Theorems.LeadsMakeADifference | libcxx/src/locale.cpp:1892-1896 | for each of those limits a text up to it that the decoder rejects |
| Utf8Theorems.Utf8ToUtf16Ends | libcxx/src/locale.cpp:1878-1997 | as for UCS-4, where partial needs the first byte to be within the limit as well |
| Utf8Theorems.Utf16ToUtf8Accepts | libcxx/src/locale.cpp:1724-1799 | the encoder accepts exactly the well-formed texts of RFC 2781, up to the limit |
| Utf8Theorems.Utf16ToUtf8Ends | libcxx/src/locale.cpp:1724-1799 | after well-formed UTF-16, a high surrogate alone within the limit ends with partial, anything else that begins with no character with an error |
| Utf16Codecs.Utf16ToUcs4Meaning | libcxx/src/locale.cpp:2729-2772 | a turn takes one UTF-16 character in its byte order and emits its code point |
| Utf16Codecs.Utf16ToUcs4Complete | libcxx/src/locale.cpp:2861-2904 | it takes every character up to the limit |
| Utf16Codecs.Ucs4ToUtf16Meaning | libcxx/src/locale.cpp:2684-2725 | for every limit a turn rejects exactly surrogates and what exceeds it, and writes the bytes of the UTF-16 form of a code point |
| Utf16Codecs.Ucs4ToUtf16Accepts | libcxx/src/locale.cpp:2684-2725 | the encoder accepts exactly sequences of numbers up to the limit that are no surrogates |
| Utf16Codecs.Ucs4ToUtf16Ends | libcxx/src/locale.cpp:2684-2725 | the encoder stops with an error exactly at the first surrogate or number above the limit |
| Utf16Codecs.RoundTrips | libcxx/src/locale.cpp:2684-2772 | for every limit and both byte orders: what the encoder accepts comes back if and only if it is made of code points; what the decoder accepts always comes back |
| Utf16Codecs.HeadersRoundTrip | libcxx/src/locale.cpp:2690-2696 | the same for whole calls with matching header modes |
| Utf16Codecs.UnmatchedHeader | libcxx/src/locale.cpp:2737-2741 | when only the decoder is asked to skip a header, exactly the texts that begin with U+FEFF do not come back |
| Utf16Codecs.Utf16ToUcs4Accepts | libcxx/src/locale.cpp:2816-2904 | the decoder accepts exactly the texts of RFC 2781 in its byte order, up to the limit |
| Utf16Codecs.BytesBeginning | libcxx/src/locale.cpp:2861-2904 | the beginning of a character in bytes is cut short |
| Utf16Codecs.MalformedNeeds | libcxx/src/locale.cpp:2684-2772 | the same between UCS-4 and UTF-16 bytes |
| Utf16Codecs.Utf16ToUcs4Ends | libcxx/src/locale.cpp:2729-2772 | after such a text, half a unit or a high surrogate without a complete unit behind it ends with partial, anything else that begins with no character with an error |
| Ucs2Codecs.Utf8ToUcs2Meaning | libcxx/src/locale.cpp:2534-2612 | a turn takes what the UCS-4 decoder takes with the limit lowered to 0xFFFF |
| Ucs2Codecs.Ucs2ToUtf8Meaning | libcxx/src/locale.cpp:2488-2532 | a turn writes the UTF-8 form of the code point, or rejects surrogates and what exceeds the limit |
| Ucs2Codecs.Utf8RoundTrips | libcxx/src/locale.cpp:2488-2612 | UCS-2 to UTF-8 and back, in both directions, gives the input back, for every limit |
| Ucs2Codecs.Utf16RoundTrips | libcxx/src/locale.cpp:2948-3072 | so does UCS-2 to UTF-16 in bytes, in both byte orders |
| Ucs2Codecs.Utf8ToUcs2Accepts | libcxx/src/locale.cpp:2534-2612 | the decoder accepts exactly the UTF8-octets of the basic plane, up to the limit |
| Ucs2Codecs.Utf8ToUcs2Ends | libcxx/src/locale.cpp:2534-2612 | after such a text, an incomplete character of at most three bytes ends with partial, anything else that begins with no such character with an error |
| Ucs2Codecs.Utf16ToUcs2Accepts | libcxx/src/locale.cpp:2976-2998 | the decoder accepts exactly sequences of scalar values in two bytes, up to the limit |
| Ucs2Codecs.Utf16ToUcs2Ends | libcxx/src/locale.cpp:2976-2998 | after such a text, half a unit ends with partial, any other unit with an error |
| Ucs2Codecs.EncodersEnd | libcxx/src/locale.cpp:2488-2532 | the encoders to UTF-8 and UTF-16 stop with an error exactly at the first surrogate or unit above the limit |
| Ucs2Codecs.SmallFormsNeed | libcxx/src/locale.cpp:2488-2612 | the same for UCS-2 |
| Converters.Convert | libcxx/src/locale.cpp:1741-1798 | the loop over an output array returns the status, the two next pointers and the output of `Run`, and changes nothing else |
| Converters.Encode | libcxx/src/locale.cpp:2221-2275 | an encoder call with its header mode |
| Converters.Decode | libcxx/src/locale.cpp:2277-2388 | a decoder call with its header mode |
| Converters.Measure | libcxx/src/locale.cpp:2120-2219 | a length loop counts the input that its decoder consumes for the given number of units |
| Converters.Utf8ToUtf16Length | libcxx/src/locale.cpp:2120-2219 | the length equals the input consumed by the decoder, for every limit, mode and input |
| Converters.Utf8ToUcs4Length | libcxx/src/locale.cpp:2390-2486 | the same for UCS-4 |
| Converters.Utf16ToUcs4Length | libcxx/src/locale.cpp:2774-2946 | the same for UTF-16 in bytes, both byte orders |
| Converters.Utf8ToUcs2Length | libcxx/src/locale.cpp:2615-2682 | the same for UCS-2 from UTF-8 |
| Converters.Utf16ToUcs2Length | libcxx/src/locale.cpp:3000-3095 | and from UTF-16 in bytes, both byte orders |
| FutexGuard.RunKeepsInv | libcxxabi/src/cxa_guard_impl.h:429-512 | the invariant holds in every run of any number of threads |
| FutexGuard.Safety | libcxxabi/src/cxa_guard_impl.h:201-512 | at most one thread initializes; done is returned only when the guard byte is set; only the initializer is terminated for recursion |
| FutexGuard.SleepersAreWoken | libcxxabi/src/cxa_guard_impl.h:445-502 | a sleeper implies PENDING and WAITING with a thread initializing, or a thread that owes the wake-up |
| FutexGuard.WakeUpWakes | libcxxabi/src/cxa_guard_impl.h:489-502 | a release or abort with sleepers comes to owe the wake-up, and the wake-up leaves no sleeper |
| FutexGuard.CompleteIsAbsorbing | libcxxabi/src/cxa_guard_impl.h:445-502 | completion is for good |
| FutexGuard.ReleaseComesFirst | libcxxabi/src/cxa_guard_impl.h:201-218 | the guard byte is set by a release of the initializing thread and nothing else |
| FutexGuard.AbortReopens | libcxxabi/src/cxa_guard_impl.h:495-502 | after an abort the next thread to come initializes |
| FutexGuard.RecursionTerminates | libcxxabi/src/cxa_guard_impl.h:452-466 | a thread that acquires again while it initializes can only go on to be terminated |
| FutexGuard.CallsBegin | libcxxabi/src/cxa_guard_impl.h:201-218 | acquire, release and abort begin; the last two by the initializing thread |
| FutexGuard.DoneReturns | libcxxabi/src/cxa_guard_impl.h:445-450 | once the initialization is complete every step of an acquire brings it nearer to its end, and who looks goes on to return |
| FutexGuard.OpenIsClaimed | libcxxabi/src/cxa_guard_impl.h:445-456 | who comes to an open object initializes |
| FutexGuard.PendingSleeps | libcxxabi/src/cxa_guard_impl.h:457-486 | who comes to an object that another thread is initializing sets WAITING and sleeps as long as it finds it set and the guard byte clear |
| FutexGuard.OpenIsComeToAgain | libcxxabi/src/cxa_guard_impl.h:471-482 | who finds it open then comes to it again |
| FutexGuard.EndingsEnd | libcxxabi/src/cxa_guard_impl.h:489-502 | every step of a release or abort brings it nearer to its end, with the guard complete or open again; it wakes exactly if WAITING was set |
| FutexGuard.OthersStay | libcxxabi/src/cxa_guard_impl.h:429-512 | a thread is changed by another only by a wake-up, and only if it sleeps |
| MutexGuard.RunKeepsInv | libcxxabi/src/cxa_guard_impl.h:298-363 | the invariant of the mutex and condition variable guard, for any number of guards and threads |
| MutexGuard.OneInitializer | libcxxabi/src/cxa_guard_impl.h:201-363 | no two threads initialize the variable of one guard |
| MutexGuard.Safety | libcxxabi/src/cxa_guard_impl.h:201-363 | for every thread: done is returned only when the guard byte is set; only the initializer is terminated for recursion |
| MutexGuard.ReleaseComesFirst | libcxxabi/src/cxa_guard_impl.h:201-218 | a guard byte is set by a release of the initializing thread and nothing else |
| MutexGuard.AbortReopens | libcxxabi/src/cxa_guard_impl.h:349-363 | an abort leaves the guard as it was before, and nobody initializing |
| MutexGuard.OpenIsClaimed | libcxxabi/src/cxa_guard_impl.h:321-333 | the next thread to look at an open guard initializes its variable |
| MutexGuard.RecursionTerminates | libcxxabi/src/cxa_guard_impl.h:311-318 | a thread that acquires again while it initializes can only go on to be terminated |
| MutexGuard.SleepersAreWoken | libcxxabi/src/cxa_guard_impl.h:311-363 | a sleeper implies that its variable is being initialized or a broadcast is owed; a broadcast wakes all |
| MutexGuard.EndOwesBroadcast | libcxxabi/src/cxa_guard_impl.h:335-363 | ending an initialization with sleepers leads to the broadcast after the unlock |
| MutexGuard.CompleteIsAbsorbing | libcxxabi/src/cxa_guard_impl.h:311-363 | completion is for good |
| MutexGuard.CallsBegin | libcxxabi/src/cxa_guard_impl.h:201-218 | acquire, release and abort begin; the last two by the initializing thread |
| MutexGuard.CallsEnd | libcxxabi/src/cxa_guard_impl.h:311-363 | every step brings a call nearer to its end, but for sleeping on a pending guard and waiting for the mutex; it broadcasts exactly if WAITING was set |
| MutexGuard.DoneReturns | libcxxabi/src/cxa_guard_impl.h:201-328 | who looks at a complete guard goes on to return |
| MutexGuard.MutexIsGivenBack | libcxxabi/src/cxa_guard_impl.h:311-363 | who holds the mutex gives it back with its next steps, unless it is terminated |
| MutexGuard.NoIdWithoutSupport | libcxxabi/src/cxa_guard_impl.h:329-333 | without thread ids none is stored |
| CallOnce.RunsInOne | libcxx/src/mutex.cpp:203-258 | per flag the function runs in at most one call at a time |
| CallOnce.RunsOnce | libcxx/src/mutex.cpp:203-258 | it completes at most once, and not while the flag is as it was at first |
| CallOnce.ReturnMeansDone | libcxx/src/mutex.cpp:203-258 | a normal return implies that the function has completed and the flag says so |
| CallOnce.DoneIsAbsorbing | libcxx/src/mutex.cpp:203-258 | that stays so |
| CallOnce.ThrowMeansRetry | libcxx/src/mutex.cpp:246-253 | an exception restores the flag, and the next call to look at it runs the function |
| CallOnce.SleepersAreWoken | libcxx/src/mutex.cpp:228-245 | a sleeper implies that its function runs or a broadcast is owed, although all flags share one condition variable |
| CallOnce.CallsEnd | libcxx/src/mutex.cpp:203-258 | every step brings a call nearer to its end, but for sleeping while the function runs and waiting for the mutex |
| CallOnce.LookDecides | libcxx/src/mutex.cpp:228-258 | who looks at a done flag returns without running the function, who looks at an unset one runs it |
| CallOnce.ThrowsPassOn | libcxx/src/mutex.cpp:232-253 | a call ends with an exception exactly if its own run of the function did |
| CallOnce.MutexIsGivenBack | libcxx/src/mutex.cpp:226-257 | who holds the mutex gives it back with its next steps |
| CallOnce.OnlyBroadcastsWake | libcxx/src/mutex.cpp:226-257 | a call is changed by another only by a broadcast, and only if it sleeps |
| SharedMutex.WordIsTruth | libcxx/src/shared_mutex.cpp:27-103 | the packed word is the number of shared holders plus the mark of an entered writer |
| SharedMutex.WriterIsAlone | libcxx/src/shared_mutex.cpp:27-57 | a holding writer excludes readers and other entered writers |
| SharedMutex.WaitersHaveReason | libcxx/src/shared_mutex.cpp:27-35 | a sleeper at gate 2 implies a reader; a writer asleep at gate 1 implies an entered writer |
| SharedMutex.LeavingWakes | libcxx/src/shared_mutex.cpp:50-103 | the last reader wakes the writer at gate 2; a leaving writer wakes all at gate 1; a reader that leaves at the maximal count wakes one there |
| SharedMutex.OnlyLeavingWakes | libcxx/src/shared_mutex.cpp:50-103 | nobody else is woken, and nobody by any other step |
| SharedMutex.ReaderGetsIn | libcxx/src/shared_mutex.cpp:60-84 | who tries to lock shared holds the lock after that exactly if no writer has entered and the readers are less than the maximal number |
| SharedMutex.TryLockGetsIn | libcxx/src/shared_mutex.cpp:38-48 | `try_lock` succeeds exactly if nobody holds the lock or has entered |
| SharedMutex.WriterGetsIn | libcxx/src/shared_mutex.cpp:27-36 | `lock` passes gate 1 exactly if no writer has entered and gate 2 exactly if there are no readers |
| SharedMutex.HolderGetsOut | libcxx/src/shared_mutex.cpp:50-103 | who holds the lock and unlocks it is outside |
| SharedMutex.TwoReadAtOnce | libcxx/src/shared_mutex.cpp:60-84 | a run with two readers at once |
| SharedMutex.ReaderWaitsForWriter | libcxx/src/shared_mutex.cpp:60-69 | with less threads than readers can be counted, a reader asleep at gate 1 implies an entered writer, which wakes it |
| SharedWeakCount.CountersCount | libcxx/src/memory.cpp:46-125 | the counters are the strong handles less one, and the weak handles plus the strong group's share less one |
| SharedWeakCount.DestroyedOnce | libcxx/src/memory.cpp:46-110 | object and block are destroyed at most once, in this order, and never while a handle needs them |
| SharedWeakCount.NothingLeaks | libcxx/src/memory.cpp:46-110 | without handles both are destroyed |
| SharedWeakCount.FastPathIsSafe | libcxx/src/memory.cpp:78-110 | who reads a weak count of 0 while releasing is the last holder |
| SharedWeakCount.NeverRevived | libcxx/src/memory.cpp:113-125 | `lock` never raises the count from -1 |
| SharedWeakCount.LockSucceeds | libcxx/src/memory.cpp:113-125 | `lock` reads the number of owners; while there is none it gives up, if there are as many as it has read it makes one more, and only if they have changed it reads again |
| SharedWeakCount.GivesUpRightly | libcxx/src/memory.cpp:113-125 | when it gives up there is no owner |
| SharedWeakCount.CopiesAreHandles | libcxx/src/memory.cpp:40-68 | a copy makes a handle of its kind and raises that count by one |
| SharedWeakCount.ReleasesEnd | libcxx/src/memory.cpp:46-110 | every step of a release brings it nearer to its end, through the destruction of the object and of the block where it comes to them |
| SharedWeakCount.FastPathIsTaken | libcxx/src/memory.cpp:101-107 | the last share of the block is given back without an atomic decrement |
| HeapLayout.EveryUnitInOneChunk | libcxxabi/src/fallback_malloc.cpp:63-90 | every unit of the heap is in exactly one free or outstanding chunk |
| HeapLayout.SplitTiled | libcxxabi/src/fallback_malloc.cpp:111-119 | splitting a chunk keeps the tiling |
| HeapLayout.JoinTiled | libcxxabi/src/fallback_malloc.cpp:154-178 | joining neighbours keeps the tiling |
| HeapOperations.PayloadFits | libcxxabi/src/fallback_malloc.cpp:92-95 | the chunk holds the payload if and only if the rounding addition does not wrap |
| HeapOperations.WrappedSizeIsTooSmall | libcxxabi/src/fallback_malloc.cpp:92-95 | a request that gets a chunk with a header only |
| HeapOperations.AllocationMeaning | libcxxabi/src/fallback_malloc.cpp:101-133 | NULL if and only if no free chunk is big enough; otherwise a new chunk of the right size, the tail of the first free chunk that is big enough, in a heap in order |
| HeapOperations.JoinedLeftInv | libcxxabi/src/fallback_malloc.cpp:154-161 | a left merge keeps tiling and list |
| HeapOperations.PushedInv | libcxxabi/src/fallback_malloc.cpp:180-187 | so does a new list entry |
| HeapOperations.JoinedRightInv | libcxxabi/src/fallback_malloc.cpp:162-178 | so does a right merge at the head of the list, or with a chunk whose successor in the list is the chunk at offset 0 |
| HeapOperations.FreeKeepsOrder | libcxxabi/src/fallback_malloc.cpp:138-187 | freeing keeps the heap in order if and only if it is not a right merge behind the head of the list with a chunk whose successor is anything but the chunk at offset 0, the end of the list included |
| HeapOperations.FreeMerges | libcxxabi/src/fallback_malloc.cpp:149-187 | what is freed becomes one free chunk with the first in the list that lies next to it, before or after, and in that one's place; else a free chunk of its own at the head of the list |
| HeapOperations.RunAsMeantKeepsOrder | libcxxabi/src/fallback_malloc.cpp:101-187 | with the link taken over as at the head of the list, every run of allocations and releases keeps the heap in order |
| HeapOperations.FreeListBecomesCyclic | libcxxabi/src/fallback_malloc.cpp:172-176 | a heap in order whose free list a merge with its last entry makes cyclic |
| EmergencyHeap.FallbackHeap.InitHeap | libcxxabi/src/fallback_malloc.cpp:85-89 | the heap is in order afterwards, tiled by one free chunk that reaches to its end |
| EmergencyHeap.FallbackHeap.Malloc | libcxxabi/src/fallback_malloc.cpp:101-133 | the new arrays and the result are those of `Allocated`; the heap stays valid with the chunk outstanding |
| EmergencyHeap.FallbackHeap.Free | libcxxabi/src/fallback_malloc.cpp:138-187 | the new arrays are those of `Freed`; the heap stays valid if and only if no chunks are lost |
| EmergencyHeap.FreeListBecomesCyclic | libcxxabi/src/fallback_malloc.cpp:101-187 | four allocations and three releases after which the free list is cyclic |
| ChainTable.MoveOne | libcxx/src/debug.cpp:171-205 | one step of a rehash loop moves one node to the chain its key selects |
| ChainTable.MoveNextBucket | libcxx/src/debug.cpp:171-205 | a chain is moved completely before the next one |
| DebugTable.Find | libcxx/src/debug.cpp:550-567 | the node with the key, or NULL exactly if there is none |
| DebugTable.Rehash | libcxx/src/debug.cpp:516-536 | all nodes are kept and each is in the bucket its hash selects |
| DebugTable.Grow | libcxx/src/debug.cpp:513-537 | there is room for one more node exactly if there was already, or there is memory and the table has less than 2^60 buckets; the new number of buckets is the least prime above twice the old one; otherwise nothing has changed |
| MersennePrime.MIsPrime | libcxx/src/debug.cpp:515-516 | 2^61 - 1 is prime, the largest number of buckets that fits the address space |
| DebugTable.Push | libcxx/src/debug.cpp:538-547 | the new node is in its bucket, all others where they were |
| DebugTable.PushFails | libcxx/src/debug.cpp:538-546 | without memory for the node the table stays in order if and only if the bucket was empty; otherwise what was its first node is in the bucket no more |
| DebugTable.FirstOfBucket | libcxx/src/debug.cpp:538-547 | a bucket has a first node exactly if some node's key selects it |
| DebugTable.BucketInUse | libcxx/src/debug.cpp:538-546 | a table in order in which it is not empty |
| DebugTable.Remove | libcxx/src/debug.cpp:215-229 | exactly the node with the key is gone |
| IteratorLinks.JoinedGood | libcxx/src/debug.cpp:485-508 | an iterator that joins a container is in its list once and in no other |
| IteratorLinks.LeftGood | libcxx/src/debug.cpp:570-576 | one that leaves is in no list |
| IteratorLinks.SwappedGood | libcxx/src/debug.cpp:445-473 | exchanging two lists and their back pointers keeps both in agreement |
| DebugDatabase.Database.Append | libcxx/src/debug.cpp:485-508 | the iterator is written behind the others, unless the array is full and there is no memory for one of twice the size |
| DebugDatabase.Database.Reassign | libcxx/src/debug.cpp:376-388 | the iterator goes over to the container; the database stays in order if and only if that is its own, NULL or has room, or there is memory for a larger array |
| DebugDatabase.Database.InsertI | libcxx/src/debug.cpp:476-482 | the map from iterators to containers gains the iterator without a container exactly if there is room in the table, which may have to grow, and memory for the node; without that memory the database stays in order if and only if there is no such room or no other iterator selects the bucket |
| DebugDatabase.Database.InsertIC | libcxx/src/debug.cpp:148-168 | it gains the iterator with its container if that is registered, under the conditions of `InsertI`; without memory for a larger array of a full container the iterator stays registered with no container |
| DebugDatabase.Database.InsertC | libcxx/src/debug.cpp:171-207 | the container is registered exactly if there is room in the table, which may have to grow, and memory for the node; the map is unchanged |
| DebugDatabase.Database.EraseI | libcxx/src/debug.cpp:210-240 | the map loses the iterator |
| DebugDatabase.Database.InvalidateAll | libcxx/src/debug.cpp:243-266 | the container's iterators lose their container |
| DebugDatabase.Database.EraseC | libcxx/src/debug.cpp:327-361 | so they do, and the container is gone |
| DebugDatabase.Database.IteratorCopy | libcxx/src/debug.cpp:364-389 | the copy belongs to what the original belongs to; a new node is registered under the conditions of `InsertI`; after that the database stays in order if and only if the copy does not come to a full container that it was not in, or there is memory for a larger array |
| DebugDatabase.Database.AstrayIsInvalid | libcxx/src/debug.cpp:383-387 | after such a failure no choice of what the tables stand for makes pointers and lists agree |
| DebugDatabase.CopyGoesAstray | libcxx/src/debug.cpp:383-387 | a database in order and a copy that leaves an iterator pointing to a container that does not list it |
| DebugDatabase.Database.Swap | libcxx/src/debug.cpp:445-473 | the two containers exchange their iterators |
| DebugDatabase.Database.FindCFromI | libcxx/src/debug.cpp:137-145 | the container that the map gives |
| DebugDatabase.Database.LessThanComparable | libcxx/src/debug.cpp:432-442 | yes if and only if both belong to the same container |
| CaughtStack.BeginCatchInv | libcxxabi/src/cxa_exception.cpp:421-470 | the caught stack follows the handlers that are entered |
| CaughtStack.EndCatchInv | libcxxabi/src/cxa_exception.cpp:481-553 | and those that end, normally or by an exception; the share is given up exactly with the last handler of an exception not in flight |
| CaughtStack.RethrowInv | libcxxabi/src/cxa_exception.cpp:583-624 | a rethrow puts the caught exception in flight again |
| ExceptionOwnership.CallSucceeds | libcxxabi/src/cxa_exception.cpp:257-738 | in every reachable state every call that the nesting allows finds the headers it needs |
| ExceptionOwnership.RunKeepsInv | libcxxabi/src/cxa_exception.cpp:257-738 | the invariant holds in every well-nested run in which nothing is rethrown while it is in flight, and a foreign runtime catches nothing that has a handler left |
| ExceptionOwnership.CallInv | libcxxabi/src/cxa_exception.cpp:257-738 | any call keeps the invariant if and only if it is neither of these two |
| ExceptionOwnership.OnlyOrderlyRuns | libcxxabi/src/cxa_exception.cpp:257-738 | so the invariant holds all along a well-nested run if and only if neither occurs in it |
| ExceptionOwnership.ForeignCatchSpares | libcxxabi/src/cxa_exception.cpp:124-144 | a foreign runtime that catches an exception leaves every header that is handled or in flight if and only if the exception has no handler left, or is a primary with a further reference |
| ExceptionOwnership.DestroyedInHandler | libcxxabi/src/cxa_exception.cpp:124-144 | a run after which an exception is destroyed that is handled and on the caught stack |
| ExceptionOwnership.DestroyedInFlight | libcxxabi/src/cxa_exception.cpp:590-600 | a run in which an exception is rethrown while it is in flight, after which it is destroyed and in flight |
| ExceptionOwnership.ReferencesAreShares | libcxxabi/src/cxa_exception.cpp:629-738 | in the runs of `RunKeepsInv` a primary's reference count is its own share plus its dependents plus the captured pointers |
| ExceptionOwnership.HandlerCountCounts | libcxxabi/src/cxa_exception.cpp:421-624 | in the runs of `RunKeepsInv` a handler count is the number of active handlers, negative exactly while the exception is in flight again |
| ExceptionOwnership.UncaughtCounts | libcxxabi/src/cxa_exception.cpp:257-738 | in the runs of `RunKeepsInv` `uncaughtExceptions` is the number of native exceptions in flight, plus those a foreign runtime caught |
| ExceptionOwnership.PointersCount | libcxxabi/src/cxa_exception.cpp:629-686 | a capture or copy adds one pointer and one reference to a primary and to no other; a drop takes them, and with the last reference the exception is destroyed |
| ExceptionOwnership.DestroyedIsLetGo | libcxxabi/src/cxa_exception.cpp:640-657 | a call destroys at most one exception, exactly the primary whose header it lets go of |
| ExceptionOwnership.ForeignCatchLeavesCount | libcxxabi/src/cxa_exception.cpp:124-144 | a run after which nothing is in flight and the count is 1 |
| ExceptionOwnership.DestroyedOnce | libcxxabi/src/cxa_exception.cpp:646-657 | in the runs of `RunKeepsInv` no exception is destroyed twice, nor while handled, in flight, referred to or captured |
| ExceptionOwnership.NothingLeaks | libcxxabi/src/cxa_exception.cpp:481-553 | in the runs of `RunKeepsInv` without handlers, flights and captured pointers no header is left |
| ExceptionOwnership.CaughtOnce | libcxxabi/src/cxa_exception.cpp:421-553 | in the runs of `RunKeepsInv` the caught stack holds no exception twice |
| Leb128.ReadULEB128 | libcxxabi/src/cxa_personality.cpp:187-202 | the number in base 128, as a machine word, and the position after it |
| Leb128.ReadSLEB128 | libcxxabi/src/cxa_personality.cpp:210-228 | the signed number, as a 64-bit one, and the position after it |
| Leb128.RoundTrip | libcxxabi/src/cxa_personality.cpp:182-202 | every word that is encoded as DWARF 4, section 7.6, says is read back |
| Leb128.SignedRoundTrip | libcxxabi/src/cxa_personality.cpp:205-228 | so is every signed word |
| ExceptionTable.ChainIsUnique | libcxxabi/src/cxa_personality.cpp:706-712 | the bytes determine the chain of actions |
| ExceptionTable.ScanIsUnique | libcxxabi/src/cxa_personality.cpp:576-906 | a frame, an instruction, an exception and the flags determine the result of a scan |
| ExceptionTable.SearchFindsFirst | libcxxabi/src/cxa_personality.cpp:706-892 | the search phase finds the first action that catches, and nothing exactly if none does |
| ExceptionTable.MeaningByTypes | libcxxabi/src/cxa_personality.cpp:717-879 | what an action means: a handler catches if its type is 0 or catches the native exception, then with the adjusted pointer; a specification if it lists no such type, or the exception is foreign; it is corrupt exactly if that cannot be decided |
| ExceptionTable.SearchByTypes | libcxxabi/src/cxa_personality.cpp:706-892 | so the search finds the first such action with its pointer, terminates at the first undecidable one, and finds nothing exactly if there is neither |
| ExceptionTable.HandlerByTypes | libcxxabi/src/cxa_personality.cpp:638-892 | a handler found in a frame is that of an action of the call site that holds the instruction, with its landing pad relative to the base, and no action before it catches the exception |
| ExceptionTable.ImproperFlags | libcxxabi/src/cxa_personality.cpp:586-628 | a scan finds nothing and reports a fatal error exactly if the flags do not belong together |
| ExceptionTable.ForeignAgrees | libcxxabi/src/cxa_personality.cpp:571-906 | for a foreign exception the handler frame's scan repeats the search in every field |
| ExceptionTable.CleanupFollow | libcxxabi/src/cxa_personality.cpp:706-892 | the cleanup scan finds the first cleanup, or terminates exactly if an action before it catches or is corrupt |
| ExceptionTable.ForcedFollow | libcxxabi/src/cxa_personality.cpp:706-892 | forced unwinding finds the first cleanup past all handlers, and terminates exactly if an action before it is corrupt |
| ExceptionTable.CleanupAfterSearch | libcxxabi/src/cxa_personality.cpp:571-906 | after a search that found nothing the cleanup scan does not terminate and finds the frame's cleanup |
| Personality.ExceptionSpecCanCatch | libcxxabi/src/cxa_personality.cpp:462-494 | caught exactly if no listed type catches the exception |
| Personality.ScanActions | libcxxabi/src/cxa_personality.cpp:703-892 | the loop over the bytes of the action table follows the chain |
| Personality.ScanEhTab | libcxxabi/src/cxa_personality.cpp:576-906 | the scan's result is that of the call site that holds the instruction, termination if there is none |
| Personality.ExceptionHeader.GxxPersonality | libcxxabi/src/cxa_personality.cpp:978-1047 | the reply and the cached fields are those of `Answer` for the scan's result |
| Personality.TwoPhases | libcxxabi/src/cxa_personality.cpp:978-1036 | phase 2 goes to the landing pad that phase 1 found; the switch value is the same if and only if the exception is foreign or the value fits an int |
| Personality.SwitchValueIsKept | libcxxabi/src/cxa_personality.cpp:996-1005 | it fits if the table has less than 2^31 types and no more than 2^31 bytes of specifications |
| Personality.HugeTableLosesSwitchValue | libcxxabi/src/cxa_personality.cpp:996-1005 | it does not for the last type of a table with 2^31 of them |
| Personality.PassedByThenCleanedUp | libcxxabi/src/cxa_personality.cpp:1030-1047 | a frame that phase 1 passed by is cleaned up in phase 2 and never terminates |
| Personality.PhaseOneFails | libcxxabi/src/cxa_personality.cpp:996-1019 | phase 1 terminates exactly if the scan does, goes on exactly if it finds nothing, and leaves the header alone unless it finds a handler for a native exception |
| Personality.ForcedUnwinding | libcxxabi/src/cxa_personality.cpp:1020-1047 | forced unwinding runs the cleanup of each frame whatever is caught there, and terminates exactly for a corrupt action before it or without a call site |
| Personality.ImproperCalls | libcxxabi/src/cxa_personality.cpp:978-1047 | flags of no phase are answered with a fatal error of phase 1; forced unwinding at a handler frame goes to the cached landing pad for a native exception and terminates for a foreign one |
| GeneralizedSlice.NumberOfDigits | libcxx/src/valarray.cpp:22-54 | row-major digits represent their number |
| GeneralizedSlice.NextNumber | libcxx/src/valarray.cpp:37-51 | one turn of the odometer is the next number |
| GeneralizedSlice.NextDot | libcxx/src/valarray.cpp:37-51 | and moves the entry by the stride less the rewound strides |
| GeneralizedSlice.EntryMeaning | libcxx/src/valarray.cpp:22-54 | entry k is the start plus the strides times the digits of k |
| GeneralizedSlice.Advance | libcxx/src/valarray.cpp:35-51 | the inner loop counts up by one or reports the last number |
| GeneralizedSlice.Init | libcxx/src/valarray.cpp:22-54 | for all ranks, sizes and strides: every entry of the array is the one its digits select; nothing is written past its end if and only if the product of the sizes fits a word or wraps to 0; there are as many entries as the product if and only if it fits |
| GeneralizedSlice.SizesThatOverflow | libcxx/src/valarray.cpp:26-29 | sizes for which there is a write past the end, and sizes for which nothing is written |
| ArrayLifecycle.MulOverflow | libcxxabi/src/cxa_vector.cpp:121-129 | the division test reports exactly the products that do not fit |
| ArrayLifecycle.CalculateAllocationSize | libcxxabi/src/cxa_vector.cpp:141-155 | the size is exact or the request is refused |
| ArrayLifecycle.Runtime.VecCleanup | libcxxabi/src/cxa_vector.cpp:333-349 | destroys every element once from the last on, or terminates with the first exception |
| ArrayLifecycle.Runtime.VecDtor | libcxxabi/src/cxa_vector.cpp:304-327 | destroys every element once, surviving one exception unless another is in flight, or terminates |
| ArrayLifecycle.Runtime.VecCtor | libcxxabi/src/cxa_vector.cpp:280-296 | constructs all elements, or destroys those before the failing one in reverse order |
| ArrayLifecycle.Runtime.VecCctor | libcxxabi/src/cxa_vector.cpp:253-271 | the same when copying |
| ArrayLifecycle.Runtime.VecNew | libcxxabi/src/cxa_vector.cpp:183-239 | the calls of creating an array and the count stored in front of it |
| ArrayLifecycle.Runtime.VecDelete | libcxxabi/src/cxa_vector.cpp:384-416 | the calls of deleting it |
| ArrayCalls.DestructionAt | libcxxabi/src/cxa_vector.cpp:333-349 | call k of a destruction is for element k from the end |
| ArrayCalls.DestructionEnds | libcxxabi/src/cxa_vector.cpp:304-349 | a destruction returns exactly if no destructor throws and terminates exactly at the exception that is one too many; call k of it is for element k from the end |
| ArrayCalls.ConstructionAt | libcxxabi/src/cxa_vector.cpp:253-296 | call k of a construction is for element k, with element k of the source |
| ArrayCalls.FailedConstructionLeavesNothing | libcxxabi/src/cxa_vector.cpp:253-296 | a construction returns exactly if none of its constructors throws; then all elements are alive, and if an exception ends it none is |
| ArrayCalls.FailedConstructionLeavesSome | libcxxabi/src/cxa_vector.cpp:253-296 | without a destructor the elements before the first one whose constructor throws stay alive, and nothing terminates |
| ArrayLifecycle.CreationIsAllOrNothing | libcxxabi/src/cxa_vector.cpp:183-239 | all elements and the block exactly if the size fits and no constructor throws; if an exception gets out, no element and no block, freed with its size |
| ArrayLifecycle.CreationWithoutDestructor | libcxxabi/src/cxa_vector.cpp:183-239 | without a destructor the array is created exactly if no constructor throws; else the exception gets out and the block is freed with its size |
| ArrayLifecycle.CreationWithoutBlock | libcxxabi/src/cxa_vector.cpp:183-239 | an exception of the allocation gets out, NULL is returned for NULL, and nothing else is called |
| ArrayLifecycle.DeletionLeavesNothing | libcxxabi/src/cxa_vector.cpp:384-416 | elements and block are gone even if one destructor throws; termination exactly on one exception too many |
| ArrayLifecycle.DeletionWithoutDestructor | libcxxabi/src/cxa_vector.cpp:384-416 | without a destructor or without padding the only call is the one that frees the block |
| ArrayLifecycle.DeletionOfNull | libcxxabi/src/cxa_vector.cpp:384-416 | deleting NULL calls nothing |
| ArrayLifecycle.DeletionUndoesCreation | libcxxabi/src/cxa_vector.cpp:183-239 | an array that is created and deleted with the count stored for it leaves alive and allocated what was before |
| ArrayLifecycle.DeletedSizeIsAllocatedSize | libcxxabi/src/cxa_vector.cpp:403-416 | of a creation and a later deletion of its array: the last call frees the block with the size it was allocated with if and only if there is padding or the elements take no room |
| ArrayLifecycle.UnpaddedSizeIsLost | libcxxabi/src/cxa_vector.cpp:403-416 | a creation and a deletion that frees a block of 12 bytes with the size 0 |

## Left out

- Converters: the loops of the converters and length functions are written once over the turn of a converter, and the two byte orders of UTF-16 once over the order; the overloads for `uint32_t` buffers (libcxx/src/locale.cpp:1801-1876, 1999-2118) repeat those for `uint16_t`.
- NextPrimeSearch: `std::lower_bound` is a function and the 48 unrolled increments are a loop over a table of them.
- CastBelow.DynamicCastFollowsRule: the second attempt that compares type names, for programs with duplicated type information, is not part of the model; the hint `src2dst_offset` is not used by the code either. The layout of vtables is a map from object addresses and offsets to offsets.
- CatchSearch.CanCatch: catching by pointer, by pointer to member, and null pointers thrown.
- Protocols: weak memory orders; timed operations; fairness. Of readers that wait at the maximal count it is claimed only that a reader that leaves then wakes one. The single-threaded variants.
- FutexGuard, MutexGuard: one step is one atomic operation or one action under the mutex; spurious wake-ups are allowed.
- CallOnce: a nested call from the same thread is one more overlapping call.
- SharedWeakCount: overflow of the counters, and two threads using one handle at once.
- EmergencyHeap.FallbackHeap: the mutex (calls are serialized), the contents of payloads, and `malloc` itself before the fallback.
- HeapOperations.JoinedRightInv: only for right merges that do not lose the link; `FreeKeepsOrder` gives the exact condition for all.
- DebugDatabase.Database: nodes are numbers and the fields of all nodes are maps held by the database, updated by assignment; the growing array of a container's iterators is a sequence and the number of nodes it has room for; the virtual queries of a container and the locking are left out. Registering what is registered already is excluded, as by the callers.
- ExceptionOwnership: on values, not on objects: header fields are maps in one state. What a thread may do with a foreign exception that it handles itself, destructors that throw, thread exit, and the memory layout of headers.
- ExceptionOwnership.DestroyedOnce: like the other properties of runs only as long as nothing is rethrown while it is in flight and a foreign runtime catches nothing that has a handler left; `CallInv` and `OnlyOrderlyRuns` show that the invariant ends with these calls, `DestroyedInHandler` and `DestroyedInFlight` that the property does. What happens after one of them is not described: an exception with a further reference can then still be destroyed later, while its handler runs.
- Personality: encoded pointers are decoded already; SjLj and EHABI variants; the pointer to the language-specific data in the results. Numbers of more than ten bytes shift by more than the width of a word, which C++ leaves undefined.
- Personality.ScanEhTab: requires action chains that end and call sites in order, as compilers write them.
- ArrayLifecycle.Runtime: the two functions for creation, and those for deletion, differ in the deallocation call only and are one method with a flag; deallocation functions that throw. Which calls throw is given beforehand by position in the log.
- GeneralizedSlice.Init: stops where the code would write past the end of its array.
- Facets, streams, clocks, random devices, threads, futures, regular expressions, `strstream`, character conversion of numbers, demangling and unwinding itself: foreign calls, tables, or deciding parts in headers.
