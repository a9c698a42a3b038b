# A verified model of the MySQL connector and of the inline algorithms in its headers

The repository is an iOS application that talks to MySQL through a small Objective-C connector
(`MysqlConnection/MysqlConnectionLib`) over the vendored MySQL client headers. This project models the parts
of it that compute something, in Dafny, and proves what they promise. Check it with
`dafny verify dfyconfig.toml`.

## What is modelled

* **Aho-Corasick search** (`TrieSpec.dfy`, `Trie.dfy`). The trie is a linked structure of nodes with child lists
  and failure links; a search state moves over it. The state is, after any text, the node of the longest suffix
  of that text that is a trie path, and failure moves are paid for by characters read. The automaton looks only
  at that one node, so it does not report a word that is a proper suffix of a path that is not a word:
  `ReportsEveryMatchIff` gives the exact condition on the dictionary, `MissedWord` the smallest miss.
* **Atomic operations** (`AtomicSpec.dfy`, `AtomicLaws.dfy`, `AtomicCas.dfy`, `AtomicMutex.dfy`,
  `AtomicBodies.dfy`). N threads interleave at single accesses to one 32-bit cell. `AtomicSpec` is the documented
  contract as a state machine, with conservation laws over whole runs. The compare-and-swap loops (for
  each platform header) and the plain bodies under a mutex are both proved to refine it. The platform headers
  define a `swap` body but never a `fas` body, so fetch-and-store is the loop of `my_atomic.h` on all of them.
  A loop that refreshes its expected value by a failed compare-and-swap does so within that one access.
* **Trailing spaces** (`SkipSpace.dfy`): the scan by machine words against the scan by bytes.
* **Bit tricks and bitmaps** (`Bits.dfy`, `MyBit.dfy`, `MyBitmap.dfy`). The comment over `my_bit_log2` describes
  a ceiling; the loop computes a floor, and the floor is what is proved, with the exact condition under which the
  two agree. Bitmaps are byte arrays, updated in place, that refine finite sets.
* **Byte codecs** (`ByteOrder.dfy`, `MyIsamPack.dfy`, `MyGlobal.dfy`): stores in place, loads, sign extension,
  and the order of keys stored high byte first.
* **Connector loops** (`SqlText.dfy`, `StatementText.dfy`, `CHeap.dfy`, `MysqlBind.dfy`, `MysqlInsert.dfy`,
  `MysqlUpdate.dfy`, `MysqlStmt.dfy`, `MysqlFetch.dfy`). The C heap is a map of live blocks, and freeing demands a
  live block, so a run that verifies frees nothing twice; every completed statement leaves the heap as it found it.
  Statement text is read back by a lexer and readers for the two statement shapes, starting from the bytes
  that the server is really given, which are decoded from UTF-8.

`CTypes.dfy` and `Arithmetic.dfy` are shared by several of these.

## What the proofs found

* The automaton misses words, as said above.
* `mysql_stmt_prepare` is given the text's bytes but its length in UTF-16 units, so a statement with characters
  outside ASCII loses as many bytes from its end as it has in excess. Spaces at the end may go; beyond them the
  server reads another statement or none (`TokensArriveIff`). A printed INSERT or UPDATE ends in one space
  (`InsertArrivesIff`, `UpdateArrivesIff`), a command to fetch need not; an UPDATE or a query of another row may
  come of it (`AnotherRowIsPicked`, `SelectIsCut`).
* A FLOAT or DOUBLE column gets as many bytes of buffer as its declared width, while the library writes the 4 or 8
  bytes of the type. A column declared narrower, such as DOUBLE(5,2), is overrun by any value that is not null
  (`NeverOverrunsIff`, `NarrowDoubleOverruns`); what happens then is undefined, and the model goes no further.
* A qualifier's number that prints as `nan` or `inf` is a name to the server (`UpdateReadsBackIff`).
* Strings pass through C strings, so a zero byte ends a bound text or an escaped literal; objects of other classes
  are bound with a length and no buffer, so only an empty description arrives (`ArrivesIff`,
  `WherePicksQualifyingIff`).
* A text cell that is not UTF-8, or a timestamp that is no date, makes a nil object, and the fetch raises
  (`FetchWithCommand`, `NotUtf8Raises`).
* An UPDATE with empty row data or an empty qualifier raises a range exception while its text is trimmed.
* An INT is fetched into a buffer the size of `long` and read as a `long`, so where `long` has eight bytes a negative
  value comes out positive; bindings never say that a column is unsigned, so elsewhere large unsigned values come
  out negative (`IntReadsIff`, `BigIntReadsIff`, `TinyIntReadsIff`).
* A row's dictionary can lose a column's object when another column has its key (`NothingEverLostIff`,
  `OrdinaryNeverLostIff`, `FirstOfTwoIsLost`).

## Hypotheses

* The trie is well formed (`Trie.Valid`): distinct sibling labels, failure links to the longest proper suffix that is
  a path, `leaf` the depth (in 16 bits) of a word and 0 otherwise. `TwoWords` builds one.
* The byte tables of `my_bit.h` are correct (`CountTable`, `ReverseTable`), and the last-word mask of a
  bitmap covers exactly its padding, with at least one bit in the map. `CountTableExists`, `ReverseTableExists` and
  `EmptyBitmap` meet them.
* The cell is sequentially consistent.
* `mysql_real_escape_string` leaves names alone and can be undone up to the first zero character (`ReadsBack`,
  `KeepsWords`); the server's reading of a literal ends at a quote and goes no further, but for a doubled quote
  (`Scans`). `EscapingCanBeUndone` meets all three. Table and column names hold no separators or quotes; numbers
  print without them.
* The client library fills the blocks of a binding as its manual says (`MysqlStmt.Statement`): lengths, null and
  error flags, truncation of text and data at the buffer's length, which it ignores for types of a size of their
  own, an INT in four bytes. Numbers keep to the size of their type, text to the announced width, and decimals are
  ASCII (`Fits`). The machine stores numbers low byte first; whether its `char` is signed is a parameter, as are
  the two ways of making a date (`Machine`).

## Model

| member | source | states |
|---|---|---|
| Trie.AcTrieState.Next | MysqlConnection/MysqlConnectionLib/include/my_trie.h:82-92 | from a state that is the longest suffix of the text read so far that is a trie path, reading a character ends at the longest such suffix of the longer text; the result is the length of that suffix if it is a word, else 0; the walk along failure links ends, and all failure moves of a run never exceed the characters read |
| Trie.AcTrieState.constructor | MysqlConnection/MysqlConnectionLib/include/my_trie.h:40-50 | a search that has read nothing stands on the root |
| Trie.Trie.Goto | MysqlConnection/MysqlConnectionLib/include/my_trie.h:55-65 | null exactly when the node is not the root and its path cannot be continued with the character; otherwise the node of the continued path, or the root |
| Trie.Trie.Search | MysqlConnection/MysqlConnectionLib/include/my_trie.h:116-136 | true exactly for the stored words, for every key |
| Trie.Trie.EdgeIff | MysqlConnection/MysqlConnectionLib/include/my_trie.h:22-29 | a path continues with a character exactly when the child list has an edge with that label |
| Trie.Trie.PathsAreDistinct | MysqlConnection/MysqlConnectionLib/include/my_trie.h:22-29 | with distinct sibling labels, a node is determined by its path |
| Trie.Trie.PathsArePrefixClosed | MysqlConnection/MysqlConnectionLib/include/my_trie.h:22-38 | the paths of a well-formed trie are closed under prefixes and contain its words |
| Trie.Trie.Undisturbed | MysqlConnection/MysqlConnectionLib/include/my_trie.h:82-92 | moving a search state leaves the trie well formed |
| Trie.TwoWords | MysqlConnection/MysqlConnectionLib/include/my_trie.h:22-38 | the hypothesis of a well-formed trie can be met by linked nodes |
| TrieSpec.LongestSuffix | MysqlConnection/MysqlConnectionLib/include/my_trie.h:68-80 | the reference: a path that the text ends in, and none longer |
| TrieSpec.Report | MysqlConnection/MysqlConnectionLib/include/my_trie.h:68-80 | a result r above 0 means that the last r characters read are a stored word |
| TrieSpec.StateIsEnough | MysqlConnection/MysqlConnectionLib/include/my_trie.h:82-92 | the next state depends on the text only through the current state |
| TrieSpec.NextBestSuffix | MysqlConnection/MysqlConnectionLib/include/my_trie.h:89-90 | following one failure link skips no suffix that could still be continued |
| TrieSpec.WalkReachesNextState | MysqlConnection/MysqlConnectionLib/include/my_trie.h:87-91 | where the walk along failure links stops is the longest suffix of the longer text that is a path |
| TrieSpec.ReportOfKey | MysqlConnection/MysqlConnectionLib/include/my_trie.h:74-80 | of any dictionary, the reference reports a key's whole length at its end exactly when the key is a stored word |
| Trie.Feed | MysqlConnection/MysqlConnectionLib/include/my_trie.h:82-92 | feeding a whole text character by character to the automaton from a fresh state ends at the longest suffix that is a path, with the last call returning its length if it is a word, and at most as many failure moves as characters |
| Trie.SearchAndFeed | MysqlConnection/MysqlConnectionLib/include/my_trie.h:82-136 | search finds a key exactly when feeding it to the automaton makes the last call return the key's length, and exactly when it is a stored word |
| TrieSpec.ReportsEveryMatchIff | MysqlConnection/MysqlConnectionLib/include/my_trie.h:74-80 | every word ending in every text is reported exactly when no path that is not a word ends in a word |
| TrieSpec.ReportIsLongestMatch | MysqlConnection/MysqlConnectionLib/include/my_trie.h:74-80 | then the result is the length of the longest word that the text ends in |
| TrieSpec.MissedWord | MysqlConnection/MysqlConnectionLib/include/my_trie.h:82-92 | the smallest dictionary with a miss: with a and aaa stored, after aa nothing is reported although a ends there |
| AtomicSpec.EffectsAreSequential | MysqlConnection/MysqlConnectionLib/include/my_atomic.h:16-38 | in every interleaving the effects form a sequential history, from the first cell to the last, in which each operation does to the cell and returns what the header documents of it |
| AtomicSpec.OneEffectPerCall | MysqlConnection/MysqlConnectionLib/include/my_atomic.h:16-38 | thread by thread, the effects are the returned operations in order plus at most one not returned yet |
| AtomicSpec.CallsAreAnswered | MysqlConnection/MysqlConnectionLib/include/my_atomic.h:16-38 | thread by thread, the returned operations are the calls in order, without the one in progress |
| AtomicSpec.EffectsAreCompleted | MysqlConnection/MysqlConnectionLib/include/my_atomic.h:16-38 | what took effect is, with multiplicity, what completed: nothing is lost and nothing happens twice |
| AtomicLaws.AddsAreConserved | MysqlConnection/MysqlConnectionLib/include/my_atomic.h:19-20 | after any run of additions and loads the cell is the first value plus everything added, mod 2^32 |
| AtomicLaws.TicketsAreConsecutiveAndDistinct | MysqlConnection/MysqlConnectionLib/include/my_atomic.h:19-20 | increments hand out consecutive values, and up to 2^32 of them pairwise distinct ones |
| AtomicLaws.FetchAndStoreConserves | MysqlConnection/MysqlConnectionLib/include/my_atomic.h:22-24 | for fetch-and-store, the first value and everything stored are, with multiplicity, everything returned and the last value |
| AtomicCas.CasRefinesAtomic | MysqlConnection/MysqlConnectionLib/include/my_atomic.h:60-86 | every run of the lock-free bodies of any platform has the same calls, returns and cell as a run of the atomic operations |
| AtomicCas.AccessRefines | MysqlConnection/MysqlConnectionLib/include/my_atomic.h:65-85 | each access to the cell is either the whole operation or invisible to callers; so each operation has one step at which it takes effect |
| AtomicSpec.ReturnsAreAnswered | MysqlConnection/MysqlConnectionLib/include/my_atomic.h:16-38 | the operations returned, with their arguments and results, are those the callers see in the calls and returns |
| AtomicLaws.AllLaws | MysqlConnection/MysqlConnectionLib/include/my_atomic.h:16-38 | the laws of every run: the three above; every value loaded in a run of loads and stores is the first one or one stored, and the last value is one stored if any was; of attempts to swap 0 for 1, from 0, exactly one succeeds; and a compare-and-swap reports success exactly when it hands back the value expected |
| AtomicCas.EffectIsDocumented | MysqlConnection/MysqlConnectionLib/include/my_atomic.h:65-85 | the access at which a body takes effect does to the cell, as it is at that moment, and returns what the header documents; a load returns that cell and leaves it, a store leaves its value; any other access leaves the cell |
| AtomicCas.FetchAndStoreCanFail | MysqlConnection/MysqlConnectionLib/include/my_atomic.h:71-76 | on every platform there is a run in which one of two fetch-and-stores fails once, since no header defines a body for it |
| AtomicCas.NeverBlocks | MysqlConnection/MysqlConnectionLib/include/my_atomic.h:66-75 | whatever the state, every thread can go on |
| AtomicCas.CasLaws | MysqlConnection/MysqlConnectionLib/include/my_atomic.h:64-86 | all those laws hold in every interleaving of the lock-free bodies, over the operations whose return callers have seen and those about to return |
| AtomicCas.RetriesAreBounded | MysqlConnection/MysqlConnectionLib/include/my_atomic.h:66-76 | failed compare-and-swaps, plus loops about to fail, number at most N - 1 per change of the cell |
| AtomicCas.OperationIsBounded | MysqlConnection/MysqlConnectionLib/include/atomic/gcc_builtins.h:22-25 | an operation makes at most two accesses more than other threads changed the cell since its call, because a failure reloads the expected value |
| AtomicMutex.MutualExclusion | MysqlConnection/MysqlConnectionLib/include/atomic/rwlock.h:40-45 | in every run with the mutex at most one thread is inside, and what it has read is still in the cell |
| AtomicMutex.AccessRefines | MysqlConnection/MysqlConnectionLib/include/atomic/rwlock.h:52-56 | under the mutex the last access of a body is the whole operation and the others are invisible |
| AtomicMutex.MutexRefinesAtomic | MysqlConnection/MysqlConnectionLib/include/atomic/rwlock.h:40-56 | every run of the split plain reads and writes under the mutex is, to callers, a run of the same atomic specification |
| AtomicMutex.EffectIsDocumented | MysqlConnection/MysqlConnectionLib/include/atomic/rwlock.h:52-56 | under the mutex the last access of a body does to the cell, which is as the body found it, and returns what the header documents |
| AtomicMutex.NeverStuck | MysqlConnection/MysqlConnectionLib/include/atomic/rwlock.h:40-45 | in every run some thread can go on |
| AtomicMutex.MutexLaws | MysqlConnection/MysqlConnectionLib/include/atomic/rwlock.h:40-56 | the same laws in every interleaving of the mutex bodies, over what callers see |
| AtomicMutex.DummyLosesUpdate | MysqlConnection/MysqlConnectionLib/include/atomic/rwlock.h:20-33 | without locks, a run exists in which two increments of zero both return 0 and leave 1 |
| AtomicBodies.AtomicCell.ValCompareAndSwap | MysqlConnection/MysqlConnectionLib/include/atomic/gcc_builtins.h:22-24 | the primitive swaps if the cell holds the expected value, and yields what it held |
| AtomicBodies.AtomicCell.CasGcc | MysqlConnection/MysqlConnectionLib/include/atomic/gcc_builtins.h:22-25 | cell, result and refreshed expected value are those documented for compare-and-swap |
| AtomicBodies.AtomicCell.CasMsvc | MysqlConnection/MysqlConnectionLib/include/atomic/generic-msvc.h:66-69 | the same for the exchange-based body |
| AtomicBodies.AtomicCell.CasRwlock | MysqlConnection/MysqlConnectionLib/include/atomic/rwlock.h:54 | the same for the plain body |
| AtomicBodies.AtomicCell.AddLoop | MysqlConnection/MysqlConnectionLib/include/my_atomic.h:66-69 | from any stale first read the loop ends, having added once and returning the old value |
| AtomicBodies.AtomicCell.FasLoop | MysqlConnection/MysqlConnectionLib/include/my_atomic.h:72-75 | from any stale first read the loop ends, having stored once and returning the old value |
| AtomicBodies.AtomicCell.Load | MysqlConnection/MysqlConnectionLib/include/my_atomic.h:78-80 | swapping zero for zero returns the cell and leaves it alone |
| AtomicBodies.AtomicCell.Store | MysqlConnection/MysqlConnectionLib/include/my_atomic.h:83-84 | a store by way of fetch-and-store leaves the value in the cell |
| AtomicBodies.AtomicCell.AddRwlock | MysqlConnection/MysqlConnectionLib/include/atomic/rwlock.h:52 | adds and returns the old value |
| AtomicBodies.AtomicCell.FasRwlock | MysqlConnection/MysqlConnectionLib/include/atomic/rwlock.h:53 | stores and returns the old value |
| SkipSpace.SkipTrailingSpace | MysqlConnection/MysqlConnectionLib/include/m_string.h:361-385 | for every buffer, length, start address, word size 4 or 8 and byte order, the end found is the one a backward scan byte by byte finds |
| SkipSpace.SpacesBefore | MysqlConnection/MysqlConnectionLib/include/m_string.h:373-379 | one aligned word read inside the buffer tells whether its bytes are all spaces |
| SkipSpace.WordIsSpaces | MysqlConnection/MysqlConnectionLib/include/m_string.h:318-322 | a word equals SPACE_INT exactly when each of its bytes is a space, in either byte order |
| SkipSpace.Strip | MysqlConnection/MysqlConnectionLib/include/m_string.h:361-385 | the reference: everything after the result is a space, and the byte before it is not |
| SkipSpace.StripIsUnique | MysqlConnection/MysqlConnectionLib/include/m_string.h:361-385 | only one length has that property |
| MyBit.Log2 | MysqlConnection/MysqlConnectionLib/include/my_bit.h:16-21 | for a value of at least 1 the result r has 2^r <= value < 2^(r+1); 0 gives 0 |
| MyBit.FloorIsCeilingIff | MysqlConnection/MysqlConnectionLib/include/my_bit.h:11-21 | any result of the loop is what its comment describes, the least X with 2^X at least the value, exactly when the value is 0 or a power of two |
| MyBit.FloorOfThree | MysqlConnection/MysqlConnectionLib/include/my_bit.h:11-21 | for 3 the loop returns 1, and the least such X is 2 |
| MyBit.CountTableExists | MysqlConnection/MysqlConnectionLib/include/my_bit.h:8 | there is a table of bit counts as the counting functions take it to be |
| MyBit.ReverseTableExists | MysqlConnection/MysqlConnectionLib/include/my_bit.h:9 | there is a table of reversed bytes as the reversal takes it to be |
| MyBit.RoundUpToNextPower | MysqlConnection/MysqlConnectionLib/include/my_bit.h:70-79 | the least power of two not below the value for 1..2^31, which is 2 to the power log2(v-1)+1 for 2..2^31, and 0 for 0 and above 2^31 |
| MyBit.SmearStep | MysqlConnection/MysqlConnectionLib/include/my_bit.h:72-77 | each shift-and-or doubles how far every one bit is smeared to the right |
| MyBit.SmearedIsMask | MysqlConnection/MysqlConnectionLib/include/my_bit.h:72-77 | five doublings fill 32 bits with ones from the highest one bit down |
| MyBit.ClearHighestBit | MysqlConnection/MysqlConnectionLib/include/my_bit.h:81-90 | the value minus 2^bit for the bit that log2 finds, and 0 for 0 |
| MyBit.ClearedBits | MysqlConnection/MysqlConnectionLib/include/my_bit.h:81-90 | bit by bit, a one stays exactly when there is a higher one |
| MyBit.ClearingDropsOneBit | MysqlConnection/MysqlConnectionLib/include/my_bit.h:81-90 | clearing the highest bit leaves one bit fewer |
| MyBit.ClearingStepsAreCounted | MysqlConnection/MysqlConnectionLib/include/my_bit.h:23-43 | clearing the highest bit reaches 0 in exactly as many steps as the table count says |
| MyBit.CountBitsIsPop | MysqlConnection/MysqlConnectionLib/include/my_bit.h:23-43 | with a correct table the count is the number of one bits of the 64-bit word, and the cast to a byte loses nothing |
| MyBit.ReversedAt | MysqlConnection/MysqlConnectionLib/include/my_bit.h:92-99 | with a correct table bit i of the result is bit 31 - i of the key |
| MyBit.ReverseIsInvolution | MysqlConnection/MysqlConnectionLib/include/my_bit.h:92-99 | reversing twice gives the key back |
| MyBit.ReverseKeepsCount | MysqlConnection/MysqlConnectionLib/include/my_bit.h:92-99 | reversing keeps the number of one bits |
| MyBitmap.SizesAgree | MysqlConnection/MysqlConnectionLib/include/my_bitmap.h:95-98 | the size macros agree; the bytes have room for every bit and less than a byte to spare, the buffer less than a word |
| MyBitmap.Bitmap.SetBit | MysqlConnection/MysqlConnectionLib/include/my_bitmap.h:99-100 | adds the number to the set; every other bit of the buffer, padding included, stays |
| MyBitmap.Bitmap.FlipBit | MysqlConnection/MysqlConnectionLib/include/my_bitmap.h:101-102 | adds the number if absent and removes it if present; every other bit of the buffer stays |
| MyBitmap.Bitmap.ClearBit | MysqlConnection/MysqlConnectionLib/include/my_bitmap.h:103-104 | removes the number from the set; every other bit of the buffer stays |
| MyBitmap.Bitmap.IsSet | MysqlConnection/MysqlConnectionLib/include/my_bitmap.h:105-106 | nonzero exactly for the members of the set |
| MyBitmap.Bitmap.ClearAll | MysqlConnection/MysqlConnectionLib/include/my_bitmap.h:157-158 | leaves the empty set |
| MyBitmap.Bitmap.SetAll | MysqlConnection/MysqlConnectionLib/include/my_bitmap.h:159-160 | leaves the set of all numbers below n_bits |
| MyBitmap.Bitmap.PadLastWord | MysqlConnection/MysqlConnectionLib/include/my_bitmap.h:152-153 | with a mask that covers exactly the padding, sets all padding bits and leaves the set alone |
| MyBitmap.Cmp | MysqlConnection/MysqlConnectionLib/include/my_bitmap.h:150-155 | maps of one size compare equal exactly when their sets are equal, and both sets stay as they were |
| MyBitmap.EqualContents | MysqlConnection/MysqlConnectionLib/include/my_bitmap.h:150-155 | with the padding set, the buffers are equal exactly when the sets are |
| MyBitmap.EmptyBitmap | MysqlConnection/MysqlConnectionLib/include/my_bitmap.h:25-46 | for every size above 0 there is a mask that covers exactly the padding |
| ByteOrder.BigKeepsOrder | MysqlConnection/MysqlConnectionLib/include/myisampack.h:84-125 | bytes stored high byte first compare, byte by byte, as the unsigned numbers do, for every width |
| ByteOrder.SignedReadsBack | MysqlConnection/MysqlConnectionLib/include/myisampack.h:27-41 | two's complement bytes of a width read back as the number throughout the width's signed range, in either order |
| ByteOrder.UnsignedReadsBack | MysqlConnection/MysqlConnectionLib/include/myisampack.h:42-79 | the same for the unsigned range |
| ByteOrder.BigIsLittleReversed | MysqlConnection/MysqlConnectionLib/include/my_global.h:1284-1312 | the bytes of one order are those of the other in reverse |
| ByteOrder.HighAndLow | MysqlConnection/MysqlConnectionLib/include/myisampack.h:122-125 | the bytes of a number are those of its halves side by side |
| ByteOrder.LowBytes | MysqlConnection/MysqlConnectionLib/include/myisampack.h:84-125 | casting a number down first does not change the bytes that are kept |
| MyIsamPack.Int2Store | MysqlConnection/MysqlConnectionLib/include/myisampack.h:84-86 | puts the low 2 bytes of the value at the address, high byte first, and changes nothing else |
| MyIsamPack.Int3Store | MysqlConnection/MysqlConnectionLib/include/myisampack.h:87-92 | puts the low 3 bytes of the value at the address, high byte first, and changes nothing else, whatever the size of ulong |
| MyIsamPack.Int4Store | MysqlConnection/MysqlConnectionLib/include/myisampack.h:93-97 | puts the low 4 bytes of the value at the address, high byte first, and changes nothing else, whatever the size of ulong |
| MyIsamPack.Int5Store | MysqlConnection/MysqlConnectionLib/include/myisampack.h:98-104 | puts the low 5 bytes of the value at the address, high byte first, and changes nothing else, whatever the size of ulong |
| MyIsamPack.Int6Store | MysqlConnection/MysqlConnectionLib/include/myisampack.h:105-112 | puts the low 6 bytes of the value at the address, high byte first, and changes nothing else, whatever the size of ulong |
| MyIsamPack.Int7Store | MysqlConnection/MysqlConnectionLib/include/myisampack.h:113-121 | puts the low 7 bytes of the value at the address, high byte first, and changes nothing else, whatever the size of ulong |
| MyIsamPack.Int8Store | MysqlConnection/MysqlConnectionLib/include/myisampack.h:122-125 | puts the low 8 bytes of the value at the address, high byte first, and changes nothing else, whatever the size of ulong |
| MyIsamPack.Uint2Korr | MysqlConnection/MysqlConnectionLib/include/myisampack.h:42-43 | the number that the first 2 bytes stand for, high byte first |
| MyIsamPack.Uint3Korr | MysqlConnection/MysqlConnectionLib/include/myisampack.h:44-46 | the number that the first 3 bytes stand for, high byte first |
| MyIsamPack.Uint4Korr | MysqlConnection/MysqlConnectionLib/include/myisampack.h:47-50 | the number that the first 4 bytes stand for, high byte first |
| MyIsamPack.Uint5Korr | MysqlConnection/MysqlConnectionLib/include/myisampack.h:51-55 | the number that the first 5 bytes stand for, high byte first |
| MyIsamPack.Uint6Korr | MysqlConnection/MysqlConnectionLib/include/myisampack.h:56-62 | the number that the first 6 bytes stand for, high byte first |
| MyIsamPack.Uint7Korr | MysqlConnection/MysqlConnectionLib/include/myisampack.h:63-70 | the number that the first 7 bytes stand for, high byte first |
| MyIsamPack.Uint8Korr | MysqlConnection/MysqlConnectionLib/include/myisampack.h:71-79 | the number that the first 8 bytes stand for, high byte first |
| MyIsamPack.Sint2Korr | MysqlConnection/MysqlConnectionLib/include/myisampack.h:27-28 | the same 2 bytes as a signed number in two's complement, whether char is signed or not |
| MyIsamPack.Sint3Korr | MysqlConnection/MysqlConnectionLib/include/myisampack.h:29-36 | the same 3 bytes as a signed number in two's complement |
| MyIsamPack.Sint4Korr | MysqlConnection/MysqlConnectionLib/include/myisampack.h:37-40 | the same 4 bytes as a signed number in two's complement, whether char is signed or not |
| MyIsamPack.Sint8Korr | MysqlConnection/MysqlConnectionLib/include/myisampack.h:41 | the same 8 bytes as a signed number in two's complement |
| MyIsamPack.LoadsWhatWasStored | MysqlConnection/MysqlConnectionLib/include/myisampack.h:27-125 | for every width, loading the stored bytes gives the number back over the whole unsigned and signed range |
| MyGlobal.Int2Store | MysqlConnection/MysqlConnectionLib/include/my_global.h:1284-1287 | puts the low 2 bytes of the value at the address, low byte first, and changes nothing else |
| MyGlobal.Int3Store | MysqlConnection/MysqlConnectionLib/include/my_global.h:1288-1292 | puts the low 3 bytes of the value at the address, low byte first, and changes nothing else |
| MyGlobal.Int4Store | MysqlConnection/MysqlConnectionLib/include/my_global.h:1293-1296 | puts the low 4 bytes of the value at the address, low byte first, and changes nothing else |
| MyGlobal.Int5Store | MysqlConnection/MysqlConnectionLib/include/my_global.h:1297-1302 | puts the low 5 bytes of the value at the address, low byte first, and changes nothing else |
| MyGlobal.Int6Store | MysqlConnection/MysqlConnectionLib/include/my_global.h:1303-1309 | puts the low 6 bytes of the value at the address, low byte first, and changes nothing else |
| MyGlobal.Int8Store | MysqlConnection/MysqlConnectionLib/include/my_global.h:1310-1312 | puts the low 8 bytes of the value at the address, low byte first, and changes nothing else |
| MyGlobal.Uint2Korr | MysqlConnection/MysqlConnectionLib/include/my_global.h:1255-1256 | the number that the first 2 bytes stand for, low byte first |
| MyGlobal.Uint3Korr | MysqlConnection/MysqlConnectionLib/include/my_global.h:1257-1259 | the number that the first 3 bytes stand for, low byte first |
| MyGlobal.Uint4Korr | MysqlConnection/MysqlConnectionLib/include/my_global.h:1260-1263 | the number that the first 4 bytes stand for, low byte first |
| MyGlobal.Uint5Korr | MysqlConnection/MysqlConnectionLib/include/my_global.h:1264-1268 | the number that the first 5 bytes stand for, low byte first |
| MyGlobal.Uint6Korr | MysqlConnection/MysqlConnectionLib/include/my_global.h:1269-1274 | the number that the first 6 bytes stand for, low byte first |
| MyGlobal.Uint8Korr | MysqlConnection/MysqlConnectionLib/include/my_global.h:1275-1283 | the number that the first 8 bytes stand for, low byte first |
| MyGlobal.Sint2Korr | MysqlConnection/MysqlConnectionLib/include/my_global.h:1240-1241 | the same 2 bytes as a signed number in two's complement, whether char is signed or not |
| MyGlobal.Sint3Korr | MysqlConnection/MysqlConnectionLib/include/my_global.h:1242-1249 | the same 3 bytes as a signed number in two's complement |
| MyGlobal.Sint4Korr | MysqlConnection/MysqlConnectionLib/include/my_global.h:1250-1253 | the same 4 bytes as a signed number in two's complement, whether char is signed or not |
| MyGlobal.Sint8Korr | MysqlConnection/MysqlConnectionLib/include/my_global.h:1254 | the same 8 bytes as a signed number in two's complement |
| MyGlobal.LoadsWhatWasStored | MysqlConnection/MysqlConnectionLib/include/my_global.h:1240-1312 | for widths 2, 3, 4, 5, 6 and 8, loading the stored bytes gives the number back, negative 24-bit numbers included |
| SqlText.LexesLiteral | MysqlConnection/MysqlConnectionLib/NSString_MysqlEscape.m:18-33 | a quoted escaped value is one literal token whatever follows it but a quote, given that escaping can be undone up to the first zero character |
| SqlText.EscapingCanBeUndone | MysqlConnection/MysqlConnectionLib/NSString_MysqlEscape.m:18-33 | the hypotheses about escaping can be met |
| StatementText.Utf16ReadsBack | MysqlConnection/MysqlConnectionLib/MysqlInsert.m:73 | the units that the length counts are those of a UTF-16 encoding, surrogate pairs included: they decode to the text |
| StatementText.ExcessOfChar | MysqlConnection/MysqlConnectionLib/MysqlInsert.m:73 | a character of one, two, three or four bytes has 0, 1, 2 or 2 bytes in excess of its units |
| StatementText.WholeIffAscii | MysqlConnection/MysqlConnectionLib/MysqlInsert.m:73 | the bytes the server is given, as many as the text has UTF-16 units, are the whole statement exactly when it is ASCII |
| StatementText.PreparedIsTextIff | MysqlConnection/MysqlConnectionLib/MysqlUpdate.m:119 | what the server is given decodes to the text that was printed exactly when that is ASCII |
| StatementText.DecodeIff | MysqlConnection/MysqlConnectionLib/MysqlFetch.m:342-344 | bytes decode to a string exactly when they are its UTF-8 encoding |
| StatementText.TokensArriveIff | MysqlConnection/MysqlConnectionLib/MysqlFetch.m:55 | a statement has all its tokens for the server exactly when no more bytes of it are in excess of its UTF-16 units than it has spaces at its end |
| StatementText.SelectIsCut | MysqlConnection/MysqlConnectionLib/MysqlFetch.m:55 | a query of the row with id 12, with one letter of two bytes and no space at its end, that the server reads as one of the row with id 1 |
| SqlText.CutDiffers | MysqlConnection/MysqlConnectionLib/MysqlInsert.m:73 | a statement cut before anything but spaces has other tokens than the whole of it |
| SqlText.InsertReadIs | MysqlConnection/MysqlConnectionLib/MysqlInsert.m:46-69 | tokens read as an INSERT in one way only, so other tokens say something else |
| SqlText.UpdateReadIs | MysqlConnection/MysqlConnectionLib/MysqlUpdate.m:36-111 | tokens read as an UPDATE in one way only |
| SqlText.ConditionReadsIff | MysqlConnection/MysqlConnectionLib/MysqlUpdate.m:103-104 | a condition on a number reads as itself exactly when the number is a numeral |
| SqlText.NotNumerals | MysqlConnection/MysqlConnectionLib/MysqlUpdate.m:103-104 | what NSNumber prints for not-a-number and infinity are no numerals, but names to the server |
| MysqlBind.BindValue | MysqlConnection/MysqlConnectionLib/MysqlInsert.m:85-120 | the binding of a value by its class; only a null allocates, one flag that reads 1 |
| MysqlBind.BindColumn | MysqlConnection/MysqlConnectionLib/MysqlUpdate.m:48-87 | one turn of the binding loop extends the bindings in key order and the flags set so far, and touches no other block |
| MysqlBind.EscapedAt | MysqlConnection/MysqlConnectionLib/MysqlUpdate.m:48-51 | the x-th name printed is the x-th key, escaped |
| MysqlBind.WantedIff | MysqlConnection/MysqlConnectionLib/MysqlInsert.m:86-120 | what is wanted of a value is text with the very bytes of a string, number or description, data with those of data, or null |
| MysqlBind.ArrivesIff | MysqlConnection/MysqlConnectionLib/MysqlInsert.m:86-120 | a bound value reads as wanted exactly when it is data, null, text or a number without a zero byte, or an object with an empty description: strlen cuts text at a zero byte, and other objects get a length but no buffer |
| MysqlBind.AllArrive | MysqlConnection/MysqlConnectionLib/MysqlInsert.m:83-121 | the x-th placeholder reads as the x-th column's value exactly when that value can be carried |
| MysqlBind.RowArrivesIff | MysqlConnection/MysqlConnectionLib/MysqlInsert.m:83-121 | in whatever order the keys come, the columns are given the row's values exactly when each can be carried |
| MysqlBind.FreeFlags | MysqlConnection/MysqlConnectionLib/MysqlInsert.m:136-142 | frees each null flag once, after which exactly the blocks from before binding are left |
| MysqlBind.FlagAtGrows | MysqlConnection/MysqlConnectionLib/MysqlInsert.m:106-113 | different nulls have different flags |
| MysqlInsert.MysqlInsert.BuildText | MysqlConnection/MysqlConnectionLib/MysqlInsert.m:46-69 | the text is the table, the escaped columns in key order and as many placeholders |
| MysqlInsert.MysqlInsert.BindRow | MysqlConnection/MysqlConnectionLib/MysqlInsert.m:77-121 | the x-th binding is the one for the x-th column's value |
| MysqlInsert.MysqlInsert.Execute | MysqlConnection/MysqlConnectionLib/MysqlInsert.m:32-146 | completes exactly when table and row data are set and the library reports no error, with the right exception otherwise; then the server was given the text and the row's values, and the heap is as before: each flag and the binding array freed once |
| MysqlInsert.TwoColumnsText | MysqlConnection/MysqlConnectionLib/MysqlInsert.m:46-69 | the text for two columns, character by character |
| MysqlInsert.InsertOf | MysqlConnection/MysqlConnectionLib/MysqlInsert.m:46-69 | what an INSERT says: the table, the x-th name as x-th column, and a placeholder in x-th place |
| MysqlInsert.InsertReadsBack | MysqlConnection/MysqlConnectionLib/MysqlInsert.m:46-69 | the text reads back to just that, for any number of columns |
| MysqlInsert.InsertArrivesIff | MysqlConnection/MysqlConnectionLib/MysqlInsert.m:46-73 | from the bytes it is given, the server reads the table, the columns in order and a placeholder for each exactly when at most one byte of the text is in excess of its UTF-16 units |
| MysqlInsert.OneLetterArrivesTwoDoNot | MysqlConnection/MysqlConnectionLib/MysqlInsert.m:46-73 | a printed INSERT whose column is named by one letter of two bytes arrives, and one named by two such letters does not |
| MysqlInsert.ThreeByteLetterDoesNotArrive | MysqlConnection/MysqlConnectionLib/MysqlInsert.m:46-73 | nor does one whose column is named by one letter of three bytes |
| MysqlInsert.InsertArrives | MysqlConnection/MysqlConnectionLib/MysqlInsert.m:44-127 | the same of a statement sent by execute; of the columns that the server reads, each is given the row's value exactly when each value can be carried |
| MysqlUpdate.DeletePrefix | MysqlConnection/MysqlConnectionLib/MysqlUpdate.m:90-110 | removes a prefix of the given length, or raises when the text is shorter |
| MysqlUpdate.MysqlUpdate.BindPairs | MysqlConnection/MysqlConnectionLib/MysqlUpdate.m:40-88 | the pairs and the bindings are built in key order, one flag for each null |
| MysqlUpdate.LexesCondition | MysqlConnection/MysqlConnectionLib/MysqlUpdate.m:97-107 | the text printed for a qualifier entry is three tokens, those of the condition the entry stands for, whatever comes after |
| MysqlUpdate.MysqlUpdate.BuildQualifier | MysqlConnection/MysqlConnectionLib/MysqlUpdate.m:94-108 | the conditions in key order, each after an AND |
| MysqlUpdate.MysqlUpdate.Execute | MysqlConnection/MysqlConnectionLib/MysqlUpdate.m:34-156 | completes exactly when row data and qualifier are not empty and the library reports no error; an empty one raises a range exception; on completion the server was given the text for the object's own table, or for (null) when it is nil, and the row's values, and the heap is as before: each flag and the binding array freed once |
| MysqlUpdate.ByNumberText | MysqlConnection/MysqlConnectionLib/MysqlUpdate.m:36-111 | the text for one column and one number, character by character |
| MysqlUpdate.UpdateOf | MysqlConnection/MysqlConnectionLib/MysqlUpdate.m:36-111 | what an UPDATE says: the table, the columns in order, and the condition of the i-th entry in i-th place |
| MysqlUpdate.LexesPairs | MysqlConnection/MysqlConnectionLib/MysqlUpdate.m:47-91 | without the two characters removed in front, the pairs are a well-formed comma-separated list |
| MysqlUpdate.LexesConditions | MysqlConnection/MysqlConnectionLib/MysqlUpdate.m:94-111 | without the four characters removed in front, the conditions are a well-formed list joined by AND |
| MysqlUpdate.UpdateReadsBackIff | MysqlConnection/MysqlConnectionLib/MysqlUpdate.m:36-111 | the text reads back to just that, exactly when the qualifier's numbers are numerals |
| MysqlUpdate.UpdateArrivesIff | MysqlConnection/MysqlConnectionLib/MysqlUpdate.m:36-119 | from the bytes it is given, the server reads that same statement exactly when at most one byte of the text is in excess of its UTF-16 units and the qualifier's numbers are numerals |
| MysqlUpdate.NumberIsCut | MysqlConnection/MysqlConnectionLib/MysqlUpdate.m:94-119 | with two bytes in excess and a number at the end, the server reads the same statement with the number's last digit gone |
| MysqlUpdate.AnotherRowIsPicked | MysqlConnection/MysqlConnectionLib/MysqlUpdate.m:94-119 | a printed UPDATE of the row with id 12 that the server reads as one of the row with id 1 |
| MysqlUpdate.WherePicksQualifyingIff | MysqlConnection/MysqlConnectionLib/MysqlUpdate.m:94-111 | WHERE holds on exactly the rows on which every qualifier entry holds, whatever the key order, if and only if no qualifier text holds a zero character |
| MysqlUpdate.UpdateArrives | MysqlConnection/MysqlConnectionLib/MysqlUpdate.m:34-136 | of a statement sent by execute: the server reads it as meant exactly with at most one byte in excess and numerals for numbers; then it names the table, what it reads picks the qualifying rows exactly when no qualifier text holds a zero character, and the columns it reads are given the row's values exactly when each can be carried |
| MysqlFetch.BindField | MysqlConnection/MysqlConnectionLib/MysqlFetch.m:90-246 | the buffer type and length of the switch, four fresh blocks for a supported type and nothing for any other |
| MysqlFetch.BindFields | MysqlConnection/MysqlConnectionLib/MysqlFetch.m:74-247 | succeeds exactly when every field's type is supported; then binding x has four live blocks of its own, the buffer as large as the switch says |
| MysqlFetch.BufferSizes | MysqlConnection/MysqlConnectionLib/MysqlFetch.m:90-246 | the size of each type's buffer: the announced width for text, decimals and floating-point numbers, the size of the values for BIGINT, TINYINT and DATETIME, that of long for INT, the default for data |
| MysqlFetch.BufferHoldsIff | MysqlConnection/MysqlConnectionLib/MysqlFetch.m:197-226 | the buffer allocated for a FLOAT or DOUBLE column holds every value of the column exactly when its width is at least 4, or 8 |
| MysqlFetch.NeverOverrunsIff | MysqlConnection/MysqlConnectionLib/MysqlFetch.m:197-226 | no result makes the library write outside a buffer exactly when every FLOAT column is at least 4 wide and every DOUBLE column 8, as the metadata says before any row comes |
| MysqlFetch.NarrowDoubleOverruns | MysqlConnection/MysqlConnectionLib/MysqlFetch.m:212-215 | a column declared DOUBLE(5,2) gets five bytes, and a value of it eight |
| MysqlFetch.ReadBlob | MysqlConnection/MysqlConnectionLib/MysqlFetch.m:309-337 | the value is delivered whole, cut by the fetch or not; afterwards the binding's buffer and buffer length are those from before, the larger buffer is freed, and nothing outside the binding's blocks has changed |
| MysqlFetch.TextIff | MysqlConnection/MysqlConnectionLib/MysqlFetch.m:339-348 | the object for a cell of a STRING or VAR_STRING column is a given string exactly when the cell is its UTF-8 |
| MysqlFetch.BytesIff | MysqlConnection/MysqlConnectionLib/MysqlFetch.m:310-396 | objects for BLOB, NEWDECIMAL, FLOAT and DOUBLE cells are made from exactly the bytes of the cell |
| MysqlFetch.DateIff | MysqlConnection/MysqlConnectionLib/MysqlFetch.m:375-413 | the date for a TIMESTAMP is the one its text parses to, and that for a DATETIME the one of its parts; a DATETIME of no date is left out |
| MysqlFetch.NullIff | MysqlConnection/MysqlConnectionLib/MysqlFetch.m:305-306 | the null object stands for NULL and nothing else |
| MysqlFetch.ReadCell | MysqlConnection/MysqlConnectionLib/MysqlFetch.m:309-431 | of a cell delivered into its buffer: raises for types without a case, for text that is not UTF-8 and for a timestamp that is no date; leaves out a DATETIME that is no date; otherwise the object for the cell, read inside its buffer, with all bindings as before |
| MysqlFetch.ReadColumn | MysqlConnection/MysqlConnectionLib/MysqlFetch.m:285-434 | the entry for the column, with the columns still to be read left as the fetch delivered them; no bound type reaches the default case |
| MysqlFetch.ReadRow | MysqlConnection/MysqlConnectionLib/MysqlFetch.m:283-434 | raises exactly when a column does; otherwise the dictionary holds each column's object under its key, later columns over earlier ones, with all bindings as before |
| MysqlFetch.ReadNext | MysqlConnection/MysqlConnectionLib/MysqlFetch.m:275-285 | one turn of the row loop: a value too large for its buffer overruns it, else a cell that makes a nil object raises, else there is the row's dictionary and the bindings are as before |
| MysqlFetch.ReadRows | MysqlConnection/MysqlConnectionLib/MysqlFetch.m:272-436 | the first row that overruns a buffer or raises decides how the loop ends; with none, one dictionary for each row in order, with every binding's buffer and length still the ones allocated in the binding phase |
| MysqlFetch.CompleteIff | MysqlConnection/MysqlConnectionLib/MysqlFetch.m:272-436 | no row ends the loop early exactly when every cell of every row reads and has room in its buffer |
| MysqlFetch.FreeBindings | MysqlConnection/MysqlConnectionLib/MysqlFetch.m:441-448 | frees each binding's four blocks once, by the addresses it holds by then, leaving exactly the blocks from before |
| MysqlFetch.FetchWithCommand | MysqlConnection/MysqlConnectionLib/MysqlFetch.m:38-451 | for every result, completes exactly when connected, all types are supported, every text decodes, every timestamp is a date, every value has room in its buffer and the library reports no error, with the outcome for each other case; then there is a dictionary for each row and the heap is as before; with wide enough columns no buffer is overrun |
| MysqlFetch.RowsOfAt | MysqlConnection/MysqlConnectionLib/MysqlFetch.m:272-284 | the i-th dictionary is that of the i-th row |
| MysqlFetch.FetchedObject | MysqlConnection/MysqlConnectionLib/MysqlFetch.m:283-434 | in the results, under the key of a column that no later column shares, there is the object for the row's cell |
| MysqlFetch.FetchedText | MysqlConnection/MysqlConnectionLib/MysqlFetch.m:283-434 | so a text column's string is found exactly as the server sent it |
| MysqlFetch.NotUtf8Raises | MysqlConnection/MysqlConnectionLib/MysqlFetch.m:342-346 | a cell a server may deliver, of one byte that starts no character, that raises |
| MysqlFetch.LastColumnWins | MysqlConnection/MysqlConnectionLib/MysqlFetch.m:286-307 | under a key there is the object of the last column with that key that has one |
| MysqlFetch.RowKeys | MysqlConnection/MysqlConnectionLib/MysqlFetch.m:286-307 | the keys of a row are the keys of its columns, without those of a DATETIME that is no date |
| MysqlFetch.NothingEverLostIff | MysqlConnection/MysqlConnectionLib/MysqlFetch.m:286-307 | for every row that the server may deliver and that is read whole, every column's object is found under its key exactly when columns that share a key can only ever be null |
| MysqlFetch.OrdinaryNeverLostIff | MysqlConnection/MysqlConnectionLib/MysqlFetch.m:286-307 | so for columns other than dates and narrow FLOAT or DOUBLE ones, exactly when their keys differ |
| MysqlFetch.NothingLostIff | MysqlConnection/MysqlConnectionLib/MysqlFetch.m:286-307 | in a given row, exactly when columns that share a key share their object |
| MysqlFetch.FirstOfTwoIsLost | MysqlConnection/MysqlConnectionLib/MysqlFetch.m:286-307 | two INT columns of one name, with 1 and 2 in a row: the dictionary has only the 2 |
| MysqlFetch.ManyTablesIff | MysqlConnection/MysqlConnectionLib/MysqlFetch.m:78-288 | names are extended unasked exactly when two columns come from different tables |
| MysqlFetch.KeyOf | MysqlConnection/MysqlConnectionLib/MysqlFetch.m:286-303 | an extended name is the table's name, a dot and the column's name in this order; another is the column's name |
| MysqlFetch.TableThenName | MysqlConnection/MysqlConnectionLib/MysqlFetch.m:295 | the column id of the table users is found under users.id |
| MysqlFetch.ExtendedNamesDiffer | MysqlConnection/MysqlConnectionLib/MysqlFetch.m:288-298 | extended names are equal exactly for columns of the same table and name, tables having no dot in their names |
| MysqlFetch.ExtendedKeysDifferIff | MysqlConnection/MysqlConnectionLib/MysqlFetch.m:288-298 | so with extended names the keys differ exactly when no two columns share both table and name |
| MysqlFetch.IntReadsIff | MysqlConnection/MysqlConnectionLib/MysqlFetch.m:355-358 | an INT, signed or unsigned, reads as itself exactly when it is not negative, where long has eight bytes, and when it is in the signed range, where it has four |
| MysqlFetch.BigIntReadsIff | MysqlConnection/MysqlConnectionLib/MysqlFetch.m:350-353 | a BIGINT, signed or unsigned, reads as itself exactly when it is in the signed range |
| MysqlFetch.TinyIntReadsIff | MysqlConnection/MysqlConnectionLib/MysqlFetch.m:360-363 | a TINYINT, signed or unsigned, reads as itself exactly when it is in the range of char |

## Left out

- `trie_init`, `trie_insert`, `ac_trie_prepare`, `trie_free`: only declared in the repository; they appear as the hypothesis of a well-formed trie.
- TrieNode: siblings are shared with a ghost list of children, so building and freeing a trie is not modelled.
- Trie.AcTrieState.Next: does not model 32-bit lengths; depths are bounded by the 16 bits of `leaf`.
- Inline assembly in `atomic/x86-gcc.h`, the empty locks of `atomic/nolock.h`, weak memory ordering, and the 8-bit, 16-bit and pointer variants of the atomic operations, which differ only in width.
- `my_yield_processor`: a delay that touches no shared state.
- AtomicCell: models the bodies run alone, as straight code; interleaving is in the two state machines.
- `my_count_bits_ushort`: indexes a table of 256 entries with a 16-bit value, so it has no total contract; the bit-field macros after `bitmap_set_all` and the declared bitmap functions are left out as well.
- The 1-byte stores and loads, the x86 variants of the `my_global.h` codecs, and floating-point stores and loads.
- The branches for a garbage-collected build.
- Exceptions: what a raised exception leaves allocated is not stated; memory is accounted for on normal completion.
- MysqlInsert.MysqlInsert.Execute: leaves out `affectedRows` and `rowid`, which are copied from the library, and the lifetime of the buffers that belong to autoreleased strings.
- MysqlUpdate.MysqlUpdate.Execute: leaves out `affectedRows` and `executeQuery:`; nil row data and a nil qualifier are modelled as empty ones, as message sends to nil make them.
- MysqlUpdate.WherePicksQualifyingIff: compares cells with literals as equal texts and equal printed numbers; the server's collations and conversions are not modelled.
- MysqlFetch.FetchWithCommand: takes the statement as prepared, with what the server reads of a command's text stated apart; takes the date formatter and the calendar as functions that may give nil; leaves out the making of decimal numbers, field objects beyond their names, names that are not UTF-8, logging and timing; the field count is the one known when binding.
- MysqlFetch.ReadCell: FLOAT and DOUBLE are delivered as their raw bytes.
- CHeap.Heap.Calloc: memory is never exhausted, and `malloc` is taken to clear its block, which nothing depends on.
- `MysqlConnection.m`, `MysqlDelete.m`, `MysqlLiteral.m`, exceptions, view controllers, the other vendored headers and project files.
