# FEDB in Dafny

A model of the in-memory core of FEDB and of the wire path around it, with
proofs. The subjects are the skip list that holds a key's time series
(`src/base/skiplist.h`), the row format (`src/codec/codec.cc`), the framing and
the scatter/gather of batch queries (`src/codec/sql_rpc_row_codec.cc`,
`src/catalog/client_manager.*`), the bounded task pool (`src/base/taskpool.hpp`
over `src/base/ringqueue.h`), the iterators over partitions and responses
(`src/catalog/distribute_iterator.cc`, `src/base/kv_iterator.h`,
`src/cmd/sdk_iterator.h`), the copy-on-write table map
(`src/catalog/tablet_catalog.cc`) and the random number generator
(`src/base/random.h`).

`dafny verify dfyconfig.toml` checks the whole project.

## Main results

- **Skip list.** Under histories of Insert, AddToFirst, Remove, Split, the three
  truncations by position and Clear the linked structure refines a sorted
  sequence: its contents are those of the sequence, and while every link leads
  forward in the list every search ends where a linear scan ends. Each operation
  says exactly when it keeps the links that way, whatever list of that kind it is
  called on: Insert, AddToFirst, Clear and the cut by position always do, Remove
  does *if and only if* only the nodes where its search leaves a level link the
  removed node (`UnlinkedTable`), and Split *if and only if* only links of those
  nodes lead across the cut (`ClearedTable`). The conditions are about a computed
  table of where every link leads, which each operation transforms in a known way.
  A history that meets them for every choice of heights refines the sequence
  (`Replay`); after one more operation the contents are right in any case, and the
  links lead forward if and only if that operation met its condition
  (`ReplayThen`). `StaleRead` is a history with a removal that does not: it leaves a
  link to the removed node, and later the empty list still finds that node's
  entry. A stronger shape is that level i links exactly the nodes whose *reach*
  exceeds i, in list order. On such a list every operation meets its condition
  (`ReachKeeps`), every operation but Remove keeps the shape, and Remove does
  *if and only if* a condition on the reaches holds (`RemoveKeepsExactly`). Reach
  is height until a truncation by position keeps a node that shares the cut key
  and is taller than one level (`CutByPositionExact`, an *if and only if*;
  `TwinLosesTower` is such a list). So every history in which no removal follows a
  truncation by position is safe (`SteadyIsSafe`, `ReplaySteady`), which covers the
  data lists, truncated but never removed from, and the key lists, removed from but
  never truncated by position. Equal keys form a stack: Remove takes the newest,
  Get reads the oldest.
- **Concurrent inserts.** With every link load and store one atomic step, each
  level stays a sorted sublist of the one below in every reachable state, readers
  touch only links that have been written, and a search that runs across any
  number of inserts answers for the key it was started with and the state at its
  last read: FindLessThan with the lower bound of the visible keys, FindEqual with
  their upper bound. The list holds exactly the keys of the inserts begun, in order
  (`RunInserts`). An insert can begin in every reachable state without one, for
  every key and height, and is never stuck.
- **Rows.** What RowBuilder writes for any fitting list of values, RowView reads
  back exactly, whatever the buffer held before. The width of the string offsets
  is the least that can hold every offset, and `CalTotalLength` is the least size
  that holds the row *if and only if* one below 2^32 bytes does. `SetBuffer` accepts a buffer
  that is too small for its own offset table, at some size, *if and only if* the
  schema has strings and its table with two-byte entries ends past byte 256
  (`GuardExact`, with an instance in `GuardTooWeak`).
- **Projection** of a sequence of rows, each complete for its own covered schema
  version, gives the selection of every row in order (`ProjectAll`). This needs
  the current view to belong to the current version, which holds after Init *if
  and only if* version 1 is not a version or no covering version is below 1. Rows
  of all versions are decoded with their own schema or refused *if and only if*
  version 1 is the first to cover the list (`DecodersExact`). Otherwise the first
  version-1 row is decoded with another schema: `MixedUp` and `WrongColumn` are
  projectors and a row for which the output holds a value the row does not.
- **Scatter then gather** is a pointwise map: the requests built from the batch
  are readable by their tablets, and with tablets that answer every readable
  request row by row, position r of the merged table is the answer to row r. The
  tablet's own decode and encode loops meet that contract (`ServeBatch`). Decoding
  succeeds *if and only if* the bytes hold the rows the sizes announce, which they
  do in one way only; a response is accepted *if and only if* it has arrived
  without an error and holds its rows, and the merged table is OK *if and only if*
  every response is and has as many rows as positions.
- **Task pool.** In every run the accepted tasks are those of calls of AddTask, each
  call's once, and until Stop every called task is pending or accepted
  (`RunAccepts`). Tasks leave in acceptance order and are called exactly once, no
  wake-up is lost, nothing gets stuck, and shutdown takes an
  exactly known number of worker steps.
- **Iterators.** Seek over partitions is the lexicographic lower bound and the
  key lookup succeeds *if and only if* the key is stored; the k-way merge
  delivers each record once, newest first with ties in source order, and leaves
  nothing behind *if and only if* no time is zero.
- **Copy-on-write map.** Concurrent AddTable and DeleteTable calls linearize at
  their swaps although addresses are reused: every operation that took effect is
  the one exactly one call was made with, every other call is under way, calls that do not overlap take effect in their real-time order,
  and a swap fails only spuriously or because another operation took effect since
  the load.
- **Random.** The shift-and-fold step is multiplication by 16807 modulo 2^31 - 1,
  and the generator has full period: from every seed it visits all of
  [1, 2^31 - 2].

## How the model is made

- `Towers.dfy`, `Reach.dfy`, `Links.dfy`, `SkiplistNodes.dfy`, `Skiplist.dfy`: nodes
  are objects with a private `seq` of links (the source's `nexts_` array is reached
  only through its node). `nodes` is the ghost list of nodes from the head on,
  `Table()` says by position where every link leads, and `reach` at how many levels
  each node is linked. `Searchable()` means that every link leads forward,
  `SearchOk(key)` that the links a search for the key can see do, `Loose()` that
  every level is the nodes reached there, and `Valid()` exact towers. A search is
  specified by where the links lead it (`Stop`); on a list in order that is where a
  linear scan ends. The methods that change the list ask for `SearchOk` of their key
  or, without a key, for the chain of level 0, and describe the stores they make;
  what follows for `Searchable()`, `Loose()` and `Valid()` is stated per clause. Get
  and FindEqual take as a ghost argument the nodes they may come by, which on a list
  in order are the list. The comparator is any three-way function that is a strict
  weak order.
- `SkiplistHistory.dfy`: histories of operations on the linked structure against a
  sequence whose entries remember when they were added, and against a computed
  table of links. The heights the generator draws are arbitrary there.
- `SkiplistStale.dfy`: two concrete histories.
- `SkiplistConcurrent.dfy`, `TaskPool.dfy`, `TableCas.dfy`: step systems. One step
  is one atomic load or store, one critical section, or one compare-and-swap.
  Memory is sequentially consistent. Spurious wake-ups and spurious failures are
  steps of their own.
- `RowLayout.dfy` describes the byte format on sequences, `RowCodec.dfy` and
  `RowProject.dfy` are the classes. Bytes are little-endian; float and double are
  opaque bit patterns. The setters that differ only in type are one method over a
  tagged value. The three-byte string offsets are big-endian, as in the source.
- 32-bit arithmetic is written out where a result depends on it (`CalTotalLength`,
  the string length in `StrRange`, the skip list's `GetSize`, the generator).
- Hash functions, tablet answers, the contents of freshly allocated memory and the
  bytes a short copy leaves in a variable are parameters.
- Where the code and its names or comments differ, the model follows the code:
  `FindLessOrEqual` finds strictly smaller keys, and `tail_` is `head_`, not null,
  after a split that empties the list.

## Model

| member | source | states |
|---|---|---|
| `ParkMiller.FoldIsMod` | src/base/random.h:43-63 | the shift, the fold and the conditional subtraction give seed * 16807 mod 2^31 - 1, for every seed in [1, 2^31 - 2] |
| `ParkMiller.StepBijective` | src/base/random.h:43-63 | the step is a bijection of [1, 2^31 - 2], undone by the multiplier 1407677000 |
| `ParkMiller.RunClosedForm` | src/base/random.h:43-63 | the seed after n calls is seed * 16807^n mod 2^31 - 1 and never leaves the range |
| `ParkMiller.Random.constructor` | src/base/random.h:37-42 | every 32-bit argument gives a legal seed; the two bad ones become 1 |
| `ParkMiller.Random.Next` | src/base/random.h:43-63 | returns and stores the reduced product and keeps the seed legal |
| `FullPeriod.VisitsAll` | src/base/random.h:46-51 | from every seed every number of the range is reached within one period, as the comment promises |
| `FullPeriod.ExactPeriod` | src/base/random.h:46-51 | a seed comes back after 2^31 - 2 steps and not earlier |
| `FullPeriod.NoEarlyReturn` | src/base/random.h:46-51 | 16807 has order 2^31 - 2: no smaller power is 1 |
| `Ordering.DescendingIsOrder` | src/base/skiplist.h:30-39 | the default comparator is a strict weak order that puts larger keys first |
| `Towers.LevelIsChain` | src/base/skiplist.h:42-90 | the per-node description of a level and the list of its nodes in order say the same |
| `Towers.LevelNested` | src/base/skiplist.h:42-90 | the nodes of level i + 1 are among those of level i |
| `Skiplists.Skiplist.constructor` | src/base/skiplist.h:95-108 | an empty list whose head carries the default key, with the tower invariant |
| `Skiplists.Skiplist.FindLessOrEqual` | src/base/skiplist.h:379-395 | the last node with a smaller key, as a linear scan finds it, and per level where the links lead; if all links lead forward, the stops of their table |
| `Skiplists.Skiplist.FindLessThan` | src/base/skiplist.h:413-428 | the same node as a linear scan of level 0 |
| `Skiplists.Skiplist.FindEqual` | src/base/skiplist.h:397-411 | where the links lead; on a list in order, the last node whose key is not larger, as a linear scan finds it |
| `Skiplists.Skiplist.Get` | src/base/skiplist.h:245-252 | on a list in order, succeeds if and only if the key is present, or no key is smaller or equal and the head's default key equals it; returns the last entry with the key |
| `Skiplists.Skiplist.IsEmpty` | src/base/skiplist.h:133-138 | true exactly for the empty list |
| `Skiplists.Skiplist.GetSize` | src/base/skiplist.h:256-269 | the number of entries modulo 2^32 |
| `Skiplists.Skiplist.GetLast` | src/base/skiplist.h:254 | the last node; for an empty list null or the head |
| `Skiplists.Skiplist.RandomHeight` | src/base/skiplist.h:371-377 | a height between one and the limit: all draws before it, taken from the seed, are multiples of the branch, and the next one is not unless the limit is reached; so the limit itself if the branch is 1 |
| `Skiplists.Skiplist.Insert` | src/base/skiplist.h:112-131 | the entry goes before equal keys, linked in by exactly the stores at the stops; if every link led forward every link does, with the table of the old one and the new node between the stops and their successors; the height is the one RandomHeight draws from the seed; a list with a reach gets it as the reach of the new node and keeps the others; exact towers stay exact |
| `Skiplists.Skiplist.AddToFirst` | src/base/skiplist.h:295-319 | refuses exactly keys above the first one; otherwise the entry becomes the first, with the same clauses as Insert |
| `Skiplists.Skiplist.Remove` | src/base/skiplist.h:141-163 | unlinks the first node with the key, if there is one, by exactly the stores at the stops; every link still leads forward if and only if only the stops linked that node; a list with a reach keeps its links forward, and has a reach again if and only if `RemoveKeeps` held; exact towers stay exact |
| `Skiplists.Skiplist.Split` | src/base/skiplist.h:166-184 | cuts at the lower bound of the key by exactly the stores at the stops, and the part cut off keeps its links; every link of the kept part leads forward if and only if only the stops' links led across; a list with a reach keeps the reach of every kept node; exact towers stay exact |
| `Skiplists.Skiplist.SplitByPos` | src/base/skiplist.h:186-198 | cuts at the position, or not at all past the end; kept part and returned chain make up the old list; links that led forward still do; what table and reach are left, and exactly when towers are exact |
| `Skiplists.Skiplist.SplitByKeyOrPos` | src/base/skiplist.h:200-215 | cuts at the smaller of the key's lower bound and the position; with the condition of Split if the bound is smaller, and of SplitByPos otherwise |
| `Skiplists.Skiplist.SplitByKeyAndPos` | src/base/skiplist.h:217-238 | cuts at the larger of the two, or not at all if the position is past the end; with the condition of Split if the bound is not smaller, and of SplitByPos otherwise |
| `Skiplists.Skiplist.SplitOnPosNode` | src/base/skiplist.h:438-463 | keeps exactly the nodes before the position and links that led forward still do, without the upper ones past the cut key's lower bound; with a reach, kept nodes with the cut key drop to level 0, so towers are exact afterwards if and only if they were in the kept part and no kept tall node shares the cut key |
| `SkiplistNodes.LinkedInTable` | src/base/skiplist.h:126-129 | the stores of an insertion at the stops leave every link leading forward, with the table shifted around the new node |
| `SkiplistNodes.UnlinkedTable` | src/base/skiplist.h:155-158 | the stores of a removal leave every link leading forward if and only if no node but the stops linked the removed one, and then with the table without it |
| `SkiplistNodes.ClearedTable` | src/base/skiplist.h:177-182 | the stores of Split leave every link of the kept part leading forward if and only if no link but the stops' led across the cut, and then with the table cut there |
| `SkiplistNodes.CutByPositionTable` | src/base/skiplist.h:438-463 | cutting upper links by key leaves every link of the kept part leading forward, and with which table |
| `SkiplistNodes.CutByPositionExact` | src/base/skiplist.h:451-456 | cutting upper links by key leaves exact towers if and only if they were exact in the kept part and no kept node taller than one level has the cut key |
| `SkiplistStale.TwinLosesTower` | src/base/skiplist.h:186-198 | two entries with one key and a truncation between them leave a list without exact towers |
| `Reach.ReachUnique` | src/base/skiplist.h:42-90 | the links determine the reach: towers are exact if and only if every reach is the height |
| `Reach.RemoveKeepsExactly` | src/base/skiplist.h:150-158 | the stores of a removal leave a list with a reach if and only if the node is reached at all its levels, or nothing follows it where it first is not, or one node that ends there and is not taller |
| `SkiplistStale.StaleRead` | src/base/skiplist.h:141-163 | four inserts with a truncation by position between them, then the removal of everything: the list is empty and Get finds a removed entry |
| `Skiplists.Skiplist.Clear` | src/base/skiplist.h:272-292 | unlinks and counts every node and leaves an empty list |
| `Skiplists.Iterator.Next` | src/base/skiplist.h:328-331 | on to the next node of level 0 |
| `Skiplists.Iterator.Seek` | src/base/skiplist.h:343-346 | the lower bound of the key |
| `Skiplists.Iterator.SeekToFirst` | src/base/skiplist.h:348-351 | the first node |
| `Skiplists.Iterator.SeekToLast` | src/base/skiplist.h:353 | the last node; for an empty list null or the head |
| `SkiplistHistory.Replay` | src/base/skiplist.h:112-319 | after any history of all operations that meets its conditions for every choice of heights, every link leads forward, as the computed table says, and the contents are those of the sequence model; the list has a reach if no removal follows a truncation by position, and exact towers without truncations by position |
| `SkiplistHistory.ReplayThen` | src/base/skiplist.h:112-319 | a history that meets its conditions and one more operation: the contents are those of the sequence model in any case, and every link leads forward if and only if the computed state says that the operation keeps them |
| `SkiplistHistory.Step` | src/base/skiplist.h:112-319 | any operation on any list whose links lead forward: contents, the exact condition for the links to lead forward afterwards, and the table they then have |
| `SkiplistHistory.ReachKeeps` | src/base/skiplist.h:141-184 | on a list with a reach every operation meets its condition |
| `SkiplistHistory.ReplaySteady` | src/base/skiplist.h:112-319 | for every history in which no removal follows a truncation by position the list has a reach and the contents of the sequence model; without truncations by position the towers are exact |
| `SkiplistHistory.SteadyIsSafe` | src/base/skiplist.h:112-319 | a history in which no removal follows a truncation by position meets its conditions for every choice of heights |
| `SkiplistHistory.RunStacked` | src/base/skiplist.h:112-163 | in the sequence model entries are sorted and equal keys are ordered newest first |
| `SkiplistHistory.EqualKeysAreAStack` | src/base/skiplist.h:112-163 | in the sequence model after any history, the lower bound of a key is its newest entry and the last of its run the oldest |
| `SkiplistHistory.TakeNewest` | src/base/skiplist.h:141-163 | on any list whose links lead forward, the node Remove returns is the newest entry with the key, and null exactly if there is none |
| `SkiplistHistory.ReadOldest` | src/base/skiplist.h:245-252 | on any list whose links lead forward, Get gives the value of the oldest entry with the key |
| `SkiplistConcurrent.NextKeeps` | src/base/skiplist.h:112-131 | every atomic step of an insert and of any number of searches keeps the invariant |
| `SkiplistConcurrent.CanBegin` | src/base/skiplist.h:112-125 | in every state of the invariant without an insertion one can begin, for every key, height and new node: at each level the last published node before the key is a predecessor as the search finds it |
| `SkiplistConcurrent.CanLink` | src/base/skiplist.h:126-129 | in every state of the invariant with an insertion under way its next store is possible |
| `SkiplistConcurrent.CanSearch` | src/base/skiplist.h:397-428 | in every state of the invariant a search can begin and a running one can do its next load |
| `SkiplistConcurrent.CanStart` | src/base/skiplist.h:95-108 | the runs start from the empty list, of any height |
| `SkiplistConcurrent.RunLevels` | src/base/skiplist.h:112-131 | in every state of every run each level is a sorted sublist of the one below |
| `SkiplistConcurrent.RunInserts` | src/base/skiplist.h:112-131 | in every state of every run the list holds exactly the keys of the inserts begun, sorted and newer before older among equal ones, and all of them but the one under way are linked at all their levels |
| `SkiplistConcurrent.ReadIsSafe` | src/base/skiplist.h:397-428 | the link a search reads next has been written |
| `SkiplistConcurrent.RunSearch` | src/base/skiplist.h:397-428 | a search was started once, with the kind and key it has, and reads only written links; when it finishes, FindLessThan stands on the last visible node with a smaller key, the lower bound of the visible keys at its last read, and FindEqual on the last whose key is not larger, their upper bound |
| `Bytes.LittleEndianRoundTrip` | src/codec/codec.h:284-303 | a word that fits its width is read back as written |
| `Bytes.LittleEndianDigit` | src/codec/codec.h:284-303 | byte i of a word is its digit of weight 256^i |
| `Bytes.SignedRoundTrip` | src/codec/codec.cc:240-290 | exactly the numbers that fit w bytes in two's complement survive a store and a load |
| `Bytes.SetBit` | src/codec/codec.cc:185-207 | setting or clearing a bit of a byte changes that bit only |
| `Bytes.BitIsDigit` | src/codec/codec.cc:185-207 | bit k of a byte has weight 2^k |
| `RowLayout.FixedRoundTrip` | src/codec/codec.cc:227-323 | every fixed-width value is read back as written |
| `RowLayout.DateRoundTrip` | src/codec/codec.cc:170-183 | year, month and day survive packing and unpacking |
| `RowLayout.AddrRoundTrip` | src/codec/codec.cc:209-225 | every offset up to the row size survives at the width of the row, the big-endian three-byte form included |
| `RowLayout.AddrDigit` | src/codec/codec.cc:209-225 | the most significant byte of an offset comes first in three bytes and last in any other number |
| `RowLayout.AddrLengthLeast` | src/codec/codec.cc:50-60 | for every size below 2^32, w bytes can hold it if and only if w is at least the width chosen |
| `RowLayout.WidthFixedPoint` | src/codec/codec.cc:118-134 | the width charged per string is the one the resulting size selects |
| `RowLayout.RowSizeLeast` | src/codec/codec.cc:118-134 | the size a row needs, by the cascade of the source without wrap-around, is below 2^32 if and only if some size holds the fixed part, an entry of w bytes per string and the strings, and is below 256^w, for a w up to 4; then it is the least such size |
| `RowLayout.TotalLengthExact` | src/codec/codec.cc:118-134 | in 32-bit arithmetic the result is the least size that holds the row if and only if one below 2^32 does |
| `RowLayout.TotalLengthWraps` | src/codec/codec.cc:129-131 | a string of 2^32 - 4 bytes gives a total of 4 |
| `RowLayout.BitMapSize` | src/codec/codec.cc:29 | the least number of bytes with a bit for each column |
| `RowLayout.FixedLaid` | src/codec/codec.cc:227-323 | setting the next fixed field leaves all earlier columns readable |
| `RowLayout.NullLaid` | src/codec/codec.cc:196-207 | so does a NULL, whose string offset is still recorded for the next string |
| `RowLayout.StringLaid` | src/codec/codec.cc:331-348 | so does a string, which ends where the next one starts |
| `RowLayout.StringReadBack` | src/codec/codec.cc:868-936 | the range read for a string column is exactly its bytes; the last string ends at the row size |
| `RowLayout.FixedReadBack` | src/codec/codec.cc:506-649 | a fixed field of a complete row reads back as its value |
| `RowLayout.NullReadBack` | src/codec/codec.h:156-160 | the null bit of a column is set exactly for NULL |
| `RowLayout.CompleteUnique` | src/codec/codec.cc:442-785 | a row holds at most one list of values |
| `RowCodec.ScanSchema` | src/codec/codec.cc:61-88 | the offsets of the fixed fields, the numbers of the strings and the start of the offset table |
| `RowCodec.RowBuilder.constructor` | src/codec/codec.cc:61-88 | the builder is prepared for its schema, without a buffer |
| `RowCodec.RowBuilder.CalTotalLength` | src/codec/codec.cc:118-134 | the least size that holds the row if and only if one below 2^32 does; without wrap-around exactly the table at the result's own width plus the strings; 0 without columns |
| `RowCodec.RowBuilder.SetBuffer` | src/codec/codec.cc:98-116 | accepts by the guard of the source; an accepted buffer with room for its table is ready for the first column |
| `RowCodec.GuardExact` | src/codec/codec.cc:98-102 | some buffer below 2^32 bytes passes the guard without room for its offset table if and only if the schema has strings and two bytes for each of them end past byte 256 |
| `RowCodec.GuardTooWeak` | src/codec/codec.cc:98-102 | 300 bytes for 200 strings |
| `RowCodec.RowBuilder.SetStrOffset` | src/codec/codec.cc:209-225 | writes one table entry, or nothing past the last string |
| `RowCodec.RowBuilder.SetFixed` | src/codec/codec.cc:227-323 | refuses a wrong index or type; otherwise clears the null bit and writes the field |
| `RowCodec.RowBuilder.SetDate` | src/codec/codec.cc:170-183 | refuses dates out of range; otherwise the same row as with the packed date, although the stores come in the other order |
| `RowCodec.RowBuilder.SetNull` | src/codec/codec.cc:196-207 | refuses NOT NULL columns; otherwise sets the bit and the next string offset |
| `RowCodec.RowBuilder.SetString` | src/codec/codec.cc:331-348 | refuses null, a wrong column or a string that does not fit, checked on the wrapped sum; otherwise stores it between its two offsets |
| `RowCodec.RowBuilder.AppendFixed` | src/codec/codec.cc:227-323 | the row holds the earlier values and the new one, or is unchanged |
| `RowCodec.RowBuilder.AppendDate` | src/codec/codec.cc:164-168 | the same for a date by year, month and day |
| `RowCodec.RowBuilder.AppendNull` | src/codec/codec.cc:190-194 | the same for NULL |
| `RowCodec.RowBuilder.AppendString` | src/codec/codec.cc:325-329 | the same for a string |
| `RowCodec.RowView.constructor` | src/codec/codec.cc:412-422 | a view of any schema is valid and has its offsets, without a row |
| `RowCodec.RowView.Reset` | src/codec/codec.cc:465-475 | accepts a row whose header states its size; a failure leaves the view invalid for good |
| `RowCodec.RowView.GetFixed` | src/codec/codec.cc:506-649 | -1 exactly if the view, index or type is wrong, 1 for NULL, otherwise 0 and the field's value |
| `RowCodec.RowView.GetDate` | src/codec/codec.cc:526-544 | the same, with the date unpacked |
| `RowCodec.RowView.GetString` | src/codec/codec.cc:765-785 | the same, with where the string lies |
| `RowCodec.GetStrField` | src/codec/codec.cc:868-936 | start and length of a string from its table entry and the next one, or the row size |
| `RowCodec.WriteRow` | src/codec/codec.cc:94-348 | any fitting row is written completely into a buffer of the computed size, whatever that held before |
| `RowCodec.ReadValue` | src/codec/codec.cc:492-785 | a valid view gives back every value of a complete row, or 1 for NULL |
| `RowCodec.RoundTrip` | src/codec/codec.cc:61-936 | writing a row and reading it back gives the values |
| `RowProjects.SumStrings` | src/codec/codec.cc:1005-1020 | the string bytes of the selected columns |
| `RowProjects.CopyColumns` | src/codec/codec.cc:1023-1099 | the output holds the selected values in order; it fails exactly if the view is invalid and some selected value is not NULL |
| `RowProjects.RowProject.Init` | src/codec/codec.cc:955-987 | views for exactly the versions that have all listed columns, the least of them current; fails if there are none; exactly when the current view belongs to version 1 if that has one |
| `RowProjects.RowProject.Choose` | src/codec/codec.cc:992-1002 | makes the view of the row's version current, or fails if there is none |
| `RowProjects.RowProject.Project` | src/codec/codec.cc:989-1103 | decoding the output gives the selected values in order; the exact condition for success; which version and view are current afterwards and which views stay valid |
| `RowProjects.RowProject.ProjectAll` | src/tablet/tablet_impl.cc:1002-1012 | rows of any mix of covered versions, each complete for its own, all give their selections in order |
| `RowProjects.RowProject.DecodersExact` | src/codec/codec.cc:955-1002 | after Init, rows of covered versions are decoded with their own schema unless version 1 covers the list and an earlier version does too; rows of all versions are, or are refused, if and only if version 1 is the first to cover the list |
| `RowProjects.MixedUp` | src/codec/codec.cc:940-1002 | with versions 0 and 1, or with 0 only, a version-1 row is decoded with the schema of version 0 and the output holds other bytes |
| `RowProjects.WrongColumn` | src/codec/codec.cc:940-1002 | with versions 1 and 2 and a column only version 2 has, a version-1 row that holds one string is decoded with the schema of version 2 and gives a number |
| `RpcRows.EncodeRpcRow` | src/codec/sql_rpc_row_codec.cc:73-97 | appends the slices, an empty one as a six-byte header |
| `RpcRows.DecodeRpcRow` | src/codec/sql_rpc_row_codec.cc:22-71 | succeeds if and only if the buffer holds a row at the offset: consecutive slices, as many as stated, each as long as its length word says, that fill the stated size; and gives that row |
| `RpcRows.ReadsUnique` | src/codec/sql_rpc_row_codec.cc:22-71 | a buffer holds at most one row at an offset |
| `RpcRows.SentReads` | src/codec/sql_rpc_row_codec.cc:22-97 | the buffer holds an encoded row, at any offset |
| `RpcRows.EncodedRowIsFramed` | src/codec/codec.cc:98-116 | a row written by RowBuilder carries its own length where the framing expects it |
| `RpcRows.FramedExactly` | src/codec/sql_rpc_row_codec.cc:36-46 | a slice is framed if and only if its length can be read from its own bytes, whatever the variable for it held |
| `RpcRows.SizeWordIs` | src/codec/sql_rpc_row_codec.cc:36-38 | a length word that sticks out of the buffer keeps the old bytes of the variable there |
| `RpcRows.EncodeRows` | src/catalog/client_manager.cc:308-317 | the rows one after the other, with their sizes and the last slice count |
| `RpcRows.DecodeRows` | src/catalog/client_manager.cc:133-146 | succeeds if and only if the buffer holds the rows the sizes announce, one behind the other, and gives them and where they end |
| `RpcRows.SentBatchReads` | src/catalog/client_manager.cc:133-146 | the buffer holds an encoded batch, so decoding gives it back from any offset |
| `RpcRows.BatchUnique` | src/codec/sql_rpc_row_codec.cc:22-71 | the bytes, sizes and slice count of a batch determine its rows |
| `ScatterGather.PlaceOf` | src/catalog/client_manager.h:178-194 | row r is found in its accessor's positions and rows at its rank |
| `ScatterGather.PositionIs` | src/catalog/client_manager.h:178-194 | position k of an accessor is the k-th row assigned to it |
| `ScatterGather.SplitIsPartition` | src/catalog/client_manager.h:178-194 | every row is in exactly one place of exactly one position list, the one its assignment names |
| `ScatterGather.SplitTotal` | src/catalog/client_manager.h:99-103 | the position lists have as many entries as there are rows |
| `ScatterGather.TabletsAccessor.AddTabletAccessor` | src/catalog/client_manager.h:178-194 | the position lists keep partitioning the rows as the assignments say, one accessor per name |
| `ScatterGather.TabletsAccessor.SplitRows` | src/catalog/client_manager.cc:344-347 | each accessor gets its rows in order |
| `ScatterGather.TabletsAccessor.SubQuery` | src/catalog/client_manager.cc:337-354 | one request per accessor with its rows, one handler per accessor that waits for the answer to that request, with its positions |
| `ScatterGather.ServeBatch` | src/tablet/tablet_impl.cc:1996-2062 | succeeds if and only if the request can be read and every answer has one slice, otherwise the error code is set; a request that asks for rows is answered row by row, in a response the handler reads back |
| `ScatterGather.AsyncTableHandler.SyncRpcResponse` | src/catalog/client_manager.cc:106-150 | RPC error exactly if nothing arrived or the call failed; OK if and only if the response has code 0 and at least one row and its bytes hold its rows, which are then the table; response error otherwise |
| `ScatterGather.AsyncTableHandler.GetIterator` | src/catalog/client_manager.cc:87-96 | the rows exactly if the status is or becomes OK, by the same conditions |
| `ScatterGather.AsyncTablesHandler.StoreRows` | src/catalog/client_manager.cc:203-209 | writes exactly the handler's positions, once each, with its rows |
| `ScatterGather.AsyncTablesHandler.SyncAllTableHandlers` | src/catalog/client_manager.cc:176-214 | OK if and only if every handler is or becomes OK with as many rows as positions; then every position was written once with its tablet's row; otherwise the status is that of the first handler that is not |
| `ScatterGather.ScatterThenGather` | src/catalog/client_manager.cc:337-354 | if every tablet answers the requests it can read row by row, and each accessor's rows are framed and have one slice count, position r of the merged table is the answer to row r |
| `RingQueues.RingQueue.constructor` | src/base/ringqueue.h:31-36 | an empty queue of the given size |
| `RingQueues.RingQueue.Full` | src/base/ringqueue.h:39 | true exactly when the size is reached |
| `RingQueues.RingQueue.Empty` | src/base/ringqueue.h:41 | true exactly when nothing is queued |
| `RingQueues.RingQueue.Size` | src/base/ringqueue.h:45-56 | the number of queued items |
| `RingQueues.RingQueue.Put` | src/base/ringqueue.h:58-62 | appends; on a full queue everything queued is lost |
| `RingQueues.RingQueue.Pop` | src/base/ringqueue.h:63-70 | takes the oldest item |
| `TaskPool.Monitor.AddTask` | src/base/taskpool.hpp:62-70 | leaves without the task exactly if stopped, waits exactly if full and not stopped, otherwise appends the task; this is the branch the step system takes |
| `TaskPool.Monitor.ThreadProc` | src/base/taskpool.hpp:78-91 | leaves exactly if stopped and empty, waits exactly if empty and not stopped, otherwise takes the oldest task, which is set; this is the branch the step system takes |
| `TaskPool.NextKeeps` | src/base/taskpool.hpp:48-95 | every step, spurious wake-ups included, keeps the invariant |
| `TaskPool.RunSafe` | src/base/taskpool.hpp:48-95 | in every run: acceptance order, only set and accepted tasks called, none twice; when all workers have returned the queue is empty and every accepted task was executed exactly once |
| `TaskPool.RunAccepts` | src/base/taskpool.hpp:62-70 | in every run every accepted task is the task of a call, no call is accepted twice, a pending task is that of its producer's last call, and until Stop every call is pending or accepted |
| `TaskPool.StopRefuses` | src/base/taskpool.hpp:62-70 | after Stop nothing is accepted |
| `TaskPool.RunNoLostWakeup` | src/base/taskpool.hpp:62-95 | in every run: while a worker waits at most as many tasks are queued as workers are notified, while a producer waits at most as many slots are free as producers are notified, and no state is stuck |
| `TaskPool.QueueNotStuck` | src/base/taskpool.hpp:72-95 | while a task is queued some worker can take one or finish one |
| `TaskPool.RoomNotStuck` | src/base/taskpool.hpp:62-70 | if a producer waits while there is room, a notified one can put its task |
| `TaskPool.ShutdownNotStuck` | src/base/taskpool.hpp:48-60 | after Stop some worker can step until all have returned |
| `TaskPool.ShutdownBound` | src/base/taskpool.hpp:48-60 | after Stop the workers take exactly the remaining number of steps, and all have returned exactly then |
| `DistributeIterators.PlaceIsLowerBound` | src/catalog/distribute_iterator.cc:77-106 | the place in the key's partition, or the next partition, is the lexicographic lower bound over all entries |
| `DistributeIterators.FullTableIterator.SeekToFirst` | src/catalog/distribute_iterator.cc:26-37 | stands on the first entry of the concatenation of the partitions |
| `DistributeIterators.FullTableIterator.Next` | src/catalog/distribute_iterator.cc:43-62 | on to the next entry of the concatenation |
| `DistributeIterators.FullTableIterator.GetValue` | src/catalog/distribute_iterator.cc:64-68 | key and value of the current entry |
| `DistributeIterators.DistributeWindowIterator.SeekToFirst` | src/catalog/distribute_iterator.cc:108-122 | stands on the first entry |
| `DistributeIterators.DistributeWindowIterator.Seek` | src/catalog/distribute_iterator.cc:77-106 | stands on the least entry not before (partition of the key, key) |
| `DistributeIterators.DistributeWindowIterator.Next` | src/catalog/distribute_iterator.cc:124-140 | on to the next entry |
| `DistributeIterators.DistributeWindowIterator.GetKey` | src/catalog/distribute_iterator.cc:148 | the key of the current entry |
| `DistributeIterators.DistributeWindowIterator.Drain` | src/catalog/distribute_iterator.cc:124-140 | repeated Next yields the matching suffix of the enumeration |
| `DistributeIterators.GetIterator` | src/catalog/tablet_catalog.h:62-74 | with keys placed by hash, a window is found if and only if the key is stored locally, and it is the key's |
| `KvIterators.Fields` | src/codec/row_codec.h:491-510 | size, pk size, time, pk and value of an encoded record are read back; without pk, as line 415 writes it, the same without the two pk parts |
| `KvIterators.KvIterator.constructor` | src/base/kv_iterator.h:33-46 | stands on the first record |
| `KvIterators.KvIterator.Valid` | src/base/kv_iterator.h:100-114 | true exactly while there is a current record |
| `KvIterators.KvIterator.StepWithPk` | src/base/kv_iterator.h:117-133 | the next record with its pk, or the end |
| `KvIterators.KvIterator.StepWithoutPk` | src/base/kv_iterator.h:134-147 | the next record without pk, or the end |
| `KvIterators.KvIterator.Next` | src/base/kv_iterator.h:116-149 | on to the next record |
| `SdkIterators.MergeMembers` | src/cmd/sdk_iterator.h:47-78 | exactly the records with a time above zero are delivered |
| `SdkIterators.MergeSorted` | src/cmd/sdk_iterator.h:47-78 | newest first, ties in source order, so each record once |
| `SdkIterators.MergeComplete` | src/cmd/sdk_iterator.h:52-65 | nothing is left behind if and only if no record has time zero |
| `SdkIterators.ZeroTimeIsLost` | src/cmd/sdk_iterator.h:52-65 | a list of two records of which only the first is delivered |
| `SdkIterators.SDKIterator.constructor` | src/cmd/sdk_iterator.h:32-37 | the first record of the merge is current |
| `SdkIterators.SDKIterator.Choose` | src/cmd/sdk_iterator.h:52-76 | the first iterator with the newest record becomes current; used-up ones are dropped: the list of iterators changes exactly if there are any, and then it has no gaps |
| `SdkIterators.SDKIterator.Next` | src/cmd/sdk_iterator.h:47-78 | on to the rest of the merge |
| `SdkIterators.SDKIterator.Valid` | src/cmd/sdk_iterator.h:39-45 | there is a record and the limit is not passed |
| `SdkIterators.SDKIterator.Drain` | src/cmd/sdk_iterator.h:39-78 | the merge, cut at exactly the smaller of limit and total |
| `TableCas.NextKeeps` | src/catalog/tablet_catalog.cc:177-200 | every step of any number of calls keeps the invariant |
| `TableCas.RunLinearizes` | src/catalog/tablet_catalog.cc:177-200 | in every state of every run the shared map is the swapped operations in order; each of them is the operation exactly one call was made with, swapped or returned; every other call is under way with its own; and a call returns the size right after its own |
| `TableCas.RealTimeOrder` | src/catalog/tablet_catalog.cc:177-200 | a call that returned before another was made took effect before it |
| `TableCas.SwapFailsOnlyForProgress` | src/catalog/tablet_catalog.cc:177-200 | a swap that does not fail spuriously succeeds if and only if nothing took effect since the load |
| `TableCas.NeverOverwritten` | src/catalog/tablet_catalog.cc:177-185 | a table stays in place until its partition is deleted |
| `TableCas.LastWordOn` | src/catalog/tablet_catalog.cc:177-200 | after the last operation on a partition it is there exactly if that was an AddTable |

## Left out

- Weak memory orders: every atomic access is one sequentially consistent step.
- Concurrent Remove, Clear, Split and Iterator::Seek on the skip list: the code asks for external synchronisation.
- GetLast beside concurrent inserts: the tail is published before its node is linked.
- Destructors and freeing of nodes, buffers and responses.
- `RowBuilder::AppendValue`, `RowView::GetStrValue`, `GetValue` and `GetInteger`, the one-argument `Reset`, and the `v1::Append*` helpers: text conversion or second copies of the same readers.
- Rows whose header states their size but whose offsets point elsewhere: the source then reads memory it does not own; the readers here require the row to reach to the end of its offset table.
- The branch for unsupported column types: every declared type is supported, so it cannot be taken.
- RowCodec.RowBuilder.AppendNull: asks for a column that exists, because the source indexes the schema without a check.
- RowCodec.RowBuilder.SetString: asks that offset plus length, if it reaches 2^32, still exceeds the size after wrapping; otherwise the source's check passes and the copy leaves the buffer.
- RowCodec.RowBuilder.AppendString: asks for the same as SetString.
- Skiplists.Skiplist.Insert: asks that the links its search can see lead forward (`SearchOk`); where an earlier operation left a stray link on that path, only FindEqual and Get are described.
- Skiplists.Skiplist.Remove: asks for the same as Insert.
- Skiplists.Skiplist.Split: asks for the same as Insert.
- Skiplists.Skiplist.SplitByKeyOrPos: asks for the same as Insert.
- Skiplists.Skiplist.SplitByKeyAndPos: asks for the same as Insert.
- SkiplistHistory.Replay: speaks of histories that meet their conditions; for one that does not, `ReplayThen` says what the first operation that fails its condition leaves, and the later ones are described one by one where their search meets no stray link.
- ScatterGather.ServeBatch: session.Run is a function of each row, and that the handler reads the answers back is stated for single non-empty framed slices; the path with a common row is left out.
- RowProjects.RowProject.Project: speaks of rows that are well-formed for the version that decodes them (`ProjectAll` of rows well-formed for their own) and of outputs below 2^32 bytes; schemas extend by appending columns.
- `TabletAccessor::SubQuery` with a common request, which sends one row only, and single-row SubQuery.
- Network, timeouts, callbacks and status texts of the RPC layer; a response is data that arrives.
- TaskPool: fairness of the scheduler and failure of thread creation; `notify_one` wakes exactly one waiting thread if there is one.
- The storage iterators below the partition iterators: they are represented by what they enumerate and by a lower-bound Seek.
- DistributeIterators.GetIterator: asks for at least one partition in the table's meta data.
- KvIterators.KvIterator.Next: asks for a current record; responses are below 2^32 - 8 bytes and made of whole records.
- `TabletTableHandler::GetCount`, `Get`, `At` and `Update`, schema adapters, name server clients, storage, disk, command line and SDK code.
