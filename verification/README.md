# A verified model of qsf's data structures and protocols

qsf runs Lua scripts in named nodes, one thread each, which talk to each other
through a message router and to clients through a TCP session server. This
project models the parts of it that have the most state, and proves what they
are for:

* **The hash table behind the session map** (`src/net/uthash.h`). `HashModel`
  says on values what a table is (insertion order, bucket chains, multipliers) and
  what add, delete, find and expand make of it. `UtHash.Hash` is the table as the
  macros build it: elements linked by `prev`/`next` and `hh_prev`/`hh_next`, relinked
  in place. Each of its methods is proved to leave the memory representing what
  the function of `HashModel` says, and `UtHash.Replay` plays whole runs on it.
  `HashPartition`, `HashRuns`, `HashDoubling`, `HashThresholds` and `HashCollisions` prove
  what those functions are for; `SortModel` does that for the bottom-up mergesort.
* **The TCP session server** (`src/net/qsf_net_server.c`). `Framing` has the wire
  format, as a parse of the whole stream and as the reader that is driven by
  chunks; `Sessions` has the receive buffer and the writer in place. `Serials` is
  about 32-bit serials. `ServerModel` is the life of the sessions as a state machine
  over events, `ServerLaws` says what each event does to map, handles and reports, and `NetServer.Server` has the callbacks themselves, on session objects
  and on `UtHash.Hash`; each callback is one step of the state machine,
  and `NetServer.Server.Play` plays any possible run of them.
* **Codecs** (`src/lualib/lua_b64.c`, `src/lualib/lua_crypto.c`). `Base64` is the
  encoding of section 5.2 of RFC 1521 and its decoding, with the slack-bit check of
  section 3.5 of RFC 4648; `Base64Code` has the two C functions. `RsaChunks` has the
  two RSA chunking loops over an abstract block cipher.
* **Nodes and their messages** (`src/qsf_node.c`, `src/qsf_start.c`). `NodeRegistry`
  has the list of nodes in place; `Messaging` is the protocol as interleaved steps on
  queues, and `Router` the code on both sides of the queues, frame by frame.

`Basics`, `Bits` and `Sums` hold facts about sequences, the C bit operators and sums
over counters. A name such as
`Hash.Add` below is a method that changes objects; its contract gives the whole new
state as a function of the old one, and the lemmas about that function are its
meaning.

## Findings

* **Slack bits** (`src/lualib/lua_b64.c:288-289`). Decoding with a null target does
  not look at the slack bits, so there it accepts strings that no encoder produces.
  `LooseWhen` gives the exact condition (the slack bits are zero) and `LooseExample` a
  string. The one caller (`src/lualib/lua_b64.c:326`) passes the buffer it has just
  allocated, so the target is null only where that allocation gives null.
* **Chain lengths** (`src/net/uthash.h:629-630`, `src/net/uthash.h:896-908`). The
  bound that the comment on `expand_mult` promises holds while `noexpand` is 0
  (`ChainsStayShort`), and fails in general. `HashThresholds` has the exact condition, for
  every hash function: an addition leaves every bucket within its threshold if and only
  if its bucket has not already reached it while expansion is inhibited (`AddLow`); a
  deletion always does (`DeleteLow`); and a run never exceeds a threshold if and only if
  none of its additions meets such a bucket (`LowIffNeverFull`). The colliding keys of
  `InhibitedChainOutgrows` are an instance: within the threshold exactly up to 1110 elements.
* **RSA buffer check** (`src/lualib/lua_crypto.c:216-217`). The room a message needs is
  computed in an `int`. It fits exactly for sizes up to
  `INT_MAX / modulus * (modulus - 11)` (`NeedFits`), the first size beyond being
  2055208716 for a 2048-bit key (`OverflowExample`). Beyond it C does not define the
  result. If the product wraps around, `WrapPassesCheck` says for every key exactly when
  the check passes a message that needs more room than the buffer has; with keys of 33 to
  65536 bytes that is every message for which the product does not fit (`WrapPassesLongKey`).

## Model

| member | source | states |
|---|---|---|
| HashPartition.RehashMembers | src/net/uthash.h:695-710 | a chain's elements that land in a given new bucket are exactly those whose hash value selects it |
| HashPartition.SplitCounts | src/net/uthash.h:692-711 | the bucket counts add up to the same total after a doubling: nothing is lost or duplicated |
| HashPartition.SplitPartition | src/net/uthash.h:677-723 | after a doubling the chains still partition the same elements, each in chain `hashv & (2n-1)` |
| HashPartition.InsertPartition | src/net/uthash.h:622-628 | an addition of an absent key keeps the partition |
| HashPartition.WithoutCuts | src/net/uthash.h:636-646 | unlinking takes out the one occurrence of an element and keeps the order of the others |
| HashPartition.DeletePartition | src/net/uthash.h:224-257 | a deletion of a present element keeps the partition |
| HashPartition.FindExact | src/net/uthash.h:103-114 | a lookup returns the element stored under the key, and null exactly when there is none |
| HashDoubling.PartialStep | src/net/uthash.h:695-710 | moving one element puts it at the front of one new chain, in which it was not yet, and leaves the other chains alone |
| HashDoubling.SurplusStep | src/net/uthash.h:699-703 | counting one up whenever a count passes the ideal length counts exactly the sum of the surpluses |
| HashDoubling.IdealFormula | src/net/uthash.h:688-690 | the shift-and-mask formula is the number of items divided by the new number of buckets, rounded up |
| HashRuns.IdealStaysSmall | src/net/uthash.h:688-690 | as long as the buckets are bounded, the next expansion computes an ideal chain length of at most 10 |
| HashRuns.MultPaid | src/net/uthash.h:699-703 | a bucket's new multiplier keeps it within its threshold and costs no more than its count pays for |
| HashRuns.ExpansionBounds | src/net/uthash.h:688-711 | an expansion re-establishes the bound: every bucket within its threshold, and the multipliers plus the buckets exactly at threshold at most the number of buckets |
| HashRuns.FreshLaw | src/net/uthash.h:150-167 | a new table has 32 empty buckets with a threshold of ten elements each |
| HashRuns.ExpandLaw | src/net/uthash.h:677-723 | an expansion's ideal length is the least that has room for all elements, each multiplier counts the ideal lengths in an overfull bucket, the elements within the ideal length and `nonideal_items` together are all elements, and expansion is inhibited after two in a row that left more than half beyond it |
| HashRuns.ExpandInv | src/net/uthash.h:629-632 | an expansion triggered by an addition keeps the whole invariant and computes an ideal length of 1 to 10 |
| HashRuns.AddInv | src/net/uthash.h:182-205 | every addition of an absent key keeps the whole invariant and appends to the insertion order |
| HashRuns.DeleteInv | src/net/uthash.h:224-257 | every deletion of a present element keeps the whole invariant and takes it out of the insertion order |
| HashRuns.After | src/net/uthash.h:182-257 | after any sequence of additions of absent keys and deletions of present elements the table satisfies the invariant, lists insertion order minus deletions, and holds exactly the plain map |
| HashRuns.LookupIsMap | src/net/uthash.h:103-114 | after any such sequence, across any number of expansions, a lookup answers what the plain map answers |
| HashRuns.ChainsStayShort | src/net/uthash.h:896-908 | after any such sequence, while `noexpand` is 0, every bucket holds at most `(expand_mult+1)*10` elements, and the multipliers add up to at most the number of buckets |
| HashThresholds.AddLow | src/net/uthash.h:629-632 | for every hash function, an addition leaves every bucket within its threshold if and only if its bucket has not reached it while `noexpand` is set |
| HashThresholds.DeleteLow | src/net/uthash.h:636-646 | a deletion always leaves them so |
| HashThresholds.ExpandLow | src/net/uthash.h:677-723 | so does an expansion, also the one that sets `noexpand` |
| HashThresholds.LowIffNeverFull | src/net/uthash.h:622-646 | for every hash function and every run of additions and deletions, no bucket is ever above its threshold if and only if no addition goes to a full bucket while `noexpand` is set |
| HashCollisions.RunPiled | src/net/uthash.h:716-721 | the exact multiplier, ineffective-expansion count and `noexpand` after n additions of colliding keys |
| HashCollisions.InhibitedChainOutgrows | src/net/uthash.h:932-938 | the exact condition at work: with colliding keys expansion is inhibited from 110 elements on, and the chain is within its threshold if and only if there are at most 1110 |
| SortModel.MergeSorted | src/net/uthash.h:756-800 | merging two sorted runs gives a sorted run |
| SortModel.MergeEquals | src/net/uthash.h:771-788 | a merge keeps equal elements in order, those of the first run first |
| SortModel.PassRuns | src/net/uthash.h:740-805 | a pass over sorted runs of `insize` leaves sorted runs of twice that length |
| SortModel.PassesSorted | src/net/uthash.h:735-812 | the passes end with a sorted list, equal elements in their old order |
| SortModel.SortIsStable | src/net/uthash.h:730-815 | the result is a permutation, and for a comparison that is a total preorder it is sorted and stable |
| SortModel.SortAscends | src/net/uthash.h:771-788 | in terms of the comparison function: if it is total and transitive on the elements, the result is ascending, and elements it does not tell apart keep their order |
| SortModel.SortIsTheStableSort | src/net/uthash.h:730-815 | a list is the result if and only if it is a sorted stable rearrangement of the input: there is no other |
| UtHash.Hash.Find | src/net/uthash.h:103-114 | returns what the lookup on the represented table returns |
| UtHash.Hash.FindInBkt | src/net/uthash.h:608-619 | the walk along `hh_next` finds the first element of the chain with the key, or null |
| UtHash.Hash.Count | src/net/uthash.h:889-890 | the number of elements in insertion order |
| UtHash.Hash.UnlinkHh | src/net/uthash.h:641-646 | takes one element out of its chain, in both directions, and touches no other chain |
| UtHash.Hash.DelInBkt | src/net/uthash.h:636-646 | the bucket array and all chains are those of the table without the element |
| UtHash.Hash.UnlinkApp | src/net/uthash.h:236-251 | takes one element out of the insertion-order list, with `head`, `tail` and both directions right |
| UtHash.Hash.Delete | src/net/uthash.h:224-257 | the memory represents the table without the element, and stays valid; deleting the last element frees the table |
| UtHash.Hash.LinkHh | src/net/uthash.h:625-628 | puts the element in front of its chain, in both directions |
| UtHash.Hash.CountIn | src/net/uthash.h:699-703 | count, multiplier and surplus of a new bucket with one more element |
| UtHash.Hash.LinkIn | src/net/uthash.h:704-708 | puts an element in front of its chain and leaves the other chains linked |
| UtHash.Hash.MoveOne | src/net/uthash.h:697-708 | moves one element to its new bucket, keeping count, multiplier and the count of surplus elements right |
| UtHash.Hash.EmptyBucket | src/net/uthash.h:694-710 | empties one old bucket into the new array while its links are being overwritten |
| UtHash.Hash.EmptyBuckets | src/net/uthash.h:692-711 | the new array describes exactly the split chains, with `nonidealItems` the sum of the surpluses |
| UtHash.Hash.StartDoubling | src/net/uthash.h:683-691 | a zeroed array of twice the size, and the ideal chain length for it |
| UtHash.Hash.AdoptBuckets | src/net/uthash.h:712-721 | `num_buckets` stays the power of two that `log2_num_buckets` says; `noexpand` is set after two ineffective expansions in a row |
| UtHash.Hash.ExpandBuckets | src/net/uthash.h:677-723 | the memory represents the expanded table |
| UtHash.Hash.AddToBkt | src/net/uthash.h:622-633 | the memory represents the table with the element in its bucket, expanded exactly when the threshold is reached and expansion is not inhibited |
| UtHash.Hash.MakeTable | src/net/uthash.h:150-167 | an empty table of 32 zeroed buckets, with the element as head and tail |
| UtHash.Hash.LinkApp | src/net/uthash.h:185-197 | appends the element to the insertion-order list, making the table first when there is none |
| UtHash.Hash.LinkBkt | src/net/uthash.h:199-201 | the rest of an addition: hash value and bucket |
| UtHash.Hash.Add | src/net/uthash.h:182-205 | the memory represents the table with the element added, and stays valid |
| UtHash.Replay | src/net/uthash.h:182-257 | any run of additions of absent keys and deletions of present elements, played on a table in memory, leaves it representing what the run amounts to |
| UtHash.Hash.Fsck | src/net/uthash.h:287-337 | none of the author's integrity complaints can be raised in a valid table |
| UtHash.Hash.MergeTwo | src/net/uthash.h:756-800 | merges the two runs at the head of what is left by relinking, and leaves the rest walkable |
| UtHash.Hash.SkipRun | src/net/uthash.h:746-754 | steps over a run of at most `insize` elements |
| UtHash.Hash.MergePass | src/net/uthash.h:740-805 | a pass relinks the list into the merged one, and counts its merges |
| UtHash.Hash.SortList | src/net/uthash.h:735-812 | the loop ends, with `head`, `tail`, `prev` and `next` those of the sorted list |
| UtHash.Hash.Sort | src/net/uthash.h:730-815 | the list is rearranged into ascending order of the comparison function; only it changes: chains, buckets and counters stay, and the table stays valid |
| Framing.Header | src/net/qsf_net_server.c:348-351 | the two-byte header of a size is what the reader's `ntohs` turns back into the size |
| Framing.FrameBytes | src/net/qsf_net_server.c:348-351 | the bytes of a frame: the high byte of the size, the low byte, the message |
| Framing.HeaderBytes | src/net/qsf_net_server.c:155-161 | the size the reader takes from two header bytes is 256 times the first plus the second, in one read or two |
| Framing.FirstFrame | src/net/qsf_net_server.c:155-178 | the parse of a stream, by the bytes of its first header; a size of zero delivers nothing |
| Framing.DeliveredSizes | src/net/qsf_net_server.c:170-178 | every message delivered has 1 to 65535 bytes |
| Framing.ParseAppend | src/net/qsf_net_server.c:135-179 | parsing a stream can stop anywhere and go on with the unparsed tail |
| Framing.ReadParses | src/net/qsf_net_server.c:152-178 | one read delivers and keeps exactly what the parse of the tail and the chunk gives |
| Framing.ReassemblyIsParse | src/net/qsf_net_server.c:118-179 | however the stream is cut into reads, the messages delivered are its length-prefix parse, and the reader holds exactly the unparsed tail |
| Framing.ChunkingIrrelevant | src/net/qsf_net_server.c:118-179 | two ways of cutting the same bytes deliver the same and end in the same state |
| Framing.FramesParse | src/net/qsf_net_server.c:343-360 | the frames of a list of messages parse to that list, with nothing left |
| Framing.WriteReadRoundTrip | src/net/qsf_net_server.c:135-179 | what is framed on one side is delivered on the other, in order and whole, in any chunks |
| Sessions.Session.constructor | src/net/qsf_net_server.c:103-116 | a new session has a sound, empty reader with a buffer of 128 bytes |
| Sessions.Session.OnAlloc | src/net/qsf_net_server.c:118-133 | the region offered is never empty, lies inside the buffer, and its end fits 16 bits |
| Sessions.Session.FillHeader | src/net/qsf_net_server.c:155-169 | a complete header is taken as the body size and the buffer grows to hold the body |
| Sessions.Session.FillBody | src/net/qsf_net_server.c:170-178 | a complete body is delivered and the reader starts over |
| Sessions.Session.OnRead | src/net/qsf_net_server.c:152-178 | buffer and counters take one step of the reader, and everything delivered stays the parse of everything received |
| Sessions.Session.Receive | src/net/qsf_net_server.c:118-179 | the same for a read that libuv first asks room for and then fills in |
| Sessions.Pack | src/net/qsf_net_server.c:346-351 | the write buffer holds the frame of the data |
| Sessions.Writer.Write | src/net/qsf_net_server.c:343-360 | the bytes on the wire stay the frames of the messages sent; a failed write adds nothing |
| Serials.NthInjective | src/net/qsf_net_server.c:66-78 | no serial comes up twice within a round of 2^32 - 1 |
| Serials.MetAreMany | src/net/qsf_net_server.c:63-79 | a search that has met only serials in use has met that many different ones, so it ends |
| Serials.Free | src/net/qsf_net_server.c:59-82 | the first non-zero serial in cyclic order that is not in use |
| Serials.FirstFreeUnique | src/net/qsf_net_server.c:59-82 | there is only one such serial |
| Serials.NotReusedAtOnce | src/net/qsf_net_server.c:80-81 | the serial handed out last is not handed out next, even if its session is gone |
| ServerModel.StepInv | src/net/qsf_net_server.c:84-426 | every event keeps the safety invariant: at most `max_connection` sessions, serials distinct and non-zero, every session in one place once, nothing mapped after stop |
| ServerModel.Run | src/net/qsf_net_server.c:84-426 | the invariant holds after every run |
| ServerModel.OnePlaceOnly | src/net/qsf_net_server.c:84-100 | in any run each session is in the map, waiting for its close callback, or freed, in one place only and once; it is freed at most once and never while mapped or closing |
| ServerModel.StoppedForever | src/net/qsf_net_server.c:313-335 | after stop the map is empty and stays empty whatever events follow |
| ServerModel.KeptProper | src/net/qsf_net_server.c:239-248 | a sweep keeps exactly the sessions that are not overdue |
| ServerModel.SweepReportsOnce | src/net/qsf_net_server.c:239-248 | a sweep reports each overdue session once, and no other |
| ServerModel.SweepKeepsOrder | src/net/qsf_net_server.c:239-248 | survivors of a sweep keep their order |
| ServerModel.SweepNext | src/net/qsf_net_server.c:239-248 | one visit of the sweep, while earlier ones have already deleted sessions |
| ServerModel.SilentSessionGone | src/net/qsf_net_server.c:231-249 | a session from which nothing more is read is gone after the first tick past its deadline, whatever happens in between |
| ServerModel.ReadSessionStays | src/net/qsf_net_server.c:152 | whatever happens within `max_heart_beat` seconds after a read, that session is still in the map, under its serial, unless it fails, is kicked or the server stops |
| ServerModel.StoppedOnce | src/net/qsf_net_server.c:313-335 | a run with a stop in it ends with an empty map |
| ServerModel.HeardSessionStays | src/net/qsf_net_server.c:231-249 | a session heard of within its deadline stays in the map, under its serial, unless it fails, is kicked or the server stops |
| ServerLaws.AcceptLaw | src/net/qsf_net_server.c:189-228 | an accepted connection is last in the map under the first free serial from `next_serial` on, one that fails is closed at once, one too many is reported, and a stopped server does nothing |
| ServerLaws.ListenErrorLaw | src/net/qsf_net_server.c:184-188 | a listen error changes nothing |
| ServerLaws.DataLaw | src/net/qsf_net_server.c:152 | a read renews the time of its session and changes nothing else |
| ServerLaws.ReadEndLaw | src/net/qsf_net_server.c:141-151 | a read error is reported with its code and serial, and takes that session out of the map and to closing, and no other |
| ServerLaws.TickLaw | src/net/qsf_net_server.c:237-248 | a tick closes a session if and only if more than `max_heart_beat` seconds have passed since its last read; the others stay |
| ServerLaws.KickLaw | src/net/qsf_net_server.c:416-426 | after a kick no session has the serial, all others are there in order, and the session kicked is being closed |
| ServerLaws.StopLaw | src/net/qsf_net_server.c:318-323 | a stop empties the map and closes every session in it |
| ServerLaws.ClosedLaw | src/net/qsf_net_server.c:84-90 | a close callback frees its session for the first and only time |
| NetServer.Server.constructor | src/net/qsf_net_server.c:251-272 | a new server represents the initial state, with 1000 as next serial |
| NetServer.Server.SessionDestroy | src/net/qsf_net_server.c:92-100 | reading stops, and only an open handle is given to `uv_close` |
| NetServer.Server.ReadingIsMapped | src/net/qsf_net_server.c:219-227 | a session that is being read is in the map, so every read callback is about one that is |
| NetServer.Server.SetSessionSerial | src/net/qsf_net_server.c:59-82 | the search loop ends, through wrap-around and past zero, at the first free serial, found by lookups in the hash table |
| NetServer.Server.SessionCreate | src/net/qsf_net_server.c:103-116 | a new session is not in the map, not closing and not freed |
| NetServer.Server.OnConnection | src/net/qsf_net_server.c:182-228 | is the accept event, on every error path; the new session is open, being read and last in the map, or closing and not in it |
| NetServer.Server.OnReadError | src/net/qsf_net_server.c:141-151 | is the read-error event: the callback is told code and serial, the element is cut out of the map, and the handle is closing |
| NetServer.Server.OnRead | src/net/qsf_net_server.c:152-178 | is the data event: the session's time is now, its reader takes one step; no other session changes |
| NetServer.Server.SweepOne | src/net/qsf_net_server.c:239-248 | one turn of the sweep: the successor read beforehand is the next element of the map, whether or not this one was deleted |
| NetServer.Server.HeartbeatTimer | src/net/qsf_net_server.c:231-249 | is the tick event, walking the links of the hash table while deleting from it; a handle is closing afterwards exactly if its session was silent for too long |
| NetServer.Server.StopOne | src/net/qsf_net_server.c:319-323 | one turn of the stop: the first element is gone, and the successor read beforehand is first |
| NetServer.Server.StopServer | src/net/qsf_net_server.c:313-335 | is the stop event: the map is empty, every session in it is closing, and so are timer and acceptor |
| NetServer.Server.OnEvent | src/net/qsf_net_server.c:84-426 | every event of the state machine has its callback or call, and the objects take exactly that step |
| NetServer.Server.Play | src/net/qsf_net_server.c:84-426 | any possible sequence of events, played on the hash table, the sessions and their handles, ends in the state the run of the model ends in |
| NetServer.Server.ValidIsSound | src/net/qsf_net_server.c:84-228 | in terms of the objects: at most `max_connection` elements, keys equal to distinct non-zero serials, and a handle open exactly while its session is in the map |
| NetServer.Life | src/net/qsf_net_server.c:84-426 | the same from the creation of a server on, over every run, with an empty map after a stop |
| NetServer.Server.Close | src/net/qsf_net_server.c:416-426 | is the kick event: no element has the key any more, its handle is closing, and the others are open |
| NetServer.Server.OnSessionClose | src/net/qsf_net_server.c:84-90 | is the close-callback event |
| NetServer.Server.FindSession | src/net/qsf_net_server.c:419-420 | the hash table finds the session the state has under the serial, or none |
| NetServer.FoundAt | src/net/qsf_net_server.c:419-421 | looking up a serial in the table is looking it up among the live sessions |
| Base64.Encode | src/lualib/lua_b64.c:303 | the encoding has four characters for every three bytes begun |
| Base64.AlphabetIs | src/lualib/lua_b64.c:52-54 | the character of a digit is the one at its place in the table, and the pad is `=` |
| Base64.ValueIs | src/lualib/lua_b64.c:200-202 | a character has a value if and only if it is in the table, and then its place there |
| Base64.SpaceIs | src/lualib/lua_b64.c:194-195 | the six characters skipped as whitespace |
| Base64.EncodeBits | src/lualib/lua_b64.c:127-173 | every character of the encoding: six bits of the 24 of its three bytes, from the highest, or a pad behind the last byte |
| Base64.RunOfEncode | src/lualib/lua_b64.c:204-246 | the automaton restores what the encoder made of whole groups |
| Base64.EncodeOfRun | src/lualib/lua_b64.c:204-246 | the encoder restores what the automaton made of whole quads |
| Base64.DecodeOfEncode | src/lualib/lua_b64.c:120-301 | decoding inverts encoding |
| Base64.EncodeOfDecode | src/lualib/lua_b64.c:249-301 | an accepted string is the encoding of what it decodes to |
| Base64.DecodeIffEncode | src/lualib/lua_b64.c:185-301 | a string without whitespace decodes to d if and only if it is the encoding of d |
| Base64Code.Sextets | src/lualib/lua_b64.c:133-140 | shifts and masks give the four characters of three bytes; the assertions hold |
| Base64Code.Ntop | src/lualib/lua_b64.c:120-178 | writes the encoding and a zero exactly when both fit, and answers -1 otherwise |
| Base64Code.EncodeLenSuffices | src/lualib/lua_b64.c:303-304 | a target of B64_ENCODE_LEN bytes always holds both, for at least one byte |
| Base64Code.Store | src/lualib/lua_b64.c:204-246 | the target and the two counters take one step of the automaton, unless there is no room |
| Base64Code.Digits | src/lualib/lua_b64.c:193-247 | the main loop reads the digits up to a pad or the end, or the answer is -1 |
| Base64Code.SkipSpaces | src/lualib/lua_b64.c:263-265 | the next character that is not whitespace |
| Base64Code.OnlySpaces | src/lualib/lua_b64.c:278-280 | whether only whitespace is left |
| Base64Code.Pton | src/lualib/lua_b64.c:185-301 | the answer for every string without zero bytes and every target; what it puts in the target is the decoding |
| Base64Code.DecodeLenSuffices | src/lualib/lua_b64.c:305 | with a target of B64_DECODE_LEN bytes no size check fires |
| Base64Code.PtonIffNtop | src/lualib/lua_b64.c:185-301 | with such a target the decoder succeeds with d if and only if the string without whitespace is the encoding of d |
| Base64Code.EncodeDecodeRoundTrip | src/lualib/lua_b64.c:120-301 | what the encoder writes decodes to the original bytes in a target of B64_DECODE_LEN bytes |
| Base64Code.LooseWhen | src/lualib/lua_b64.c:288-289 | without a target an accepted string is an encoding if and only if its slack bits are zero |
| Base64Code.LooseExample | src/lualib/lua_b64.c:288-289 | a string that is accepted without a target and is no encoding of anything |
| RsaChunks.ChunksRoundTrip | src/lualib/lua_crypto.c:221-267 | the decrypting loop restores what the encrypting loop made, and the ciphertext has one block per chunk |
| RsaChunks.RsaRoundTrip | src/lualib/lua_crypto.c:210-269 | whatever is accepted for encryption is accepted for decryption and restored; the ciphertext has `modulus*ceil(size/(modulus-11))` bytes |
| RsaChunks.EncryptAccepts | src/lualib/lua_crypto.c:216-220 | with a cipher that does not fail, exactly the messages of at most `MAX_RSA_BUF/modulus` full blocks are accepted; all others get -2 |
| RsaChunks.DecryptAccepts | src/lualib/lua_crypto.c:243-251 | with a cipher that does not fail, exactly which sizes get -3, which get -2, and which are accepted |
| RsaChunks.CipherBlock | src/lualib/lua_crypto.c:221-235 | block k of the ciphertext is the encryption of chunk k of the message |
| RsaChunks.NeedFits | src/lualib/lua_crypto.c:216 | the room computation fits an `int` if and only if the size is at most `INT_MAX/modulus*(modulus-11)` |
| RsaChunks.WrapPassesCheck | src/lualib/lua_crypto.c:216-217 | with wrap-around, a message that needs more room than the buffer passes the check if and only if the product does not fit an `int` and its low 32 bits are not a number above the buffer size that fits |
| RsaChunks.WrapPassesLongKey | src/lualib/lua_crypto.c:216-217 | for keys of 33 to 65536 bytes, if and only if the product does not fit an `int` |
| RsaChunks.OverflowExample | src/lualib/lua_crypto.c:216-217 | the smallest such size for a 2048-bit key |
| RsaChunks.Rsa.Loop | src/lualib/lua_crypto.c:221-236 | the loop stays within the buffer and leaves the outputs of the blocks in it one after the other, or answers -1 |
| RsaChunks.Rsa.Encrypt | src/lualib/lua_crypto.c:210-237 | the answers -2 and -1, and the ciphertext in the buffer, for every size for which the arithmetic is defined |
| RsaChunks.Rsa.Decrypt | src/lualib/lua_crypto.c:239-269 | the answers -3, -2 and -1, and the plaintext in the buffer, for keys of any length |
| NodeRegistry.RemoveByNameIsExact | src/qsf_node.c:67-87 | removal by name unlinks exactly the node meant, and keeps the rest in order |
| NodeRegistry.StepInv | src/qsf_node.c:151-221 | creations, failed thread starts, refusals and exits keep names distinct, shorter than 32 and different from "sys", and free nothing twice |
| NodeRegistry.CreateLaw | src/qsf_node.c:212-220 | a node whose thread starts is last in the list; one whose thread does not is freed and the list is as before |
| NodeRegistry.ExitLaw | src/qsf_node.c:151-171 | an exit frees the node that exits and takes it and no other out of the list |
| NodeRegistry.RefusalMeans | src/qsf_node.c:196-211 | which names are refused, with which of the three answers |
| NodeRegistry.Run | src/qsf_node.c:151-221 | the same after every interleaving |
| NodeRegistry.FreedForGood | src/qsf_node.c:76-77 | a freed node is never in the list again and never freed again |
| NodeRegistry.Context.Find | src/qsf_node.c:49-65 | the first node of that name, or null |
| NodeRegistry.Context.Append | src/qsf_node.c:89-105 | a new node at the end of the list, and the count one up |
| NodeRegistry.Context.Remove | src/qsf_node.c:67-87 | unlinks the first node of that name, and counts down exactly if there is one |
| NodeRegistry.Context.CreateNode | src/qsf_node.c:193-221 | the three refusals, the started node last in the list, and the node freed and the list as before because its thread did not start |
| NodeRegistry.Context.Cleanup | src/qsf_node.c:151-171 | the exiting node itself is unlinked and freed; `count` stays the length of the list |
| Messaging.SendLaw | src/qsf_node.c:228-238 | a send adds its data for the receiver named, at the end of the sender's queue, and nothing to any other |
| Messaging.DispatchLaw | src/qsf_start.c:76-92 | a dispatch moves the oldest message of the peer served to the end of its receiver's queue, under the sender's name, and to no other |
| Messaging.ReceiveLaw | src/qsf_node.c:251-268 | a receive takes the oldest message for the node and hands it over, unless it is empty |
| Messaging.ExitLaw | src/qsf_node.c:153-156 | what an exit loses and what it leaves |
| Messaging.SentIsRecorded | src/qsf_node.c:228-238 | what a run has sent is what its send events say, in order |
| Messaging.SubDrop | src/qsf_start.c:84-92 | leaving out a message keeps a sequence an in-order subsequence |
| Messaging.SendStep | src/qsf_node.c:228-238 | a send, queued or not, keeps what is delivered and under way an in-order part of what was sent |
| Messaging.DispatchStep | src/qsf_start.c:64-102 | so does a dispatch, whether it passes the message on or not |
| Messaging.ReceiveStep | src/qsf_node.c:240-274 | so does a receive |
| Messaging.ExitStep | src/qsf_node.c:151-156 | so does the exit of a node, which loses what is queued for it and what the router has not taken |
| Messaging.DeliveredIsSent | src/qsf_start.c:64-102 | over all interleavings, drops and exits, what B is handed as coming from A is an in-order part of what the send events of A name B for |
| Messaging.NothingElseIsLost | src/qsf_start.c:64-102 | without drops and exits, what was received and what is still queued is all that the send events say, in order |
| Messaging.RunNamed | src/qsf_node.c:251-255 | every sender's name that arrives has 1 to 31 bytes, so the length check of a receive never fails |
| Router.RouterSocket.DispatchMessage | src/qsf_start.c:64-102 | six frame operations, failing at any of them, amount to one dispatch that passes the message on or loses it; the receiver sees the sender's name |
| Router.RouterSocket.ServeOne | src/qsf_start.c:183-185 | a turn is steps of the nodes followed by at most one dispatch, of the peer served; it fails exactly on a failed call or an unreachable receiver that is an error |
| Router.RouterSocket.Serve | src/qsf_start.c:183-191 | the events of the main loop are, turn by turn, those steps and dispatches up to the first failing turn, its effect on the queues is their run, and from empty queues on every node has got an in-order part of what the send events say was sent to it |
| Router.Node.Send | src/qsf_node.c:228-238 | two frame operations amount to one send: the sender's queue ends with the data for the receiver named |
| Router.Node.Close | src/qsf_node.c:153-156 | amounts to the exit of the node |
| Router.Node.Recv | src/qsf_node.c:240-274 | amounts to one receive; an empty message is consumed and not handed on |

## Left out

- HASH_SELECT, HASH_BLOOM, the alternative hash functions, HASH_OVERHEAD, HASH_CLEAR and HASH_REPLACE are unused here. The hash function is an arbitrary function of the key.
- UtHash.Hash.Add: does not model overflow of the `unsigned` counters, failing allocation, or memory after it is freed; the freed bucket array is simply not referred to any more.
- UtHash: an element is an object with the handle embedded and a reference to the session, where the source embeds the handle in the session. The key is the 32-bit serial that every table here uses, and there is one table where handles point to theirs.
- UtHash.Hash.Sort: `_hs_insize` does not overflow; the comparison is a pure function of the two elements.
- HashRuns.ChainsStayShort: is about tables whose `noexpand` is 0; `HashThresholds.LowIffNeverFull` says exactly when the bound also holds for the others.
- NetServer.Server.Play: the event loop is any sequence of events libuv may produce, each with the bytes offered to a read.
- ServerModel.Step: `uv_now` does not go backwards, a close callback comes once and later than `uv_close`, and reads are reported only between `uv_read_start` and `uv_read_stop`. The read callback does not close sessions from within an error or timeout report; a callback that does so after data is the data event followed by the kick event.
- Sessions.Session.OnRead: `nread == 0` changes nothing and is left out; error texts are left out of the reports.
- Sessions.Writer.Write: a refused write adds nothing; what libuv does with queued bytes is not modelled.
- qsf_net_server_write, qsf_net_server_write_all, qsf_net_server_shutdown and qsf_net_server_session_address look up sessions and call libuv on them; they change neither the map nor a reader, so no result here depends on them.
- qsf_net_server_start, qsf_net_server_destroy, qsf_node_exit and signal handling depend on lifetimes in libuv and the operating system.
- Base64Code.Pton: `isspace` is that of the C locale, with no character above 127 a space; `B64_DECODE_LEN` is the exact rounded-up quotient.
- Base64Code.EncodeLenSuffices: starts at one byte, because the unsigned formula wraps at none. The Lua wrappers around the two functions are not modelled.
- RsaChunks.Rsa.Encrypt: excludes the sizes for which the product overflows an `int`, and keys of 1 to 11 bytes: with 11 the block size is zero and C defines no quotient, and below it is negative, so that what happens is up to OpenSSL, which is not part of this model.
- RsaChunks.Rsa.Decrypt: excludes the sizes for which the product overflows an `int`, which only keys shorter than 11 bytes allow.
- The block cipher of `RsaChunks` is any function of the chunk and the number of the call; key loading, AES and digests are left out.
- NodeRegistry.Context.CreateNode: the mutex makes each call one step; the Lua state, the event loop, the path and the arguments of a node are left out, and so is truncation of the latter two.
- Messaging.RunNamed: takes senders' names of 1 to 31 bytes. The registry also admits the empty name; ZeroMQ refuses an empty identity, and then creating the dealer aborts (`src/qsf_start.c:34-35`).
- Router.RouterSocket.DispatchMessage: ZeroMQ keeps multipart messages whole, keeps the order between two peers, and may drop messages to unknown or full peers; whether it does is an argument. Waiting for a message is not modelled: a turn serves a peer that has one.
- Router.Node.Send: whether the dealer has room is an argument, where the source waits or aborts. A failing socket call aborts in the source and is not modelled.
- The Lua bindings, zlib, MySQL, files, processes, logging and configuration are glue or foreign code.
