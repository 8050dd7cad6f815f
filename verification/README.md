# Dafny model of the Redis client in hiredis_wrapper

This project models the client library in `hiredis_wrapper/`: the reply reader, the
command formatters, growable strings, the command parser that finds the keys of a
formatted command, the cluster layer that hashes keys to slots, splits multi-key commands
by slot, routes, redirects, pipelines and merges, the asynchronous context with its
callbacks, and the hash table. What each of these promises over all inputs, runs or
answers of the other side is proved.

Objects whose fields the library changes in place are classes here (the reader and its reply
objects, growable strings, sub-commands, the route index, replica lists, the pipeline, the
callback list and the asynchronous context, the hash table and its iterator); each of their
methods is proved against a specification function or a ghost state, and the properties of
these are lemmas. Loops of the library are loops here. The network, the server and the
application are parameters: an arbitrary cluster answers in `Redirect`, arbitrary replies
arrive in `Async` and `Pipeline`, and arbitrary callbacks run in `Async`.

| modules | what they model |
|---|---|
| Bytes, Sds, Escape, EscapeBytes | numerals, growable strings, quoting and splitting of lines |
| Resp, RespBytes, Reader | the reply protocol on values and byte by byte, and the incremental reader on the heap |
| Format | the two command formatters |
| CommandTable, Command, CommandRoundTrip, CommandNames, CommandKeys, CutOff | the command parser, against the formatter, by command name, against arbitrary bytes and against cut-off commands |
| PolynomialDivision, Crc16, HashSlot | the checksum and the slot of a key |
| FragmentLayout, Fragment, FragmentFit | splitting a command by slot and the bytes of the fragments |
| Merge, Scatter, ClusterCommand | merging, the effect on the stores, and the whole multi-key command |
| Route, Replica, Redirect, Pipeline | the slot index, replicas, redirections, pipelined requests |
| Async, Dict | the asynchronous context and the hash table |

`Reader.Session` builds on `Resp.FeedsAreRun` and `Resp.MachineRefinesParser`, and
`ClusterCommand.FormattedCommand` on `CommandRoundTrip.ParserInvertsFormatter`,
`Fragment.PreFragment`, `FragmentLayout.CanonicalIsWire`, `Scatter.SplitPreserves` and
`Merge.PostFragment`. What MGET, DEL and MSET mean for a store, which that theorem takes for
granted of the servers, is said by `Scatter.MgetMeans`, `Scatter.DelMeans`, `Scatter.MsetMeans`
and `ClusterCommand.ArityRefused`.

## Findings

Four promises do not hold of the code. Each has a concrete input and its exact condition.

- Fragment lengths. `_hi_itoa` (hiutil.cpp:90-140) writes no terminator for zero, and the writing loop
  of `command_pre_fragment` prints every key length into one buffer that it never clears. An
  empty key after a number of two or more digits therefore gets a wrong length line and the
  fragment outgrows its precomputed length: `FragmentFit.FitFails`. All fragments fit if and
  only if the keys of slot 0 are as `FragmentFit.FitIffShort` says; that is the precondition
  of `ClusterCommand.FormattedCommand`.
- Lost callbacks. With a graceful disconnect, `redisProcessCallbacks` disconnects as soon as
  no reply is available and the output is flushed (async.cpp:414), although replies may be outstanding;
  the assertion in `__redisAsyncDisconnect` (async.cpp:332) then fails: `Async.DisconnectWhilePending`. It
  happens if and only if commands are pending at that point, no error has occurred and the
  context has not been freed (`Async.AsyncContext.ProcessCallbacks`); without a graceful disconnect it never happens
  (`Async.RunEvents`).
- Search off the array. In `node_get_by_slot` (hircluster.cpp:2565) `middle - 1` wraps around for
  a slot before the first range, and the index leaves the array instead of NULL being returned.
  `ASSERT` expands to nothing (hiutil.h:162), so that `hiarray_get` then reads outside the array.
  `Route.SlotBeforeTwoRanges` is an instance, and it happens exactly for the array lengths that
  `Route.NodeGetBySlot` gives. Nothing in the repository calls this function; slots are looked
  up in the table.
- Replies out of step. When an append fails after some fragments have been sent (hircluster.cpp:3926), these stay
  in their connections although the request is not queued, and later replies of these
  connections belong to other requests: the connections stay in step if and only if no
  append fails like that (`Pipeline.RunEvents`). `Pipeline.WrongReply` is a run in which a GET is
  handed the answer to an MGET fragment, and `Pipeline.StaleAnswer` says it of every
  such append on idle connections.

A fifth concerns the command parser's result: it starts as OK and stays OK when the bytes end
early, so an incomplete MSET is split although the value of its last key is missing
(`CommandKeys.CutOffFails`, `CommandKeys.CutOffKeys`). `CutOff.CutOffBytes` says which prefixes of
a formatted MSET these are.

Where comments and code disagree, the code is modelled: the slot number returned by
`command_pre_fragment` is that of the last key, not of the last fragment; the depth error
says "depth > 7" but arrays nest eight deep; an MSET with a lone key and no value is
accepted by the parser; the overlap error for a slot held twice is raised also when the same
node holds it twice.

## Model

| member | source | states |
|---|---|---|
| Reader.Session | hiredis_wrapper/read.cpp:419-528 | Feeding any bytes in any chunks to a new reader and draining it after each hands out objects that hold exactly the replies of the recursive parser on all the bytes, in order, stays valid for objects handed out earlier, and ends in that parser's error or none. The reader works on its growing buffer with the 1024-byte compaction, the nine-entry task stack and reply objects linked into their parents. |
| Reader.Reader.GetReply | hiredis_wrapper/read.cpp:480-528 | One call returns the next reply, or NULL when more bytes are needed, or the error, exactly as the run of the machine from the reader's state says; a reply handed out shares no object with the reader, and an error is permanent. |
| Reader.Reader.MoveToNextTask | hiredis_wrapper/read.cpp:193-216 | Completing a value closes every array it fills and stops at the first that still wants an element: the task stack after the loop stands for the delivered frames, and the root reply is complete exactly when the stack is empty. |
| Reader.Reader.ProcessLineItem | hiredis_wrapper/read.cpp:218-250 | A status, error or integer line becomes an object linked into its parent, and the reader moves on as one step of the machine; without a whole line nothing changes. |
| Reader.Reader.BulkOfLength | hiredis_wrapper/read.cpp:252-303 | A bulk string is delivered only once all its bytes and its line end are in the buffer, a negative length delivers nil, and an incomplete one leaves the cursor before its length line. |
| Reader.Reader.ProcessMultiBulkItem | hiredis_wrapper/read.cpp:305-368 | An array header pushes a task, or delivers nil or an empty array; at the ninth level it is the depth error. |
| Reader.Reader.ReadType | hiredis_wrapper/read.cpp:370-417 | The type byte selects the kind of the current item; an unknown byte is the protocol error that names it. |
| Reader.Reader.SeekNewline | hiredis_wrapper/read.cpp:123-149 | The nested scan finds the first CR LF in the unread bytes, or -1 when there is none, never looking past the terminator. |
| Reader.Reader.ReadLongLong | hiredis_wrapper/read.cpp:151-176 | The digit loop computes the number of the line with its sign, and -1 when a byte is not a digit. |
| Reader.Reader.Feed | hiredis_wrapper/read.cpp:448-478 | New bytes are appended behind the unread ones, unless the reader is in error. |
| Reader.Reader.Compact | hiredis_wrapper/read.cpp:511-517 | Dropping the consumed bytes once there are 1024 of them leaves the unread bytes and the reader's state as they were. |
| Resp.ChunkIndependence | hiredis_wrapper/read.cpp:448-528 | On values: any two ways of cutting the same bytes give the same replies and the same error. The buffer and its compaction are in Reader.Session. |
| Resp.RunResumes | hiredis_wrapper/read.cpp:480-528 | Stopping for more bytes and resuming is the same as having had all the bytes, from every state of the machine. |
| Resp.MachineRefinesParser | hiredis_wrapper/read.cpp:370-417 | On every byte string the stack machine gives the replies and the error of the recursive parser. |
| Resp.ParseEncoded | hiredis_wrapper/read.cpp:193-303 | The encoding of any sendable reply, followed by any bytes, is read back as that reply with those bytes left over when its arrays fit the stack, and is the depth error otherwise. |
| Resp.FedRepliesComeBack | hiredis_wrapper/read.cpp:448-528 | Encoded replies arrive as exactly those replies, in order and without an error, however the bytes are cut. |
| RespBytes.StatusBytes | hiredis_wrapper/read.cpp:218-250 | The bytes 43, a line without a line break, CR LF: that line as a status, with the following bytes left over. |
| RespBytes.ErrorBytes | hiredis_wrapper/read.cpp:218-250 | The bytes 45, a line, CR LF: that line as an error. |
| RespBytes.IntegerBytes | hiredis_wrapper/read.cpp:151-250 | The byte 58 and any line: an integer, which is the signed value of the digits up to the end or the first CR, and -1 when another byte comes before it. |
| RespBytes.BulkBytes | hiredis_wrapper/read.cpp:252-303 | The byte 36, a length, that many bytes and two more of any value: these bytes as a string. |
| RespBytes.BulkTooShort | hiredis_wrapper/read.cpp:252-303 | A string whose bytes and two more are not all there is not delivered. |
| RespBytes.NilBytes | hiredis_wrapper/read.cpp:252-303 | The byte 36 and a negative length, or a line that is no number: nil. |
| RespBytes.EmptyArrayBytes | hiredis_wrapper/read.cpp:305-368 | The byte 42 and a count that is not positive: nil for -1, the empty array for 0, and below that the array object with that count, at every depth below eight. |
| RespBytes.NilArray | hiredis_wrapper/read.cpp:325-336 | The bytes of *-1 are nil, at the top and as an element of an array, whatever follows. |
| RespBytes.ArrayBytes | hiredis_wrapper/read.cpp:305-368 | The byte 42 and a positive count, followed by that many replies in whatever form: the array of these replies. |
| RespBytes.ArrayStops | hiredis_wrapper/read.cpp:305-368 | An array whose next element is not all there waits, and one whose next element is wrong has its error. |
| RespBytes.NinthArray | hiredis_wrapper/read.cpp:313-318 | The byte 42 inside eight open arrays is the depth error, before its line is read. |
| RespBytes.EightLevels | hiredis_wrapper/read.cpp:305-368 | Arrays nested up to eight levels are read and those nested nine or more are refused. |
| RespBytes.NoLineYet | hiredis_wrapper/read.cpp:178-191 | A type byte without a whole line after it waits. |
| RespBytes.OtherTypeByte | hiredis_wrapper/read.cpp:370-404 | Any other first byte is the protocol error that names it. |
| RespBytes.NothingYet | hiredis_wrapper/read.cpp:112-121 | Without a byte there is nothing to read. |
| Reader.HoldsCodes | hiredis_wrapper/read.h:57-62 | A reply object that holds a reply has its type code, 1 to 6, and its value in the field for that type. |
| Bytes.DecRoundTrip | hiredis_wrapper/hiutil.h:111-114 | Reading a decimal numeral gives back the number, for every number. |
| Bytes.CountDigits | hiredis_wrapper/hiredis.cpp:199-210 | The four-digits-at-a-time count is the length of the decimal numeral. |
| Bytes.UintLen | hiredis_wrapper/hiutil.h:116-129 | The count by division is the length of the decimal numeral, one for zero. |
| Bytes.HiAtoi | hiredis_wrapper/hiutil.h:111-124 | A nonempty line of digits gives its value and every other line -1. |
| Bytes.HiItoa | hiredis_wrapper/hiutil.h:113-125 | The text in the buffer after the call is the signed numeral, built by shifting and reversed in place; for zero it is a 0 over the first byte of the text that was there, because no terminator is written. |
| Bytes.SdsLl2Str | hiredis_wrapper/sds.cpp:299-327 | The signed numeral is written and terminated, zero included, and its length returned. |
| Sds.Sds.MakeRoomFor | hiredis_wrapper/sds.cpp:129-152 | The contents and length stay while at least the asked room becomes free. |
| Sds.Sds.CatLen | hiredis_wrapper/sds.cpp:237-250 | The bytes are appended and terminated, in place when they fit. |
| Sds.Sds.Range | hiredis_wrapper/sds.cpp:575-604 | The contents become the bytes of an inclusive range whose negative ends count from the back, moved down in the same buffer. |
| Sds.Sds.CatFmt | hiredis_wrapper/sds.cpp:425-526 | The contents grow by the formatted text: strings, signed and unsigned numbers, and any other character after the percent sign as itself. |
| Sds.Conversion | hiredis_wrapper/sds.cpp:436-520 | What each byte of a format string gives, in byte values: strings up to their zero byte or whole, signed and unsigned numbers, and any other byte as itself. |
| Format.FormatCommandArgv | hiredis_wrapper/hiredis.cpp:536-572 | The buffer holds the wire form of the argument list and a terminator, the precomputed length is exact, and every byte of an argument is carried as it is. |
| Format.FormatSdsCommandArgv | hiredis_wrapper/hiredis.cpp:483-525 | The growable-string formatter produces the same bytes and the same length. |
| Format.WireReadsBack | hiredis_wrapper/hiredis.cpp:536-572 | A formatted command, followed by any bytes, is parsed as the array of its arguments with those bytes left over. |
| Format.WireInjective | hiredis_wrapper/hiredis.cpp:536-572 | Two argument lists with the same wire form are the same list. |
| Escape.CatEscaped | hiredis_wrapper/sds.cpp:743-761 | One byte is appended as the escape that its branch writes. |
| Escape.CatRepr | hiredis_wrapper/sds.cpp:740-763 | The contents grow by the quoted, escaped string. |
| Escape.SplitArgs | hiredis_wrapper/sds.cpp:815-924 | The loops over blanks, quotes and escapes compute the recursive splitter's list of strings, or fail where it does. |
| Escape.ReadsQuoted | hiredis_wrapper/sds.cpp:740-763 | What sdscatrepr writes for any bytes is read back by the quoted-token reader as those bytes. |
| Escape.SplitOfJoined | hiredis_wrapper/sds.cpp:815-924 | Quoting any strings, joining them with spaces and splitting the line gives back the same list. |
| Escape.WriteAndSplit | hiredis_wrapper/sds.cpp:740-924 | The same round trip through the buffers: a line written by sdscatrepr calls and taken apart by sdssplitargs yields the strings it was made of. |
| EscapeBytes.WrittenAs | hiredis_wrapper/sds.cpp:743-761 | What each of the 256 byte values is written as inside the quotes, in byte values. |
| EscapeBytes.WrittenQuoted | hiredis_wrapper/sds.cpp:740-763 | A string is written byte by byte between two double quotes. |
| EscapeBytes.SplitWords | hiredis_wrapper/sds.cpp:815-924 | Plain words joined by spaces come back as the same list. |
| EscapeBytes.SplitSingle | hiredis_wrapper/sds.cpp:867-882 | A string in single quotes, its single quotes having a backslash before them, is itself. |
| EscapeBytes.SplitWordAndQuotes | hiredis_wrapper/sds.cpp:883-905 | A word that goes on in double quotes is one string. |
| EscapeBytes.LetterEscapes | hiredis_wrapper/sds.cpp:843-858 | What a backslash and a letter stand for in double quotes. |
| EscapeBytes.HexEscapes | hiredis_wrapper/sds.cpp:832-842 | A backslash, x and two hexadecimal digits in either case are the byte with that value. |
| EscapeBytes.Unfinished | hiredis_wrapper/sds.cpp:856-882 | A quote that is never closed, or that is closed and followed by more of a word, makes the split fail. |
| CommandRoundTrip.ParserInvertsFormatter | hiredis_wrapper/command.cpp:321-1630 | On the formatted form of a nonempty argument list with 32-bit sizes the automaton reaches done on the last byte if and only if the first argument names a known command whose arity is admissible (and, for a command without keys, there is no further argument); it then reports the type, the argument count and exactly the key arguments. |
| CommandRoundTrip.RecordedKeysAreArguments | hiredis_wrapper/command.cpp:1096-1131 | The bytes at each recorded key position are the key argument itself. |
| CommandNames.AcceptedByName | hiredis_wrapper/command.cpp:20-1630 | By name: for each of the 104 commands, spelled in either case of letters, the formatted argument list is accepted on its last byte if and only if it has as many arguments as the table of names allows, and then has exactly the keys that the table says. |
| CommandKeys.AcceptedKeys | hiredis_wrapper/command.cpp:321-1630 | For every byte string, formatted or not: when the automaton reaches done, every key lies in the buffer, more than one key means MGET, DEL or MSET, and every key of a multi-key MSET is followed by a length-prefixed value inside the buffer. |
| CommandKeys.CutOffKeys | hiredis_wrapper/command.cpp:321-1630 | For every byte string on which the input runs out before done, which the caller takes as success: what the fragmenter relies on holds if and only if the bytes do not end between the second or a later key of an MSET and the end of that key's value. |
| CommandKeys.CutOffFails | hiredis_wrapper/command.cpp:1597-1607 | A concrete MSET that stops right after its second key is not rejected and has no value behind that key. |
| CutOff.CutOffBytes | hiredis_wrapper/command.cpp:321-1630 | On the bytes: the first n bytes of a formatted MSET are taken for a whole command in which a value is missing if and only if n is behind the second or a later key and not behind the first byte of its value, or right behind the last byte of the value and its CR. |
| CutOff.CutExactly | hiredis_wrapper/command.cpp:321-1630 | The same for every accepted MSET, formatted or not, whose keys and values take turns as the positions say. |
| CutOff.PrefixRun | hiredis_wrapper/command.cpp:321-1630 | On a prefix of an accepted command the automaton either ends in a state of the whole run, or refuses it inside a field whose announced length goes beyond the prefix. |
| Command.ParseCmd | hiredis_wrapper/command.cpp:321-1630 | The loop computes the verdict of the automaton from its initial state. |
| Command.ReadKeyCount | hiredis_wrapper/command.cpp:1369-1393 | The 32-bit key count of EVAL and EVALSHA is accepted exactly when it is a nonempty numeral that is not zero modulo 2^32. |
| PolynomialDivision.BitsLinear | hiredis_wrapper/crc16.cpp:80-87 | Dividing by the polynomial is linear over exclusive or, for any number of bits. |
| Crc16.TableIsRemainder | hiredis_wrapper/crc16.cpp:46-78 | Every one of the 256 table entries is the remainder of its index, divided bit by bit by 0x1021. |
| Crc16.TableStep | hiredis_wrapper/crc16.cpp:80-87 | One table step equals dividing one byte into the register bit by bit, for every register and byte. |
| Crc16.Crc | hiredis_wrapper/crc16.cpp:80-87 | The loop computes the bit-serial checksum of the whole buffer. |
| HashSlot.KeyHashSlot | hiredis_wrapper/hircluster.cpp:176-195 | The brace scan hashes the first group in braces when it is not empty and the whole key otherwise, and the slot is that checksum modulo 16384. |
| HashSlot.SameTagSameSlot | hiredis_wrapper/hircluster.cpp:176-195 | Keys with the same hash tag have the same slot, whatever is before and after the tag. |
| HashSlot.WholeKeyIffNoTag | hiredis_wrapper/hircluster.cpp:176-195 | The whole key is hashed if and only if it has no tag, for every key. |
| HashSlot.SlotIs | hiredis_wrapper/hircluster.cpp:176-195 | The slot of every key is the bit-serial checksum of its hashed part modulo 16384. |
| HashSlot.CheckSlot | hiredis_wrapper/hircluster.cpp:176-195 | The digits 1 to 9 have the checksum 0x31C3 of the specification, and so the slot 12739. |
| Fragment.PreFragment | hiredis_wrapper/hircluster.cpp:3153-3426 | With keys in several slots the command is split into one finished fragment per occupied slot, in ascending order, each with the keys of its slot in their order and the written bytes, and every key is led to its fragment; with one slot nothing is split. The slot returned is that of the last key. |
| Fragment.Gather | hiredis_wrapper/hircluster.cpp:3191-3253 | After the first loop the sub-command of every slot has exactly the keys of that slot, and the length added up for them. |
| Fragment.GatherKey | hiredis_wrapper/hircluster.cpp:3191-3253 | Handing one key to the sub-command of its slot leaves those of all other slots as they were. |
| Fragment.ScanRemain | hiredis_wrapper/hircluster.cpp:3232-3251 | The value scan behind an MSET key measures the length line, the value and both line ends. |
| Fragment.WriteFragment | hiredis_wrapper/hircluster.cpp:3255-3401 | The bytes written for a fragment are those of the layout, number buffer included. |
| Fragment.OneFragment | hiredis_wrapper/hircluster.cpp:3410-3425 | There is one fragment if and only if all keys have the same slot. |
| FragmentLayout.LayoutExact | hiredis_wrapper/hircluster.cpp:3255-3401 | For every fragment: the precomputed length is the number of bytes written if and only if the fragment is clean, the bytes are then the canonical ones and otherwise not, and otherwise more bytes are written than were counted. |
| FragmentLayout.LayoutExcess | hiredis_wrapper/hircluster.cpp:3255-3401 | The surplus is exactly the digits left over in the number buffer before each empty key. |
| FragmentLayout.CleanIsShort | hiredis_wrapper/hircluster.cpp:3261-3393 | Clean, in the lengths of the keys: an empty key comes first only under an argument count below ten, and otherwise only after a key shorter than ten bytes. |
| FragmentLayout.CanonicalIsWire | hiredis_wrapper/hircluster.cpp:3255-3401 | The canonical bytes of a fragment are the wire form of its command on its keys and, for MSET, its values. |
| FragmentFit.FitIffShort | hiredis_wrapper/hircluster.cpp:3153-3426 | On the argument list: all fragments fit their lengths if and only if that condition on lengths holds among the keys in slot 0, the slot of the empty key. This is the precondition of ClusterCommand.FormattedCommand. |
| FragmentFit.FitFails | hiredis_wrapper/hircluster.cpp:3262-3302 | MGET of {06S}abcde, the empty key and b is split, and its fragment for slot 0 is one byte longer than computed. |
| Scatter.SplitPreserves | hiredis_wrapper/hircluster.cpp:3153-3548 | For every store spread over nodes by slot: running the fragments at their nodes leaves the nodes in agreement with the whole command on the whole store, and the replies merge to its reply, whatever keys repeat. |
| Scatter.DelTotal | hiredis_wrapper/hircluster.cpp:3437-3470 | The counts of the DEL fragments add up to the count of the whole DEL, a key given twice counting once. |
| Scatter.PartLocal | hiredis_wrapper/hircluster.cpp:3191-3253 | A fragment does to the keys of its slot what the whole command does, and nothing to any other key. |
| Merge.PostFragment | hiredis_wrapper/hircluster.cpp:3428-3548 | For any replies of the fragments: the first that is missing gives NULL, an error is handed on as it is, a mistyped one is the type error; otherwise counts are summed, OK is answered, or every MGET key receives the element of its own rank counted from the back of its fragment's reply, which shrinks by one for each key; when some key finds no element, the last such key decides whether it is the error or a read through a null array. |
| Merge.FirstProblemIsFirst | hiredis_wrapper/hircluster.cpp:3437-3470 | The problem reported is that of the first fragment that has one. |
| Merge.MergeMget | hiredis_wrapper/hircluster.cpp:3485-3523 | The backward loop succeeds if and only if every fragment has an element for each of its keys, and a reply is then used up if and only if it had no more; otherwise it stops at the last key that finds none. |
| Merge.MergeAnswered | hiredis_wrapper/hircluster.cpp:3428-3548 | The merged answer, failures included, is a function of the type, the slots of the keys and the fragments' replies alone. |
| Merge.MgetAnswer | hiredis_wrapper/hircluster.cpp:3493-3523 | When every fragment has at least one element per key, key number Members(slots, occupied slot k)[j] gets element j of the last elements of reply k. |
| Merge.MgetNoAnswer | hiredis_wrapper/hircluster.cpp:3493-3523 | When some fragment has fewer, there is no answer. |
| Merge.FirstUnusable | hiredis_wrapper/hircluster.cpp:3437-3470 | The first reply that is not usable is handed on as it is when it is an error, and is the type error otherwise. |
| Merge.DelAnswer | hiredis_wrapper/hircluster.cpp:3455-3464 | DEL is answered with the sum of the counts. |
| ClusterCommand.ServeFragment | hiredis_wrapper/hircluster.cpp:3255-3401 | A node that reads a canonical fragment from its bytes runs the command on the fragment's keys and values. |
| ClusterCommand.ServedAsPerformed | hiredis_wrapper/hircluster.cpp:3676-3697 | Sending the written fragments one after the other has the effect and the replies of running the fragments. |
| ClusterCommand.FormattedCommand | hiredis_wrapper/hircluster.cpp:3557-3737 | For every well-formed, clean MGET, DEL or MSET: parsing the bytes, splitting them, sending the fragments and merging the answers yields the reply of the command on the whole store, and leaves the nodes in agreement with its effect. |
| Route.RouteIndex.Update | hiredis_wrapper/hircluster.cpp:1355-1444 | A route is accepted if and only if only masters with valid ranges were parsed and no two ranges overlap; then the table tells the owner of every slot, the sorted array holds the same ranges and the version rises by one; otherwise nothing changes. |
| Route.RouteIndex.NodeByTable | hiredis_wrapper/hircluster.cpp:2588-2603 | The lookup is the owner of the slot in the ranges, and NULL for a slot out of range or without a route. |
| Route.NodeGetBySlot | hiredis_wrapper/hircluster.cpp:2520-2585 | For sorted disjoint ranges the binary search, with its unsigned wrap, finds the owner of every slot, except that its index leaves the array if and only if the array is empty or the slot is before the first range and the binary form of the array length plus one starts with two ones. |
| Route.SlotBeforeTwoRanges | hiredis_wrapper/hircluster.cpp:2520-2585 | A concrete failure: two ranges and a slot before both. |
| Route.LeadingOnesIs | hiredis_wrapper/hircluster.cpp:2545-2583 | That condition on the binary form in closed form: the number lies in the upper half of those with its number of digits. |
| Route.BuildTable | hiredis_wrapper/hircluster.cpp:1409-1421 | Filling the table slot by slot fails if and only if two ranges overlap. |
| Route.SortByStart | hiredis_wrapper/hircluster.cpp:656-663 | The array is sorted by the start of the ranges and a permutation of what it was. |
| Replica.MapAll | hiredis_wrapper/hircluster.cpp:665-774 | Reading the node lines succeeds if and only if no name has two masters, and then every name maps to its group: the master with exactly the slaves that named it, or the first slave standing in for the others. |
| Replica.GatherAccounts | hiredis_wrapper/hircluster.cpp:665-774 | For every name and every order of lines, the group holds the masters and slaves that named it, none lost and none twice. |
| Replica.OrderIrrelevant | hiredis_wrapper/hircluster.cpp:665-774 | Any two orders of the same lines give the same groups, up to the order of the slaves and which of them stands in. |
| Redirect.Context.Try | hiredis_wrapper/hircluster.cpp:3003-3151 | One turn of an execution, jump by jump, is the attempt that Redirect.ReplyDecides and Redirect.NoReplyEnds describe. |
| Redirect.Context.Execute | hiredis_wrapper/hircluster.cpp:3003-3151 | Against every cluster the execution terminates with the reply, retry counter and number of sendings of the specification. |
| Redirect.ReplyDecides | hiredis_wrapper/hircluster.cpp:217-259 | On the bytes of the reply, for a command that has been sent: MOVED leads to another sending to the table's owner if and only if the route could be updated; ASK to the node it names if and only if that is known, reachable and takes ASKING; TRYAGAIN, CROSSSLOT and CLUSTERDOWN always to the owner; each only below the limit, and any other reply is the result. |
| Redirect.NoReplyEnds | hiredis_wrapper/hircluster.cpp:3011-3074 | Without a route or a connection, with the spare connection past the limit, or when the command cannot be written or is not answered, the result is NULL, with the retry counter that belongs to it. |
| Redirect.Context.ExecuteAll | hiredis_wrapper/hircluster.cpp:3656-3737 | A command of m fragments is sent at most m times plus what is left of the redirect limit, stops at the first failure or error reply, and leaves the retry counter at zero. |
| Redirect.SendsBounded | hiredis_wrapper/hircluster.cpp:3003-3151 | The bound holds for every number of fragments, limit and starting counter, against any answers. |
| Redirect.BoundIsReached | hiredis_wrapper/hircluster.cpp:3003-3151 | For every number of fragments and every limit some cluster makes the client send exactly that often. |
| Pipeline.Pipeline.Append | hiredis_wrapper/hircluster.cpp:3795-3931 | A request is queued if and only if all its pieces can be sent; otherwise the pieces before the first that cannot be sent stay sent. |
| Pipeline.Pipeline.GetReply | hiredis_wrapper/hircluster.cpp:4081-4175 | One reply is read for each piece of the oldest request, which leaves the queue whether or not its replies merge; for a split request they are merged as command_post_fragment does. |
| Pipeline.MergedAnswers | hiredis_wrapper/hircluster.cpp:4121-4160 | What a get-reply hands out for a split request, given the replies read for its fragments: for MGET every key's own element, for DEL the sum, for MSET OK; the first reply that cannot be merged when it is an error; and nothing exactly when that reply is no error or some MGET fragment has too few elements. |
| Pipeline.WholeAnswer | hiredis_wrapper/hircluster.cpp:4118-4123 | A request that is not split is answered with its one reply. |
| Pipeline.RunEvents | hiredis_wrapper/hircluster.cpp:3795-4175 | In any run of appends and get-replies, with any interleaving over the nodes: while every failed append has sent nothing, each get-reply hands out the answer of the oldest request; and the connections are in step with the queue at the end if and only if no append failed after sending something. |
| Pipeline.StaleAnswer | hiredis_wrapper/hircluster.cpp:3840-3931 | Whenever an append fails after something was sent on idle connections, the next command to the node of its first piece is answered with what belongs to that piece. |
| Pipeline.WrongReply | hiredis_wrapper/hircluster.cpp:3795-4175 | A concrete run: an MGET over two nodes of which one is down is refused, and the GET after it is handed the answer to the fragment that had been sent. |
| Pipeline.KthReplyAnswersKthAppend | hiredis_wrapper/hircluster.cpp:4081-4175 | What has been handed out followed by what is still owed are the answers to the accepted requests, in their order. |
| Async.RunEvents | hiredis_wrapper/async.cpp:216-640 | In any run with any callbacks: unless the process is aborted, the callbacks run are those of the accepted commands, each once, in the order of acceptance, the first ones with the replies in their order and the others with NULL; a freed context, also one freed from inside a callback, is gone and has accounted for every accepted command. The accepted commands are the first of those issued by the application and by the callbacks that ran, in their order, and all of them unless the connection is to be closed. Without a graceful disconnect no callback is lost, and if besides no more replies come than commands have been accepted, the process is never aborted. |
| Async.RunsExactlyOnce | hiredis_wrapper/async.cpp:254-260 | The list of runs names every accepted command with a callback function once and no other. |
| Async.AsyncContext.ProcessCallbacks | hiredis_wrapper/async.cpp:404-484 | The replies go to the oldest pending commands in order. After a callback that frees the context, and after a read error, everything pending is run with NULL and the context is gone. The process is aborted with lost callbacks if and only if a batch ends, with nothing left to send, on a context that is disconnecting, without error, not freed and with commands pending; and for an unasked reply if and only if the next reply is not an error, nothing is pending and the context has not been freed. |
| Async.AsyncContext.AsyncCommand | hiredis_wrapper/async.cpp:575-640 | A command is accepted if and only if the context is neither disconnecting nor freeing, and its callback is then last in the list. |
| Async.AsyncContext.AsyncFree | hiredis_wrapper/async.cpp:264-320 | Outside a callback every pending callback is run with NULL and the context is gone; inside one only the flag is set. |
| Async.AsyncContext.AsyncDisconnect | hiredis_wrapper/async.cpp:324-355 | The disconnect is deferred inside a callback and while callbacks are pending. |
| Async.CallbackList.Shift | hiredis_wrapper/async.cpp:238-252 | The oldest callback is taken off the list and the others keep their order. |
| Async.DisconnectWhilePending | hiredis_wrapper/async.cpp:324-414 | A concrete abort: one command, a disconnect, and a readable event with nothing to read while the reply is outstanding. |
| Dict.Dict.Add | hiredis_wrapper/dict.cpp:135-158 | The key is added if and only if the map does not have it; the table then represents the map with the new pair, through any expansion on the way. |
| Dict.Dict.Replace | hiredis_wrapper/dict.cpp:160-180 | The table represents the map with the pair set, the result says whether the key is new, and the bucket array and the cells are those from before or new ones. |
| Dict.Dict.Delete | hiredis_wrapper/dict.cpp:182-210 | The key is removed if and only if the map has it, its one cell is unlinked and every other cell stays in its place. |
| Dict.Dict.Find | hiredis_wrapper/dict.cpp:243-256 | A cell is found if and only if some cell has the key, and it is that one. |
| Dict.RunOperations | hiredis_wrapper/dict.cpp:88-337 | Any sequence of adds, replaces, deletes and finds on a new table, with any hash function and through all its expansions, has the results and the final pairs that it has on a finite map. |
| Dict.Dict.Expand | hiredis_wrapper/dict.cpp:88-132 | Every cell is relinked into a table whose size is the smallest power of two that is large enough, none is lost or copied; it fails, changing nothing, if and only if the size is below the number of cells. |
| Dict.Dict.KeyIndex | hiredis_wrapper/dict.cpp:320-337 | The bucket of a new key, in a table that has room for it, or -1 when the key is there. |
| Dict.NextPower | hiredis_wrapper/dict.cpp:306-318 | The size is the smallest power of two that is neither below the initial size nor below what was asked. |
| Dict.MaskIsRemainder | hiredis_wrapper/dict.cpp:97-119 | Masking with one less than a power of two is the remainder by it. |
| Dict.Iterator.Next | hiredis_wrapper/dict.cpp:268-286 | The next cell is the first of those still to come, and NULL exactly when there are none. |
| Dict.Sweep | hiredis_wrapper/dict.cpp:258-286 | An iteration in which the caller deletes whichever cells it has just received hands out every cell of the start exactly once, in bucket order, and leaves exactly the pairs it did not delete. |

## Left out

- Sockets, timeouts, reconnecting and `net.cpp`: bytes arrive and leave as parameters.
- Allocation failure, and the error paths that only it takes.
- The printf-style formatter `redisvFormatCommand` and the calls that are thin wrappers around the modelled ones.
- Publish/subscribe and MONITOR in the asynchronous context, and the connect, disconnect and event-library hooks with their status.
- The asynchronous cluster context (`redisClusterAsync...`).
- Parsing the text of CLUSTER NODES and the reply of CLUSTER SLOTS, open slots, and finding or adding the node that ASK names: what they produce is a parameter.
- Integer width in replies: numbers and lengths read by the reader are unbounded, where `readLongLong` wraps at 64 bits and the bulk and array lengths are cut to int.
- The bytes of a key or value above 2^31, and commands of 2^31 bytes or more, in splitting and running a command.
- The reader's buffer and the command of a fragment are sequences that grow and shrink, and `maxbuf` only frees memory; the task stack, the number buffer, the table and growable strings are arrays.
- `adlist.cpp` and `hiarray.cpp`: their lists and arrays are sequences.
- `dictRelease`, `_dictClear` and the hash functions: the hash is a parameter, and the table size is not capped at LONG_MAX.
- Freeing of replies and commands.
- Commands other than MGET, DEL and MSET have no effect model in `ClusterCommand`: they are sent whole.
- Reader.Reader.ReadLongLong: the accumulator does not wrap at 64 bits.
- Bytes.HiAtoi: the accumulator does not wrap at 32 bits.
- Bytes.HiItoa: the smallest int, whose absolute value does not exist, is treated as an unbounded number.
- Merge.MergeMget: what is moved is the element itself; that the shrunken reply and the answer share it is not modelled.
- Pipeline.RunEvents: the route stays as it is and a node is reachable always or never; a route update between append and get-reply is not modelled.
- ClusterCommand.FormattedCommand: every node is reachable and no redirection occurs; redirections are in Redirect, where the stores are not.
- Redirect.Context.Execute: which node a redirection leads to is not tracked, only whether its steps succeed.
- Route.RouteIndex.Update: the nodes are taken as parsed; releasing the old ones is not modelled.
- Replica.MapAll: the nodes named by the lines are distinct objects without lists, as the parser makes them.
- Escape.SplitArgs: the line is the bytes before its terminator, and an allocation that fails half-way is not modelled.
