# MySQL++ and Cerios, modelled and proved in Dafny

The repository holds a Minecraft server (the packet library `MCPacket` and the `Client Gateway`) and the
MySQL++ library it uses.  This project models the parts of it whose behaviour spans several calls, and proves
what they promise.

- **Connection pool** (`ConnectionPool.dfy`, `PoolRuns.dfy`, `PoolFacts.dfy`).  A class whose methods change the list of
  connection records exactly as `cpool.cpp` does, and whole runs in which any number of clients interleave the
  locked steps.  The runs start with an empty pool; `create` returns a connection never made before, and clients
  release and remove only what they hold.  Nothing is assumed about the clock: it may even go backwards.
- **Batched insert** (`BatchInsert.dfy`, `StatementText.dfy`).  `insertfrom` and `replacefrom` under every insert policy, against a
  server whose n-th answer is an arbitrary function of n.  What a call is meant to do is a *plan* (the batches of
  rows), and the properties of the policies are lemmas about plans.
- **Template queries** (`TemplateQuery.dfy`, `TemplatePrinter.dfy`, `TemplateSyntax.dfy`, `TemplateReuse.dfy`).  The
  compiler from template text to elements, its evaluator, a printer that the compiler inverts, the ways in which a
  parameter may be written, and what becomes of a list of parameters that grows between two evaluations.
- **Wire codec and client sessions** (`WireCodec.dfy`, `WireBytes.dfy`, `StreamReassembly.dfy`, `PacketBodies.dfy`,
  `PacketLayout.dfy`, `ClientSession.dfy`, `SessionFacts.dfy`).  Variable length integers, frames, the receive buffer fed by arbitrary chunks, the packet
  parsers, and whole sessions of a client up to the packet that stops it.
- **Reference counts** (`RefCounting.dfy`).  Pointers and their shared counters in the heap, and whole runs.
- **Digest and dates** (`LoginDigest.dfy`, `DateTimes.dfy`, `DateFacts.dfy`, `PlainDates.dfy`,
  `PrintedOrder.dfy`).

The methods are proved against functions that say what they compute; the modules `PoolFacts`, `StatementText`,
`TemplateSyntax`, `WireBytes`, `PacketLayout`, `SessionFacts` and `DateFacts` say what those functions mean, in terms of
numbers, characters and bytes alone.

`Basics.dfy` holds the bytes, digits and powers of two that several of them share.

Clock readings, the connections that `create` returns, the answers of `ping` and of the server, and the escape
routine of the database driver enter as parameters or arbitrary functions.

Where the code and its documentation disagree the model follows the code:

- `RefCountedPointer::assign(T*)` is documented as doing nothing when it gets the pointer already managed; the
  code puts the object under a second counter, and destroys it if the pointer was its only one
  (`AssignManagedAgain`).  Such a call is outside the precondition of `Memory.AssignRaw`.
- `Time` documents hours up to 255, and its printer writes them, but its reader takes two digits
  (`TimeRoundTrip`), and printed times sort only under a condition (`TimesSortIff`).
- The mark that a parameter was quoted or escaped is documented as preventing that from being done again when a
  template is reused; a copy of the parameter loses the mark, and so does a list that moves as it grows
  (`MovedListRendersSameIff`, `QuotedTwice`).  For the same reason a value that a quoting manipulator marks is
  stored unmarked (`CopyRendersSameIff`).
- The parser of a packet runs in the callback but outside its `try`, so that an exception of a parser leaves a
  client alive that is never read again (`HaltsIff`, `OverlongLoginHalts`).  So does an exception of the owner, which
  is told of a disconnection outside any `try`, or in the `catch` block itself (`Client.OnLengthReceive`).
- Dates are documented as readable without leading zeros; that holds exactly from the year 100 on
  (`PlainDateRoundTrip`, `PlainDateTimeRoundTrip`).
- `LoginSuccessPacket` loses a username that is at least as long as a non-empty uuid (`LoginSuccessRoundTrip`).
- A callback takes at most one packet off the buffer, so a burst of frames waits for later bytes (`KeepsUpIff`).
- `RowCountInsertPolicy` with the largest 32-bit limit never refuses (`LargestLimitNeverRefuses`).

## Model

| member | source | states |
|---|---|---|
| `ConnectionPool.LessIsStrictWeak` | mysqlpp/lib/cpool.h:226-237 | `operator<` is irreflexive, transitive, and its incomparability is transitive |
| `ConnectionPool.MaxElementFindsMru` | mysqlpp/lib/cpool.cpp:109-120 | looking only at the first greatest record finds the most recently used free connection whenever one exists, and a busy one exactly when all are busy |
| `ConnectionPool.SweepConserves` | mysqlpp/lib/cpool.cpp:71-85 | a sweep (clear, shrink or ageing) loses no connection: kept plus destroyed is what was there, with multiplicity |
| `ConnectionPool.SweepIsExact` | mysqlpp/lib/cpool.cpp:195-204 | a sweep keeps exactly the records its test spares and destroys the connection of every other one |
| `ConnectionPool.SweepTwice` | mysqlpp/lib/cpool.cpp:195-204 | sweeping first never leaves more for another sweep, whatever the two cut-offs |
| `ConnectionPool.GrabRecords` | mysqlpp/lib/cpool.cpp:125-138 | grab hands out a connection that was free or is new; among the others exactly those idle too long go, destroyed; reuse lowers the number of free ones and enlarges nothing |
| `ConnectionPool.GrabIsExact` | mysqlpp/lib/cpool.cpp:125-138 | the survivors stay in order; the connection handed out is the most recently used of the free ones, or a new one at the end, and that only when all survivors are busy |
| `ConnectionPool.RemoveIsExact` | mysqlpp/lib/cpool.cpp:169-189 | removing a busy connection takes away its record and no other, destroys it once, and leaves the free ones alone |
| `ConnectionPool.Pool.constructor` | mysqlpp/lib/cpool.h:71-72 | a new pool has no record and nothing created or destroyed |
| `ConnectionPool.Pool.RemoveAt` | mysqlpp/lib/cpool.cpp:184-189 | the record at the iterator goes and its connection is destroyed; nothing else changes |
| `ConnectionPool.Pool.FindTooOld` | mysqlpp/lib/cpool.cpp:44-62 | the first record, from an iterator on, that is free and at least the idle limit old |
| `ConnectionPool.Pool.RemoveAndFindNext` | mysqlpp/lib/cpool.cpp:195-204 | one turn of the erasing loop keeps the sweep in progress in step with the original list |
| `ConnectionPool.Pool.RemoveOldConnections` | mysqlpp/lib/cpool.cpp:195-204 | the erasing iterator loop is the sweep of all idle records older than the limit |
| `ConnectionPool.Pool.Clear` | mysqlpp/lib/cpool.cpp:71-85 | the erasing iterator loop is the sweep of everything, or of the unused records |
| `ConnectionPool.Pool.FindMru` | mysqlpp/lib/cpool.cpp:109-120 | marks and returns a most recently used free connection, and fails without change exactly when all are busy |
| `ConnectionPool.Pool.Grab` | mysqlpp/lib/cpool.cpp:125-138 | one grab step: ageing sweep, then reuse or creation |
| `ConnectionPool.Pool.Release` | mysqlpp/lib/cpool.cpp:143-155 | the first record of the connection becomes free and is stamped; all others stay; an unknown connection changes nothing |
| `ConnectionPool.Pool.Remove` | mysqlpp/lib/cpool.cpp:169-181 | the first record of the connection goes, and it is destroyed; an unknown connection changes nothing |
| `ConnectionPool.Pool.Exchange` | mysqlpp/lib/cpool.cpp:92-102 | without interference, exactly a remove followed by a grab |
| `ConnectionPool.Pool.SafeGrab` | mysqlpp/lib/cpool.cpp:209-218 | terminates; the result answered ping; at most as many fail as were free; every failure was free, is destroyed and gone; any other record that is gone had been idle too long at one of the grabs |
| `PoolRuns.ConservedMeans` | mysqlpp/lib/cpool.cpp:71-189 | conservation excludes duplicates in the pool, double destruction, use after destruction and loss |
| `PoolRuns.InvStep` | mysqlpp/lib/cpool.cpp:71-189 | every locked step of every client keeps exclusivity and conservation; a grab never hands out a destroyed or held connection |
| `PoolRuns.RunKeepsInv` | mysqlpp/lib/cpool.cpp:71-189 | in every reachable state no two clients hold the same connection, busy means held, and created is the disjoint union of pooled and destroyed |
| `PoolRuns.DestroyedOnlyGrows` | mysqlpp/lib/cpool.cpp:71-189 | over every run a destroyed connection stays destroyed |
| `PoolRuns.ExchangeReturnsAnother` | mysqlpp/lib/cpool.cpp:92-102 | a connection given back as defective is never handed out again, whatever other clients do in between |
| `PoolRuns.PoolGrowth` | mysqlpp/lib/cpool.cpp:125-138 | a step enlarges the pool only to a state in which every connection is in use |
| `PoolRuns.Peak` | mysqlpp/lib/cpool.cpp:125-138 | the greatest number of connections in use over a run: reached, and never exceeded |
| `PoolRuns.PoolStaysBelowPeak` | mysqlpp/lib/cpool.cpp:109-138 | high-water bound: the pool never holds more connections than were once in use at the same time |
| `PoolRuns.WarmStep` | mysqlpp/lib/cpool.h:60-66 | reusing the most recently used connection adds to the connections used since time t only if all of those are in use |
| `PoolRuns.WarmStaysBelow` | mysqlpp/lib/cpool.h:60-66 | while at most k connections are in use, at most k are in use or have been used since time t |
| `PoolRuns.GrabDropsCold` | mysqlpp/lib/cpool.cpp:195-204 | a grab max_idle_time after t leaves no more than the connections used since t, or only busy ones |
| `PoolRuns.PoolDecays` | mysqlpp/lib/cpool.h:112-114 | pool decay: over any stretch of any run with at most k connections in use at once, a grab made max_idle_time after the last use of those free at its start leaves at most k in the pool |
| `PoolFacts.GrabDropsIdle` | mysqlpp/lib/cpool.cpp:44-62 | in a grab, a free connection with `now - lastUsed < maxIdle` is still pooled or handed out, one with `now - lastUsed >= maxIdle` is gone and destroyed, and busy ones stay as they are |
| `PoolFacts.GrabChooses` | mysqlpp/lib/cpool.cpp:109-138 | a connection is created exactly when no free one has been idle for less than maxIdle; otherwise the one handed out is such a one and none that is free was used later; a new one bears the stamp of its creation |
| `PoolFacts.ReleaseInPlainTerms` | mysqlpp/lib/cpool.cpp:143-155 | a released connection is free and stamped with the time of the release, and no other record changes |
| `PoolFacts.ReleasedIsGrabbedNext` | mysqlpp/lib/cpool.h:112-114 | over runs: a connection released later than every other was used, and grabbed for next within maxIdle, is the one handed out |
| `PoolFacts.BusyCountIs` | mysqlpp/lib/cpool.cpp:71-85 | what shrinking keeps is as many connections as there are records in use |
| `BatchInsert.InsertPolicy.CanAdd` | mysqlpp/lib/insertpolicy.h:94-104 | the answer and the next state of each policy object, with the 32-bit counter that restarts on refusal |
| `BatchInsert.PlanKeepsRows` | mysqlpp/lib/query.h:1067-1141 | no row is lost, repeated or reordered across a refusal and retry: the batches, none empty, concatenate to the rows, or to a proper prefix exactly when some row is refused in an empty statement |
| `BatchInsert.Succeeding` | mysqlpp/lib/query.cpp:141-158 | how many statements succeed before the first failure: all before it do, it does not |
| `BatchInsert.EndedMeans` | mysqlpp/lib/query.h:1128-1138 | when the loop is over, the statements sent are the planned ones up to the first failure, and success means that all rows were sent |
| `BatchInsert.Query.Reset` | mysqlpp/lib/query.cpp:467-476 | the statement text, the template and its default parameters are empty |
| `BatchInsert.Query.Exec` | mysqlpp/lib/query.cpp:141-158 | runs the built statement once; clears it after success only; throws exactly on failure with exceptions on |
| `BatchInsert.Query.PutRow` | mysqlpp/lib/query.h:1083-1092 | the stream insertions make the text for the rows so far into the text for one row more |
| `BatchInsert.Query.Flush` | mysqlpp/lib/query.h:1098-1102 | one statement more has reached the server, and succeeded or not |
| `BatchInsert.Query.SendRows` | mysqlpp/lib/query.h:1081-1131 | the loop follows the plan: what was sent, what failed, what the server holds, what is left of the policy, and which exception ends it |
| `BatchInsert.Query.InsertFrom` | mysqlpp/lib/query.h:1067-1229 | all or nothing for INSERT and REPLACE: either every row is in the table and commit ran once, or the table is unchanged and rollback ran once; nothing at all happens for no rows; without a transaction the rows of the successful statements stay; the policy object is left as after those statements |
| `StatementText.TextOf` | mysqlpp/lib/query.h:1083-1092 | a statement is literally INSERT INTO or REPLACE INTO, the table of its first row in back-quotes, the fields in parentheses, VALUES, and the value lists of all rows in parentheses with commas between |
| `StatementText.SentTexts` | mysqlpp/lib/query.h:1171-1181 | the texts that reach the server are these, one for each batch, in order |
| `StatementText.PlanOfCustom` | mysqlpp/lib/query.h:1107-1125 | a policy of the user is asked once for a row it accepts and once more for a row it refuses |
| `StatementText.ToIntMeans` | mysqlpp/lib/query.h:1082 | the length a policy sees is the stream position modulo 2^32, as an int holds it |
| `BatchInsert.MaxPacketBounds` | mysqlpp/lib/insertpolicy.h:200-214 | every statement of two or more rows is at most `size_` bytes |
| `StatementText.MaxPacketFills` | mysqlpp/lib/insertpolicy.h:200-214 | a statement ends only when the first row of the next one would have taken it over `size_` bytes |
| `BatchInsert.SizeThresholdBounds` | mysqlpp/lib/insertpolicy.h:142-146 | every statement of two or more rows was below the threshold before its last row |
| `StatementText.SizeThresholdFills` | mysqlpp/lib/insertpolicy.h:142-146 | a statement ends before the last row only when it has reached the threshold |
| `BatchInsert.SizeThresholdAccepts` | mysqlpp/lib/insertpolicy.h:142-146 | a size threshold lets all rows in exactly when it is positive, whatever their lengths |
| `BatchInsert.MaxPacketAccepts` | mysqlpp/lib/insertpolicy.h:200-214 | a packet limit lets all rows in exactly when the value list of each, with three characters more, is within it |
| `BatchInsert.RowCountBounds` | mysqlpp/lib/insertpolicy.h:94-104 | with limit m every row is let in and no statement exceeds m rows, even with a used policy object |
| `BatchInsert.CountStays` | mysqlpp/lib/insertpolicy.h:94-104 | a counter within its limit stays within it, wherever a call breaks off |
| `BatchInsert.ReusedPolicyBounds` | mysqlpp/lib/insertpolicy.h:94-104 | over any sequence of calls with one policy object, whatever fails, no statement exceeds m rows and no row is refused |
| `BatchInsert.RowCountFills` | mysqlpp/lib/insertpolicy.h:94-104 | with a fresh policy every statement but the last is full |
| `BatchInsert.RowCountIsExact` | mysqlpp/lib/insertpolicy.h:94-104 | n rows make exactly ceil(n/m) statements, all but the last of m rows |
| `BatchInsert.ZeroLimitRefuses` | mysqlpp/lib/insertpolicy.h:94-104 | with limit 0 the first row is refused and what was pending is the last statement |
| `BatchInsert.LargestLimitNeverRefuses` | mysqlpp/lib/insertpolicy.h:94-104 | with the largest limit the counter wraps around first, and everything goes into one statement |
| `TemplateQuery.TablesInverseIffOneToOne` | mysqlpp/lib/query.cpp:330-340 | the name and position tables undo each other exactly when the template's names and positions are one-to-one |
| `TemplateQuery.CompiledIsSubstituted` | mysqlpp/lib/query.cpp:266-464 | compiling then evaluating writes what one pass of substitution over the text writes, leaves the same values and fails at the same parameter |
| `TemplateQuery.ProcSucceeds` | mysqlpp/lib/query.cpp:426-464 | evaluation succeeds exactly when every position is covered by the list or the defaults; it keeps the lengths, and an unbound list entirely |
| `TemplateQuery.SecondTimeSameText` | mysqlpp/lib/query.cpp:366-423 | evaluating again with the values left in place, the lists being as they were, gives the same text and changes nothing: nothing is quoted or escaped twice |
| `TemplateQuery.SQLQueryParms.Reserve` | mysqlpp/lib/stadapter.cpp:46-50 | a list without room moves: all its values become copies, which do not count as processed |
| `TemplateQuery.SQLQueryParms.Push` | mysqlpp/lib/qparms.h:118-122 | the list grows by a copy of the value, and moves if there is no room |
| `TemplateQuery.SQLQueryParms.At` | mysqlpp/lib/qparms.h:99-105 | the list grows by empty strings just far enough, and moves if there is no room; otherwise no value present changes |
| `TemplateQuery.SQLQueryParms.Plus` | mysqlpp/lib/qparms.cpp:67-80 | a new list of copies: of the left one, completed from the right one beyond its length |
| `TemplateQuery.Query.ParseNumber` | mysqlpp/lib/query.cpp:286-308 | the longest run of up to three digits, as a signed char |
| `TemplateQuery.Query.ParseName` | mysqlpp/lib/query.cpp:316-323 | the longest run of name characters |
| `TemplateQuery.Query.ParseParameter` | mysqlpp/lib/query.cpp:286-328 | the cursor code reads the parameter that the grammar describes |
| `TemplateQuery.Query.Save` | mysqlpp/lib/query.cpp:330-345 | one element more, and both tables updated with its name |
| `TemplateQuery.Query.Parse` | mysqlpp/lib/query.cpp:266-363 | the cursor loop appends the elements and names of the template and leaves its text alone |
| `TemplateQuery.Query.PPrepare` | mysqlpp/lib/query.cpp:366-423 | what a parameter contributes, and what becomes of it in a bound list |
| `TemplateQuery.Query.UseParameter` | mysqlpp/lib/query.cpp:436-457 | a position is looked up in the list, then in the defaults, even when both are the same object |
| `TemplateQuery.Query.Proc` | mysqlpp/lib/query.cpp:426-464 | the loop over the elements is the evaluation, up to ERROR for a missing parameter |
| `TemplateQuery.Query.Str` | mysqlpp/lib/query.cpp:613-621 | the text of a plain query as it is, that of a template after evaluation, with what that leaves of the list and the defaults |
| `TemplatePrinter.PrintedIsParsed` | mysqlpp/lib/query.cpp:266-363 | a printed template in which no literal can be taken for an option or a name is read back with all its elements and names |
| `TemplatePrinter.NotSeparableIsLost` | mysqlpp/lib/query.cpp:310-328 | any other printed template is read back as something else |
| `TemplatePrinter.ParseInvertsPrint` | mysqlpp/lib/query.cpp:266-363 | round trip, with its exact condition |
| `TemplateSyntax.DigitRunIs` | mysqlpp/lib/query.cpp:286-307 | the digits of a position are the longest run of the characters 0 to 9, up to three |
| `TemplateSyntax.NameRunIs` | mysqlpp/lib/query.cpp:321-323 | a name is the longest run of letters, digits and underscores |
| `TemplateSyntax.SignedCharMeans` | mysqlpp/lib/query.cpp:308 | a position is kept modulo 256, from -128 to 127 |
| `TemplateSyntax.LiteralsAreCopied` | mysqlpp/lib/query.cpp:278-285 | text is copied up to its end or a NUL, a doubled percent sign as one, and a percent sign before anything that is neither digit nor percent sign as it is |
| `TemplateSyntax.DigitsMean` | mysqlpp/lib/query.cpp:286-308 | one, two or three digits denote the number that they do in decimal |
| `TemplateSyntax.WrittenIsRead` | mysqlpp/lib/query.cpp:286-328 | however it is written (one to three digits, with or without q or Q, with or without a name, closed by a colon or not), a parameter is read with its number, option and name, and reading stops where it ends |
| `TemplateSyntax.WrittenIsParsed` | mysqlpp/lib/query.cpp:278-346 | such a parameter makes one element with the text before it, its name is entered, and parsing goes on behind it |
| `TemplateSyntax.LastNamingWins` | mysqlpp/lib/query.cpp:338-339 | a name or position used again stands for the last use |
| `TemplateSyntax.UnnamedStays` | mysqlpp/lib/query.cpp:332-337 | a position that the template does not name keeps its name, or has the empty one |
| `TemplateSyntax.WrittenFor` | mysqlpp/lib/query.cpp:366-423 | exactly what is written for a value: NULL, the processed text, quotes and escaping under q, quotes alone under Q, each where the type takes them, and else the value |
| `TemplateSyntax.OneParameter` | mysqlpp/lib/query.cpp:426-464 | the value of the caller counts before the default; what is written stands between the texts; in a bound list it takes the place of the value; without a value the text ends with ERROR |
| `TemplateReuse.CopyRendersSameIff` | mysqlpp/lib/stadapter.cpp:46-50 | a copy of a value renders as the value exactly when its mark does not matter: it would not be quoted and its escaped form is the same |
| `TemplateReuse.UnharmedSameText` | mysqlpp/lib/query.cpp:426-464 | values that lost no mark that matters, at their first use in a bound list, give the same text |
| `TemplateReuse.HarmedOtherText` | mysqlpp/lib/query.cpp:426-464 | a single lost mark that matters gives another text, whatever the later parameters render to |
| `TemplateReuse.ReusedListRendersSameIff` | mysqlpp/lib/stadapter.h:323-333 | after a list has grown, evaluating again gives the same text exactly when no mark that matters was lost |
| `TemplateReuse.SettledAtFirst` | mysqlpp/lib/query.cpp:366-423 | what the first use of a value of a bound list makes of it stays to the end |
| `TemplateReuse.MovedListRendersSameIff` | mysqlpp/lib/qparms.h:99-122 | a bound list that moved gives the same text exactly when no value is first used with option q, nor with Q if it is of a quoted type |
| `TemplateReuse.QuotedTwice` | mysqlpp/lib/query.cpp:376-400 | a concrete list and template for which the value is quoted twice |
| `WireCodec.VarIntLength` | MCPacket/Packet.cpp:132-138 | an encoding takes at most k bytes exactly for values below 2^(7k), and below 2^32 for five |
| `WireCodec.ReadInvertsWrite` | MCPacket/Packet.cpp:179-205 | whatever follows, reading what was written gives back the value and the written length |
| `WireCodec.PrefixFree` | MCPacket/Packet.cpp:132-138 | equal bytes start with the same encoding and go on the same way |
| `WireCodec.ReadIsTight` | MCPacket/Packet.cpp:179-205 | a successful read takes one to five bytes that are there, and its value needs no more to write |
| `WireCodec.CutShort` | MCPacket/Packet.cpp:184-191 | every proper initial part of an encoding is reported as incomplete |
| `WireCodec.TooBigIff` | MCPacket/Packet.cpp:196-199 | reading throws exactly when five bytes that announce another are followed by a sixth |
| `WireBytes.VarIntMeans` | MCPacket/Packet.cpp:132-138 | the groups of seven bits, weighing 128^k, add up to the number; every byte but the last announces another; no empty group is at the end |
| `WireBytes.SignedMeans` | MCPacket/Packet.cpp:179-205 | the number as an int32 is the same, or 2^32 less |
| `WireBytes.ReadMeans` | MCPacket/Packet.cpp:188-204 | any number read, canonical or not, is the sum of its groups modulo 2^32 |
| `WireBytes.ReadSoFar` | MCPacket/Packet.cpp:188-191 | what is read of a number cut short is the sum of its groups modulo 2^32 |
| `WireBytes.FrameIs` | MCPacket/Packet.cpp:162-167 | a frame is the length of id and payload, the id, and the payload |
| `WireBytes.OverlongThrows` | Client Gateway/Client.cpp:91-94 | an overlong length makes the callback throw; no bytes make it wait |
| `WireBytes.EmptyFrame` | Client Gateway/Client.cpp:94-98 | what becomes of a frame without a body, with nothing or anything behind it |
| `WireBytes.AnyFrame` | Client Gateway/Client.cpp:93-98 | what becomes of a frame of any length that is not negative, its id whole, overlong, cut short or beyond the frame |
| `WireBytes.NegativeLengthWaits` | Client Gateway/Client.cpp:94 | a length below -5 makes the client wait for ever |
| `WireCodec.Buffer.WriteVarInt` | MCPacket/Packet.cpp:132-138 | the loop appends the encoding |
| `WireCodec.Buffer.WriteVarIntToFront` | MCPacket/Packet.cpp:169-177 | the loop prepends the encoding of a value that is not negative |
| `WireCodec.Buffer.ReadVarIntFromBuffer` | MCPacket/Packet.cpp:179-205 | value, incompleteness or exception as the format says; the bytes go only after a consuming success |
| `WireCodec.Buffer.GetVarIntSize` | MCPacket/Packet.cpp:148-155 | the number of bytes of the encoding, and five for every negative number |
| `WireCodec.Buffer.WriteBufferLengthToFront` | MCPacket/Packet.cpp:162-167 | throws exactly from 2^21 bytes on, and otherwise makes the buffer a frame |
| `StreamReassembly.TakesFirstFrame` | Client Gateway/Client.cpp:88-102 | on any prefix of a stream of frames a callback takes the first packet if its whole frame is there, and waits if not |
| `StreamReassembly.CallbackKeepsStep` | Client Gateway/Client.cpp:67-111 | a callback keeps deliveries a prefix of what was sent and delivered frames plus buffer equal to what was received |
| `StreamReassembly.Reassembles` | Client Gateway/Client.cpp:67-111 | for every list of packets and every chunking, as long as reading goes on, after callback j exactly min(previous + 1, complete frames) packets, the first ones sent, are taken off, no byte is lost and no frame is malformed |
| `StreamReassembly.KeepsUpIff` | Client Gateway/Client.cpp:67-111 | nothing complete is left in the buffer exactly when over every stretch up to now no more frames were completed than there were callbacks |
| `PacketBodies.Packet.SerializePacket` | MCPacket/Packet.hpp:91-94 | the buffer holds the id and nothing else |
| `PacketBodies.Packet.ReadPod` | MCPacket/Packet.hpp:191-202 | a field of fixed width is taken off the buffer, or the default is returned and nothing is taken |
| `PacketBodies.LoginStartPacket.Parse` | MCPacket/LoginStartPacket.cpp:11-18 | the name, if it is there in full; the buffer is emptied |
| `PacketBodies.LoginStartPacket.SerializePacket` | MCPacket/LoginStartPacket.cpp:20-24 | the body that the parser inverts |
| `PacketBodies.KeepAlivePacket.Parse` | MCPacket/KeepAlivePacket.cpp:13-16 | the id, as far as it was read; the buffer is emptied |
| `PacketBodies.KeepAlivePacket.SerializePacket` | MCPacket/KeepAlivePacket.cpp:23-26 | the body that the parser inverts |
| `PacketBodies.LoginSuccessPacket.Parse` | MCPacket/LoginSuccessPacket.cpp:11-24 | both strings, the second under the wrapping length test; the buffer is emptied |
| `PacketBodies.LoginSuccessPacket.SerializePacket` | MCPacket/LoginSuccessPacket.cpp:29-35 | the body with both strings |
| `PacketBodies.JoinGamePacket.Parse` | MCPacket/JoinGamePacket.cpp:11-27 | seven fields off the buffer, each with its default; the buffer is emptied |
| `PacketBodies.JoinGamePacket.SerializePacket` | MCPacket/JoinGamePacket.cpp:32-42 | the body that the parser inverts |
| `PacketBodies.JoinGameRoundTrip` | MCPacket/JoinGamePacket.cpp:11-42 | serialized, taken off the stream and parsed, every field comes back, for all values |
| `PacketBodies.LoginStartRoundTrip` | MCPacket/LoginStartPacket.cpp:11-24 | the same, for every name |
| `PacketBodies.KeepAliveRoundTrip` | MCPacket/KeepAlivePacket.cpp:13-26 | the same, for every id |
| `PacketBodies.LoginSuccessRoundTrip` | MCPacket/LoginSuccessPacket.cpp:11-35 | both strings come back exactly when the uuid is empty or longer than the username; otherwise the username is lost |
| `PacketLayout.Int32Layout` | MCPacket/Packet.hpp:207-210 | an int32 is written low byte first |
| `PacketLayout.JoinGameLayout` | MCPacket/JoinGamePacket.cpp:32-42 | the bytes of a JoinGame, field by field |
| `PacketLayout.LoginLayouts` | MCPacket/LoginSuccessPacket.cpp:29-35 | each string comes with its length, the uuid before the username; a keep-alive is its id alone |
| `PacketLayout.JoinGameIsRead` | MCPacket/JoinGamePacket.cpp:11-27 | any bytes so laid out are read as the fields they are, and every flag but 0 is true |
| `PacketLayout.EmptyJoinGame` | MCPacket/JoinGamePacket.cpp:11-27 | missing fields have their defaults, 255 players among them |
| `PacketLayout.StringIsThere` | MCPacket/LoginStartPacket.cpp:11-18 | a name or message is cut at its length, and dropped if it is not there in full |
| `PacketLayout.HandshakeIsRead` | MCPacket/HandshakePacket.cpp:13-22 | version, address, port low byte first, and next state |
| `PacketLayout.HandshakeWithoutPort` | MCPacket/HandshakePacket.cpp:13-22 | a missing port is 25565 and a missing state 0 |
| `PacketLayout.EncryptionIsRead` | MCPacket/EncryptionPacket.cpp:24-36 | secret and token, each with its length |
| `ClientSession.Client.constructor` | Client Gateway/Client.cpp:56-61 | a new client is alive, a read is pending, and nothing was received |
| `ClientSession.Client.TakePacket` | MCPacket/Packet.cpp:207-214 | the id and payload come off the front of the buffer, and nothing of what follows |
| `ClientSession.Client.Disconnect` | Client Gateway/Client.cpp:144-159 | the client is dead; an exception of the owner escapes, but only if the client was alive |
| `ClientSession.Client.ParseAndHandle` | Client Gateway/Client.cpp:97-106 | the packet is consumed whatever its parser does; an exception escapes exactly if the parser raises one, or the handling does and the owner raises another when told of the disconnection; only parsed packets are handled |
| `ClientSession.Client.OnLengthReceive` | Client Gateway/Client.cpp:67-111 | what one callback does to buffer, packets and client in each case; an exception leaves it exactly when the client is then alive but no longer read, or a read error or failed handling disconnected it and the owner raised one |
| `ClientSession.ReceiveAll` | Client Gateway/Client.cpp:113-116 | the callbacks one after the other, on any bytes, leave the client as the abstract session does, and an exception escapes the last one exactly when that session says so |
| `ClientSession.StaysStopped` | Client Gateway/Client.cpp:67-111 | once reading has stopped, nothing that is sent later is read |
| `ClientSession.ReadsUntilStop` | Client Gateway/Client.cpp:67-111 | for every list of packets, chunking, client states and handling: packets are taken off as by reassembly up to and including the first that stops the client, those accepted by a parser are handled in order, and no chunk after that one is read |
| `ClientSession.HaltsIff` | Client Gateway/Client.cpp:91-110 | a client is left alive and unread exactly when a packet was taken off whose parser throws and none before it stopped the client; likewise for undefined behaviour; it is still read exactly when none taken off stopped it |
| `ClientSession.ParserThrowsIff` | MCPacket/LoginStartPacket.cpp:11-18 | the parsers of LoginStart, KeepAlive and ChatMessage throw exactly on a payload that starts with an overlong length, and accept every other |
| `ClientSession.HandshakeEndsIff` | MCPacket/HandshakePacket.cpp:13-22 | the parser of Handshake throws exactly if version, address length or next state is overlong where it is read, and strays exactly if the address is not there |
| `ClientSession.EncryptionEndsIff` | MCPacket/EncryptionPacket.cpp:12-36 | the parser of Encryption throws exactly if the length of secret or token is overlong where it is read, and strays exactly if the secret or the token is not there |
| `ClientSession.PrefixLeaves` | MCPacket/Packet.cpp:179-205 | reading a length that is not overlong leaves off behind the first byte that announces no other, and takes nothing if there is none |
| `ClientSession.SerializedIsParsed` | MCPacket/LoginStartPacket.cpp:20-24 | what the library serializes, for every name and id, is accepted |
| `ClientSession.OverlongLoginHalts` | Client Gateway/Client.cpp:97-110 | the packet of six bytes FF in the login state stops a client for good, whatever follows |
| `ClientSession.FrameTakenOff` | Client Gateway/Client.cpp:94-98 | a callback that gets a whole frame takes the packet off, whatever becomes of it |
| `SessionFacts.Registered` | MCPacket/Packet.cpp:28-46 | a packet from a client is unknown exactly outside (0,0), (1,0), (1,1), (2,0), (2,1), (3,0), (3,1), by state and id; in state 1 the parsers always succeed |
| `SessionFacts.StatusIsHandled` | MCPacket/Packet.cpp:31-32 | a whole frame of a status request or ping, whatever its payload, is handled, and the client is read again unless the handling disconnected it |
| `SessionFacts.StatusRequestBytes` | MCPacket/Packet.cpp:162-167 | the frame of a status request is the bytes 1 and 0 |
| `SessionFacts.UnknownIsSkipped` | Client Gateway/Client.cpp:97-98 | a packet without a parser is taken off, not handled, and the client is read again |
| `SessionFacts.WellFormedIsHandled` | Client Gateway/Client.cpp:97-106 | handshake, login, encryption answer, keep-alive and chat message, as laid out by their senders, are handled in their states |
| `SessionFacts.OverlongLengthHalts` | Client Gateway/Client.cpp:91-94 | an overlong length leaves the client alive and unread, and the bytes in the buffer |
| `SessionFacts.NoPacket` | Client Gateway/Client.cpp:93-110 | an empty frame is passed over, bytes that make no frame yet are kept, and the client is read again |
| `RefCounting.LastSharer` | mysqlpp/lib/refcounted.h:125-131 | a count is 1 exactly when no other pointer refers to the object |
| `RefCounting.SharerAdded` | mysqlpp/lib/refcounted.h:112-119 | a copy keeps every count equal to the number of its pointers |
| `RefCounting.SharerRemoved` | mysqlpp/lib/refcounted.h:125-131 | so does the end of a pointer, with the counter going when nothing shares it |
| `RefCounting.Swapped` | mysqlpp/lib/refcounted.h:245-249 | so does a swap, also of a pointer with itself |
| `RefCounting.Memory.Construct` | mysqlpp/lib/refcounted.h:100-109 | a new pointer to an object that was not managed; every count stays right |
| `RefCounting.Memory.Share` | mysqlpp/lib/refcounted.h:112-119 | the fields of the copy are those of the original, and only its count goes up, by one |
| `RefCounting.Memory.Copy` | mysqlpp/lib/refcounted.h:112-119 | a new pointer to the same object; every count stays right |
| `RefCounting.Memory.Destroy` | mysqlpp/lib/refcounted.h:125-131 | the destroyer runs exactly when no other pointer refers to the object |
| `RefCounting.Memory.Swap` | mysqlpp/lib/refcounted.h:245-249 | the two pointers exchange their objects; nothing is destroyed |
| `RefCounting.Memory.Assign` | mysqlpp/lib/refcounted.h:157-164 | the pointer refers to the other's object; its own is destroyed exactly when that was its last pointer, so never on self-assignment |
| `RefCounting.Memory.AssignRaw` | mysqlpp/lib/refcounted.h:140-147 | the same, for an object that was not managed |
| `RefCounting.AssignManagedAgain` | mysqlpp/lib/refcounted.h:138-147 | assigning the pointer already managed puts its object under a second counter, and destroys it, while referred to, exactly when no other pointer refers to it |
| `RefCounting.StepConserves` | mysqlpp/lib/refcounted.h:89-164 | every operation keeps managed plus destroyed equal to what was ever adopted |
| `RefCounting.LastOneOut` | mysqlpp/lib/refcounted.h:125-131 | in any operation the destroyer runs exactly for the object referred to before and by no pointer after it, and at most once |
| `RefCounting.RunConserves` | mysqlpp/lib/refcounted.h:89-164 | over every run each object is destroyed once for each adoption, and none remains when no pointer is left |
| `LoginDigest.OneByteNegated` | Client Gateway/Client.cpp:358-366 | one byte more keeps the bytes done so far the negation of the original ones, with the right carry |
| `LoginDigest.Negate` | Client Gateway/Client.cpp:358-366 | in place, the number and its negation add up to 256^n, or both are zero |
| `LoginDigest.HexOfMeans` | Client Gateway/Client.cpp:47-54 | the hexadecimal digits denote the number that the bytes do |
| `LoginDigest.HexStr` | Client Gateway/Client.cpp:47-54 | the loop writes two digits a byte, in order |
| `LoginDigest.LeadingZero` | Client Gateway/Client.cpp:372-374 | erasing a leading zero does not change the value |
| `LoginDigest.HexDigest` | Client Gateway/Client.cpp:354-377 | for every non-zero digest of any length, a string without leading zeros whose signed value is the two's complement of the bytes |
| `LoginDigest.CanonicalIsUnique` | Client Gateway/Client.cpp:369-377 | no other string of that form has the same value, so the result is determined |
| `LoginDigest.HexDigitsAre` | Client Gateway/Client.cpp:42-45 | the digits are 0 to 9 and a to f, with the values 0 to 15 |
| `LoginDigest.SmallNumbers` | Client Gateway/Client.cpp:375-377 | the signed value of one and two digits, with and without a minus sign |
| `LoginDigest.SmallDigests` | Client Gateway/Client.cpp:354-366 | the two's complement of one and two bytes, the high one first |
| `DateTimes.Date.Convert` | mysqlpp/lib/datetime.cpp:138-161 | the cursor code sets the fields and leaves what the fields of fixed width say |
| `DateTimes.Time.Convert` | mysqlpp/lib/datetime.cpp:164-186 | the same, for times |
| `DateTimes.DateTime.Convert` | mysqlpp/lib/datetime.cpp:189-212 | a date, an optional space and a time; clears the NOW mark |
| `DateTimes.Date.Compare` | mysqlpp/lib/datetime.cpp:215-221 | the order by fields that the lemmas relate to the printed text |
| `DateTimes.Time.Compare` | mysqlpp/lib/datetime.cpp:224-230 | the same, for times |
| `DateTimes.DateTime.Compare` | mysqlpp/lib/datetime.cpp:233-250 | the same, for dates with times; two NOW values are equal |
| `DateTimes.DateRoundTrip` | mysqlpp/lib/datetime.cpp:61-71 | reading a printed date gives it back, and what follows it, exactly when every field fits its places |
| `DateTimes.TimeRoundTrip` | mysqlpp/lib/datetime.cpp:74-84 | the same, for times |
| `DateTimes.DateTimeRoundTrip` | mysqlpp/lib/datetime.cpp:87-97 | the same, for dates with times that are not NOW, with all of the text consumed |
| `DateFacts.DecimalMeans` | mysqlpp/lib/datetime.cpp:61-71 | numbers are printed in decimal digits without leading zeros |
| `DateFacts.PaddedMeans` | mysqlpp/lib/datetime.cpp:64-68 | a field is its number, filled up with zeros to its width and never cut |
| `DateFacts.TextsAre` | mysqlpp/lib/datetime.cpp:61-97 | years have four places and all else two; dashes, colons and a space stand between; NOW prints as NOW() |
| `DateFacts.CompactDate` | mysqlpp/lib/datetime.cpp:138-161 | eight digits without separators are read as the date, and what follows is left |
| `DateFacts.CompactTime` | mysqlpp/lib/datetime.cpp:164-186 | six digits without separators are read as the time, and what follows is left |
| `DateFacts.WithoutSpace` | mysqlpp/lib/datetime.cpp:189-212 | a date and a time without a space between are read as both |
| `DateFacts.StrtolMeans` | mysqlpp/lib/datetime.cpp:138-161 | white space is skipped, a sign counts, and reading a field stops at the first character that is no digit |
| `DateFacts.HourMinusOne` | mysqlpp/lib/datetime.cpp:164-186 | fields are kept modulo what they can hold: an hour of -1 is 255 |
| `DateFacts.CompareIsDifference` | mysqlpp/lib/datetime.cpp:215-250 | the result of compare is the difference of the first fields that differ |
| `DateFacts.BeforeMeans` | mysqlpp/lib/datetime.cpp:61-97 | the order of strings used for printed dates is that of the first character in which they differ, a proper prefix coming first |
| `PrintedOrder.DatesInOrder` | mysqlpp/lib/datetime.cpp:215-221 | the sign of compare is the lexicographic order of the printed dates, and zero their equality |
| `PrintedOrder.TimesInOrder` | mysqlpp/lib/datetime.cpp:224-230 | the same, for times |
| `PrintedOrder.DateTimesInOrder` | mysqlpp/lib/datetime.cpp:233-250 | the same, for dates with times that are not NOW |
| `PrintedOrder.FieldSortsIff` | mysqlpp/lib/datetime.cpp:61-84 | two different fields, with what follows them, sort as their numbers exactly when they have equally many digits, or the shorter is below the longer without its last digit, or equal to it and followed by something below the digits |
| `PrintedOrder.DatesSortIff` | mysqlpp/lib/datetime.cpp:215-221 | for any two dates, compare has the order of the printed strings exactly when the first fields that differ sort |
| `PrintedOrder.TimesSortIff` | mysqlpp/lib/datetime.cpp:224-230 | the same, for any two times |
| `PrintedOrder.DateTimesSortIff` | mysqlpp/lib/datetime.cpp:233-250 | the same, for any two dates with times that are not NOW |
| `PrintedOrder.SortsRightIff` | mysqlpp/lib/datetime.cpp:224-230 | a time sorts by its text among all two-digit times exactly when its own fields have two digits |
| `PrintedOrder.NowComparesAsZero` | mysqlpp/lib/datetime.cpp:233-250 | compare finds two values equal whose texts differ exactly when one is NOW and the other all zero |
| `PlainDates.PlainDateRoundTrip` | mysqlpp/lib/datetime.h:261-267 | a date written without leading zeros is read back exactly when its fields fit and its year is at least 100 |
| `PlainDates.PlainTimeRoundTrip` | mysqlpp/lib/datetime.h:381-387 | a time written without leading zeros is read back exactly when its fields fit |
| `PlainDates.PlainDateTimeRoundTrip` | mysqlpp/lib/datetime.h:98-103 | a date with time written without leading zeros is read back exactly when its fields fit and its year is at least 100 |

## Left out

- The mutex of the pool: each locked step is atomic.  `clear(true)` on a pool with busy connections is modelled as a method but is not an event of the runs, because it destroys connections that clients hold.
- ConnectionPool.Pool.Exchange: without other clients between its two steps; with them it is a Remove and a Grab of PoolRuns, as in PoolRuns.ExchangeReturnsAnother.
- ConnectionPool.Pool.SafeGrab: without other clients between its steps, and with a `create` whose connection answers `ping`; with interference it need not terminate.
- Reuse of the address of a destroyed connection by `create`: connections are identities, never made twice.
- BatchInsert.Query.InsertFrom: failures of START TRANSACTION, COMMIT and ROLLBACK themselves, and the effect of REPLACE on rows with equal keys; the effect of a statement is the list of rows it carries.
- BatchInsert.Query.Exec: on a template, whose text is the subject of TemplateQuery; `insertfrom` clears the template first.
- BatchInsert.MaxPacketBounds: for rows shorter than 2 GiB, because lengths are converted to `int`.
- BatchInsert.MaxPacketAccepts: the same.
- BatchInsert.SizeThresholdBounds: for rows that, each with the threshold or all together, stay within 2 GiB, for the same reason.
- BatchInsert.RowCountBounds: for limits from 1 to 2^32 - 2; the others are the subject of ZeroLimitRefuses and LargestLimitNeverRefuses.
- BatchInsert.RowCountFills: the same.
- BatchInsert.RowCountIsExact: the same.
- BatchInsert.ReusedPolicyBounds: the same.
- TemplateQuery.Query.Save: a name for a position above 127, which the code stores as a negative number and then uses as an index outside the table; such a name is ignored here.
- TemplatePrinter.ParseInvertsPrint: for positions up to 127 and text without NUL, the ones a template can express.
- Parameters that hold a null buffer, lookup of parameters by name, and the options r and R, which `parse` does not read.
- Compression, encryption and the sockets, TLS and key exchange around them.
- ClientSession.Client.OnLengthReceive: behaviour that C++ leaves undefined is excluded, and named in the sessions: frames whose length is negative or does not cover the id, none of which occurs in a stream of framed packets, and parsers that do not compare a length with what is there (ClientSession.HaltsIff).
- The owner is taken not to destroy the client inside its own callback: ClientServer::clientDisconnected erases the client from its map and then uses it, which C++ leaves undefined.
- Other callbacks that disconnect a client between two reads: the next callback then finds it dead and does nothing.
- The bodies of `receivedMessage` and `onPacketReceived`: how they end, and the state they leave the client in, are arbitrary.
- Parsers of Handshake, Encryption and ChatMessage: on values only, without their packet objects; those of ServerStatus and Ping, which always succeed, without their results.
- TemplateReuse.ReusedListRendersSameIff: the values that are added are for no position of the template; that the text changes with a lost mark is for escape routines that never shorten a string, as those of database drivers.
- TemplateReuse.MovedListRendersSameIff: the same, for lists whose values are not processed before the first evaluation, as no stored value is.
- WireCodec.Buffer.WriteVarIntToFront: negative input, on which the loop does not end.
- The bits that the sixth byte of an overlong integer would set before the exception is thrown.
- Big-endian hosts.
- PacketBodies.LoginStartPacket.SerializePacket: for names below 2 GiB, whose length an int32 can hold.
- PacketBodies.LoginSuccessPacket.SerializePacket: the same, for both strings.
- PacketBodies.JoinGamePacket.SerializePacket: the same, for the level type.
- PacketBodies.LoginStartRoundTrip: the same.
- ClientSession.SerializedIsParsed: the same.
- PacketBodies.LoginSuccessRoundTrip: the same.
- PacketBodies.JoinGameRoundTrip: the same.
- Packets other than those modelled: some discard what they read, others go one way only.  Positions packed in bits and 64-bit integers are left out with them.
- RefCounting.Memory.Construct: an object that is already managed.
- RefCounting.Memory.AssignRaw: the same; RefCounting.AssignManagedAgain says what happens when the pointer itself manages it.
- Exceptions thrown by `new`, and destroyers other than the default one or a specialisation of it: with another destroyer as template argument the class would be copied member by member, without counting.
- LoginDigest.HexDigest: the all-zero digest, on which the code looks at the front of an empty string.
- DateTimes.Date.Convert: texts so short that the cursor would leave the string and be looked at; likewise the other two.
- Conversions between dates and `time_t`, which depend on the local time zone.
- `Set` parsing, and the connection, driver, result, row and option classes of MySQL++: thin wrappers.
- The gateway's client maps, and the generated protocol code.
