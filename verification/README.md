# libdrizzle-redux in Dafny

libdrizzle-redux is a client library for MySQL servers. This project models its
protocol machine and the code around it, and proves what the library is for: that
what is decoded does not depend on how the network cuts the stream, that what is sent
arrives once and in order, that rows reach the caller as the server sent them, and
that the codecs on both sides of the wire undo each other.

`dafny verify dfyconfig.toml` checks everything.

## How it is laid out

| file | what it models |
|---|---|
| `bytes.dfy`, `bitmaps.dfy`, `pack.dfy`, `capabilities.dfy` | bytes and octets, little-endian integers, bitmaps, length-encoded integers and strings, capability masks |
| `sha1_spec.dfy`, `sha1.dfy`, `login.dfy` | SHA-1 as FIPS PUB 180-4 defines it, the unrolled in-place SHA-1 of the library, the login proof and the password hash |
| `state_stack.dfy`, `protocol.dfy`, `steps.dfy` | the stack of state functions on two intrusive linked lists with a node pool, whole runs of the machine, and the proof that the state functions modelled elsewhere make only its steps |
| `connection.dfy` | the read side: the growing and compacting buffer, packet framing, the state loop |
| `rows.dfy`, `result_buffer.dfy` | text rows piece by piece, buffered fields, rows and results, the row cursor |
| `binary_rows.dfy`, `statement_fetch.dfy`, `statement.dfy` | binary rows with their NULL bitmap, the way back from values to columns, and fetching and buffering the rows of a statement |
| `command.dfy`, `execute.dfy` | the write side: command framing and partial sends, the payload of a prepared-statement execute |
| `handshake.dfy`, `connect.dfy` | writer and reader of both handshake packets, connecting through a list of addresses |
| `consume.dfy` | replies, column definitions and binlog events, each taking exactly its packet |
| `column_buffer.dfy` | the columns of a result from the byte stream into column_buffer |
| `streams.dfy` | whole exchanges from the byte stream on: a binlog dump, the login between both sides |
| `escape.dfy` | string escaping |

The source keeps everything in one connection object. The model splits its fields by
concern: `Connection` has the fields of the read side, `Writer` those of the write
side, `Session` those of the handshake, `Connector` those of connecting, `Stack` the
node lists. Readers of rows, replies, columns and events hold a reference to the
`Connection` they read from and update its buffer in place.

`recv`, `send`, `connect`, `poll` and `getsockopt` are oracles: each object on the far
side (`Socket`, `Peer`) holds a script of outcomes that nothing is assumed about, and
the results hold for every script. A script is finite; when it runs out the connection
counts as lost, which gives every loop an end. `Cut` says that a script has run out or
one of its outcomes was a failure; where a result allows a failure of the socket, it
says that this was so (or that the stream had ended). IO_WAIT returns to the caller, who
resumes with the same call; where a function of the library hides it, the model does so
too (`Statements.Statement.Fetch`).

Where a method works step by step on an object or an array, a function says what it
computes, and lemmas prove what that function means: the one-shot parser of a stream
(`ParseStream`), the step of a field reader (`FieldStep`), the bytes a connection owes
(`Owed`), the payload of an execute (`Payload`), the readers of the handshake packets,
and the specification of SHA-1.

## What came out

* The branch of `drizzle_state_field_read` for a field size above the packet size
  (src/field.cc:330-343) is never taken: the size is bounded by the available data.
* "buffer too small" (src/conn.cc:1345-1350) does not occur while packets are framed: no
  allocation passes 2^26 bytes.
* The test for protocol version 255 in `drizzle_state_handshake_server_read` is dead,
  because such a packet is taken for an error packet before.
* `null_bitcount` is the number of NULL columns exactly when no stray bit is set in the
  bitmap (`BinaryRows.BitcountIsNullCount`, `BinaryRows.StrayBitMiscounts`).
* Rows read before drizzle_result_buffer is called are counted but not kept: their
  entries in row_list are never written, and from 8192 such rows beyond the size of the
  list on the next row is written behind it (src/result.cc:334-386;
  `ResultBuffer.IndexStaysInList`, `ResultBuffer.OneRowTooMany`).
* When a server answers the connection with an error packet,
  `drizzle_state_handshake_server_read` stays on the stack (src/handshake.cc:105-108,
  src/state.cc:59-63); the next `drizzle_connect` runs it without a packet
  (`Protocol.RunsAreSafe`, `Protocol.RefusalIsReached`). It then fails, unless the stale
  byte it looks at is 255 (`Steps.ServerReadStep`).
* An error packet of fewer than nine bytes wraps packet_size, and buffer_ptr leaves the
  buffer (src/pack.cc:482-505; `Consume.ErrorPacketEnds`).
* `drizzle_stmt_fetch` returns ROW_END whenever drizzle_row_buffer gives no row
  (src/statement.cc:422-428): at the end, but also when the call had to wait, when the
  network failed, at a row with a value of a type such as geometry, and when the server
  ends the rows with an error (src/row.cc:290-295). ROW_END always means the end of a
  complete result exactly when none of these can occur (`Statements.RowEndMeansEnd`,
  `Statements.InterruptedEnds`). The last cannot be ruled out before a call; behind
  ROW_END the error code tells it, which changes in this case alone
  (`Statements.Statement.FetchAll`), unless the code on record was the same already.
* `drizzle_stmt_buffer` moves the statement on before its rows have come
  (src/statement.cc:549-558). Without blocking, a call that had to wait cannot be repeated,
  and the rows it has kept come out of no fetch (`Statements.Statement.BufferThenFetch`).
* `drizzle_column_buffer` tests no index: a server that defines more columns than it
  announced makes it write behind column_buffer (`ColumnBuffer.ColumnList.Buffer`,
  `ColumnBuffer.OneColumnTooMany`).
* The reply that drizzle_binlog_start waits for is the first packet of the dump, which
  therefore reaches no callback (`Streams.ReceiveDump`). Without blocking the dump is begun
  above the request; what has not been sent of it by then is not sent before the dump has
  ended (`Protocol.RequestWaits`).
* Without blocking, a piece of a command that is repeated after IO_WAIT goes out twice
  exactly when all of it had been taken and the command is still being written
  (`Command.RepeatedPiece`, `Command.FirstPieceTwice`).
* A command in pieces goes out right exactly when no empty, non-NULL piece comes before
  its first byte; each such piece repeats the header (`Command.PiecesAreCommand`).
* The buffer of an execute is large enough exactly when its strings of 2^24 bytes or
  more do not outnumber the bytes the other values leave unused
  (`Execute.FitsExactly`).
* `new_bind` is set once, when a statement is made, and cleared by its first execute
  (src/structs.h:526, src/statement.cc:311). The types of parameters that are bound anew
  later are not sent: the server recovers the parameters exactly when the types it keeps
  are theirs (`Execute.KeptTypes`, `Execute.StaleType`).
* The terminator of an escaped string lies inside its allocation exactly when some byte
  needs no escape (`Escape.TerminatorFits`).

## Model

| member | source | states |
|---|---|---|
| StateStack.PacketList.Add | src/packet.h:40-47 | adding a node puts it in front of the list; the list stays acyclic, linked both ways, with a count equal to its length |
| StateStack.PacketList.Del | src/packet.h:49-57 | deleting a node anywhere removes exactly it and keeps the rest in order, acyclic and linked both ways, with the right count |
| StateStack.Stack.constructor | src/structs.h:335-341 | a new connection has an empty stack and eight free pool nodes |
| StateStack.Stack.HasState | src/structs.h:372-375 | despite its name it tells whether the stack is empty |
| StateStack.Stack.Current | src/structs.h:377-380 | the function that runs is the one pushed last |
| StateStack.Stack.PushState | src/structs.h:349-370 | the stack of functions grows by one on top; up to depth eight the node is a pool node, beyond it a fresh heap node; the pool keeps the same nodes |
| StateStack.Stack.PopState | src/structs.h:382-399 | the top function goes, on an empty stack nothing happens; a pool node returns to the free list and the pool keeps the same nodes |
| StateStack.Stack.ClearState | src/structs.h:401-407 | the stack is empty and all eight pool nodes are free |
| StateStack.Stack.Run | src/structs.h:349-407 | after every sequence of pushes, pops and clears the two linked lists hold the LIFO stack of functions, and the pool is the same set of eight nodes |
| StateStack.PoolConserved | src/structs.h:349-407 | free nodes and pool nodes on the stack together are always eight |
| StateStack.PoolRunsOut | src/structs.h:349-370 | the free list is empty exactly from depth eight on |
| Pack.LengthRoundTrip | src/pack.cc:69-159 | unpacking inverts packing for every 64-bit length, whatever follows it on the wire |
| Pack.CutLengthWaits | src/pack.cc:101-159 | a length cut off anywhere is answered with IO_WAIT and never misread |
| Pack.MoreBytesSameLength | src/pack.cc:101-159 | once a length is decoded, bytes arriving later do not change it |
| Pack.FirstByte | src/pack.cc:69-99 | a length never starts with the NULL or error marker, and with the EOF marker exactly from 2^24 on |
| Pack.PackLength | src/pack.cc:69-99 | writes the wire form of the length at the pointer, nothing else in the array changes, and returns the pointer behind it |
| Pack.PackBinary | src/pack.cc:180-190 | writes length and bytes one behind the other and nothing else |
| Pack.ClipKeeps | src/pack.cc:341-353 | a string that fits its field is kept whole, a longer one up to the field's last but one byte |
| Connection.Socket.Recv | src/conn.cc:1301-1521 | the network hands over 1 to max bytes of the stream in order, or fails in one of the ways drizzle_state_read tells apart; an end of the stream means that it is empty or the network failed |
| Connection.FrameParses | src/state.cc:72-115 | the parser takes exactly the payload that was framed |
| Connection.StreamParses | src/state.cc:72-115 | for every list of payloads numbered modulo 256 the one-shot parse of the stream is that list |
| Connection.MoreBytesSamePacket | src/state.cc:72-115 | bytes arriving later change no packet that is complete and no bad packet number |
| Connection.IncompleteIsShort | src/state.cc:81-93 | while a packet is incomplete the buffer holds less than 2^24 + 3 bytes |
| Connection.DoublingFits | src/conn.cc:1313-1368 | a buffer doubled for an incomplete packet never passes 2^26 bytes, far below the limit at which the source gives up |
| Connection.Connection.UnpackLength | src/pack.cc:101-159 | takes exactly the bytes of the length it decodes, one byte for NULL, none when it must wait, with buffer_ptr, buffer_size and packet_size in step |
| Connection.Connection.Compact | src/conn.cc:1317-1321 | moving the unread bytes to the front of the buffer leaves them unchanged |
| Connection.Connection.Grow | src/conn.cc:1341-1368 | the buffer doubles and the unread bytes are unchanged |
| Connection.Connection.Receive | src/conn.cc:1339-1521 | the receive loop appends what recv gives or leaves everything as it was; it ends for every script of outcomes: with OK behind one that delivers, with IO_WAIT behind one that would block, and only outcomes that ask for another call come before; it fails only by a failing outcome, at the end of the script or at the end of the stream |
| Connection.Connection.MakeRoom | src/conn.cc:1339-1368 | there is always room behind the unread bytes, which do not change; the error for a buffer that is too large does not occur |
| Connection.Connection.StateRead | src/conn.cc:1301-1521 | buffer plus stream still to come is the same before and after every outcome; Ok means more bytes; a failure means that the network failed or the buffer holds all there is; the error for a buffer that is too small does not occur |
| Connection.Connection.RecvFault | src/conn.cc:1409-1521 | what each errno of recv leads to: another call, IO_WAIT, or which failure; a refused connection goes back to connecting |
| Connection.Connection.StatePacketRead | src/state.cc:72-115 | it pushes a read exactly while the one-shot parser calls the packet incomplete, rejects exactly the numbers it rejects, and otherwise takes the header alone and leaves the whole payload in the buffer |
| Connection.Connection.AwaitPacket | src/state.cc:47-115 | however recv cuts the stream and wherever the loop is interrupted, the consumer on top finds in the buffer the whole packet that the one-shot parser finds at the head of the stream; the socket fails only when the network did or the stream holds no whole packet; a packet that is all in the buffer never waits, and without blocking one that is not waits when there is nothing to read |
| Connection.Connection.StateLoop | src/state.cc:47-70 | Ok only with an empty stack; IO_WAIT leaves everything to be resumed; any other failure empties the stack |
| Connection.ReceivePackets | src/state.cc:47-115 | chunk independence: for every stream, every cutting by recv and every placement of IO_WAIT and resume, the payloads handed over are a prefix of the one-shot parse, all of it on success; a bad packet number is reported only where the parse has one, and a failure of the socket only where the stream ends or the network failed, so that a long enough script without failures delivers everything |
| Rows.RowIsNoMarker | src/row.cc:283-291 | no row starts like an error packet, and one that starts like an EOF packet is longer than 2^24 bytes |
| Rows.FieldStepKeeps | src/field.cc:254-376 | on every part of the packet the buffer may hold, a step hands over exactly the bytes that follow those already handed over; with the whole packet in the buffer it finishes the field |
| Rows.FieldReader.StateFieldRead | src/field.cc:254-376 | cursor, buffer and stack change as the step function says, in every branch |
| Rows.FieldReader.FieldLoop | src/field.cc:254-376 | whatever recv does, the reader gets the next piece of the row, or can be resumed where it was |
| Rows.FieldReader.ReadField | src/field.cc:53-120 | the pieces of a row tile its fields in order without gap, NULLs included, and ROW_END comes after exactly column_count fields |
| Rows.ReadPieces | src/field.cc:53-120 | a caller who puts the pieces together and waits when told to gets exactly the row sent, under every schedule of the network, and then ROW_END; nothing but a failing network prevents it |
| ResultBuffer.FieldGatherer.Reserve | src/field.cc:165-190 | the column's buffer has room for the field and its terminator, keeps what it holds, and no other column's buffer changes |
| ResultBuffer.FieldGatherer.GatherRest | src/field.cc:204-234 | the gathering loop ends with every byte of the field in its place, or stops resumable with the part received |
| ResultBuffer.FieldGatherer.FieldBuffer | src/field.cc:122-240 | the field is rebuilt exactly from its pieces, with a NUL behind it, however often the call is interrupted and repeated |
| ResultBuffer.Result.StateRowRead | src/row.cc:267-312 | a row packet begins a row and an EOF packet ends the result, told apart for every row that fits one packet |
| ResultBuffer.Result.ReadRow | src/row.cc:51-82 | the next packet of the result, under every schedule of the network, positions the reader in front of the next row or behind the last; an error packet in the place of a row is taken, with its code and SQL state on record, and reported |
| ResultBuffer.Result.TakeError | src/row.cc:290-295 | the error packet that the reader of rows hands on is taken whole by the reader of results, which reports it and records its code and SQL state |
| ResultBuffer.Result.BufferRow | src/row.cc:84-158 | the next row as one pointer and one size a column, each to the bytes sent; None behind the last row, and with ERROR_CODE when the server ends the rows with an error |
| ResultBuffer.Result.KeepRow | src/result.cc:334-386 | a new row is copied behind those kept before, every field with bytes in an array of its own size and a terminator, which nothing else uses, and the earlier entries are unchanged; the write falls behind the list exactly when the count is more than 8192 beyond its size |
| ResultBuffer.Result.BufferResult | src/result.cc:299-390 | from any number k of rows read before and any list of size s: a row is written behind the list exactly when a further row arrives and k is at least s + 8192; otherwise every further row is kept in order, sizes of all fields and bytes of the non-empty ones, although all passed through the same column buffers, and every entry is a row sent if and only if the first k were; rows that the server ends with an error are kept up to it and reported with ERROR_CODE |
| ResultBuffer.IndexStaysInList | src/result.cc:334-386 | for every k, list size and number of further rows, every index stays below the list's size if and only if k is less than 8192 beyond the initial size |
| ResultBuffer.OneRowTooMany | src/result.cc:334-386 | with 8192 rows read and none kept the next index is outside the list, with fewer it is inside |
| ResultBuffer.Result.RowNext | src/row.cc:189-208 | the entry at the cursor, or NULL exactly behind the last; a written entry is the row sent |
| ResultBuffer.Result.RowPrev | src/row.cc:210-227 | the entry in front of the cursor, or NULL exactly at the first; a written entry is the row sent |
| ResultBuffer.Result.RowSeek | src/row.cc:229-238 | the cursor moves unless the position is behind the end |
| ResultBuffer.Result.ThereAndBack | src/row.cc:189-227 | row_next enumerates every entry once in order, and row_prev walks the same entries back |
| Bitmaps.ClearsOne | src/field.cc:388-395 | data &= data - 1 clears exactly one set bit |
| Bitmaps.CountSetBits | src/field.cc:388-395 | the counting loop yields the number of bits set in the bitmap |
| Bitmaps.CountGrows | src/field.cc:388-395 | two prefixes of a bitmap have equal counts exactly when no bit between their ends is set |
| Bitmaps.SetBit | src/statement.cc:218-221 | setting bit k changes bit k alone |
| BinaryRows.BitcountIsNullCount | src/field.cc:378-397 | null_bitcount is the number of NULL columns exactly when the two leading bits and the padding bits of the bitmap are zero |
| BinaryRows.StrayBitMiscounts | src/field.cc:378-397 | a row of one value under a bitmap whose first bit is set counts as a row of NULLs |
| BinaryRows.NextValue | src/field.cc:410-415 | while a value is left the NULL-skipping loop meets a column that is not NULL before the end |
| BinaryRows.SmallestBitmap | src/field.cc:381 | the bitmap has a bit for each column behind two unused ones, in the fewest bytes |
| BinaryRows.ValueAhead | src/field.cc:417-473 | for every type the decoder finds the value in front of the packet and nothing else |
| BinaryRows.BinaryReader.StateNullRead | src/field.cc:378-404 | the bitmap is copied out, its bits counted, and exactly header and bitmap are taken from the packet |
| BinaryRows.BinaryReader.StateFieldRead | src/field.cc:406-485 | NULL columns are skipped inside the bitmap; the next value is taken exactly, a length that is cut answers IO_WAIT and takes nothing, the NULL marker in place of a length and a type the protocol does not carry are refused |
| BinaryRows.BinaryReader.TakeField | src/field.cc:406-485 | a value that the server packed is taken exactly, whatever its type |
| BinaryRows.BinaryReader.ReadField | src/field.cc:53-120 | on binary rows: the value of the next column that is not NULL, ROW_END exactly after as many values as there are such columns, a failure exactly at an unreadable type |
| BinaryRows.BinaryReader.ReadValues | src/row.cc:84-158 | a binary row yields the values of its non-NULL columns in order and its packet is taken exactly |
| StatementFetch.ValueAt | src/statement.cc:430-457 | the value of a column stands at the number of non-NULL columns before it |
| StatementFetch.NumbersArrive | src/statement.cc:460-480 | an integer that fits its column's width comes out as it was sent |
| StatementFetch.ValueArrives | src/statement.cc:446-524 | for every column type: an integer type gives the number, FLOAT, DOUBLE and every string, blob, bit and decimal type the bytes as they are, a temporal type the bytes to take apart, each with the value's length; exactly seven types are refused |
| StatementFetch.FetchValue | src/statement.cc:446-524 | type, length, sign flag and data of one parameter, for every column type; the parameter holds the value as the list of types has it |
| StatementFetch.StmtFetch | src/statement.cc:430-533 | column c is NULL exactly when its bit is set and has its own wire value otherwise, a number, the bytes as they are, or the bytes of a temporal value by its type; a type that is not handled ends the loop and leaves the later parameters alone |
| Command.Peer.Send | src/conn.cc:1523-1654 | the network takes 0 to all bytes offered, in order, or fails in one of the ways drizzle_state_write tells apart |
| Command.Writer.StateWrite | src/conn.cc:1523-1654 | bytes sent plus bytes pending are the same before and after; Ok means that nothing is pending and that every outcome on the way let send be called again |
| Command.Writer.CopyData | src/command.cc:125-147 | what fits of the data is copied and exactly the rest remains |
| Command.Writer.Frame | src/command.cc:104-151 | behind what is pending come length, packet number 0, command and the front of the data |
| Command.Writer.StateCommandWrite | src/command.cc:52-173 | pending bytes plus bytes still owed are conserved in every branch, PAUSE comes exactly without data, and every other step brings the end nearer |
| Command.Writer.StateLoop | src/state.cc:47-70 | while a command is written: on Ok and PAUSE the server has everything handed over, on IO_WAIT nothing is lost, after a failure it has a prefix |
| Command.Writer.CommandWriteCall | src/conn.cc:814-904 | a call on an idle connection begins a command, a later one adds data, and neither disturbs what is on its way |
| Command.SendCommand | src/conn.cc:814-904 | a command handed over whole reaches the server as length, 0, command, data, once and in order, under every schedule of partial sends and IO_WAIT, and its reply is expected with number 1; only a failing network prevents it, and the server then has a prefix of it |
| Command.SendPieces | src/conn.cc:814-904 | a command in pieces, with or without blocking: a caller who resumes with NULL data after IO_WAIT gets each piece on the wire once and in order, under every schedule, including a first piece larger than the buffer; only a failing network prevents it, and the server then has a prefix |
| Command.RepeatedPiece | src/conn.cc:885-889 | a caller who repeats the piece instead sends it a second time if and only if the command is still being written and all of the piece had been taken |
| Command.FirstPieceTwice | src/conn.cc:885-889 | of a command of two bytes given one by one, the first of them repeated, the server gets that one twice |
| Command.TakeFirstPiece | src/conn.cc:877-883 | the first call leads every idle connection to the state in which that happens |
| Command.PiecesAreCommand | src/command.cc:83-151 | the pieces make one command on the wire if and only if no empty non-NULL piece comes before the first byte |
| Command.HeadersFirst | src/command.cc:83-151 | every empty non-NULL piece before the first byte adds one more header |
| Command.EmptyPieceFirst | src/command.cc:83-151 | the pieces [] and [7] are such a command: the header goes out twice |
| Execute.OneNumberEach | include/libdrizzle-redux/constants.h:210-239 | each of the numbers 0 to 19 and 246 to 255 stands for one column type |
| Execute.TypeRoundTrip | src/statement.cc:197-210 | type code and sign flag survive the two type bytes |
| Execute.DataRoundTrip | src/statement.cc:218-272 | every integer, float and string value is recovered from its bytes, whatever follows |
| Execute.ValueForms | src/statement.cc:218-272 | TINY, SHORT, LONG and LONGLONG in 1, 2, 4 and 8 bytes, FLOAT and DOUBLE in 4 and 8 bytes as they are, strings behind their length |
| Execute.PayloadRoundTrip | src/statement.cc:156-297 | a decoder that reads the fixed bytes, bitmap, types and values recovers the statement id and every parameter, NULLs and signs included |
| Execute.HeadIs | src/statement.cc:156-161 | statement id, a zero byte and the reserved 1 in the first nine bytes |
| Execute.PayloadDecodes | src/statement.cc:156-297 | with and without new types: the fixed bytes, the flag behind the bitmap, and values decoded by the types that the payload carries or the server keeps |
| Execute.KeptTypes | src/statement.cc:170-201 | an execute after the first: the parameters are recovered if and only if their types are those sent with the first |
| Execute.StaleType | src/statement.cc:311 | a parameter that was a TINY and is bound anew as a LONGLONG is not recovered |
| Execute.FitsExactly | src/statement.cc:122-146 | the payload fits the computed size if and only if its strings of 2^24 bytes or more are no more than the bytes the other values leave unused |
| Execute.SmallStringsFit | src/statement.cc:122-146 | without such strings it always fits |
| Execute.HugeStringOverflows | src/statement.cc:122-146 | a single string of 2^24 bytes or more needs one byte more than the computed size |
| Execute.Measure | src/statement.cc:122-139 | the first unbound parameter is found, or the counts of non-NULL parameters and of value bytes are those of the whole list |
| Execute.PutData | src/statement.cc:218-288 | one value is written at the cursor and nothing else, in the form of its type's case in the switch; an unknown type is refused |
| Execute.PutParam | src/statement.cc:188-290 | type and value go in at their cursors without touching what either wrote before, and a NULL marks its bit alone |
| Execute.PutParams | src/statement.cc:188-290 | the two cursors never cross: the type cursor ends where the value cursor began |
| Execute.BuildPayload | src/statement.cc:105-297 | the payload for every list of parameters: statement id, reserved 1, bitmap, flag, types and values in their places (Execute.PayloadDecodes reads them back), bit i of the bitmap set exactly when parameter i is NULL, or the error for an unbound parameter or an unknown type; the buffer has the computed size |
| Capabilities.MaskArrives | src/handshake.cc:363-364 | every capability mask survives its four bytes |
| Capabilities.LowHalfArrives | src/handshake.cc:168-172 | of a mask sent in two bytes exactly the low 16 bits arrive |
| Capabilities.BitWeight | include/libdrizzle-redux/constants.h:136-155 | bit k of a mask weighs 2^k on the wire |
| Handshake.GreetingRoundTrip | src/handshake.cc:86-333 | a client recovers version, thread id, 20-byte scramble, low 16 capability bits, charset and status from the server's packet, whatever the server adds behind it |
| Handshake.LoginRoundTrip | src/handshake.cc:335-648 | a server recovers capabilities, maximum packet size, charset, user, auth bytes and database from the client's packet |
| Handshake.HandshakeAuthenticates | src/handshake.cc:86-648 | through both codecs a packet that carries the answer to the scramble passes the check of a server that holds only the password's hash (with the methods that write and read it: Streams.LogIn) |
| Handshake.CompiledBits | src/handshake.cc:487-524 | which capability bits the client asks for: always the 4.1 protocol, never compression, a database only when there is one, the options' bits exactly when they are set, of the others those the library knows and the connection has |
| Handshake.PlainAuthReads | src/pack.cc:403-407 | the password field of the plugin, read as a C string, is the password up to 19 characters, and zeros follow |
| Handshake.Session.StateServerWrite | src/handshake.cc:227-333 | the buffer holds exactly the framed greeting, and the error for a wrongly packed or too large packet never occurs |
| Handshake.Session.StateServerRead | src/handshake.cc:86-225 | every packet: fields and stack of an accepted one as the reader function says; an error packet is taken whole with its code and state, and the function stays on the stack, also when its size wraps because it has fewer than nine bytes; any other is refused with the stack as it was and buffer_ptr as far as the fields had been passed; the leftover behind the fixed fields is never negative |
| Handshake.Session.CompileCapabilities | src/handshake.cc:487-524 | the mask sent, and the 4.1 bit it leaves in the connection |
| Handshake.Session.PackAuth | src/pack.cc:360-429 | user, answer to the scramble and database are packed, and packet_size shrinks exactly when no answer is sent; it fails exactly when there is no scramble to answer |
| Handshake.Session.StateClientWrite | src/handshake.cc:526-648 | the buffer holds exactly the framed login packet, whose size is the computed one; the errors for a wrongly packed or too large packet never occur |
| Handshake.Session.StateClientRead | src/handshake.cc:335-485 | fields, stack and buffer for every packet that does not make it read beyond the received bytes |
| Login.PackScrambleHash | src/pack.cc:435-480 | the reply is the scramble hash xored with the password hash, and a server holding only the double hash accepts it |
| Login.LoginAccepted | src/pack.cc:435-480 | for every password and scramble, SHA1(reply xor SHA1(scramble, h)) is h, the double hash |
| Login.AcceptedReplies | src/pack.cc:435-480 | a server accepts exactly the replies built on preimages of the hash it holds |
| Login.HexString | src/query.cc:168-187 | two hexadecimal digits a byte and a terminator, failing exactly on empty input |
| Login.HexRoundTrip | src/query.cc:168-187 | the bytes can be read back from their digits |
| Login.MysqlPasswordHash | src/query.cc:189-209 | prints the double hash, failing exactly on an empty password |
| Login.PrintedHashSuffices | src/query.cc:189-209 | a server that reads the printed hash back accepts the client's reply |
| Sha1Spec.PaddingIsSmallest | src/sha1.cc:155-169 | the padding is the shortest that ends at 448 modulo 512 bits, section 5.1.1 of FIPS PUB 180-4 |
| Sha1.ChForm | src/sha1.cc:49-50 | the form of Ch in R0 and R1 is the function of section 4.1.1 of FIPS PUB 180-4 |
| Sha1.MajForm | src/sha1.cc:52 | the form of Maj in R3 is the function of section 4.1.1 |
| Sha1.SwapForm | src/sha1.cc:38-39 | the rotate-and-mask byte swap reads a word big-endian |
| Sha1.RolForm | src/sha1.cc:31 | the shifts of rol are the rotations of FIPS PUB 180-4, for each amount that the macros use |
| Sha1.ExpandForm | src/sha1.cc:43-44 | the next word of the schedule in bit operations on four earlier ones: their exclusive or, shifted and put together again |
| Sha1.BlkWordIs | src/sha1.cc:43-44 | the expression of blk on four words of the block is the next word of the schedule |
| Sha1.WordByteForm | src/sha1.cc:177-181 | the bytes that SHA1Final shifts out are those of the word, most significant first |
| Sha1.Advance | src/sha1.cc:49-53 | one macro with its arguments rotated is one round of section 6.1.2 |
| Sha1.CircularStep | src/sha1.cc:43-44 | writing word t over word t - 16 keeps the last sixteen words of the 80-word schedule |
| Sha1.Rounds0To19 | src/sha1.cc:79-83 | rounds 0 to 19 as section 6.1.2 has them |
| Sha1.Rounds20To39 | src/sha1.cc:84-88 | rounds 20 to 39 likewise |
| Sha1.Rounds40To59 | src/sha1.cc:89-93 | rounds 40 to 59 likewise |
| Sha1.Rounds60To79 | src/sha1.cc:94-98 | rounds 60 to 79 likewise |
| Sha1.Sha1Context.Init | src/sha1.cc:115-126 | a fresh context has absorbed nothing |
| Sha1.Sha1Context.Transform | src/sha1.cc:58-109 | for every state and block the state becomes that of section 6.1.2, by the bit operations of the macros |
| Sha1.Sha1Context.Update | src/sha1.cc:132-149 | the context has absorbed the old message followed by the data, for every split of it |
| Sha1.Sha1Context.Pad | src/sha1.cc:155-169 | the padding loop ends, and the context has absorbed exactly the padded message |
| Sha1.Sha1Context.Final | src/sha1.cc:171-184 | the digest is the hash of everything absorbed |
| Sha1.PadStops | src/sha1.cc:166 | the loop condition fails exactly when all zero bytes of section 5.1.1 are in |
| Sha1.BigEndianCount | src/sha1.cc:161-164 | the eight bytes shifted out of the counter are the length field of section 5.1.1 |
| Sha1.HashPieces | src/sha1.cc:115-184 | for every message and every way to cut it into updates the digest is the hash of the whole |
| Consume.StringRoundTrip | src/pack.cc:308-358 | a packed string is unpacked exactly, inside its packet |
| Consume.UnpackString | src/pack.cc:308-358 | a string in front of the rest of its packet is taken exactly, cut to its field, and none of the three failures occurs |
| Consume.ReplyReader.CheckUnpackError | src/pack.cc:482-505 | an error packet of nine bytes or more is taken whole with its code and state; one with fewer is told apart (its packet_size wraps); any other packet is left alone |
| Consume.ErrorPacketEnds | src/pack.cc:482-505 | behind an error packet buffer_ptr stands at its end, inside the buffer, if and only if the packet has nine bytes or more |
| Consume.ReplyStart | src/result.cc:425-477 | the first byte tells the kinds of reply apart |
| Consume.ReplyReader.StateResultRead | src/result.cc:406-497 | OK, prepare-OK, EOF and column-count replies, every error packet of nine bytes or more, and whatever starts like an OK packet and is long enough: exactly the announced bytes are taken, every field of a reply arrives, and of the text behind an OK packet what snprintf leaves |
| Consume.ReadReply | src/state.cc:47-115 | under every schedule of the network a framed reply arrives as sent and nothing behind it is touched |
| Consume.DefIsNoEof | src/column.cc:549 | no column definition is taken for an EOF packet |
| Consume.EofIs | src/column.cc:549-556 | an EOF packet has the warning count before the status, in every place where one is sent |
| Consume.StoredFields | src/column.cc:560-629 | field by field what the column struct holds: each string whole when it fits its own field and cut to it otherwise, the numbers, and the NUM flag exactly for the numeric types |
| Consume.DefinitionStrings | src/column.cc:560-600 | the six strings of a definition, read one behind the other |
| Consume.ColumnReader.StateColumnRead | src/column.cc:531-634 | a definition is stored with its strings cut to their fields, or skipped, or the EOF packet ends the columns; each takes exactly its packet |
| Consume.BinlogReader.StateBinlogRead | src/binlog.cc:286-446 | each event, EOF and error packet is taken exactly; UNEXPECTED_DATA occurs only when the event's length differs from its packet's, so the branch for leftover data is unreachable |
| Consume.EventRoundTrip | src/binlog.cc:336-372 | time stamp, type, server id, length, next position, flags and body of an event come out as they were written, with and without a checksum |
| Connect.Connector.StateConnect | src/conn.cc:1073-1207 | one attempt: connect() at once ends with the connection, POLLOUT and an empty list; in progress hands over to connecting; an unreachable address is passed over; an empty list and a failure that is not the address's are COULD_NOT_CONNECT; a step that goes on lowers the measure |
| Connect.Connector.ConnectFailedTryNext | src/conn.cc:1863-1888 | the address that failed is passed over, the next one becomes addrinfo_next |
| Connect.Connector.StateConnecting | src/conn.cc:1212-1299 | addrinfo_next is never NULL here; a writable socket without an error is the connection, and the list is dropped; no event waits; INTERNAL_ERROR exactly when getsockopt fails on POLLOUT, POLLERR or POLLHUP; any other event passes the address over |
| Connect.Connector.OpenConnection | src/conn.cc:697-736 | for every list of n addresses and every outcome, addresses are tried in order, none twice or skipped, in at most 2n + 1 steps that do not wait; OK if and only if some address connects, at once or with its socket writable and sound when the first event of its waits is reported, and all before it fail of themselves; the connection is to that one and leaves the states beneath intact; otherwise every address failed, or one met a failure not its own or no event |
| Connect.FailInOneWay | src/conn.cc:1125-1290 | given the outcomes, the waits used up by the addresses that fail are determined |
| Connect.NoneConnects | src/conn.cc:1235-1253 | an address that connects is not among those that fail, and the one that is stuck does not connect |
| Protocol.ConsumersHaveData | src/result.cc:418-422 | with the whole packet in the buffer no consumer's test for missing data succeeds, in any of its forms |
| Protocol.StepKeeps | src/state.cc:47-70 | every step of every state function and entry point keeps the stack in one of its shapes, among them a dump begun above its own request |
| Protocol.RunsAreSafe | src/state.cc:47-70 | in every run the stack is at most six deep and a consumer on top has its whole packet; the packet is its own unless the step before was the reader of the greeting reporting the server's error and staying, and exactly then it is not |
| Protocol.WithoutPacketRefuses | src/handshake.cc:105-108 | a reader of the greeting without a packet reports an error again or fails; nothing else happens before the connection is closed |
| Protocol.RefusalIsReached | src/handshake.cc:105-108 | a server that answers the connection with an error leads there |
| Protocol.SixIsReached | src/handshake.cc:209-222 | a connection over SSL goes exactly six deep |
| Protocol.RequestWaits | src/binlog.cc:159-183 | nothing runs the request beneath such a dump before the dump has ended |
| Protocol.EarlyDumpIsReached | src/binlog.cc:159-183 | a dump begun before its request is sent goes six deep as well |
| Protocol.RunOnPool | src/structs.h:349-407 | on the real lists a run never leaves the eight-node pool |
| Steps.ReadStep | src/conn.cc:1301-1521 | with the loop's treatment of the return, the function makes only a change to the stack that the machine of whole runs allows, for every return |
| Steps.PacketReadStep | src/state.cc:72-115 | only allowed changes for every return, and it pops itself only with the whole packet in the buffer |
| Steps.ResultReadStep | src/result.cc:406-497 | only allowed changes, for every well-formed reply, every error packet of nine bytes or more and what passes for an OK packet; what the handshake returns for an error packet, and for an EOF packet when nothing is left to do |
| Steps.ColumnReadStep | src/column.cc:531-634 | only allowed changes, for every well-formed packet of a column list |
| Steps.BinlogReadStep | src/binlog.cc:286-446 | only allowed changes, for every well-formed packet of a binlog stream, whatever length and checksum its events claim, and every return |
| Steps.RowReadStep | src/row.cc:267-312 | only allowed changes, for rows, EOF and error packets |
| Steps.FieldReadStep | src/field.cc:254-376 | only allowed changes, for every piece of a field |
| Steps.NullReadStep | src/field.cc:378-404 | only the allowed change: it pops itself, for a packet that holds header and bitmap |
| Steps.BinaryFieldReadStep | src/field.cc:406-485 | only allowed changes, for a value that does not run past its packet: it pops itself, stays with IO_WAIT at a length that is cut, or the connection is closed |
| Steps.ServerReadStep | src/handshake.cc:86-225 | only allowed changes, for every packet, accepted, refused or an error, and for a call without a packet: it stays when the stale byte is 255, and closes the connection otherwise |
| Steps.ClientWriteStep | src/handshake.cc:526-648 | only the allowed changes: it pops itself, or fails and the connection is closed |
| Steps.CommandWriteStep | src/command.cc:52-173 | only allowed changes, in every branch |
| Steps.WriteStep | src/conn.cc:1523-1654 | only allowed changes: it pops itself, waits, or the connection is closed |
| Steps.ConnectStep | src/conn.cc:1018-1299 | only allowed changes, for every outcome of an attempt |
| ColumnBuffer.ColumnList.Read | src/column.cc:354-377 | the next definition is stored where result->column points, or the EOF packet sets it to NULL, under every schedule; a call that had to wait can be repeated |
| ColumnBuffer.ColumnList.Buffer | src/column.cc:379-420 | from any number k of columns read before: a definition is written behind column_buffer exactly when the server sends more than the entries left from k on; otherwise every definition is stored in its entry, in order, nothing else changes, and column_current is 0; a call that had to wait can be repeated |
| ColumnBuffer.EveryIndexInside | src/column.cc:405-410 | every index written is inside the array if and only if no definition comes or they fit from column_current on |
| ColumnBuffer.OneColumnTooMany | src/column.cc:405-410 | one column announced and two defined: the second is written behind the array |
| Statements.RowEndMeansEnd | src/statement.cc:416-428 | ROW_END always means the end of a complete result if and only if the connection blocks, the network does not fail, no column has a type that field_read refuses, and the server ends the rows with EOF |
| Statements.InterruptedEnds | src/row.cc:290-295 | an interrupted query: the error packet with code 1317 and SQL state 70100 in the place of the first row is answered as an empty result would be |
| Statements.RefusedEnds | src/statement.cc:425-428 | every result with such a column has a row that is answered by ROW_END |
| Statements.GeometryEnds | src/statement.cc:425-428 | a row of one geometry value is answered as if there were no row |
| Statements.Statement.RowBuffer | src/row.cc:84-158 | drizzle_row_buffer on binary rows: the values of the next row; no row behind the last, when the packet has not come, when the network failed, at a value that is refused, and with ERROR_CODE when the server ends the rows with an error |
| Statements.Statement.NextRow | src/statement.cc:416-423 | no row exactly when the wait did not end with the packet, no row is left, or the row has a value that is refused; otherwise the next row, from row_list or from the wire; the error code changes exactly at an error packet |
| Statements.Statement.Fetch | src/statement.cc:395-541 | from the byte stream, or row_list, to the parameters: ROW_END exactly when there is no row for any of these reasons, and then the parameters do not change; otherwise OK, the parameters hold the row, NULL exactly where the bitmap says so, and the rows behind it are still ahead; error code and SQL state change exactly when the server ended the rows with an error, to what it sent |
| Statements.Statement.FetchTooSoon | src/statement.cc:422-428 | without blocking, a call before the row has come returns ROW_END, and the row is still ahead |
| Statements.Statement.FetchAll | docs/examples/statement.rst:53-58 | the documented loop over a whole result: call k yields row k, and the loop ends behind the last row when the rows are buffered, or the connection blocks, the network does not fail and no column type is refused; what tells an error of the server from the end is the error code: it changes exactly then, if the server's code is not the one on record before |
| Statements.Statement.StmtBuffer | src/statement.cc:543-559 | on success row_list holds every row and the cursor stands at the first; an error that ends the rows is returned; a call that had to wait leaves the rest on the wire, and every further call is refused |
| Statements.Statement.BufferThenFetch | src/statement.cc:543-559 | buffered rows are all fetched, and came from a complete result; when buffering had to wait, the rows kept before the wait come out of no fetch |
| Streams.Await | src/state.cc:47-115 | a framed packet reaches its consumer whole under every schedule, unless the network fails |
| Streams.ReceiveEvents | src/binlog.cc:286-446 | from the first packet that drizzle_state_binlog_read sees: the callback gets every event in order, with its own fields and the checksum rule in force at it, up to the end of the dump or the first event whose length or checksum is wrong, under every schedule |
| Streams.ReceiveDump | src/binlog.cc:159-185 | from the request on, on a connection that blocks: the first packet of the dump is taken for the reply to the request and reaches no callback; the callback gets exactly the events behind it, and an error in its place is returned with its code and SQL state |
| Streams.ReceiveNothing | src/binlog.cc:159-185 | a dump that is nothing but its end: the EOF packet is taken for the reply, and the loop waits for another packet until the network fails |
| Streams.AllArrive | src/binlog.cc:286-446 | when every length agrees and no verified checksum is wrong, all events arrive and the dump ends as the server ended it |
| Streams.ReceiveGreeting | src/handshake.cc:86-225 | from the stream on: the client recovers the server's greeting under every schedule |
| Streams.LogIn | src/handshake.cc:86-648 | server and client side together, over a network that cuts both directions at will: the answer that the client computes from the scramble it read arrives at the server and passes the check of one who holds only the password's hash |
| Streams.Transmit | src/conn.cc:1523-1654 | bytes in the buffer are sent once and in order, however often the write has to wait; only a failing network prevents it |
| Escape.EscapeRoundTrip | src/query.cc:60-161 | reading an escaped string from left to right gives back the input, for either pattern flag |
| Escape.EscapedIsEnclosable | src/query.cc:60-161 | no quote stands unescaped, no backslash is left over, and no control byte appears |
| Escape.Wildcards | src/query.cc:119-126 | in a pattern no wildcard stands without a backslash, elsewhere none stands behind one |
| Escape.EscapedByteSize | src/query.cc:92-147 | exactly the quotes, the backslash, the control bytes and, in a pattern, the wildcards are escaped |
| Escape.Letters | src/query.cc:92-110 | the letter behind the backslash, for every byte that is escaped |
| Escape.EscapedSize | src/query.cc:60-161 | the size is the input's plus one for every escaped byte, at most twice the input's |
| Escape.TerminatorFits | src/query.cc:158 | the terminator lies inside the allocation if and only if some byte needs no escape |
| Escape.OnlyQuotes | src/query.cc:158 | a single quote is an input whose terminator does not |
| Escape.EscapeStr | src/query.cc:60-161 | the output, read from left to right, is the input; it can be enclosed in quotes, has no control byte, and its wildcards are escaped exactly in a pattern; its size is returned; -1 exactly for a NULL or empty input, so the size tests in the loop never fail; the terminator is written behind the allocation exactly when every byte is escaped |
| Bytes.LeRoundTrip | include/libdrizzle-redux/constants.h:632-671 | an integer that fits k bytes is read back as it was stored |
| Bytes.LeOfValue | include/libdrizzle-redux/constants.h:632-671 | every k bytes are the stored form of the integer they are read as |
## Left out

- Connection.ReceivePackets: payloads are handed to a consumer that takes its packet whole, as a skipped column does; that the other consumers do so too is stated for each of them in `consume.dfy`, `result_buffer.dfy`, `column_buffer.dfy`, `statement.dfy` and `streams.dfy`.
- Connection.Connection.StateRead: an error of the event-watch callback is not modelled; callbacks are left out throughout.
- Connection.Connection.RecvFault: addrinfo_next is NULL once a connection stands, so the retry of another address in drizzle_state_read ends in COULD_NOT_CONNECT.
- Rows.FieldReader.ReadField: one packet a row; rows spread over several packets and the ROW_BREAK option are not modelled, nor is the bookkeeping of the longest field in column_buffer.
- ResultBuffer.Result.BufferResult: until the result is buffered the cursor moves only with the rows read; row_seek, row_prev and row_next on a result that is not buffered are left out. The model stops where the source would write behind row_list. An error packet in the place of a row has nine bytes or more, here and in `statement.dfy`.
- ResultBuffer.Result.KeepRow: NULL and the empty string both leave a NULL pointer, so the bytes of non-empty fields and all sizes are stated.
- BinaryRows.BinaryReader.StateNullRead: the packet holds header and bitmap; the source reads on in its buffer otherwise.
- BinaryRows.BinaryReader.StateFieldRead: the packet holds the value whose length it gives, or the fixed size of its type; the source reads on in its buffer otherwise.
- BinaryRows.BinaryReader.ReadValues: values are gathered as byte strings; the column buffers they pass through are those of `result_buffer.dfy`.
- StatementFetch.StmtFetch: the bytes of TIME, DATE, DATETIME and TIMESTAMP values are handed on as they are; drizzle_unpack_time and drizzle_unpack_datetime, and the decimals they are given, are not modelled.
- Command.SendPieces: the last piece is not empty; what happens to a caller who repeats a piece is stated by Command.RepeatedPiece.
- Command.Writer.StateCommandWrite: commands below 2^24 - 1 bytes other than CHANGE_USER.
- Execute.BuildPayload: no long data and no TIME or DATETIME parameters, which are bound with length 0 and sized while they are packed.
- Handshake.Session.StateClientRead: a packet whose fields run past the received bytes makes the source read on in its buffer; the model says nothing about such a packet.
- Handshake.Session.StateServerRead: for an error packet of fewer than nine bytes the model leaves buffer_ptr and buffer_size where they are; Consume.ErrorPacketEnds says where the source moves them.
- Consume.ReplyReader.StateResultRead: the source moves buffer_ptr past the first byte of an OK packet before it adjusts buffer_size; the model moves both at once. Other malformed replies, and the reply that asks for a local file (first byte 251), are not modelled.
- Steps.ResultReadStep: malformed replies; the same holds for the packets of Steps.ColumnReadStep and Steps.BinlogReadStep.
- ColumnBuffer.ColumnList.Buffer: the model stops where the source would write behind column_buffer; column_skip is not mixed in.
- Statements.Statement.StmtBuffer: the growth of row_list is that of ResultBuffer.Result.BufferResult, from an empty list and no row read, and is not repeated; rows read by the row functions before are left out.
- Streams.ReceiveDump: the first event has 23 bytes or more; a shorter one makes the reader of the reply go past it. What comes behind a dump that is nothing but its end is not modelled (Streams.ReceiveNothing).
- Streams.ReceiveGreeting: nothing follows the greeting; a server does not send before it is answered.
- Consume.BinlogReader.StateBinlogRead: crc32 and the test of the server version are parameters, and events have the 19 bytes of their header.
- Connect.Connector.OpenConnection: TCP only; local sockets are not modelled.
- Protocol.StepKeeps: the changes each function may make to the stack are stated as a relation. `steps.dfy` shows that the functions modelled elsewhere, and the loop with their returns, make no others; for address lookup, the SSL states and the result of the handshake the relation is read off the code. drizzle_binlog_start without blocking pushes its states through a result it has just freed (src/binlog.cc:159-181); the push is taken to happen.
- drizzle_get_byteN and drizzle_set_byteN are written as sums and quotients instead of shifts and masks.
- OpenSSL: its states take part in the stack bound only.
- Sockets, getaddrinfo, poll, setsockopt and Windows code, beyond their outcomes.
- Logging, error texts, and the getters of options, columns and results.
- Allocation failures and NULL-argument guards.
- Raw packet mode, and a command issued while an earlier reply is unread.
- drizzle_close on a descriptor that is already invalid.
