# A model of postrest

postrest is a REST adapter between the G-WAN web server and PostgreSQL, written in C. This project models the
parts of it that carry algorithms, and proves what they are for:

- **The cipher** (`libraries/postrest/sda.c`): 8-to-7 bit packing, a keystream from three shift registers, an XOR
  cipher, base64 broken into lines, and an MD5 key schedule with its steps written out by hand. Modules `Buffers`,
  `BitPacking`, `Base64Form`, `FormLayout`, `Streams`, `FormReading`, `Keystream`, `Feedback`, `Md5`, `Md5Example`,
  `Sda`; the main results are the round trip from `encrypt` to `decrypt`, when exactly it holds, and that the key
  schedule is MD5 as RFC 1321 defines it.
- **The graph traversal** (`traverse` in `csp/graph.c`): the recursive SQL query it builds, what that query means
  over the two tables of a graph, and its evaluation round by round. Module `GraphTraversal` (with `Counting`); the
  main results are soundness, completeness and termination on every graph, and exactly when it finds everything
  that is reachable and when the least depth is the distance.
- **Replies and sessions** (`libraries/postrest/db.c`, `csp/session.c`): the state machine that writes JSON while
  results arrive (`ResponseStream`), the bounded wait that sends a query (`DbSend`), the session table with its
  32-bit deadlines and its sweep (`Sessions`), and endpoint dispatch (`Dispatch`).
- **The parsers that work in place** (`libraries/postrest/utils.c`, `csp/hawk.c`): percent decoding (`UrlDecode`),
  header splitting (`Headers`), the Hawk header (`Hawk`), and the small string helpers (`Strings`).

Code that changes arrays, buffers or tables step by step is modelled by methods and classes that do the same, each
tied by its contract to a function of its input or of the old state; what the code promises is then proved of those
functions. `dafny verify dfyconfig.toml` checks everything.

## What is taken as meant

`sda.c` is a port, not finished, from a language whose arrays grow and are filled with zeros. The model is of what it
computes with these repairs:

- `str2binl`, `xorArray` and `crypt` never advance `used` (`sda.c:251-264`, `133-143`, `342-354`). The length of an
  array is the number of words written.
- Words that were never written read as zero (`sda.c:43`, `150-151`, `311-312`, `335`); MD5 padding makes the array
  long enough, and the block loop covers all of it. Padding is written into the array itself, so the third digest of
  the key set-up (`sda.c:469`) is taken of the passphrase's array with its padding still in it.
- The right shifts of `int` at `sda.c:114`, `287` and `477`, and those of `safe_add`, are logical shifts of 32-bit
  words. `Md5.SignedRotationIff`, `Keystream.SignedShiftIff` and `Sda.SignedIndexIff` say for which words an `int` would do
  the same at these lines; at line 477 an `int` with a sign gives another index, mostly one before the table.
- A buffer's contents are its first `len` bytes; its terminator goes one place too far (`sda.c:72`). A buffer that
  would be created with size 0 (`sda.c:411`) gets size 1.
- `pn` need not return (`sda.c:294`): it hangs for some registers and taps that meet every guarantee of the key
  set-up (`Keystream.HangingKeyExists`). Encryption and decryption of a text that is not empty are therefore
  specified for keys whose generator emits its first word; by `Keystream.ReturnsAlways` it then emits all others. `Feedback.EvenTapReturns` is a
  condition on the key alone under which it does.

Elsewhere:

- `db_free` reads the server pointer as the session table (`db.c:256`); the model uses `server->sessions`. Deleting
  with a key length of 0 (`db.c:332`) deletes the entry of that key. Adding under a key that is in use replaces the
  entry.
- The two identifiers of a traversal are taken as already checked and optional. The value of `name` may be NULL, and
  SQL's third truth value is modelled. The identifier of a node is its primary key (`csp/graph.c:362-390`).
- libpq, libevent and the clock are parameters: an arbitrary trace of results, an arbitrary outcome of every wait, an
  arbitrary time at every step. The loop that waits while a result is busy (`db.c:148-157`) is one wait that succeeds
  or fails. A reply buffer is a list of tokens whose last one can be overwritten.
- In `get_headers` a slot of the caller's table is a value, and a copy of negative length ends the parse.

## Model

| member | source | states |
|---|---|---|
| Buffers.WordArray.Insert | libraries/postrest/sda.c:55-61 | appending a word keeps all others, also when the array has to grow |
| Buffers.ByteBuffer.Push | libraries/postrest/sda.c:63-73 | appending keeps what was there, and every write, the misplaced terminator included, stays inside the buffer |
| BitPacking.Compress8to7 | libraries/postrest/sda.c:300-320 | packs into 7 words per 8 characters and min(7, r+1) for a tail of r, each word the specified bits of its two characters |
| BitPacking.Expand7to8 | libraries/postrest/sda.c:322-340 | appends the eight characters of every group of seven words, missing words being zero |
| BitPacking.RoundTripIff | libraries/postrest/sda.c:300-340 | for every string: unpacking what was packed gives the string with zeros up to a multiple of 8 if and only if it is 7-bit |
| BitPacking.Repacked | libraries/postrest/sda.c:300-340 | the other way round: packing what was unpacked gives the low bytes of the words, up to a full group |
| BitPacking.SameExpansion | libraries/postrest/sda.c:322-340 | two lists of words unpack alike if and only if their low bytes agree up to missing zero words |
| BitPacking.HighBitsAreIgnored | libraries/postrest/sda.c:328-338 | bits above the low byte, such as keystream bits left over, never reach the output |
| BitPacking.WidenSigned | libraries/postrest/sda.c:305-313 | a character widens like a signed byte: itself below, its top bit repeated above |
| BitPacking.PackingKeepsGroupValue | libraries/postrest/sda.c:309-317 | seven words read in base 256 are the same number as the eight 7-bit characters in base 128 |
| Base64Form.Decode | libraries/postrest/sda.c:370-378 | finds the first place of a character in the table, 64 if there is none |
| Base64Form.ArrayToForm | libraries/postrest/sda.c:404-442 | appends the text of the words, line by line, to what the buffer held |
| Base64Form.B64ToArray | libraries/postrest/sda.c:380-402 | reads a text four characters at a time into the specified words |
| Base64Form.StrippedForm | libraries/postrest/sda.c:429-439 | without its newlines the text is the plain text of the words: line breaks come and go without touching any character |
| Base64Form.FormExample | libraries/postrest/sda.c:404-442 | the text of the six words of "foobar" is the one of the test vectors of RFC 4648 |
| Base64Form.LengthsAgree | libraries/postrest/sda.c:397-427 | stripped of newlines, as many words are read as were written if and only if none is dropped, or one is before a one-word last group |
| Streams.SameIff | libraries/postrest/sda.c:387-399 | two streams of digits made by one writer, with digits lost from one and zeros put into it, are the same if and only if they end in step and only zeros pass out of step |
| FormReading.ReadsBackIff | libraries/postrest/sda.c:380-442 | for any words, with the newlines in the text or without: it reads back as their low bytes if and only if the digits read, of which dropped ones are missing and newlines are zeros too many, are in step with those meant again at the end (a digit missing from a one-word last group is no harm) and only zeros pass, or are dropped, out of step |
| FormReading.TextRoundTripIff | libraries/postrest/sda.c:380-442 | for any words: the stripped text reads back if and only if no word is dropped, or a single one is, before a one-word last group and with only zero bytes behind it |
| FormReading.WholeTextIff | libraries/postrest/sda.c:380-442 | with no word dropped, the text as it is, newlines and all, reads back if and only if it has at most 48 words |
| FormReading.AsManyWordsIff | libraries/postrest/sda.c:380-442 | with newlines or without: as many words are read as were written if and only if as many digits are dropped as newlines are read, or one more before a one-word last group |
| FormReading.DropsMatchBreaks | libraries/postrest/sda.c:387-439 | a text that reads back as it is has as many digits dropped as newlines, or one more before a one-word last group |
| FormReading.StandInsReadBack | libraries/postrest/sda.c:387-439 | a text of several lines does read back if exactly the last word of every full line is dropped: the newlines stand in for them |
| FormLayout.LayoutIff | libraries/postrest/sda.c:429-439 | newlines stand exactly behind every 64 characters if and only if no word is dropped in the lines before the last |
| FormLayout.EndsInDigit | libraries/postrest/sda.c:429-439 | no text ends in a newline |
| FormLayout.NewlineIff | libraries/postrest/sda.c:429-439 | there is a newline if and only if there are more than 48 words, dropped ones included |
| Keystream.ClockReversible | libraries/postrest/sda.c:270-293 | a clock can be undone, so no two states clock to the same one |
| Keystream.Register33IsOne | libraries/postrest/sda.c:271-284 | the word and the bit parked in the other word are one 33-bit shift register with feedback |
| Keystream.Register64IsOne | libraries/postrest/sda.c:286-293 | the two words that move in opposite directions are one 64-bit shift register with feedback |
| Keystream.RegistersHold | libraries/postrest/sda.c:271-293 | both single registers hold all bits of the two words they are made of |
| Keystream.RunStaysAlive | libraries/postrest/sda.c:267-297 | at every clock of every run all three registers are nonzero |
| Keystream.WordMixes | libraries/postrest/sda.c:296 | the word emitted and one of the registers s31 and s33 give the other |
| Keystream.RunsNeverMerge | libraries/postrest/sda.c:267-297 | runs from different states never meet |
| Keystream.RunIsCycle | libraries/postrest/sda.c:267-297 | every run returns to the state it started from |
| Keystream.ReturnsAlways | libraries/postrest/sda.c:270-294 | a generator that emits its first word emits every further one; one that does not is stuck from every state of its run |
| Keystream.MirrorBits | libraries/postrest/sda.c:286-288 | the upper word as it stands in that register is the word with its bits in reverse order |
| Keystream.ReturnsByRegister64 | libraries/postrest/sda.c:286-294 | whether the loop ends depends on the 64-bit register, its tap and the stop bits, and on nothing else |
| Keystream.FixedHangs | libraries/postrest/sda.c:286-294 | with the upper half full and a lower half that its clock does not change, and a stop bit set, the loop never ends |
| Feedback.EvenTapReturns | libraries/postrest/sda.c:286-294 | with a single stop bit and a tap of even weight the loop ends, whatever the registers |
| Feedback.OddTapHangs | libraries/postrest/sda.c:286-294 | if the weight is odd, and odd up to the stop bit as well, there is a register for which it does not |
| Feedback.LowestStopBitIff | libraries/postrest/sda.c:286-294 | with bit 0 as the only stop bit, it ends for all registers if and only if the tap has an even weight |
| Keystream.HangingKeyExists | libraries/postrest/sda.c:294 | there are registers and taps that meet every guarantee of the key set-up for which the loop never ends |
| Keystream.SignedShiftIff | libraries/postrest/sda.c:287 | an arithmetic shift would do the same if and only if the upper half has no sign, or the bit moved in has |
| Keystream.SignedShiftMerges | libraries/postrest/sda.c:287 | there an arithmetic shift would take two different registers to the same one |
| Md5.SafeAddIsAddition | libraries/postrest/sda.c:107-111 | the addition in two halves is addition modulo 2^32 |
| Md5.RotationByHand | libraries/postrest/sda.c:113-115 | the two shifts are a rotation, for every shift count that occurs |
| Md5.CompressBlock | libraries/postrest/sda.c:159-237 | the 64 unrolled calls and the final additions are the compression of RFC 1321 with its index, shift and sine tables |
| Md5.FoldedByBlocks | libraries/postrest/sda.c:159-237 | the block loop takes the sixteen words x[i+0] to x[i+15] in this order, and goes on behind them from the state they give |
| Md5.InitialBytes | libraries/postrest/sda.c:154-157 | the state at the start is the sixteen bytes of section 3.3 of RFC 1321 |
| Md5Example.AlphabetDigest | libraries/postrest/sda.c:147-264 | the digest of "abcdefghijklmnopqrstuvwxyz" is c3fcd3d76192e4007dfb496cca67e13b, as the test suite of RFC 1321 says, worked out over all 64 steps |
| Md5.PaddingBounds | libraries/postrest/sda.c:150-151 | for every bit length the length word falls into the last of the least number of blocks, and the marker below it |
| Md5.PaddingKeeps | libraries/postrest/sda.c:150-151 | padding takes no word away and changes none but those of the marker and the length |
| Md5.FillIsLeast | libraries/postrest/sda.c:150-151 | the zeros of the standard padding are the least number that leaves eight bytes of a block for the length |
| Md5.CoreMd5 | libraries/postrest/sda.c:147-249 | pads the array in place and returns the digest of all its blocks |
| Md5.Str2Binl | libraries/postrest/sda.c:251-264 | packs a string into little-endian words |
| Md5.DigestIsStandard | libraries/postrest/sda.c:147-264 | the digest of a string's words is the MD5 digest of the string |
| Md5.SignedRotationIff | libraries/postrest/sda.c:113-115 | in every step an arithmetic shift would rotate by s correctly if and only if the word has no sign or its low 32 - s bits are all set |
| Md5.SignIsTop | libraries/postrest/sda.c:113-115 | the sign of these results is the top bit of the word |
| Md5.SignedRotationFails | libraries/postrest/sda.c:113-115 | in every step there is a word that it would not rotate |
| Sda.KeySchedule | libraries/postrest/sda.c:450-471 | the register words are the digest of the passphrase; the tap words mix the digest of that digest with one of the padded array cut at half its length |
| Sda.PassDigestIsMd5 | libraries/postrest/sda.c:449-450 | the register words are the MD5 digest of the passphrase, up to 2^29 bytes |
| Sda.TapWordsMix | libraries/postrest/sda.c:466-469 | each tap word mixed with its word of the digest of the digest is its word of the digest of the padded array |
| Sda.RegistersOfDigest | libraries/postrest/sda.c:454-464 | which digest word each register takes, and that only a word of which it would be zero is increased |
| Sda.TapsOfDigest | libraries/postrest/sda.c:477-481 | which tap word chooses from the table, which are made odd, and which gives the stop bits |
| Sda.StopBitIff | libraries/postrest/sda.c:480-481 | a stop bit is set if and only if the low five bits of the first or of the second byte of its word point to it |
| Sda.SignedIndexIff | libraries/postrest/sda.c:477 | an `int` shift and remainder would choose the same tap if and only if the word has no sign; the index would lie before the table if and only if it has one and half of it does not leave 2 modulo 31 |
| Sda.Sda.Init | libraries/postrest/sda.c:444-482 | registers and taps are those the digests determine, woken if zero and forced odd |
| Sda.KeyIsGood | libraries/postrest/sda.c:444-482 | whatever the passphrase, no register is zero at any clock of any run |
| Sda.Sda.Pn | libraries/postrest/sda.c:267-297 | clocks to the first state with clear stop bits and returns its word |
| Sda.Sda.Crypt | libraries/postrest/sda.c:342-354 | mixes each word with the next keystream word, in order, and leaves the generator after the last |
| Sda.Encrypt | libraries/postrest/sda.c:501-514 | the buffer holds the text of the packed message mixed with the keystream of the passphrase |
| Sda.Decrypt | libraries/postrest/sda.c:516-530 | the buffer holds what unpacking the unmixed words of the text gives |
| Sda.RoundTripOfCipher | libraries/postrest/sda.c:501-530 | for every message and every key: decrypting the stripped text of a 7-bit message gives the message with zeros up to a multiple of 8, if no cipher word is dropped |
| Sda.ShortRoundTrip | libraries/postrest/sda.c:501-530 | up to 53 characters nothing need be stripped |
| Sda.DecryptsIff | libraries/postrest/sda.c:516-530 | for every text, message and key: decryption makes the message of the text if and only if it is 7-bit and the words in the text are as many groups as were packed, right as far as both go, with only zeros packed behind them, and the bare keystream where there are more |
| Sda.StrippedDecryptsIff | libraries/postrest/sda.c:501-530 | for every message and key: decrypting the stripped text succeeds if and only if the message is 7-bit and the words read are the first of those written, in as many groups of seven, with only zeros packed behind them; where no word is dropped, or one before a one-word last group, if and only if none is, or one without harm |
| Sda.WholeDecryptsIff | libraries/postrest/sda.c:501-530 | of the text as `encrypt` gives it, where as many digits are dropped as there are newlines, or one more before a one-word last group: decryption succeeds if and only if the message is 7-bit and only zeros pass, or are dropped, out of step |
| GraphTraversal.BuildTraverse | csp/graph.c:240-282 | the query built reads as the plan asked for: start or root, the label in both selects, the cycle test, and one node or all by depth |
| GraphTraversal.RoundIsWalks | csp/graph.c:258-270 | round k holds the rows of the walks of k+1 nodes whose nodes but the last have different names, and no others |
| GraphTraversal.Evaluate | csp/graph.c:240-270 | on every graph, cyclic or not, evaluation ends; the rows are exactly those of these walks, each at most one deeper than there are names |
| GraphTraversal.RowIff | csp/graph.c:240-270 | the rows are exactly the tuples whose identifiers trace edges of the table, with the label asked for, over nodes of these names, every name but the last known and new, and whose depth, path and cycle flag say so |
| GraphTraversal.LabelIsSubgraph | csp/graph.c:254-268 | asking for a label is asking without one over the edges of that label |
| GraphTraversal.RowsOfLabel | csp/graph.c:254-268 | so the rows are the same |
| GraphTraversal.NoCycleIffNamesApart | csp/graph.c:260 | rows not marked as cycles are exactly those of walks with all names known and different |
| GraphTraversal.WithoutLoops | csp/graph.c:258-270 | every walk has a walk to the same node, no longer, that visits no node twice |
| GraphTraversal.FoundIffReachable | csp/graph.c:240-282 | where names tell nodes apart, a node is found if and only if a walk of matching edges leads to it |
| GraphTraversal.LeastDepthIsDistance | csp/graph.c:282 | there a node found has a row as shallow as its shortest walk |
| GraphTraversal.LeastDepthIff | csp/graph.c:258-282 | for any nodes: the least depth of a node's rows is its distance under all edges and questions if and only if their names are unique and not NULL, or there are at most four nodes, or at most two known names |
| GraphTraversal.AlwaysFindsIff | csp/graph.c:240-282 | for any nodes: everything reachable is found under all edges and all questions if and only if their names are unique and not NULL, or there are at most two nodes |
| GraphTraversal.SameNameHides | csp/graph.c:260 | three nodes, two of the same name, of which the last is reachable and not found |
| ResponseStream.DbResponse | libraries/postrest/db.c:123-253 | for every trace of results the reply and the status are those of the state machine |
| ResponseStream.MemberNames | libraries/postrest/db.c:194-229 | the member of a json column is named by what follows the one character behind the first "json" of its name, or "json" if nothing does, and any other by its column |
| ResponseStream.ValuesTold | libraries/postrest/db.c:206-223 | text columns give text and binary ones base64 or null; two values look alike if and only if they are equal, or NULL and the empty text of a text column |
| ResponseStream.BlankedIs | libraries/postrest/db.c:238-240 | the character overwritten with a blank is the comma, or a blank already, or damages the token |
| ResponseStream.RowParses | libraries/postrest/db.c:194-233 | a row of one column, or with a first column not named json, and no NULL json value reads as one value with its members in column order, whatever follows |
| ResponseStream.RowParsesIff | libraries/postrest/db.c:194-233 | no other row reads as one value |
| ResponseStream.StreamReply | libraries/postrest/db.c:183-241 | rows that come one at a time give the rows between commas, and the comma behind the last one blanked |
| ResponseStream.StreamingRefinesBatch | libraries/postrest/db.c:140-246 | for every list of rows with columns: each way of sending it gives a reply that can be read if and only if all rows are good ones, and then both read as the same rows in the same order, with their count |
| ResponseStream.BlankedIsComma | libraries/postrest/db.c:234-240 | a stream of rows ends well if and only if they have columns; else the byte before the buffer is written |
| ResponseStream.OutcomeIs | libraries/postrest/db.c:123-253 | for every trace: an error of the server at the first wait that fails, an overrun at the first stream that ends over an empty buffer, whichever is first; else the error object alone if the last result is fatal, and 200 otherwise |
| ResponseStream.FatalIs | libraries/postrest/db.c:159-163 | a result is fatal if and only if its status is none of 1, 2 and 9, the numbers of libpq for a command done, rows, and a single row |
| ResponseStream.ErrorIffLastFatal | libraries/postrest/db.c:163-175 | the reply is the error object alone if and only if the last result is a fatal one and the response does not end before, however many rows were written |
| ResponseStream.ErrorIsLast | libraries/postrest/db.c:133-160 | after a wait that fails, what was written stays and the error object stands behind it |
| ResponseStream.ItemsAreCounted | libraries/postrest/db.c:236-246 | a reply that is no error closes with the number of all tuples modulo 2^32 |
| ResponseStream.ReplyIsCounted | libraries/postrest/db.c:124-246 | counted from zero for every response: without results it says that there are none |
| DbSend.Send | libraries/postrest/db.c:77-121 | at most four waits over both loops; 0 if and only if the query was taken and flushed with a wait to spare; 429 if and only if the four waits are used up, even where the last one finished the flush |
| Sessions.ExpiryWithinRange | libraries/postrest/db.c:326-329 | up to 2^31 ms past its deadline a session is deleted if and only if its time is over |
| Sessions.FiveMinutes | libraries/postrest/db.c:326-329 | after 300 seconds a session still counts, after one millisecond more it does not |
| Sessions.ExpiryIff | libraries/postrest/db.c:326-329 | at any later time the verdict is right if and only if the time past the deadline falls into a first half of 2^32 |
| Sessions.WrappedSessionLives | libraries/postrest/db.c:326-329 | a concrete session, left alone for some 25 days, that counts as fresh again |
| Sessions.RunIsSound | libraries/postrest/db.c:255-396 | in every run from an empty table each entry has the deadline of its time stamp and an open connection of its own, and no connection is closed twice |
| Sessions.SoundMeans | libraries/postrest/db.c:255-396 | what that says of any two entries and any two closed connections |
| Sessions.TimestampIsLastTouch | libraries/postrest/db.c:380-384 | in every run a time stamp is the time of the last login or refresh under its key |
| Sessions.HistoryGrows | libraries/postrest/db.c:255-266 | in every run the list of closed connections grows at its end and nothing in it changes |
| Sessions.SweepKeepsExactlyTheLive | libraries/postrest/db.c:323-345 | in every run: a sweep keeps an entry exactly when its last login or refresh is not longer ago than the timeout, if and only if the sweep comes within the timeout or in a first half of 2^32 ms past the deadline |
| Sessions.ConnectionsAreAccounted | libraries/postrest/db.c:255-266 | in every run each connection ever made is open or was closed |
| Sessions.NoConnectionIsLostIff | libraries/postrest/db.c:255-396 | in every run the open connections are exactly those of the entries if and only if no login took a key in use or came from an address that is not accepted |
| Sessions.Server.Login | csp/session.c:138-212 | files a new session under its key with a fresh deadline, or closes the connection, or leaves it open and filed nowhere if the address is not accepted |
| Sessions.Server.Refresh | libraries/postrest/db.c:378-395 | moves the deadline of the session found, and nothing else |
| Sessions.TimerSweep | libraries/postrest/db.c:342-345 | entry by entry, in any order, the sweep removes exactly the expired entries and closes each connection once |
| Dispatch.ExecEndpoint | libraries/postrest/utils.c:376-414 | agrees with the first match in any table; no protected handler without a session; 405 if and only if no row has the method, 404 if and only if one has and none matches; a response is read if and only if the handler returned 0 |
| Dispatch.WhatMatches | libraries/postrest/utils.c:390-392 | a row without a command matches every request of its method, one with a command that command alone, an empty one nothing |
| Dispatch.Serve | csp/session.c:29-240 | a request to the session servlet refreshes, logs in or logs out as steps of the session table, keeps the table sound, and answers by method, session, refusal and connection |
| Dispatch.LogoutEnds | csp/session.c:214-221 | a delete with a session takes its entry alone out of the table and closes its connection |
| Dispatch.LoginFiles | csp/session.c:138-212 | only a login that is accepted and not refused files an entry, under its key, with its time and connection |
| Dispatch.StatusTells | csp/session.c:29-240 | which of 200, 230, 400, 401, 405 and 500 a request gets, by method, session and the way its login ends |
| UrlDecode.UrlDecode | libraries/postrest/utils.c:233-259 | also in place: the result and its terminator are written and nothing else, nothing behind the terminator is read |
| UrlDecode.WhatIsWritable | libraries/postrest/utils.c:233-259 | the encodings RoundTripIff is about: every byte escaped, every byte but zero as itself |
| UrlDecode.RoundTripIff | libraries/postrest/utils.c:233-259 | for every encoding, each character as itself or escaped in either case: decoding restores the text if and only if no plain percent sign is followed by two hex digits |
| UrlDecode.DecodeExample | libraries/postrest/utils.c:233-259 | three escapes in both cases of their digits, and a percent sign that is none |
| Headers.GetHeaders | libraries/postrest/utils.c:274-321 | the slots hold the headers found, in order, and the other slots are untouched |
| Headers.SlotsFilled | libraries/postrest/utils.c:296-313 | what that says of every slot |
| Headers.CutSizes | libraries/postrest/utils.c:298-312 | names are lower-cased and cut to 63 characters, values cut to 255 |
| Headers.LowerCase | libraries/postrest/utils.c:265-271 | a capital letter becomes the small one of its place in the alphabet, every other character stays |
| Headers.BlanksSkipped | libraries/postrest/utils.c:305-306 | blanks and tabs before a value are skipped, and nothing else |
| Headers.LinesAreRead | libraries/postrest/utils.c:274-321 | every list of lines, with a colon of their own or without, gives the headers expected of them, or a copy of negative length |
| Headers.EveryText | libraries/postrest/utils.c:284-318 | every request is such a list of lines with a tail |
| Headers.RoundTrip | libraries/postrest/utils.c:274-321 | lines with a colon of their own give the first `maxh` headers in order, names lower-cased and cut to 63, values without leading blanks and cut to 255 |
| Headers.NegativeIff | libraries/postrest/utils.c:291-304 | the parse ends in a copy of negative length if and only if a line without a colon of its own comes before the slots are full, and a colon with something behind it in a later line |
| Headers.RequestLineFails | libraries/postrest/utils.c:291-304 | so it does for every request that starts with a line without a colon, as request lines are, followed by a header |
| Headers.RequestLineWitness | libraries/postrest/utils.c:291-304 | a concrete request that does |
| Hawk.HawkParseToken | csp/hawk.c:83-119 | cuts one token out of the buffer and moves the cursor as specified |
| Hawk.ShortSearch | csp/hawk.c:84-94 | nothing is cut for a search string of less than two characters or without a cursor; a longer one at the cursor is found |
| Hawk.HawkParseArtifacts | csp/hawk.c:122-141 | cuts all five tokens out, or leaves everything as it was |
| Hawk.ParseTokenFrame | csp/hawk.c:83-119 | whatever the text: the cursor only moves right, nothing left of the old one or right of the new one changes, and tokens lie inside the buffer |
| Hawk.LaterCallKeepsToken | csp/hawk.c:83-119 | a token that ends before the cursor is not touched by a later call |
| Hawk.TokenEndsIff | csp/hawk.c:100-118 | a token ends before the new cursor if and only if its opening quote has no comma right behind it |
| Hawk.KeyIff | csp/hawk.c:131-135 | the search strings the next results are about: two characters or more, without quotes, blanks, tabs and zeros |
| Hawk.HeaderIff | csp/hawk.c:122-141 | a whole header with any of id, ts, nonce, ext and mac, quoted or bare: those that are there are filled in with the values written, and no other, if and only if the key of none that is missing occurs behind its place; otherwise a missing one is filled in |
| Hawk.HeaderRoundTrip | csp/hawk.c:122-141 | with all five there all five are filled in |
| Hawk.NonceGivesTimestamp | csp/hawk.c:83-141 | a concrete header without ts whose nonce gives it one |
| Hawk.SparseRoundTripIff | csp/hawk.c:83-141 | from any place in the buffer and for any keys: attributes written there are parsed to their values and the missing ones give no token if and only if no missing key occurs in what follows; if one does, a missing one gets a token |
| Strings.StringToLowercase | libraries/postrest/utils.c:265-271 | lower-cases the first characters of a buffer, all of the string if the length is 0 |
| Basics.OneString | libraries/postrest/utils.c:59-61 | every buffer with a zero character in it holds exactly one C string |
| Strings.Unquote | libraries/postrest/utils.c:59-68 | leaves neither double quotes nor control characters, keeps the length and every other character |
| Strings.CleanChars | libraries/postrest/utils.c:63-64 | which characters stay, and what becomes of the others |
| Strings.JoinSplitsIff | libraries/postrest/utils.c:70-87 | a joined list can be split at its commas into the same parts if and only if none of them has a comma |
| Strings.BracketedSplitsIff | libraries/postrest/utils.c:70-87 | the same between a start and a stop character; a zero one is not written |

## Left out

- Sda.Encrypt: for a key whose generator never emits a word nothing is claimed; the loop of `pn` does not return then.
- Sda.Decrypt: the same.
- Sda.RoundTripOfCipher: stated of any registers and taps whose generator emits words; that those of every passphrase are good is KeyIsGood. Strings are sequences of bytes without a terminator, so a message may contain zero bytes in the model, which a C string cannot.
- Sda.WholeDecryptsIff: a text of which more or fewer words are read than were written is covered by DecryptsIff alone.
- Feedback.EvenTapReturns: stated for keys whose two stop bits coincide; with two different ones, and with taps of odd weight but for stop bit 0, it stays open which registers hang.
- Md5.DigestIsStandard: for messages of 2^29 bytes and more the length does not fit the one word that the code writes, and nothing is claimed.
- GraphTraversal.BuildTraverse: the text of the clauses, quoting and table prefixes are not modelled, only which clauses are put in which order.
- GraphTraversal.Evaluate: the order of the answer's rows and the two JSON columns of the final select are not modelled.
- ResponseStream.DbResponse: the characters of names and values, their escaping, and the `X-items` header; a reply of several result sets is written as the code does, but nothing is claimed of reading it.
- ResponseStream.StreamingRefinesBatch: the codes of the two replies differ, as they do in the code; lists of 2^32 rows and more, whose count does not fit the code's 32 bits, are left to ItemsAreCounted.
- Dispatch.Serve: which parameters are refused (`csp/session.c:31`, `64-118`) and with which status is not modelled; whether one is, and the status, are inputs.
- Sessions.Server.Login: the making of the session key and the fields of a session that only describe its connection.
- Sessions.Server.Refresh: how the key is taken from the request (`db.c:360-376`), with its cut at 127 characters.
- Dispatch.ExecEndpoint: handlers are numbers of table rows with an arbitrary return code.
- Headers.GetHeaders: what lies in memory behind the terminator of the request, slots as arrays of bytes, and what a copy of negative length does; the parse ends there.
- Hawk.HeaderRoundTrip: values with a comma or a quote in them, which the format cannot hold. In a header whose attributes are in another order, those that the cursor has passed are not found; that the cursor only moves right is all that is stated of it.
- Strings.StrJoin: the returned pointer; appending to the buffer is returned as a new sequence.
- Freeing memory and failure to get it (`freeArray`, `freeBuffer`, `freeSDA`).
- `isUUID`, `get_header_value`, the validators of single tokens, and the unused `b64_decode_tab`.
- `csp/collection.c`, `csp/database.c`, `csp/document.c`, `csp/index.c`, `csp/query.c`, and the rest of `csp/graph.c`: SQL put together in a straight line.
- `csp/oauth.c`, whose parser is that of `csp/hawk.c` again, and the servlets that only hand requests on.
- G-WAN, libpq and libevent, the strength of the cipher, and the randomness of session keys.
