# Verified model of the remote control service

A Dafny model of the parts of this C code base that compute something: the streaming MD5 that checks a
downloaded update, the Base64 coder, the framed command channel with its tokeniser and argument scan, and the
single client slot that the accept loop shares with the SIGCHLD handler. `dafny verify dfyconfig.toml` checks
all of it.

The C procedures are methods with loops over arrays and classes, in the shape of the source. Each is proved
against a function that describes its result without reference to how it is computed, and the theorems are
about those functions or about runs of a transition system.

| file | what it holds |
|---|---|
| `Words.dfy` | bytes, 32-bit words and chars as bounded numbers; C's `&`, `\|`, `^`, `~`, shifts, rotations and wrapping sums, with what they mean, bit by bit for the operators |
| `Md5Compress.dfy` | the compression function of section 3.4 of RFC 1321 as 64 uniform operations, what its functions and tables hold, and the inverse |
| `Md5Transform.dfy` | `Encode`, `Decode` and the 64 unrolled lines of `MD5Transform` |
| `Md5Message.dfy` | padding, length field and digest of a whole message (sections 3.1 to 3.5); injectivity; from digest collisions to compression collisions |
| `Md5Context.dfy` | `MD5_CTX` with `our_MD5Init`, `ourMD5Update`, `our_MD5Final` |
| `Md5Text.dfy` | `our_MD5End`, `our_MD5File`, `our_MD5Data` and the hexadecimal text |
| `Base64.dfy`, `Base64Code.dfy` | the encoding of section 4 of RFC 4648 with its lenient decoder; the procedures |
| `CStrings.dfy`, `Framing.dfy` | C strings in buffers; `SendCmd`, `ReadCmd` and frames on a stream |
| `Tokens.dfy` | `strsep` and the tokenising loop of `HandleCmd`, in place |
| `Update.dfy` | the argument scan and the digest comparison of `DoUpdate`; a command's whole way |
| `ClientSlot.dfy`, `ClientServer.dfy` | the interleavings of accept, fork, store, exit and handler; the procedures that make those steps |

## Reading the model

- A `word` is a number below 2^32 and every C operation that can wrap is written with its `%`. Bitwise
  operators work bit by bit on numbers; the lemmas beside them say when `|` is `+` and `&` is `%`.
- A pointer into an array is an array and a position. NULL is `null` or `None`. A C string is the sequence
  before its NUL.
- `ourMD5Update` computes `i + 63` in 32 bits. It is modelled with that wrap; the precondition of `Update` is
  exactly the condition under which the loop ends (`LoopEndsWhenShort`), so a single call is limited and the
  total length is not.
- The counter of bits is kept modulo 2^64, so lengths are seen modulo 2^61 bytes. `PadIsInjective` needs no
  bound; `DigestCollisionReduces` and `PadIsSuffixFree` say what happens below it, and
  `ShorterEndsLonger` what is left above it.
- `SendCmd` stores a length in 16 bits and `ReadCmd` does not compare it with its buffer's size: a command
  survives exactly when its length with the terminator fits both (`FrameRoundTrip`). `CutFrame` says what
  arrives when the 16 bits wrap, `FrameOverruns` when the buffer is overrun, and `ServerLimit` gives the longest
  command for the server's 1024 bytes.
- Where the source would write past an array, `ReadCmd` and `Tokenise` report it and stop; their contracts say
  exactly when that is.
- The slot `_pid` does not always recover: a child reaped between `fork` and the assignment of its pid leaves
  the slot taken for ever (`EarlyReapHappens`, `EarlyReapIsForever`). `SlotRecovery` says that this is the only
  way.
- The decoder's comment says that an invalid character counts as 'A'; so does '=', whose table entry is 0.
- Interrupted calls of `waitpid` and failing calls of `fork` are the kernel's: each has a number in store that
  nothing else uses up.
- The scan compares `"update"` over five characters only, so any token that begins with `updat` becomes the
  command name. The model follows the code.

## Model

| member | source | states |
|---|---|---|
| Words.RotationsCancel | our_md5.c:67 | rotating a word left and then right by the same number of bits, or right and then left, gives it back, for every word and every amount from 1 to 31 |
| Md5Compress.MixingBits | our_md5.c:59-62 | for every bit position: F takes the bit of y or z as x says, G that of x or y as z says, H is the parity of the three, and I is the bit of y changed unless z is set and x is not |
| Md5Compress.ShiftsGrow | our_md5.c:33-48 | the sixteen shift amounts in closed form, four repeated in each round |
| Md5Compress.SinesOfEqualSteps | our_md5.c:139-209 | every three neighbours of the 64 constants, with the signs of the sine, obey the addition theorem for steps of one radian to within the rounding of the entries |
| Md5Compress.FirstSine | our_md5.c:140 | the first constant is on the scale of 2^32: its square and that of its cosine add up to 2^64 to within 2^33 |
| Md5Compress.StepsAreInvertible | our_md5.c:139-209 | for every block and any number of operations, the explicit reverse run undoes them on every buffer and they undo it: they are a bijection on the 128-bit buffer |
| Md5Compress.CompressUndone | our_md5.c:132-214 | for every block and buffer, subtracting the old buffer word by word from the new one and running the operations in reverse gives the old buffer |
| Md5Compress.OneFixedBuffer | our_md5.c:132-214 | with the feed-forward, every block leaves exactly one buffer unchanged, the one the reverse run makes from zero |
| Md5Transform.FF | our_md5.c:73-77 | the round 1 line adds, rotates and adds as section 3.4 of RFC 1321 says, with the function F of `MixingBits`, whatever wraps |
| Md5Transform.GG | our_md5.c:78-82 | the same for round 2 and G |
| Md5Transform.HH | our_md5.c:83-87 | the same for round 3 and H |
| Md5Transform.II | our_md5.c:88-92 | the same for round 4 and I |
| Md5Transform.Round1 | our_md5.c:139-155 | the sixteen lines with hand-rotated roles are operations 0 to 15 of the uniform loop, with word index i and the table's shifts and constants |
| Md5Transform.Round2 | our_md5.c:157-173 | the sixteen lines are operations 16 to 31, with word index (5i + 1) mod 16 |
| Md5Transform.Round3 | our_md5.c:175-191 | the sixteen lines are operations 32 to 47, with word index (3i + 5) mod 16 |
| Md5Transform.Round4 | our_md5.c:193-209 | the sixteen lines are operations 48 to 63, with word index 7i mod 16 |
| Md5Transform.MD5Transform | our_md5.c:132-220 | the state becomes the uniform compression of the old state with the block found at the pointer |
| Md5Transform.Encode | our_md5.c:98-113 | the output's first len bytes are the words' bytes, least significant first, and the rest of it is unchanged |
| Md5Transform.Decode | our_md5.c:119-127 | the output's words are the input's bytes taken four at a time, least significant first, and the rest of it is unchanged |
| Md5Transform.DecodeUndoesEncode | our_md5.c:94-127 | decoding what was encoded gives the words back, so encoding is injective |
| Md5Transform.SelectedByte | our_md5.c:108-111 | the shift and mask expressions select the four bytes of a word |
| Md5Transform.JoinedBytes | our_md5.c:125-126 | the or of the shifted bytes is the word they make up, none overlapping another |
| Md5Message.ChainOfPrefix | our_md5.c:266-273 | the buffer after n blocks depends only on those blocks, so it stays what it is when more bytes follow |
| Md5Message.InitialBytes | our_md5.c:234-237 | the initial buffer is the byte sequence of section 3.3 of RFC 1321: eight bytes counting up from 0x01 by 0x22, and their complements |
| Md5Message.PaddingBits | our_md5.c:50-54 | of the bits of the padding exactly the first is one |
| Md5Message.LengthFieldDetermines | our_md5.c:258-261 | two lengths have the same length field exactly when they agree modulo 2^61 bytes |
| Md5Message.PadIsInjective | our_md5.c:299-310 | messages of any lengths with the same padded form are equal |
| Md5Message.PadIsSuffixFree | our_md5.c:299-310 | a padded message that ends another has its length modulo 2^61; below 2^61 bytes it is the same message and not a proper suffix |
| Md5Message.WalkBack | our_md5.c:270-272 | two chains with a common end either met two different inputs with one output, or agree on their last k blocks and on the buffer before them, for every k |
| Md5Message.DigestCollisionReduces | our_md5.c:293-318 | two different messages below 2^61 bytes with one digest show, among the inputs met while hashing them, a collision of the compression function |
| Md5Message.ShorterEndsLonger | our_md5.c:293-318 | for messages of any lengths, a digest collision without one of the compression function means that the lengths agree modulo 2^61 and that the longer chain returned to the initial buffer |
| Md5Context.CounterAdvances | our_md5.c:257-261 | the two-word counter with its hand-made carry counts the bits of all bytes fed, modulo 2^64, through every wrap |
| Md5Context.IndexIsTailLength | our_md5.c:254-255 | the index recovered from the low word is the number of buffered bytes, also after the counter has wrapped |
| Md5Context.LoopEndsWhenShort | our_md5.c:270 | in 32-bit arithmetic the block loop ends exactly when the buffered and the new bytes together number less than 2^32 |
| Md5Context.LoopTestIsExact | our_md5.c:270 | within that bound the wrap of i + 63 never changes the test |
| Md5Context.Context.Init | our_md5.c:228-237 | the context is valid for the empty message, whatever the buffer held, and the bytes of its state are those of section 3.3 of RFC 1321 |
| Md5Context.Context.Update | our_md5.c:249-281 | a valid context stays valid and its message grows by exactly the input: the state is the chain over the full blocks, the buffer holds the tail, the counter is right |
| Md5Context.Context.TransformFull | our_md5.c:265-276 | every full block is absorbed in order, and the unused input is what completes the tail |
| Md5Context.Context.Final | our_md5.c:293-318 | the digest of the whole message as RFC 1321 defines it is written, whatever was fed and how, and the context is wiped |
| Md5Context.PaddingFromTable | our_md5.c:50-54 | the prefix of PADDING that is used is the padding of section 3.1 |
| Md5Context.PadLength | our_md5.c:305-306 | the chosen length is one byte and the fewest zeros that reach 56 modulo 64 |
| Md5Context.DigestOfPieces | our_md5.c:228-318 | Init, Update on each piece and Final give the digest of the concatenation, for every way of cutting a message for which each call ends |
| Md5Text.HexReadsBack | our_md5hl.c:33-36 | the text of a digest is lower-case hexadecimal and denotes the digest's bytes |
| Md5Text.ReadHexPrintsBack | our_md5hl.c:33-36 | every lower-case hexadecimal text is the text of the bytes it denotes |
| Md5Text.End | our_md5hl.c:21-39 | the buffer, the caller's or a new one, holds the digest's text and its terminator |
| Md5Text.FileDigest | our_md5hl.c:41-58 | for every content and every sequence of read sizes the text is that of the digest of the whole file, which is read to its end; an unopened file gives null |
| Md5Text.DataDigest | our_md5hl.c:60-68 | for data of any 32-bit length the text is that of its digest, hence the same as for a file with that content |
| Base64.CharsAreTheAlphabet | Base64.c:79-80 | the table is the alphabet of section 4 of RFC 4648 |
| Base64.DecodeOfEncode | Base64.c:41-113 | decoding an encoding gives the bytes and then exactly (3 - n mod 3) mod 3 zero bytes |
| Base64.TrimSplits | Base64.c:68-70 | trimming drops zeros only and leaves no last zero: the bytes are the trimmed bytes and then zeros |
| Base64.TrimmedDecodeOfEncode | Base64.c:68-70 | the trimming decoder gives the bytes without their trailing zeros, and exactly the bytes if and only if they do not end in zero |
| Base64.PaddingShowsRemainder | Base64.c:103-113 | the last character is '=' exactly when n mod 3 is not 0, and the last but one exactly when it is 1 |
| Base64.EncodeIsInjective | Base64.c:82-117 | byte strings of any lengths with one encoding are equal |
| Base64.EncodeJoins | Base64.c:93-100 | after a multiple of three bytes the encoding of a concatenation is the concatenation of the encodings |
| Base64.EncodeOfDecode | Base64.c:54-66 | for every text, encoding what it decodes to gives its full groups with 'A' for each '=' and each character outside the alphabet |
| Base64.NormalIsIdempotent | Base64.c:54-66 | that normal form is reached in one step, and a text is its own normal form exactly when it is unpadded and within the alphabet |
| Base64Code.SextetExpressions | Base64.c:96-99 | the shift and mask expressions select the four six-bit parts of the 24-bit group |
| Base64Code.LastSextetExpressions | Base64.c:104-112 | the expressions for an incomplete group are those of the group completed with zeros |
| Base64Code.ByteExpressions | Base64.c:63-65 | the shift and or expressions, cut to a byte, are the three bytes of the four six-bit values |
| Base64Code.ResultBytesFit | Base64.c:86-89 | the 32-bit size computation gives the size of the encoding exactly for lengths up to 0xBFFFFFFD |
| Base64Code.Base64Encode | Base64.c:82-117 | the new buffer holds the encoding of section 4 of RFC 4648 and its terminator; NULL gives NULL |
| Base64Code.Decoder.InitTable | Base64.c:28-39 | every character's entry is its value in the alphabet, 0 for '=' and 0x80 for every other |
| Base64Code.Decoder.Base64Decode | Base64.c:41-77 | the result is the decoding of the full groups, trimmed of trailing zeros when asked, and the table stays as initialised |
| Base64Code.TrimmedLength | Base64.c:68-70 | the trimming loop leaves exactly the bytes before the trailing zeros |
| Framing.SendCmd | RemoteCtrlService.c:65-84 | exactly the command's frame is appended to the stream |
| Framing.ReadCmd | RemoteCtrlService.c:86-111 | for every stream and buffer: result, buffer and remaining stream are those of one frame read, with closed, empty and truncated frames as the code treats them, and a frame longer than the buffer is reported |
| Framing.WholeFrame | RemoteCtrlService.c:65-111 | a frame that holds the whole command is read back as that command, and nothing after it is touched |
| Framing.CutFrame | RemoteCtrlService.c:69-77 | a longer command is cut where its length wraps, and not delivered when the length wraps to zero |
| Framing.ClosedEarly | RemoteCtrlService.c:97-106 | when the peer closes within a frame, the count is that of the bytes that arrived, they stand at the start of the buffer and of its string, the bytes behind them are the old ones and the terminator is where the whole command would have had it |
| Framing.FrameOverruns | RemoteCtrlService.c:97-106 | a frame runs past the reader's buffer if and only if its stored length is above the buffer's size |
| Framing.FrameRoundTrip | RemoteCtrlService.c:65-111 | a command survives the channel if and only if its length with the terminator fits 16 bits and the reader's buffer |
| Framing.ServerLimit | RemoteCtrlService.c:308-318 | with the server's 1024 bytes a command of 1023 characters survives and one of 1024 runs past the buffer |
| Framing.FramesReadBack | RemoteCtrlService.c:316-335 | repeated reading of the concatenated frames of any commands that fit gives exactly those commands, in order |
| Framing.FramesThenMore | RemoteCtrlService.c:316-335 | as many reads as frames give the commands and leave exactly what follows them, whatever it is |
| Framing.FramesFit | RemoteCtrlService.c:316-335 | a stream of frames of commands that fit is read without an overrun |
| Framing.ReadCommands | RemoteCtrlService.c:316-335 | for every stream the client loop reads the commands that frame by frame reading gives, and the whole stream, unless a frame is longer than the buffer, which is reported exactly then |
| Framing.Exchange | RemoteCtrlService.c:65-111 | commands sent one by one with SendCmd are read back by the client loop, the same and in the same order, and the stream is empty afterwards |
| Tokens.SplitCount | RemoteCtrlService.c:125-127 | there is one token more than delimiters, and no token holds a delimiter |
| Tokens.CutAtDelims | RemoteCtrlService.c:127 | no token holds a colon, carriage return, line feed or tab, and nothing but these is taken out |
| Tokens.WeaveOfSplit | RemoteCtrlService.c:125-127 | the tokens with the delimiters between them rebuild the command, empty tokens included |
| Tokens.SplitOfWeave | RemoteCtrlService.c:125-127 | any delimiter-free tokens, joined by any delimiters, come back as they were: splitting and weaving are inverse |
| Tokens.StrSep | RemoteCtrlService.c:127 | the token at the pointer ends at the first colon, carriage return, line feed or tab, which becomes its terminator, and the pointer moves past it, or to NULL at the string's end; nothing else in the buffer changes |
| Tokens.Tokenise | RemoteCtrlService.c:121-127 | the list points, within the cut buffer, at every token in order as a C string, and every later entry is NULL; the tokens hold none of the four delimiters and rebuild the command with the delimiters between them; exactly with more than 254 delimiters the list is too short, and its 256 entries are the first tokens |
| Update.PrefixesDiffer | Update.c:31-61 | no token starts with two of the tested prefixes, so the order of the branches does not matter |
| Update.LastTokenIsLast | Update.c:31-61 | the token that decides has the prefix and no later one has it, and there is none only when no token has it |
| Update.Arguments.Take | Update.c:31-61 | a token sets the one argument whose prefix it has, to what follows the prefix, and no other |
| Update.ScanArguments | Update.c:29-62 | the command name is the last token that begins with "updat", every other argument is the rest of the last token that begins with its prefix, and each is NULL exactly when there is no such token |
| Update.PrintedSplits | RemoteCtrlService.c:121-127 | a printed command splits into its head, one token for each setting, and two empty ones |
| Update.PrintedInFull | Update.c:29 | a command that gives every argument once is printed in the form of the comment, with a line end |
| Update.SettingsRecovered | Update.c:29-62 | for settings in any order, with repetitions, splitting and scanning the printed command gives every field its last value |
| Update.MainRecovered | Update.c:31-34 | for a printed command the command name is the head when that begins with "updat", and otherwise NULL, whatever the settings hold |
| Update.LatestIsLastSet | Update.c:29-62 | a setting that no later one for its field follows is the one that counts |
| Update.AcceptedText | Update.c:124-125 | an md5 argument equals the digest's text exactly when it is hexadecimal text that denotes the digest |
| Update.CheckDigest | Update.c:124-137 | the result is -5 unless the argument is the text of the downloaded file's digest, and then it is left as it was |
| Update.ServeUpdate | Update.c:29-137 | a command printed and framed by the peer is read, cut, scanned and checked: the command name is the head when that begins with "updat", every argument has its last setting, and the result is 0 exactly when the last md5 setting is the digest of the file, however it is read |
| ClientSlot.MutualExclusion | RemoteCtrlService.c:486-506 | in every state of every interleaving at most one client child is unreaped, at the loop head it is the one in the slot, and no exited child waits without a pending signal |
| ClientSlot.SlotRecovery | RemoteCtrlService.c:272-278 | at the loop head the slot is taken exactly when an unreaped child exists, if and only if no child of the run was reaped between fork and the storing of its pid |
| ClientSlot.NextConnectionServed | RemoteCtrlService.c:494-505 | without such a reap, and with its signals handled, the loop serves the next connection exactly when no client is running |
| ClientSlot.EarlyReapIsForever | RemoteCtrlService.c:345-350 | after such a reap no connection is ever served again |
| ClientSlot.EarlyReapStays | RemoteCtrlService.c:345-350 | however a run with such a reap continues, it forks no more |
| ClientSlot.PassesAccept | RemoteCtrlService.c:486-506 | any number of passes of the accept branch accepts that number of connections |
| ClientSlot.EarlyReapHappens | RemoteCtrlService.c:345-350 | for every pid there is a run with such a reap, and it ends with the slot taken and no child |
| ClientSlot.AccountedUntilEarlyReap | RemoteCtrlService.c:245-280 | every state of a run is accounted for until the first early reap and stuck after it |
| ClientServer.Server.ProcessGetStatus | RemoteCtrlService.c:245-280 | it ends for any children and any number of interruptions, and on return either the slot's child has been reaped and the slot freed, or no exited child is left |
| ClientServer.Server.Deliver | RemoteCtrlService.c:282-292 | exactly one handler event is added to the run, the signal is no longer pending, and what is reaped is what process_get_status reaps |
| ClientServer.Server.Fork | RemoteCtrlService.c:297 | a child with an unused pid is added to the running ones, or the call fails with -1 and uses up one of the failures that the kernel has in store; nothing else is recorded |
| ClientServer.Server.CreateClientProcess | RemoteCtrlService.c:294-358 | a positive result is the child of the fork event added first, the store of its pid is added last, there are only signals between, and the slot holds the pid; otherwise the result is -1, which uses up one failure of the kernel, one failed fork is added and the slot is unchanged |
| ClientServer.Server.Serve | RemoteCtrlService.c:494-497 | the free slot is tested and a fork succeeds and is stored, or fails, which uses up one failure of the kernel |
| ClientServer.Server.SendAway | RemoteCtrlService.c:498-505 | the taken slot is tested and the connection refused |
| ClientServer.Server.AcceptClient | RemoteCtrlService.c:486-506 | signals apart, the added events are one accept, one test, which goes by the slot's value at that moment, and a refusal, a failed fork, or a fork and its store; a free slot is served unless the kernel has a failure in store, which is then used up; the result says whether there was a fork; at most one unreaped child is left, the one in the slot |
| ClientServer.Server.LoopSocket | RemoteCtrlService.c:458-506 | signals apart, the added events are as many passes as connections, each accepting one, with as many failed forks as the kernel let fail; none of them forks when the run already had an early reap; the slot is right exactly when the run had none |

## Left out

- Md5Context.Context.Update: one call with 2^32 or more buffered and new bytes together is not modelled, because there the C loop does not end (`LoopEndsWhenShort`).
- Base64Code.Base64Encode: lengths above 0xBFFFFFFD are not modelled, because there the computed size has wrapped (`ResultBytesFit`).
- Base64Code.Decoder.Base64Decode: texts of 2^31 characters or more are not modelled, because `strlen` is stored in an `int`.
- Framing.ReadCmd: what follows a frame longer than the buffer is not modelled; the source has the assertion for it commented out and writes on.
- Tokens.Tokenise: what follows a full list of 256 slots is not modelled; the source writes on.
- Update.ServeUpdate: the md5 field has to be present, because the source passes the NULL of a missing one to `strcmp`; what the download does with name, ip and port is not part of this model.
- Zeroing of the local word array of `MD5Transform`. The constants of the table are not derived from the real sine; `SinesOfEqualSteps` and `FirstSine` relate them to each other and to 2^32.
- Failing or interrupted `recv` and `send`, failing `malloc`, and a negative result of `fread`.
- Loading the shared library and calling the procedure that the first token names, its result and `SendResult`, and the commented-out encryption.
- The download itself, the path it is stored under, the shell commands that install it and the result message.
- The child's side of `fork`, `select`, the broadcast socket and its reply, binding and multicast set-up, threads.
- An interruption inside the signal handler: a handler run is one step.
- The other files (sockets, licence, hardware information, daemon, Lua headers): system calls, formatting and declarations with little logic of their own.
