# Lemoniscate: verified model

Lemoniscate is a Hotline server written in C. This project models the parts of it whose data
properties are hard to see from the code, and proves them with Dafny:

- **ChaCha20-Poly1305** (`Bits`, `Poly1305`, `ChaCha20`, `ChaChaReference`, `Aead`, `AeadReference`). Poly1305 is computed on five
  26-bit limbs with lazy carries, 32- and 64-bit words that wrap, a masked final subtraction and
  OR-based repacking. The tag equals the polynomial of section 2.5 of RFC 8439, taken modulo
  2^130 - 5, over the padded and length-suffixed blocks of section 2.8. Bit operations are
  functions on natural numbers, and each use is proved to be the arithmetic it stands for.
- **HOPE transport** (`Rc4`, `Rc4Reference`, `HopeTransport`, `Transactions`, `WireFormat`, `ReceiveLoop`). RC4 with key rotation
  inside the stream, decrypted in place by a three-phase machine while bytes arrive in pieces of
  any size, then scanned and parsed. Sending a list of transactions and receiving it in any chunks
  gives back the list.
- **AEAD transport** (`HopeAead`, `FrameFormat`, `AeadReceive`). Length-prefixed sealed records with a counter
  nonce: the transaction loop and the stream reader of file transfers.
- **Chat history** (`Text`, `Json`, `Base64`, `HistoryRecord`, `HistoryScan`, `HistoryTombs`,
  `HistoryQuery`, `HistoryStore`, `HistoryRun`, `HistoryAnswers`, `HistoryExact`, `HistoryIds`,
  `HistoryFormat`, `ChatHistory`). The append-only log, its index, crash repair, pruning, cursors,
  tombstones and body encryption: one invariant kept over every run of appends, prunes, closes and
  crashes at any byte, and queries equal to a filter on the lines of the file. A file is its
  sequence of bytes.
- **Token bucket** (`TokenBucket`), **indexing client** (`IncrQueue`, `Mnemosyne`) and
  **UTF-8 sanitizer** (`Utf8`). `Wrappers` holds the option type.

The MAC that derives the next cipher key is a parameter, an arbitrary function; random nonces,
clocks, directory listings, file contents and the answers of the indexing service are parameters
too. The C structures whose fields change in place are classes here (`Poly1305.Authenticator`,
`Rc4.Cipher`, `HopeTransport.Decryptor`, `ReceiveLoop.Connection`, `AeadReceive.Connection`,
`HopeAead.StreamReader`, `ChatHistory.History`, `TokenBucket.Limiter`, `IncrQueue.Ring`,
`Mnemosyne.Client`); their methods are proved against functions on values, and the theorems are
about those functions. Loops over buffers are loops over arrays.

What the functions compute is tied to descriptions that do not use their bodies: rounds and
generator turns as relations between states, layouts byte by byte, exact conditions for bytes that
no encoder wrote, and the test vectors of the standards where they are short (`ChaChaReference`,
`AeadReference`, `Rc4Reference`, `WireFormat`, `FrameFormat`, `HistoryFormat`, `HistoryExact`).

Where the code does not do what its comments, its header or its callers expect, the code is
modelled as it is, and lemmas give an input and state exactly when it does:

- message ids are promised to rise, so that a newer message always has a higher id than an older one
  (docs/Capabilities-Chat-History.md:100). The counter restarts one above the largest id left in the
  files, so an id is given again if the newest messages were pruned or lost before a restart
  (`HistoryIds.PrunedIdReturns`, `HistoryIds.IdGivenAgain`); ids rise over every run whose starts
  find the newest message given (`HistoryIds.IdsRise`, `HistoryIds.RestartAboveIff`);
- a query with AFTER = 2^64 - 1 wraps to 0, and a range with AFTER >= BEFORE can run past the index
  (`HistoryQuery.LargestAfter`, `HistoryQuery.TurnedRange`); which log is answered right is
  `HistoryQuery.QueryIsFilter`, which cursors are right on every log `HistoryQuery.AlwaysRightIffSafe`;
- a limit above 200 becomes 50, while the header says it is clamped: it is exactly up to 200
  (`HistoryQuery.LimitClamped`). Both callers clamp before they call
  (src/mobius/transaction_handlers_clean.c:1070, src/hotline/server.c:1362);
- tombstoning an unknown id returns 0, while the header promises -1: the code is as promised exactly
  for ids that some channel has (`HistoryRun.CodeAsPromisedIff`), and a tombstone for the next id
  hides the next message (`HistoryAnswers.HiddenInAdvance`);
- a tombstone that a crash has cut can be read as the tombstone of another message
  (`HistoryTombs.TornNamesOther`, `HistoryTombs.CutReadsWritten`), and it swallows the next
  tombstone, so that a redacted message shows again after the next start (`HistoryTombs.LostTombstone`,
  `HistoryRun.TombstoneLost`); when a tombstone is kept behind whatever the sidecar holds is
  `HistoryTombs.AppendedTombIff`;
- control characters written as `\u00xx` are not read back (`Json.UnquoteIff`);
- where `max_msgs + max_msgs / 10` does not fit 32 bits, a short channel loses all its messages
  (`HistoryStore.WrappedSum`, `HistoryStore.PruneNewestIff`); and a channel whose new index cannot be
  allocated, as one of no entries on some systems, keeps everything (`HistoryStore.PruneBound`);
- a body that begins with `ENC:` and was stored without a key is decoded once a key is configured,
  and a byte above 127 in it indexes the base64 table out of range where char is signed
  (`HistoryRecord.ExposedBody`, `HistoryRecord.RecordInTableIff`, `HistoryAnswers.KeyAddedLater`);
- the rate limiter does not limit while the clock reads 0 (`TokenBucket.ZeroClock`); a wait that earns
  2^32 tenths of a token adds none (`TokenBucket.LongWait`, `TokenBucket.RefillExactIff`), and a
  capacity whose tenfold exceeds 32 bits can come out below one token (`TokenBucket.CapacityIff`);
- after a saved sync cursor was loaded, queued events are not sent until a suspension or a new
  configuration (`Mnemosyne.BlockedRun`, `Mnemosyne.DrainSendsNothingIff`). Nothing in the repository
  calls mn_save_cursor, so the cursor file must come from elsewhere;
- a transaction with more than 128 fields can be written but not read (`Transactions.RoundTrip`);
- the sanitizer lets overlong forms, surrogates and numbers above U+10FFFF pass, while its comment
  says valid UTF-8 (`Utf8.InvalidPasses`, `Utf8.ValidIffGroupsProper`).

`dafny verify dfyconfig.toml` checks the whole project.

## Model

| member | source | states |
|---|---|---|
| Poly1305.PolyIsSum | src/hotline/chacha20poly1305.c:190-241 | the Horner form of the block loop is the polynomial whose coefficients are the blocks, each with its 2^128 bit |
| Poly1305.InitRIsClampedR | src/hotline/chacha20poly1305.c:160-188 | the masked limbs of r are the number of the key bytes clamped byte by byte, and stay within the bounds the loop needs |
| Poly1305.AddBlockExact | src/hotline/chacha20poly1305.c:204-209 | from the loop-head bounds (h1 < 2^26 + 64, the others < 2^26) adding a block and its high bit wraps nowhere and adds exactly their value |
| Poly1305.ColumnsExact | src/hotline/chacha20poly1305.c:211-221 | every product column fits 64 bits, with room for the carries, and is the exact sum of products |
| Poly1305.ReduceExact | src/hotline/chacha20poly1305.c:223-230 | the lazy carries lose nothing: the new limbs are within the loop-head bounds and differ from the columns' value by a multiple of 2^130 - 5 |
| Poly1305.MulModExact | src/hotline/chacha20poly1305.c:211-230 | one multiplication keeps the bounds and is multiplication by r modulo 2^130 - 5 |
| Poly1305.FinalCarryExact | src/hotline/chacha20poly1305.c:250-259 | after the final carries all limbs are below 2^26 and the residue is unchanged |
| Poly1305.TopCarry | src/hotline/chacha20poly1305.c:253-259 | why no sixth carry is needed: a carry out of h4 leaves h1 small, so the last carry into h1 stays below 2^26 |
| Poly1305.CanonicalExact | src/hotline/chacha20poly1305.c:261-276 | one masked subtraction gives the canonical residue in 0 .. 2^130 - 6 |
| Poly1305.RepackExact | src/hotline/chacha20poly1305.c:278-282 | shifting and OR-ing the limbs into four words is the value modulo 2^128 |
| Poly1305.AddPadExact | src/hotline/chacha20poly1305.c:284-288 | the word-wise addition of the pad is addition modulo 2^128 |
| Poly1305.Authenticator.Blocks | src/hotline/chacha20poly1305.c:190-241 | for data of any length the accumulator is the polynomial continued over its whole blocks, modulo 2^130 - 5, and the limb bounds are kept |
| Poly1305.Authenticator.Final | src/hotline/chacha20poly1305.c:243-297 | the tag is (accumulator mod 2^130 - 5 + pad) mod 2^128, little-endian, and the state is wiped |
| ChaCha20.QuarterRoundInverts | src/hotline/chacha20poly1305.c:26-33 | the quarter round is a bijection on four words, undone step by step |
| ChaCha20.RoundsInvert | src/hotline/chacha20poly1305.c:100-112 | any number of double rounds is undone by the inverse rounds |
| ChaCha20.DoubleRoundInPlace | src/hotline/chacha20poly1305.c:101-112 | the eight in-place quarter rounds are the column and the diagonal round on values |
| ChaCha20.BlockInto | src/hotline/chacha20poly1305.c:76-117 | the serialized block is the block function of key, nonce and counter |
| ChaCha20.XorInto | src/hotline/chacha20poly1305.c:123-145 | for any length and position, exactly the data's range of the output is the data xored with the key stream |
| ChaCha20.XorStreamTwice | src/hotline/chacha20poly1305.c:123-145 | applying the stream twice gives back the data |
| ChaChaReference.QuarterRoundVector | src/hotline/chacha20poly1305.c:26-33 | the quarter round on the test vector of section 2.1.1 of RFC 8439, which fixes its rotations and operands |
| ChaChaReference.RoundsRun | src/hotline/chacha20poly1305.c:100-112 | n double rounds are a run of 2 n rounds, each a quarter round on the columns or on the diagonals, given by a formula for the place of each word |
| ChaChaReference.BlockIsTwentyRounds | src/hotline/chacha20poly1305.c:96-116 | word by word, a block is the initial state plus the state after twenty such rounds, modulo 2^32 |
| ChaChaReference.InitialLayout | src/hotline/chacha20poly1305.c:83-95 | the initial state is the text "expand 32-byte k", the key, the counter and the nonce (section 2.3) |
| ChaChaReference.StreamBegins | src/hotline/chacha20poly1305.c:131-141 | the key stream begins with the block of its counter |
| ChaChaReference.StreamGoesOn | src/hotline/chacha20poly1305.c:131-141 | behind whole blocks it goes on as the key stream of a later counter, modulo 2^32 |
| Aead.ComputeTag | src/hotline/chacha20poly1305.c:317-360 | for every one-time key, associated data and ciphertext of any length the limb computation yields the tag of section 2.8 of RFC 8439 |
| Aead.SameTag | src/hotline/chacha20poly1305.c:414-420 | the comparison that never stops early accepts exactly equal tags |
| Aead.OpenIffSealed | src/hotline/chacha20poly1305.c:366-427 | opening yields a plaintext exactly when the input is the seal of that plaintext |
| Aead.OpenSeal | src/hotline/chacha20poly1305.c:366-427 | decrypting what encrypt produced gives back the plaintext, for every key, nonce and length |
| Aead.Encrypt | src/hotline/chacha20poly1305.c:366-390 | ciphertext and tag are those of the seal; nothing outside the output range changes |
| Aead.Decrypt | src/hotline/chacha20poly1305.c:392-427 | succeeds exactly when the tag is the recomputed one, and otherwise writes nothing |
| AeadReference.MacDataLayout | src/hotline/chacha20poly1305.c:317-360 | position by position, what the tag is computed of: data, zeros, ciphertext, zeros and both lengths |
| AeadReference.OneKeyStream | src/hotline/chacha20poly1305.c:366-390 | one key stream from block 0 gives both: its first 32 bytes are the one-time key, and from byte 64 on it encrypts |
| AeadReference.PolyVectors | src/hotline/chacha20poly1305.c:317-360 | test vectors 7, 8 and 11 of appendix A.3 of RFC 8439: carries out of the prime, of 2^128, and none |
| Rc4.KeyedIsPermutation | src/hotline/hope.c:59-91 | after keying and any number of bytes the state holds every byte value exactly once |
| Rc4.AfterIsPermutation | src/hotline/hope.c:78-91 | processing keeps the state a permutation of 0 .. 255 |
| Rc4.CryptConcat | src/hotline/hope.c:78-91 | processing a then b is processing a + b, in output and in state |
| Rc4.CryptTwice | src/hotline/hope.c:78-91 | processing twice from equal states restores the data |
| Rc4.Cipher.Init | src/hotline/hope.c:59-76 | the swapping key schedule in place is the schedule on values |
| Rc4.Cipher.Process | src/hotline/hope.c:78-91 | exactly the given range is xored with the key stream, and the state advances by its length |
| Rc4Reference.KeyedIsTurns | src/hotline/hope.c:59-76 | keying is 256 turns of the generator from the identity table, one for every position, with the repeated key added |
| Rc4Reference.CryptIsTurns | src/hotline/hope.c:78-91 | byte n is xored with the entry at the sum of the entries at i and j, n + 1 turns later, whatever the state |
| Rc4Reference.NeverFinney | src/hotline/hope.c:59-91 | no key and no amount of data lead to a state with j one ahead of i and 1 at j |
| Rc4Reference.FirstBytes | src/hotline/hope.c:78-91 | the first three key bytes from the identity table |
| HopeTransport.PumpInChunks | src/hotline/hope.c:1173-1255 | decrypting what has arrived and, later, the rest gives the same plaintext, phase, cipher state, rotated key and counts as decrypting it at once, wherever the bytes are cut and whatever rotation counts they hold |
| HopeTransport.PumpMessage | src/hotline/hope.c:900-914 | one message from a rotating sender is decrypted to itself with its rotation byte cleared, and leaves receiver and sender in the same key |
| HopeTransport.PumpAll | src/hotline/hope.c:1173-1255 | a whole stream of messages is decrypted to them, and both ends stay in step |
| HopeTransport.RotatedIsKeyed | src/hotline/hope.c:900-914 | after n > 0 rotations the key is the n-fold MAC and the cipher is keyed with it afresh |
| HopeTransport.SentByte | src/hotline/hope.c:1184-1228 | which key byte belongs to which byte of a message: the running cipher up to byte 21, then the rotated one from its start |
| HopeTransport.SentState | src/hotline/hope.c:1184-1228 | the cipher state and key behind a message of any length and any rotation count |
| HopeTransport.SendWithoutRotation | src/hotline/hope.c:920-940 | the three encryption calls of the server are one pass over the message |
| HopeTransport.EncryptTransaction | src/hotline/hope.c:920-940 | in place, only the message bytes are encrypted; a buffer shorter than a header is left alone |
| HopeTransport.Decryptor.RotateKey | src/hotline/hope.c:900-914 | as often as the header asked the key is replaced by its MAC and the cipher keyed with the new key |
| HopeTransport.Decryptor.DecryptIncremental | src/hotline/hope.c:1173-1255 | the in-place machine decrypts exactly the stretch behind the offset that the phases allow and touches nothing else |
| Transactions.RoundTrip | src/hotline/transaction.c:60-160 | every transaction is read back, with its size fields filled in, exactly if it has at most 128 fields |
| Transactions.ScanEncoded | src/hotline/transaction.c:162-176 | the scanner asks for more on every proper prefix of an encoded transaction and finds its exact end in anything longer |
| Transactions.FieldRoundTrip | src/hotline/field.c:29-63 | a written field is read back whatever follows it |
| Transactions.FieldsRoundTrip | src/hotline/transaction.c:87-109 | a written list of fields is read back |
| Transactions.Serialize | src/hotline/transaction.c:131-160 | the code returned for every transaction, also where the 32-bit payload size wraps, and the encoding written whenever it is not -1 |
| Transactions.Deserialize | src/hotline/transaction.c:60-112 | the field loop reads what the decoder on values reads, wherever its reads are defined |
| WireFormat.HeaderLayout | src/hotline/transaction.c:131-150 | the header byte by byte, its numbers big-endian |
| WireFormat.FieldLayout | src/hotline/field.c:51-63 | every field lies behind those before it: type, big-endian length, data |
| WireFormat.ScanIff | src/hotline/transaction.c:162-176 | for any bytes: a length is found exactly if bytes 12 to 15 say so and all of it is there |
| WireFormat.DecodeFieldsIff | src/hotline/transaction.c:87-109 | for any bytes: a list of fields is parsed exactly where its encoding stands |
| WireFormat.DecodeIff | src/hotline/transaction.c:60-112 | for any bytes whose length does not wrap: what is parsed, and exactly when, in terms of the bytes |
| ReceiveLoop.TransportExact | src/hotline/server.c:684-788 | sending any acceptable list of transactions, with any rotation counts, and receiving the bytes in any chunks delivers exactly that list in order, empties the buffer and leaves both ends in step |
| ReceiveLoop.TransportUnrotated | src/hotline/server.c:684-788 | with flags 0 the wire is one RC4 pass over the concatenated encodings, and it is received as exactly those transactions |
| ReceiveLoop.TransportSafe | src/hotline/server.c:684-788 | on every beginning of the wire, in any chunks, a prefix of the list is delivered and the read buffer never fills up |
| ReceiveLoop.DrainPrefix | src/hotline/server.c:692-788 | the dispatch loop takes exactly the complete transactions of a plaintext prefix and keeps the beginning of the next |
| ReceiveLoop.DrainFrames | src/hotline/server.c:692-788 | whoever wrote the bytes: they are taken frame by frame up to the first that is incomplete or does not parse |
| ReceiveLoop.Connection.Process | src/hotline/server.c:545-570 | a read into the connection's buffer is one step of the receiver on values |
| ReceiveLoop.Connection.DispatchAll | src/hotline/server.c:684-788 | the scan, parse, move and adjust loop delivers what the dispatcher on values delivers and keeps the decrypted boundary |
| ReceiveLoop.Connection.Consume | src/hotline/hope.c:1257-1264 | moving the buffer down and adjusting the offset drops exactly the consumed plaintext |
| HopeAead.FrameNonceInjective | src/hotline/hope.c:950-964 | two records have the same nonce exactly if direction and counter are the same |
| FrameFormat.NonceLayout | src/hotline/hope.c:950-964 | the bytes of a nonce: direction, three zeros, big-endian counter |
| FrameFormat.FrameLayout | src/hotline/hope.c:966-995 | the bytes of a frame: big-endian length, ciphertext, tag |
| HopeAead.ScanFrameExact | src/hotline/hope.c:997-1012 | the frame scanner waits on every proper prefix of a frame and finds its exact end in anything longer |
| FrameFormat.ScanFrameIff | src/hotline/hope.c:997-1012 | for any bytes: when a frame is refused, complete or awaited |
| FrameFormat.RefillIff | src/hotline/hope.c:1069-1131 | for any pending bytes: a refill succeeds exactly if they begin with the sealed frame of some plaintext under the counter |
| HopeAead.ReadFullExact | src/hotline/hope.c:1133-1151 | a full read succeeds exactly if enough plaintext remains, and returns exactly the next bytes |
| HopeAead.ReadExact | src/hotline/hope.c:1153-1167 | a partial read fails exactly at the end of the stream and otherwise returns the next bytes, as many as asked for or as the buffer holds |
| HopeAead.ReadRunExact | src/hotline/hope.c:1069-1167 | any sequence of reads of any sizes returns the concatenated plaintexts in order; the counter is the number of frames consumed and the offset stays within the buffer |
| HopeAead.StreamReader.Fill | src/hotline/hope.c:1069-1131 | a refill reads one record, checks its length and tag and replaces the empty buffer; on failure nothing but the socket position changes |
| HopeAead.StreamReader.ReadFull | src/hotline/hope.c:1133-1151 | the copying loop is the full read on values |
| HopeAead.StreamReader.Read | src/hotline/hope.c:1153-1167 | the single copy is the partial read on values, -1 exactly when it fails |
| HopeAead.WriteFrame | src/hotline/hope.c:966-995 | writes exactly one frame and advances the counter, or leaves both alone when it does not fit |
| AeadReceive.TransportExact | src/hotline/server.c:572-676 | sealed records of any transactions, received in any chunks, deliver exactly them, with the counter at their number |
| AeadReceive.DrainFrames | src/hotline/server.c:572-676 | whatever was sealed: frames are opened in order up to the first that is incomplete, has a wrong length or does not open; what does not parse is passed over |
| AeadReceive.RoomLeft | src/hotline/server.c:572-676 | between reads the buffer always has room for more |
| AeadReceive.Connection.Process | src/hotline/server.c:545-676 | one read and the record loop on the buffer in place |
| Text.FindIsFirst | src/hotline/chat_history.c:133-136 | the substring search finds the first occurrence, and nothing exactly when there is none |
| Text.StrtoullDec | src/hotline/chat_history.c:138-142 | a printed 64-bit number is read back up to the first byte that is no digit |
| HistoryFormat.DecDigit | src/hotline/chat_history.c:603-613 | a printed number has its decimal digits and no leading zero |
| Json.JsonQuote | src/hotline/chat_history.c:148-185 | quotes exactly when the quoted text and its NUL fit the buffer, although space is checked byte by byte |
| Json.JsonGetString | src/hotline/chat_history.c:189-221 | the loop yields the unescaped text up to the closing quote, cut to the buffer |
| Json.ReadQuoted | src/hotline/chat_history.c:148-221 | what is read of a quoted text, whatever follows its closing quote |
| Json.UnquoteIff | src/hotline/chat_history.c:148-221 | unquoting inverts quoting exactly for texts whose control bytes have a short escape |
| Json.QuoteBodyTame | src/hotline/chat_history.c:148-185 | quoted text has no newline and no quote that is not escaped |
| HistoryFormat.EscText | src/hotline/chat_history.c:153-176 | how each byte is written inside quotes |
| HistoryFormat.ReadEscaped | src/hotline/chat_history.c:199-213 | how the byte behind a backslash is read |
| Base64.DecodeEncode | src/hotline/chat_history.c:240-301 | base64 decoding inverts encoding for every byte string (section 4 of RFC 4648) |
| HistoryFormat.AlphabetIs | src/hotline/chat_history.c:240-241 | the alphabet of RFC 4648 |
| HistoryFormat.ValueIff | src/hotline/chat_history.c:270-278 | the decoding table inverts it, with 0 for the padding and -1 elsewhere |
| HistoryFormat.DecodeIff | src/hotline/chat_history.c:279-301 | a text is decoded exactly if its length is a multiple of four and every byte is in the table |
| HistoryFormat.Base64Vectors | src/hotline/chat_history.c:243-265 | the vectors of section 10 of RFC 4648 |
| Base64.B64Encode | src/hotline/chat_history.c:243-265 | the shifting and masking loop is the encoding by groups |
| Base64.B64Decode | src/hotline/chat_history.c:267-301 | where its reads of the table are defined, the loop yields the decoded bytes exactly when every group is valid and the output fits |
| HistoryRecord.BodyEncrypt | src/hotline/chat_history.c:466-493 | fails exactly on overflow and otherwise yields ENC: and the base64 of nonce, ciphertext and tag |
| HistoryRecord.BodyDecrypt | src/hotline/chat_history.c:496-525 | yields the opened body exactly when prefix, base64, length and tag are right |
| HistoryRecord.DecryptedEncText | src/hotline/chat_history.c:466-525 | decryption inverts encryption for every key, nonce and body that fits |
| HistoryFormat.DecryptedIff | src/hotline/chat_history.c:496-525 | for any text: it is decrypted exactly if it holds a nonce, a seal under it and its tag |
| HistoryFormat.ShownIs | src/hotline/chat_history.c:665-674 | what a query shows for a body, also when decryption fails |
| HistoryRecord.RecordIsLine | src/hotline/chat_history.c:603-614 | whatever nick and body contain, an appended record is one line with one newline, no NUL, shorter than the scan buffer, that carries its id and time |
| HistoryRecord.RecordFits | src/hotline/chat_history.c:590-614 | append does not fail on a clean nick up to 64 bytes with a body whose quoted form stays below 2385 bytes, or with any encrypted body up to 1505 bytes |
| HistoryFormat.LineText | src/hotline/chat_history.c:603-612 | the text of a record |
| HistoryFormat.RecordIff | src/hotline/chat_history.c:590-614 | append writes it exactly if no buffer overflows |
| HistoryRecord.NickReadBack | src/hotline/chat_history.c:189-221 | the first match of the nick key is the nick field, and it is unquoted |
| HistoryRecord.BodyReadBack | src/hotline/chat_history.c:189-221 | the first match of the body key is the body field, even if the nick contains that key |
| HistoryRecord.AppendThenParse | src/hotline/chat_history.c:647-684 | a record is parsed to its header; nick and body come back exactly when clean and up to 64 and 2048 bytes, encrypted bodies exactly up to 1505 bytes; a tombstone hides both |
| HistoryRecord.RecordInTableIff | src/hotline/chat_history.c:270-285 | a record is parsed inside the base64 table under any key, exactly unless it was stored in the clear with a text that decodes outside it |
| HistoryRecord.ExposedBody | src/hotline/chat_history.c:270-285 | such a text: ENC: and a byte above 127 |
| HistoryRecord.ParseEntry | src/hotline/chat_history.c:647-684 | the field-by-field parser with decryption and tombstones |
| HistoryFormat.DeletedIs | src/hotline/chat_history.c:677-681 | the deleted flag is the bit of value 4 |
| HistoryScan.ChannelScan | src/hotline/chat_history.c:324-374 | the scan loop indexes exactly the good lines the file begins with, cuts the file at their end and raises the largest id |
| HistoryFormat.FgetsIff | src/hotline/chat_history.c:337-344 | what one read of a line yields |
| HistoryScan.CutFile | src/hotline/chat_history.c:332-371 | a file of good lines cut at any byte is scanned to exactly its complete lines |
| HistoryScan.IndexTiles | src/hotline/chat_history.c:353-358 | each index entry begins where the lines before it end, and its bytes are its line |
| HistoryScan.KeptPrefix | src/hotline/chat_history.c:332-371 | of any file the scan keeps a prefix behind which no good line begins |
| HistoryTombs.TombstonesScan | src/hotline/chat_history.c:377-394 | the sidecar loop collects the ids of its chunks |
| HistoryTombs.TombsReadBack | src/hotline/chat_history.c:377-394 | the tombstones written are the tombstones read |
| HistoryFormat.TombText | src/hotline/chat_history.c:775-776 | the text of a tombstone |
| HistoryTombs.CutTombs | src/hotline/chat_history.c:382-391 | a sidecar cut at any byte reads as the complete tombstones and the number left of the torn one |
| HistoryTombs.CutReadsPrefix | src/hotline/chat_history.c:382-391 | after a cut the scan reads exactly a beginning of what was written iff no digit of a torn id is left, or all of them |
| HistoryTombs.CutReadsWritten | src/hotline/chat_history.c:382-391 | after a cut only ids that were written are read iff no digit of a torn id is left or what is left is itself a written id |
| HistoryTombs.TornNamesOther | src/hotline/chat_history.c:382-391 | a torn tombstone of message 12 deletes message 1 |
| HistoryTombs.AppendedTombIff | src/hotline/chat_history.c:377-394 | for every content of the sidecar, a tombstone written behind it is read, with everything else unchanged, exactly under a condition on the unfinished last line |
| HistoryTombs.CutKeepsNext | src/hotline/chat_history.c:773-778 | behind a cut sidecar the next tombstone is kept exactly if fewer than six bytes of the torn one are left |
| HistoryTombs.TombFinishes | src/hotline/chat_history.c:775-776 | every tombstone finishes the line, so only the first one after a crash can be lost |
| HistoryTombs.LostTombstone | src/hotline/chat_history.c:773-778 | behind seven bytes of the tombstone of 12, no later tombstone is read |
| HistoryQuery.LowerBound | src/hotline/chat_history.c:443-452 | the binary search finds the number of smaller ids |
| HistoryQuery.FindWindow | src/hotline/chat_history.c:700-740 | the branches compute the window, with wrapping 64-bit arithmetic and the limit in force |
| HistoryQuery.QueryIsFilter | src/hotline/chat_history.c:700-740 | the window is the first or last matches of the cursor filter, with has_more right, exactly under a condition on the cursors and the log |
| HistoryQuery.AlwaysRightIffSafe | src/hotline/chat_history.c:700-740 | every sorted log is answered right exactly if AFTER is not 2^64 - 1 and a range is the right way around |
| HistoryQuery.TurnedRange | src/hotline/chat_history.c:716-723 | a range with equal ends on an existing id runs past the index |
| HistoryQuery.LargestAfter | src/hotline/chat_history.c:724-729 | AFTER = 2^64 - 1 returns the first entry where nothing matches |
| HistoryQuery.LimitClamped | src/hotline/chat_history.c:700-701 | a positive limit is clamped as the header says exactly up to 200; 201 becomes 50 |
| HistoryQuery.PagingBack | src/hotline/chat_history.c:730-740 | following BEFORE visits every entry of the first log exactly once and stops, although the log grows in between |
| HistoryQuery.PagingForward | src/hotline/chat_history.c:724-729 | following AFTER on a fixed log visits every newer entry exactly once and stops |
| HistoryStore.OkIsIndexed | src/hotline/chat_history.c:353-358 | the invariant means: ids increase, records tile the file from 0 to its end, and the bytes of each are one line carrying its id |
| HistoryStore.AppendKeeps | src/hotline/chat_history.c:573-628 | append keeps the invariant, also when it fails after taking an id |
| HistoryExact.AppendExact | src/hotline/chat_history.c:573-628 | when a message is stored, with which id, and that it becomes the last line of its channel and nothing else changes |
| HistoryStore.PruneKeepsSuffix | src/hotline/chat_history.c:798-865 | prune keeps exactly a suffix of a channel, byte for byte and with its ids |
| HistoryStore.PruneBound | src/hotline/chat_history.c:798-831 | at most max_msgs and a tenth remain, exactly unless there are more and the new index cannot be allocated |
| HistoryStore.PruneNewestIff | src/hotline/chat_history.c:792-801 | pruning by count leaves the newest messages it is meant to leave exactly under a condition on max_msgs and the length of the channel, the 32-bit wrap included |
| HistoryStore.WrappedSum | src/hotline/chat_history.c:792-801 | with max_msgs 3904515724 every shorter channel loses all its messages |
| HistoryStore.PruneAge | src/hotline/chat_history.c:803-818 | age alone drops exactly the leading entries older than the cutoff, if the new index can be allocated |
| HistoryExact.PruneExact | src/hotline/chat_history.c:798-847 | with any limits a line is dropped exactly if it is in the stretch of old lines at the front or beyond the number that may stay |
| HistoryExact.PrunedStore | src/hotline/chat_history.c:786-868 | the same for every channel of a store; an unallocated index or a switched-off history keeps all |
| HistoryStore.CutRecovers | src/hotline/chat_history.c:324-374 | a channel file cut at any byte is indexed to its complete lines and keeps the invariant |
| HistoryStore.OpenKeeps | src/hotline/chat_history.c:396-422 | opening what a crash or a close left, in any directory order, keeps the invariant and puts next_id above every id |
| HistoryIds.OpenedLines | src/hotline/chat_history.c:397-422 | a start finds the good lines of every file of the channels below 16, in any order of the directory |
| HistoryIds.OpenedNextId | src/hotline/chat_history.c:540-570 | the next id is one more than the largest id found, 1 if there is none, modulo 2^64 |
| HistoryRun.RunIndexed | src/hotline/chat_history.c:529-868 | over every run of appends, prunes, tombstones, closes and crashes, with configuration and key changing at restarts, every channel's index agrees with its file, and next_id exceeds all ids |
| HistoryIds.IdsRise | src/hotline/chat_history.c:529-628 | over every run whose starts find the newest message given, the ids given rise strictly |
| HistoryIds.RestartAboveIff | src/hotline/chat_history.c:557-570 | the next id is above all ids given exactly if the start finds the newest message |
| HistoryIds.IdGivenAgain | src/hotline/chat_history.c:587-628 | otherwise the next message that is stored gets an id that is not above them |
| HistoryIds.PrunedIdReturns | src/hotline/chat_history.c:803-847 | a message is stored, pruned for its age, and the next one after a restart gets its id |
| HistoryRun.CodeAsPromisedIff | src/hotline/chat_history.c:768-784 | the return code is what the header promises exactly for ids that some channel has |
| HistoryRun.TombstoneSurvivesIff | src/hotline/chat_history.c:768-784 | a tombstone takes effect at once, is idempotent and touches no channel; whatever a crash left of the sidecar, it survives the next start exactly under the condition on the last line |
| HistoryRun.TombstonesStay | src/hotline/chat_history.c:768-784 | over every run whose restarts find the sidecar whole, sidecar and memory hold the same tombstones and no tombstone is ever lost |
| HistoryRun.MemoryAgrees | src/hotline/chat_history.c:768-784 | over every run with the sidecar torn at will, memory is what the next start reads as long as no new tombstone comes behind a line that swallows it |
| HistoryRun.TombstoneLost | src/hotline/chat_history.c:768-784 | a crash, a start, a tombstone, a start: the tombstone is gone |
| HistoryRun.RunReadable | src/hotline/chat_history.c:573-628 | over every run, every line of every channel is parsed inside the base64 table: always under one key, and under changing keys unless an exposed text was stored in the clear |
| HistoryRun.CleanReopen | src/hotline/chat_history.c:529-571 | closing and opening gives back every channel and index, and the tombstones exactly if the sidecar holds those in memory |
| HistoryAnswers.AnswerIsPage | src/hotline/chat_history.c:686-761 | the bytes a query reads are exactly the page of the filtered lines of the file |
| HistoryExact.QueryExact | src/hotline/chat_history.c:686-761 | a query returns the parsed lines of the page, one entry a line, and has_more exactly if more lines match than the limit in force |
| HistoryAnswers.PrunedAnswer | src/hotline/chat_history.c:786-865 | a query after a prune is the query on the kept suffix of the old lines |
| HistoryAnswers.AppendThenQuery | src/hotline/chat_history.c:573-761 | the newest entry a query returns after an append is the message appended, under exact conditions on its texts |
| HistoryAnswers.HiddenInAdvance | src/hotline/chat_history.c:768-784 | a tombstone for an id that no channel has is accepted and hides the message that gets the id |
| HistoryAnswers.AnswersInTableIff | src/hotline/chat_history.c:647-684 | all queries stay inside the base64 table exactly if every line of the channel is parsed inside it |
| HistoryAnswers.KeyAddedLater | src/hotline/chat_history.c:665-674 | a message stored without a key and read with one leaves the table exactly if it is exposed |
| HistoryAnswers.PagingWhileAppending | src/hotline/chat_history.c:724-740 | scrolling back through a channel of the store while messages are appended yields exactly the entries present at the start |
| ChatHistory.DiscoverChannels | src/hotline/chat_history.c:397-422 | the directory loop opens the channels the model on values opens |
| ChatHistory.FindAgeDrop | src/hotline/chat_history.c:803-817 | the age loop counts the leading entries older than the cutoff |
| ChatHistory.Rewrite | src/hotline/chat_history.c:833-847 | the copying loop writes exactly the kept lines and their index |
| ChatHistory.PruneOne | src/hotline/chat_history.c:794-865 | the pruning of one channel with all its early exits and its wrapping 32- and 64-bit arithmetic |
| ChatHistory.History.constructor | src/hotline/chat_history.c:529-571 | opening as a step on the object |
| ChatHistory.History.Append | src/hotline/chat_history.c:573-628 | the object after an append, and the id returned, are those of the model on values |
| ChatHistory.History.Query | src/hotline/chat_history.c:686-761 | wherever its reads are defined, the query method returns the parsed page and has_more |
| ChatHistory.SafeIsReadable | src/hotline/chat_history.c:686-761 | with safe cursors the reads of a query are defined on every channel a run leaves |
| ChatHistory.History.Prune | src/hotline/chat_history.c:786-868 | the loop over the channels prunes each of them and keeps the invariant |
| ChatHistory.History.TombstoneMessage | src/hotline/chat_history.c:768-784 | memory and sidecar get the tombstone together, once, and the code returned is 0 |
| TokenBucket.Limiter.Consume | src/hotline/chat_history.c:907-942 | the in-place update with its 32- and 64-bit wraps |
| TokenBucket.RateBound | src/hotline/chat_history.c:907-942 | from a positive first clock, for any times: ten times the requests allowed is at most the capacity plus what was earned between first and latest time, and the bucket never exceeds its capacity |
| TokenBucket.Burst | src/hotline/chat_history.c:921-942 | a fresh bucket allows exactly its capacity at one moment |
| TokenBucket.RequestExact | src/hotline/chat_history.c:907-942 | while nothing wraps: what was earned is added up to the capacity, and a token is taken if there is one |
| TokenBucket.PacedAllowed | src/hotline/chat_history.c:907-942 | from a positive clock, requests that leave each other time to earn a token are all allowed |
| TokenBucket.RefillExactIff | src/hotline/chat_history.c:925-935 | the refill is exact exactly if the sum fits 32 bits or what is left of it fills the bucket |
| TokenBucket.LongWait | src/hotline/chat_history.c:928-933 | a wait that earns 2^32 tenths adds nothing |
| TokenBucket.CapacityIff | src/hotline/chat_history.c:914-918 | the capacity is ten times the tokens up to 16 bits exactly unless the product wraps below that; an example comes out as 4 |
| TokenBucket.ZeroClock | src/hotline/chat_history.c:920-923 | at clock 0 every request is allowed, so the bound needs a positive clock |
| IncrQueue.Ring.Push | src/mobius/mnemosyne_sync.c:989-999 | the ring of 64 slots holds the old contents without the oldest, if full, and the new event |
| IncrQueue.Ring.Pop | src/mobius/mnemosyne_sync.c:1001-1009 | the oldest event leaves the ring |
| IncrQueue.NewestKept | src/mobius/mnemosyne_sync.c:989-999 | pushing any events keeps the newest 64 of all of them, in order |
| Mnemosyne.RunKeeps | src/mobius/mnemosyne_sync.c:210-266 | over every run, whatever the POSTs answer: active means fewer than five failures, suspended means five and an empty queue, the backoff level is one less than the failures and at most 4 |
| Mnemosyne.RunStreak | src/mobius/mnemosyne_sync.c:210-266 | over every run the failures are the POSTs that have failed in a row, up to five, since the start or the last configuration, and suspended means the last five or more have |
| Mnemosyne.RunFifo | src/mobius/mnemosyne_sync.c:1011-1101 | the queue is the newest part of the accepted events, and the events sent come from before it, in order, none twice |
| Mnemosyne.NothingLost | src/mobius/mnemosyne_sync.c:989-1101 | over every run without overflow and suspension, what was sent and what waits are together all that was accepted, in order |
| Mnemosyne.DrainEmpties | src/mobius/mnemosyne_sync.c:1063-1101 | a drain sends the whole queue in order, or suspends the client having sent a beginning of it |
| Mnemosyne.FullSyncPosts | src/mobius/mnemosyne_sync.c:891-913 | how many POSTs a full sync makes, and which of them decides about which count |
| Mnemosyne.PeriodicPostsIff | src/mobius/mnemosyne_sync.c:935-985 | a periodic check posts exactly on drift, files first |
| Mnemosyne.HeartbeatPosts | src/mobius/mnemosyne_sync.c:364-440 | a heartbeat is one POST, followed by a full sync exactly if it ends a suspension |
| Mnemosyne.SuspendedSilence | src/mobius/mnemosyne_sync.c:414-440 | while suspended only a heartbeat posts, nothing queued is sent, and only its success or a new configuration resumes; a cursor loaded meanwhile blocks draining after it |
| Mnemosyne.Backoff | src/mobius/mnemosyne_sync.c:224-250 | the k-th failure in a row sets the retry time 2^k seconds ahead and the fifth suspends |
| Mnemosyne.DrainSendsNothingIff | src/mobius/mnemosyne_sync.c:1063-1101 | a drain sends nothing exactly while suspended, or after a cursor was loaded, or with an empty queue |
| Mnemosyne.StaysBlocked | src/mobius/mnemosyne_sync.c:1063-1071 | after a cursor was loaded no step sends a queued event, and exactly a suspension and a new configuration end that |
| Mnemosyne.BlockedRun | src/mobius/mnemosyne_sync.c:1063-1071 | over every run without either, nothing queued is sent |
| Mnemosyne.Client.ResumeCursor | src/hotline/server.c:2371-2372 | a loaded cursor sets the flag whatever the state is |
| Mnemosyne.Client.Reconfigure | src/mobius/mnemosyne_sync.c:91-138 | a new configuration resets state, failures, level and flag |
| Mnemosyne.Client.HandlePostResult | src/mobius/mnemosyne_sync.c:210-266 | the fields after a POST are those of the model on values |
| Mnemosyne.Client.StartFullSync | src/mobius/mnemosyne_sync.c:891-913 | files, news and message board in order, stopping at a suspension |
| Mnemosyne.Client.SendHeartbeat | src/mobius/mnemosyne_sync.c:364-440 | the state part of the heartbeat, with recovery |
| Mnemosyne.Client.DrainQueue | src/mobius/mnemosyne_sync.c:1063-1101 | the popping loop sends the queued events in order until it is empty or suspended |
| Utf8.Masks | src/mobius/threaded_news_yaml.c:149-163 | each bit mask test is the value range of its byte class |
| Utf8.Sanitize | src/mobius/threaded_news_yaml.c:142-172 | the in-place loop ends with the sanitized bytes and the same length |
| Utf8.SanitizedWellShaped | src/mobius/threaded_news_yaml.c:142-172 | the result is made only of ASCII bytes and lead-and-continuation groups (section 3 of RFC 3629) |
| Utf8.UntouchedIffWellShaped | src/mobius/threaded_news_yaml.c:142-172 | a buffer is left alone exactly when it is well shaped, and a second pass changes nothing |
| Utf8.StaysIff | src/mobius/threaded_news_yaml.c:142-172 | in any buffer a byte stays exactly if it lies in a group, wherever that begins; all others become question marks |
| Utf8.ValidIffGroupsProper | src/mobius/threaded_news_yaml.c:137-172 | the result is valid UTF-8 (section 4 of RFC 3629) exactly if no group kept in the input is overlong, a surrogate or above U+10FFFF |
| Utf8.ValidIsWellShaped | src/mobius/threaded_news_yaml.c:142-172 | valid UTF-8 is never changed |
| Utf8.InvalidPasses | src/mobius/threaded_news_yaml.c:137-172 | an overlong form, a surrogate and a number above U+10FFFF pass unchanged and are not valid UTF-8 |
| Utf8.OnlyQuestionMarks | src/mobius/threaded_news_yaml.c:153-169 | bytes change only to a question mark, ASCII bytes never |

## Left out

- Sockets, TLS, the event loop, timers, DNS, HTTP, the tracker, logging and the GUI: input and output.
- SHA-1, SHA-256, MD5, HMAC and HKDF: the MAC is an arbitrary function; nothing is claimed about cryptographic strength.
- The path codec and the fixed-layout records (users, handshake, resume data): they would only add easy members.
- The handlers of transactions, permissions and replies, and the double-based per-IP limiter.
- Receive loop of the RC4 transport after a scan or parse failure: the code empties the buffer without resetting the decrypted offset; the connection object is then no longer described.
- Transactions.Deserialize: a total size below 2 with a positive field count makes the remaining length wrap, and the fields are read behind the transaction; modelled where they are there (Transactions.ReadsInside), beyond that the C code reads undefined memory. The client id of a transaction is not modelled.
- WireFormat.DecodeIff: for bytes whose length does not wrap; where it does, Transactions.Deserialize says what is read.
- AeadReceive.Connection.Process: for traffic whose transactions are parsed inside their plaintexts, as everything a peer encodes is.
- Transactions.Serialize: for a payload size that wraps to 0 or 1 the buffer must hold the header, which the C code writes unchecked; the buffer is not described when a field finds no room.
- Failed writes, renames and stat calls, failed allocations except that of the index a prune rebuilds, and leftover .tmp files of an interrupted prune.
- Channels 16 and above: append accepts them, the next open does not find them; the run theorems are about channels 0 to 15.
- Base64.B64Decode: for texts that stay inside the table of 256 entries where char is signed (Base64.InTable); beyond it the C code reads undefined memory.
- HistoryRecord.BodyDecrypt: for texts that stay inside the base64 table.
- HistoryRecord.ParseEntry: for lines that stay inside the base64 table; HistoryRun.RunReadable and HistoryRecord.RecordInTableIff say which do.
- ChatHistory.History.Query: for windows inside the index and lines inside the base64 table; beyond them the C code reads undefined memory. HistoryQuery.QueryIsFilter and HistoryAnswers.AnswersInTableIff say when that is.
- HistoryRun.RunIndexed: as long as the id counter has not reached 2^64 - 1.
- The truncation of queued event texts to fixed arrays, the unused sync cursor and the JSON bodies of the indexing client, and a reconfiguration that disables it, after which the server drops it; next_retry_time is set in the model as in the code, where nothing reads it.
- Mnemosyne.Client.SendHeartbeat: the counts of files, articles and posts are parameters.
