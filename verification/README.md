# Verified models of corecrypto components

Dafny models of seven parts of corecrypto, each with proofs over all inputs or all runs.

* **CAST-128** (`Words`, `Rotation`, `Blocks`, `Feistel`, `Rfc2144`, `CastCipher`, `CastSchedule`, `CastEcb`,
  `CastTheorems`, `CastEquations`, `CastKeyEquations`).
  The C round macro reads its S-box bytes in a shuffled order and the key schedule adds 16 to every stored rotate
  amount. `Rfc2144` is the cipher as RFC 2144 writes it (sections 2.1 to 2.5), with a swap in every round; the
  C-shaped methods are proved equal to it, and decryption inverts encryption for any key contents and tables. The
  functions of `Rfc2144` are in turn held to the equations that the RFC prints, over C's own operators and numbered
  bytes.
* **Blowfish** (`BlowfishSpec`, `Blowfish`, `BlowfishSchedule`, `BlowfishSetup`, `BlowfishEquations`). The unrolled, swap-free loops equal
  the textbook network; decryption inverts encryption for every K and S; the key schedule that encrypts under the
  arrays it is overwriting equals its sequential definition, and the finished arrays satisfy equations between their
  own slots.
* **FIPS trace** (`TraceFormat`, `TraceSession`, `TraceTheorems`, `TraceRuns`, `TraceSilence`, `Tracer`,
  `TraceLayout`). The recorder is a class with the C module's state; a writer is an object that may refuse any call on the basis of all it has seen. Names are
  addresses with a text, because the recorder compares addresses.
* **Workspaces** (`Workspace`, `WorkspaceSizes`, `WorkspaceExact`). The bump allocator with its save and restore frames, run over
  arbitrary trees of nested calls; and the generated size functions of the modular arithmetic, compared with what
  those functions allocate and which functions they reach through the tables of function pointers.
* **X9.63 KDF** (`X963`, `X963Kdf`). Parallel hash contexts as absorbed bytes, against the definition of section 3.6.1
  of SEC 1 version 2.0.
* **Fault canary and safe compare** (`FaultCanary`).
* **Bit counts and the POST runner** (`BitCounts`, `PostRunner`; byte and word types in `Bytes`).

Parameters of the model: S-box and P-array contents, the digest, the writer, the texts behind name addresses, the
self-tests. 32-bit addition, subtraction and rotation are bit-vector operations, so they wrap as in C; sizes of type
`size_t` are numbers with the wrap-around written out where the code can meet it (`Workspace`, `X963Kdf`). `BitCounts`
works on unsigned numbers, with the bitwise operators defined bit by bit and 32-bit subtraction wrapping.

What the functions of the workspace model allocate and call is taken from their bodies in `cczp/src`, `ccn/src` and
`ccprime/src`; the tables of function pointers are those of `cczp/src/cczp_funcs.c`, `cczp/src/cczp_mm.c` and the portable
`ccec/src/ccec_cp*.c`.

Where the code does not do what a reader might expect, the exact condition is proved:

* The parser of the test suite reads back what the recorder wrote, exactly up to the capacity of its fixed arrays:
  16384 events, although the recorder allows 65535 (`TraceFormat.ParseSerialize`, `TraceRuns.TraceRoundTrip`).
* The buffer-size macro omits the marker and the count byte; two short reserved names make up for it
  (`TraceRuns.TraceSizeBound`).
* X9.63 init refuses the key lengths whose last block would have counter 2^32 - 1, which the header's own limit
  allows, and accepts the last few `size_t` values because the rounding sum wraps (`X963Kdf.AcceptedExactly`,
  `X963Kdf.StricterThanStandard`).
* Beyond 16 bytes the fault canary does not decide equality at any length (`FaultCanary.LongInputsCanCancel`); what it
  does decide is `FaultCanary.Check`.
* X9.63 init accepts key length 0 and the wrapped lengths, for which there are no hash contexts; the loop bound of final
  then wraps to the largest `size_t`, so final runs past the contexts. It stays within them exactly for the other
  accepted lengths (`X963Kdf.AcceptedWithoutContexts`, `X963Kdf.FinalInBounds`, `X963Kdf.EmptyKeyIsAccepted`).
* A POST return of 0 means success exactly unless the first counted failure, of test k counting from 0, returns
  1000 (k + 1); results below 1000 never do (`PostRunner.ZeroExactly`, `PostRunner.ZeroMeansPassed`).
* A failing POST code does not always name its test: two failures share a code exactly if their results lie as many
  thousands apart as their positions, and codes can be read back exactly if no two results agree modulo 1000
  (`PostRunner.CodesCollide`, `PostRunner.RecoverableExactly`). The tests of this library fail with negative codes above
  -999, and one of them, the indicator test, with 1. All these lie in the window of a thousand values that ends with 1,
  so codes can be read back with that window; read as if results were never positive, a failure of the indicator test,
  -2999, would name the integrity test (`PostRunner.FailureIsNamed`, `PostRunner.IndicatorFailure`).

## Model

| member | source | states |
|---|---|---|
| Words.LoadStoreBe32 | cc/corecrypto/cc_priv.h:145-155 | a word stored big-endian loads back unchanged |
| Words.StoreLoadBe32 | cc/corecrypto/cc_priv.h:145-155 | four bytes loaded big-endian store back unchanged |
| Words.PutBe32 | cc/corecrypto/cc_priv.h:145-151 | a store through a pointer writes the four big-endian bytes and nothing else |
| Words.FirstByteIsHighest | cc/corecrypto/cc_priv.h:145-155 | of four bytes loaded big-endian, the first is bits 24 to 31, and so on down |
| Rotation.RolTurnsLeft | cc/corecrypto/cc_priv.h:244-247 | for every word, amount and i, bit i of the word is bit i + n modulo 32 of the rotated word: the rotation turns left |
| Blocks.EcbInverts | cccast/src/cccast_ecb_decrypt_mode.c:15-36 | a block function with a left inverse, lifted to any number of blocks, has the lifted inverse and keeps the length |
| Blocks.EcbStep | cccast/src/cccast_ecb_encrypt_mode.c:22-33 | one block read from the input and written to the output keeps the unread input intact, for disjoint, identical and write-behind-read buffers |
| Blocks.BlockBytes | cccast/src/cccast_ecb_encrypt_mode.c:24-31 | the first four bytes of a block are its left half and the next four its right half, each with its most significant byte first |
| Blocks.EcbAt | cccast/src/cccast_ecb_encrypt_mode.c:22-33 | eight bytes of the output are the image of the eight bytes at the same offset of the input |
| Feistel.Inverts | cccast/src/c_enc.c:72-136 | a swap-per-round network with any round functions and any number of rounds is inverted both ways by running the rounds downwards |
| Feistel.RecurrenceDecides | cccast/src/c_enc.c:72-136 | any halves that follow l[i+1] = r[i], r[i+1] = l[i] xor f(i, r[i]) end in the ciphertext, right half first, and decryption leads back |
| CastCipher.HalfTurn | cccast/src/cast_lcl.h:81-85 | the bytes that E_CAST takes from a word rotated by n are, in order, those of the word rotated by n + 16 |
| CastCipher.DeltaIsStraight | cccast/src/cast_lcl.h:77-87 | shuffled byte indices and a rotate amount 16 lower give the same round value as natural order, for all operators |
| CastCipher.RoundOfStoredKey | cccast/src/cast_lcl.h:77-87 | round n over any key array, with the operators of its type, is the standard's round function n under the subkeys that the array stands for |
| CastCipher.ECast | cccast/src/cast_lcl.h:77-87 | the in-place update of L is one swapping Feistel round of the standard |
| CastCipher.CastEncrypt | cccast/src/c_enc.c:72-103 | the unrolled 12 or 16 rounds with the crossed store are the standard's encryption under the stored subkeys |
| CastCipher.CastDecrypt | cccast/src/c_enc.c:105-136 | the unrolled descending rounds are the standard's decryption under the stored subkeys |
| CastCipher.CastInverts | cccast/src/c_enc.c:72-136 | decrypting inverts encrypting and the other way round, for every key array, both round counts and all tables |
| CastSchedule.CastExp | cccast/src/c_skey.c:73-78 | one word of the word view and its four big-endian bytes of the byte view change, nothing else |
| CastSchedule.HoldsByte | cccast/src/c_skey.c:94-168 | while the views are in step every cell is below 256 and is the byte of the word that it should be |
| CastSchedule.MixZ | cccast/src/c_skey.c:111-118 | the four lines that make Z and z compute z0..zF of section 2.4 of RFC 2144 and leave both views in step |
| CastSchedule.MixX | cccast/src/c_skey.c:125-132 | the four lines that make X and x compute x0..xF of section 2.4 and leave both views in step |
| CastSchedule.DownWords | cccast/src/c_skey.c:120-123 | the lines for K[0..3] and K[12..15] read the standard's subkeys off the byte view |
| CastSchedule.UpWords | cccast/src/c_skey.c:134-137 | the lines for K[4..11] read the standard's subkeys off the byte view |
| CastSchedule.Pass | cccast/src/c_skey.c:111-165 | one turn of the loop makes sixteen subkeys and the next state |
| CastSchedule.Expand | cccast/src/c_skey.c:103-168 | the endless loop makes exactly two passes and fills all 32 words |
| CastSchedule.LoadBytes | cccast/src/c_skey.c:94-97 | the byte view holds the key padded with zeros to 16 bytes |
| CastSchedule.LoadWords | cccast/src/c_skey.c:104-107 | the gathered words are in step with the byte view |
| CastSchedule.StoreKey | cccast/src/c_skey.c:170-174 | masking words go to even places, rotate keys plus 16 cut to five bits to odd places |
| CastSchedule.FillKey | cccast/src/c_skey.c:96-174 | with the length cut to 16, the key object is filled with the standard's schedule of the padded key and the short flag |
| CastSchedule.SetKey | cccast/src/c_skey.c:85-175 | the key object holds the standard's schedule of the padded, at most 16 byte long key, and short_key says whether the length is at most 10 |
| CastEcb.EcbEncrypt | cccast/src/cccast_ecb_encrypt_mode.c:15-36 | the output range is the input range encrypted block by block, the rest of the buffer is unchanged, in place or not |
| CastEcb.EcbDecrypt | cccast/src/cccast_ecb_decrypt_mode.c:15-36 | the same for decryption |
| CastEcb.EcbRoundTrip | cccast/src/cccast_ecb_decrypt_mode.c:15-36 | ECB decryption and encryption invert each other on any number of blocks |
| CastTheorems.StoredAmountCancels | cccast/src/c_skey.c:173 | the 16 added on storing and the 16 of the shuffled bytes cancel in five bits |
| CastTheorems.StoredRotatesAreSmall | cccast/src/c_skey.c:173 | every stored rotate amount is below 32 |
| CastTheorems.StoredRound | cccast/src/c_skey.c:170-174 | the subkeys that a stored schedule stands for give the rounds of the schedule itself |
| CastTheorems.CastIsRfc2144 | cccast/src/c_enc.c:72-136 | for every key and block, the C cipher on the C schedule is RFC 2144 encryption and decryption |
| CastTheorems.EcbIsRfc2144 | cccast/src/cccast_ecb_encrypt_mode.c:15-36 | under a key that CAST_set_key stored, ECB is RFC 2144 block by block |
| CastTheorems.OneShotEncrypt | ccmode/corecrypto/ccmode.h:50-61 | setting the key up and encrypting makes the output range the RFC 2144 encryption of the input range under the caller's key, for every key length and number of blocks, in place or not |
| CastTheorems.OneShotDecrypt | ccmode/corecrypto/ccmode.h:50-61 | the same for decryption |
| CastTheorems.ZeroPaddingStoresTheSame | cccast/src/c_skey.c:94-101 | for a key and the key with zeros appended, within 10 bytes or beyond, the same 32 words and the same short flag are stored |
| CastTheorems.ZeroPaddingChangesNothing | cccast/src/c_skey.c:94-101 | and the standard's cipher is the same |
| CastEquations.MacroStepIs | cccast/src/cast_lcl.h:77-87 | what E_CAST mixes in, in C's operators, for all three types of round |
| CastEquations.CipherInFull | cccast/src/c_enc.c:72-136 | under any key array, any halves that follow from each other by the macro in C's operators end in the result of the C encryption, and the C decryption leads back; 12 rounds for a short key, 16 otherwise |
| CastEquations.StandardInFull | cccast/src/c_enc.c:72-136 | the same for RFC 2144 with its round functions in C's operators and the subkeys of its schedule; 12 rounds up to 10 bytes, 16 beyond |
| CastKeyEquations.ZInFull | cccast/src/c_skey.c:111-118 | sixteen bytes solve the four equations of section 2.4 for z0..zF, with the subscripts written out, if and only if they are the words that the schedule function makes |
| CastKeyEquations.XInFull | cccast/src/c_skey.c:125-132 | the same for x0..xF |
| CastKeyEquations.FirstInFull | cccast/src/c_skey.c:120-123 | four words solve the equations for K1..K4 if and only if they are what the schedule function reads off z |
| CastKeyEquations.SecondInFull | cccast/src/c_skey.c:134-137 | the same for K5..K8 |
| CastKeyEquations.ThirdInFull | cccast/src/c_skey.c:148-151 | the same for K9..K12 |
| CastKeyEquations.FourthInFull | cccast/src/c_skey.c:162-165 | the same for K13..K16 |
| CastKeyEquations.ScheduleInFull | cccast/src/c_skey.c:94-168 | whatever bytes and subkeys solve the printed equations twice around, from the key and zeros on, are the masking and rotate keys of the schedule |
| CastKeyEquations.StoredInFull | cccast/src/c_skey.c:85-175 | for a key of any length, what CAST_set_key leaves in the key array is those subkeys: K1..K16 at even places, the low five bits of K17..K32 plus 16 at odd ones |
| CastKeyEquations.ScheduleExists | cccast/src/c_skey.c:103-168 | every key has a solution of the equations |
| BlowfishSpec.Retrace | ccblowfish/src/ccblowfish_ltc_common.c:396-406 | i rounds under the reversed keys lead a ciphertext back to the keyed state 16 - i rounds into encryption |
| BlowfishSpec.Inverts | ccblowfish/src/ccblowfish_ltc_ecb_decrypt.c:59-82 | encryption under reversed keys inverts encryption both ways for every K and round function |
| Blowfish.LtcF | ccblowfish/src/ltc_blowfish.h:19-24 | the macro over the S arrays is the round function of the schedule's contents, with indices in bounds |
| Blowfish.EncryptRound | ccblowfish/src/ccblowfish_ltc_common.c:398 | one half line is one textbook round with its swap |
| Blowfish.EncryptHalves | ccblowfish/src/ccblowfish_ltc_common.c:396-410 | the swap-free unrolled rounds with last keying and crossed store are the textbook network with undone last swap and output whitening |
| Blowfish.KeyedStep | ccblowfish/src/ccblowfish_ltc_ecb_decrypt.c:69-73 | the decryption loop, which runs one key ahead, keeps step with the textbook rounds under reversed keys |
| Blowfish.DecryptHalves | ccblowfish/src/ccblowfish_ltc_ecb_decrypt.c:64-78 | the descending loop ends, indexes only keys and computes the textbook decryption |
| Blowfish.EcbEncrypt | ccblowfish/src/ccblowfish_ltc_common.c:391-416 | the output range is the input range encrypted block by block, the rest unchanged, in place or not |
| Blowfish.EcbDecrypt | ccblowfish/src/ccblowfish_ltc_ecb_decrypt.c:59-84 | the same for decryption |
| Blowfish.EcbRoundTrip | ccblowfish/src/ccblowfish_ltc_ecb_decrypt.c:59-84 | ECB decryption and encryption invert each other for every K and S and any number of blocks |
| BlowfishSchedule.SlotsAfter | ccblowfish/src/ccblowfish_ltc_common.c:336-353 | after t steps exactly the first 2t slots are replaced, each by the half of its own step's block, and the later ones are original: every slot is written once |
| BlowfishSchedule.SameStreamSameSchedule | ccblowfish/src/ccblowfish_ltc_common.c:313-322 | keys whose cyclic streams agree on 72 bytes have the same schedule |
| BlowfishSchedule.RepeatedKeySameSchedule | ccblowfish/src/ccblowfish_ltc_common.c:301-360 | any number of repetitions of a key have the schedule of the key |
| BlowfishSchedule.DoubledKeySameSchedule | ccblowfish/src/ccblowfish_ltc_common.c:301-360 | a key and its self-concatenation have the same schedule |
| BlowfishSetup.NextKeyWord | ccblowfish/src/ccblowfish_ltc_common.c:314-320 | four turns of the inner loop with the wrapping index pack word j of the cyclic key |
| BlowfishSetup.LoadTables | ccblowfish/src/ccblowfish_ltc_common.c:313-329 | K is P xor the cyclic key and S is the original table |
| BlowfishSetup.EncryptB | ccblowfish/src/ccblowfish_ltc_common.c:338-341 | encrypting B in place under the present arrays and reading it back gives the next pair |
| BlowfishSetup.StepK | ccblowfish/src/ccblowfish_ltc_common.c:336-342 | one turn of the K loop is one step of the sequential schedule |
| BlowfishSetup.StepS | ccblowfish/src/ccblowfish_ltc_common.c:346-352 | one turn of the S loops is one step of the sequential schedule |
| BlowfishSetup.Setup | ccblowfish/src/ccblowfish_ltc_common.c:301-360 | the self-modifying setup ends with the sequential key schedule of the tables and the key |
| BlowfishEquations.MixerInFull | ccblowfish/src/ltc_blowfish.h:19-24 | the bytes of a word, most significant first, index the four rows in order, and the look-ups are combined by +, ^, + |
| BlowfishEquations.CipherInFull | ccblowfish/src/ccblowfish_ltc_common.c:396-410 | any halves that follow r[i+1] = l[i] ^ K[i], l[i+1] = r[i] ^ F(r[i+1]) end, crossed and with K[17] and K[16] mixed in, in the ciphertext, and decryption leads back |
| BlowfishEquations.InitialInFull | ccblowfish/src/ccblowfish_ltc_common.c:313-329 | the starting K[j] is P[j] xor key bytes 4j to 4j + 3 modulo the length, the first most significant, and the starting S is the original |
| BlowfishEquations.FirstPairInFull | ccblowfish/src/ccblowfish_ltc_common.c:331-342 | the first two slots of the finished schedule are zeros encrypted under the starting arrays |
| BlowfishEquations.NextPairInFull | ccblowfish/src/ccblowfish_ltc_common.c:336-353 | every later pair of slots is the pair before it, encrypted under the arrays with finished words in all slots below and starting words in all others |
| TraceFormat.HeaderRoundTrip | cc_fips/corecrypto/fipspost_trace_priv.h:43-49 | the 52 packed bytes of a header read back as the header |
| TraceFormat.HeaderBack | cc_fips/corecrypto/fipspost_trace_priv.h:43-49 | every 52 bytes are the bytes of the header read from them |
| TraceFormat.ParseSerialize | cc_fips/crypto_test/crypto_test_cc_fips.c:73-108 | parsing a serialized trace consumes it exactly and gives it back, if and only if it fits the parser's arrays |
| TraceFormat.SerializeParse | cc_fips/crypto_test/crypto_test_cc_fips.c:73-108 | a buffer that parses is the serialization of what was parsed: no other buffer is accepted |
| TraceFormat.ParseBuffer | cc_fips/crypto_test/crypto_test_cc_fips.c:73-108 | the cursor loop over the samples computes the parse |
| TraceFormat.ReadHooks | cc_fips/crypto_test/crypto_test_cc_fips.c:96-105 | the loop over the Pascal strings reads the table and checks the end of the buffer |
| TraceTheorems.InternAllGrows | cc_fips/src/fipspost_trace.c:258-284 | interning only appends, keeps the table free of repetitions, and ends with exactly the names that were there or came in |
| TraceTheorems.IdsResolve | cc_fips/src/fipspost_trace.c:258-284 | event i is the index under which the final table lists the i-th name |
| TraceTheorems.CallsThatFit | cc_fips/src/fipspost_trace.c:166-184 | calls with names that fit succeed exactly if the writer takes every id, and write exactly the ids |
| TraceTheorems.CallsThatDoNotFit | cc_fips/src/fipspost_trace.c:166-184 | a NULL name or one distinct name too many ends the session |
| TraceTheorems.DumpThatFits | cc_fips/src/fipspost_trace.c:231-241 | the table loop succeeds exactly if the writer takes every length and string |
| TraceTheorems.DumpThatDoesNotFit | cc_fips/src/fipspost_trace.c:232-235 | a name over the length limit makes the end fail |
| TraceRuns.RunOutcome | cc_fips/src/fipspost_trace.c:91-249 | a run returns 0 if and only if tracing was requested, no name was NULL, at most 240 distinct addresses were used, every name fits, and every writer call was accepted; then the writer got exactly the wanted buffers |
| TraceRuns.TraceOfIsValid | cc_fips/src/fipspost_trace.c:166-249 | no event id equals the table marker, and the table entry of event i is the i-th traced name |
| TraceRuns.WantedIsSerialized | cc_fips/src/fipspost_trace.c:91-249 | the buffers of a run, put together, are the serialized trace |
| TraceRuns.TraceRoundTrip | cc_fips/crypto_test/crypto_test_cc_fips.c:73-108 | parsing what a successful run wrote gives back header, ids and table, up to the capacity of the parser |
| TraceRuns.TableCountsAddresses | cc_fips/src/fipspost_trace.c:264-283 | the table length is the number of distinct addresses, the two reserved ones and the status included |
| TraceRuns.TraceSizeBound | cc_fips/corecrypto/fipspost_trace_priv.h:99-102 | a successful run of at most 65535 events writes at most FIPSPOST_TRACE_MAX_BUFFER bytes |
| TraceSilence.StoppedStaysSilent | cc_fips/src/fipspost_trace.c:154-184 | once a session is off, no sequence of calls, ends and clears reaches the writer, and every end returns -1 |
| TraceSilence.SendKeeps | cc_fips/src/fipspost_trace.c:57-67 | one more buffer keeps it true that only the last buffer can have been refused |
| TraceSilence.EndKeeps | cc_fips/src/fipspost_trace.c:192-249 | so does the whole of end, on each of its failure paths |
| TraceSilence.NothingFollowsARefusal | cc_fips/src/fipspost_trace.c:91-249 | after a start and any calls, ends and clears, live or not, every buffer but possibly the last was accepted, and the last one too while the session is live |
| TraceSilence.DeliverIsPrefix | cc_fips/src/fipspost_trace.c:57-67 | what is delivered up to the first refusal is a prefix of what was wanted, and all of it if all is accepted |
| TraceSilence.RunDelivers | cc_fips/src/fipspost_trace.c:91-249 | an admissible run hands over exactly the wanted buffers up to and including the first refused one, so a failed run's output is a prefix |
| Tracer.FailureTextFits | cc_fips/src/fipspost_trace.c:200-215 | the text for any failing result fits the string table |
| Tracer.Writer.Write | cc_fips/corecrypto/fipspost_trace_priv.h:67 | a writer call appends to the writer's history and is accepted or refused on the basis of it |
| Tracer.Recorder.Clear | cc_fips/src/fipspost_trace.c:289-294 | the recorder is reset to an inactive state without names |
| Tracer.Recorder.HookIdx | cc_fips/src/fipspost_trace.c:258-284 | a known address gives its index, a new one is appended, NULL or a full table gives 240 and changes nothing |
| Tracer.Recorder.Start | cc_fips/src/fipspost_trace.c:91-149 | start is the start step, and returns 0 exactly if the recorder is then active with that writer |
| Tracer.Recorder.Call | cc_fips/src/fipspost_trace.c:166-184 | a call is the call step, failing calls clear the recorder |
| Tracer.Recorder.DumpTable | cc_fips/src/fipspost_trace.c:231-241 | the loop over the table is the dump step |
| Tracer.Recorder.End | cc_fips/src/fipspost_trace.c:192-249 | end is the end step with its return code, whose status name is the success literal for result 0 and the formatted buffer otherwise, and leaves the recorder inactive |
| Tracer.RunTrace | cc_fips/src/fipspost_trace.c:91-249 | a session through the API leaves the writer's history and returns the code of the specified run |
| TraceLayout.HeaderInFull | cc_fips/corecrypto/fipspost_trace_priv.h:43-49 | the offsets of the header: magic 0, version 4, mode 8, HMAC 12, flags 44, all numbers little-endian |
| TraceLayout.HeaderOfRun | cc_fips/src/fipspost_trace.c:111-130 | the header of a run starts with the bytes 72 74 70 66 01 00 00 00, then the mode, the HMAC and the flags |
| TraceLayout.StreamInFull | cc_fips/src/fipspost_trace.c:192-249 | the offsets of the stream: 52 bytes of header, a byte for each event, F1, the number of entries, the table |
| TraceLayout.TableEntry | cc_fips/src/fipspost_trace.c:231-241 | between the entries before it and after it, each table entry is its length and its bytes |
| TraceLayout.ParserCapacity | cc_fips/crypto_test/crypto_test_cc_fips.c:73-108 | the parser takes a trace if and only if it has at most 16384 events and 240 entries |
| TraceLayout.EightDigits | cc_fips/src/fipspost_trace.c:214 | the formatted number is its eight hexadecimal digits by value, most significant first, upper case |
| TraceLayout.ResultIsRead | cc_fips/src/fipspost_trace.c:200-216 | the last event of a successful run resolves in the written table to "-POST_SUCCESS" if and only if the result is 0, and otherwise to "-POST_FAILURE: 0x" and the eight digits of the result; entries 0 and 1 are "-" and "?" |
| TraceLayout.AdmissibleInFull | cc_fips/src/fipspost_trace.c:154-284 | a run is admissible if and only if bit 7 of the mode is set, no name is NULL, there are at most 240 distinct addresses with the reserved ones and the status, and no text is longer than 254 bytes |
| Workspace.PeakWithinSize | cc/corecrypto/cc_workspaces_generated.h:1603-1848 | own allocations plus the maximum over callees bounds what a tree of calls ever uses |
| Workspace.SizeIsPeak | cc/corecrypto/cc_workspaces_generated.h:1603-1848 | the rule is exact for trees whose functions allocate before they call |
| Workspace.Ws.Alloc | cc/src/cc_memory.c:100-106 | the block starts at the old offset and is new; the abort check passes exactly if the block fits or the sum wraps around |
| Workspace.Ws.Restore | cc/corecrypto/cc_memory.h:121-122 | the offset is back and the blocks of the closed frame are gone, the older ones stay |
| Workspace.Ws.Clear | cc/src/cc_memory.c:108-112 | every unit is zeroed and the check does not trip |
| Workspace.Ws.Free | cc/src/cc_memory.c:124-129 | the workspace is empty and detached and the check does not trip |
| Workspace.RunBody | cc/src/cc_memory.c:100-106 | a run trips the abort check if and only if its peak does not fit above the offset; otherwise all blocks live at any moment are disjoint and in bounds |
| Workspace.RunCall | cc/corecrypto/cc_memory.h:121-122 | a bracketed call also restores the offset and the caller's live blocks |
| Workspace.RunWithWorkspace | cc/corecrypto/cc_memory.h:91-119 | on a workspace of the computed size no check trips in any run, live blocks are disjoint and in bounds throughout, and the buffer ends cleared |
| WorkspaceSizes.GenericIsMaximum | cc/corecrypto/cc_workspaces_generated.h:1603-1848 | each generic size is exactly the maximum over the functions it may dispatch to, for all n |
| WorkspaceSizes.EntryDominates | cc/corecrypto/cc_workspaces_generated.h:1100-1199 | what each function of each table allocates and calls fits its own size |
| WorkspaceSizes.ShortestDivisorIsWorst | ccn/src/ccn_div.c:58-95 | the division's buffers are largest for a divisor of one significant unit |
| WorkspaceSizes.ChainSizes | cc/corecrypto/cc_workspaces_generated.h:1779-1812 | the power and square-root sizes in closed form |
| WorkspaceSizes.MontgomerySizes | cc/corecrypto/cc_workspaces_generated.h:1687-1728 | the Montgomery set-up and power sizes in closed form |
| WorkspaceSizes.PrimalitySizes | cc/corecrypto/cc_workspaces_generated.h:1202-1224 | the blinding and primality sizes in closed form |
| WorkspaceSizes.OneLevel | cc/corecrypto/cc_workspaces_generated.h:1603-1848 | own allocations plus the size of any function that may be called never exceed the caller's size |
| WorkspaceSizes.BoundMonotone | cc/corecrypto/cc_workspaces_generated.h:1603-1848 | the sizes grow with n |
| WorkspaceSizes.RunFits | cc/corecrypto/cc_workspaces_generated.h:1603-1848 | whatever variant is chosen at every level of the chains, every run fits the size of its entry point |
| WorkspaceSizes.RunInGeneratedSize | cc/corecrypto/cc_memory.h:91-119 | any of these functions, run on a workspace of its generated size, never aborts, keeps blocks disjoint and leaves the buffer cleared |
| WorkspaceExact.RuleIsExact | cc/corecrypto/cc_workspaces_generated.h:1603-1848 | every size is own allocations plus the size of the heaviest callee, for all n, apart from one unit for ccn_div_use_recip and four for ccn_div_euclid |
| X963.StreamAt | ccansikdf/src/ccansikdf_x963.c:37-46 | byte j of block i of the stream is byte j of the hash of Z, counter i and the shared information |
| X963.KeyAt | ccansikdf/src/ccansikdf_x963.c:64-77 | byte k of a key is byte k mod outlen of the hash with counter k div outlen + 1; the key has klen bytes |
| X963.ShorterIsPrefix | ccansikdf/src/ccansikdf_x963.c:64-77 | the key for a shorter length is a prefix of the key for a longer one |
| X963.CounterIsUnique | ccansikdf/src/ccansikdf_x963.c:38-45 | equal hash inputs have equal counters, so no two blocks hash the same bytes |
| X963.BlockInputInFull | ccansikdf/src/ccansikdf_x963.c:38-45 | a block hashes Z, then its counter in four bytes with the most significant first, then the shared information |
| X963.KeyInFull | ccansikdf/src/ccansikdf_x963.c:37-77 | byte k of the key is byte k mod outlen of the hash of Z, the four bytes with value k div outlen + 1, and the shared information |
| X963Kdf.AcceptedExactly | ccansikdf/src/ccansikdf_x963.c:29-35 | the accepted lengths are those up to outlen (2^32 - 2), and the last outlen - 1 values of size_t |
| X963Kdf.StricterThanStandard | ccansikdf/corecrypto/ccansikdf.h:37-38 | compared with the limit in the header, exactly the lengths of the last block are refused |
| X963Kdf.RefusedWithinStandard | ccansikdf/src/ccansikdf_x963.c:33-35 | a concrete length within the limit is refused |
| X963Kdf.AcceptedWithoutContexts | ccansikdf/src/ccansikdf_x963.c:29-35 | the accepted lengths without any context are exactly 0 and the wrapped ones |
| X963Kdf.FinalInBounds | ccansikdf/src/ccansikdf_x963.c:66-75 | the loop bound of final stays within the contexts exactly for the lengths from 1 that do not wrap |
| X963Kdf.EmptyKeyIsAccepted | ccansikdf/src/ccansikdf_x963.c:66 | length 0 is accepted, has no context, and makes the loop bound the largest size_t |
| X963Kdf.Kdf.Init | ccansikdf/src/ccansikdf_x963.c:26-49 | accepted lengths leave every context with Z and its counter absorbed; others return the parameter error and touch no context |
| X963Kdf.Kdf.Update | ccansikdf/src/ccansikdf_x963.c:51-62 | every context absorbs the data; NULL or empty data changes nothing |
| X963Kdf.Kdf.PutBlock | ccansikdf/src/ccansikdf_x963.c:69-72 | one turn of the loop appends a whole block at the moving pointer |
| X963Kdf.Kdf.PutLast | ccansikdf/src/ccansikdf_x963.c:74-76 | the last block is cut to what the key still needs |
| X963Kdf.Kdf.Final | ccansikdf/src/ccansikdf_x963.c:64-77 | where the loop stays within the contexts, which is said exactly, the first klen bytes of the buffer become the specified key and the rest is unchanged |
| X963Kdf.Streamed | ccansikdf/src/ccansikdf_x963.c:26-77 | init, any updates and final give, for every length, the key of the joined shared information, the error and an untouched buffer, or the exact report that final runs past the contexts |
| X963Kdf.Derive | ccansikdf/src/ccansikdf_x963.c:79-105 | the one-shot function gives the same |
| X963Kdf.JoinedParts | ccansikdf/src/ccansikdf_x963.c:51-62 | updates join part by part |
| X963Kdf.CutAnywhere | ccansikdf/src/ccansikdf_x963.c:51-62 | cutting an update in two, with NULL and empty updates between, does not change what is absorbed |
| FaultCanary.HeavisideStep | cc/corecrypto/cc_priv.h:658-662 | 0 for zero and 1 for every other 64-bit value |
| FaultCanary.CmpSafe | cc/src/cc_cmp_safe.c:15-29 | 0 if there is something to compare and all of it is equal, otherwise 1 |
| FaultCanary.CanaryEqual | cc/src/cc_cmp_safe.c:15-29 | the comparison of two canaries decides their equality |
| FaultCanary.LaneGrows | cc/src/cc_fault_canary.c:30-34 | a further byte enters the fold of its own position modulo 16 and no other |
| FaultCanary.SetFirst | cc/src/cc_fault_canary.c:24-27 | the first loop combines differences, read cyclically, with the canary, which may be the output buffer |
| FaultCanary.SetRest | cc/src/cc_fault_canary.c:30-34 | the second loop folds every later difference into its position |
| FaultCanary.Set | cc/src/cc_fault_canary.c:20-35 | each output byte is the canary byte xor the fold of the differences of its position |
| FaultCanary.Check | cc/src/cc_fault_canary.c:20-35 | the canary compares equal if and only if every fold is zero |
| FaultCanary.EqualInputsPass | cc/src/cc_fault_canary.c:20-35 | equal inputs of any length pass |
| FaultCanary.ShortInputsAreDecided | cc/src/cc_fault_canary.c:20-35 | up to 16 bytes, exactly the equal inputs pass |
| FaultCanary.LoneDifferenceIsCaught | cc/src/cc_fault_canary.c:20-35 | at any length, a difference alone in its position modulo 16 is caught |
| FaultCanary.LongInputsCanCancel | cc/src/cc_fault_canary.c:20-35 | at every length beyond 16, some unequal inputs pass |
| BitCounts.Clz | cc/corecrypto/cc_priv.h:398-430 | the branch-free loop brackets the value between neighbouring powers of two; a zero word gives the width |
| BitCounts.Ctz | cc/corecrypto/cc_priv.h:432-464 | the branch-free loop finds the largest power of two that divides the value; a zero word gives the width |
| BitCounts.Ffs | cc/corecrypto/cc_priv.h:560-608 | 0 for a zero word, otherwise one more than the trailing zeros |
| BitCounts.UnlessBit | cc/corecrypto/cc_priv.h:405-409 | masking with bit - 1 keeps the counter for a zero bit and clears it for a one |
| BitCounts.ClzIsUnique | cc/corecrypto/cc_priv.h:398-430 | the bracketing leaves only one count |
| BitCounts.CtzIsUnique | cc/corecrypto/cc_priv.h:432-464 | the divisibility leaves only one count |
| BitCounts.FfsIsCtzPlusOne | cc/corecrypto/cc_priv.h:560-608 | for a nonzero word ffs is ctz plus one |
| BitCounts.ClzSplits | cc/corecrypto/cc_priv.h:415-430 | the count of a double word is that of its high half, or the width plus that of its low half |
| PostRunner.RunTests | cc_fips/src/fipspost_post.c:121-200 | the tests run in order up to the first failure that counts, whose position and result make the code; otherwise the last result or NOPANIC decides |
| PostRunner.Post.Run | cc_fips/src/fipspost_post.c:79-200 | the same from the caller's mode, with the image header remembered between calls in the kernel build |
| PostRunner.PolicyBits | cc_fips/corecrypto/fipspost.h:43-64 | force-fail is bit 4 of the mode outside the kernel and bit 5 inside, NOINTEG is bit 6, NOPANIC is bit 8 |
| PostRunner.StopsAt | cc_fips/src/fipspost_post.c:121-136 | with the force-fail bit clear, the first failing test, integrity excepted if bit 6 is set, makes the code -1000 (k + 1) + result |
| PostRunner.ResultsInFull | cc_fips/src/fipspost_post.c:88-89 | every test is given the caller's mode with bit 3 set, in the order of the source |
| PostRunner.FirstCounted | cc_fips/src/fipspost_post.c:127-131 | finds the least test whose failure stops the run |
| PostRunner.ZeroExactly | cc_fips/src/fipspost_post.c:127-131 | with FORCEFAIL clear, 0 is returned exactly if no failure counts or the first one cancels its position |
| PostRunner.ZeroMeansPassed | cc_fips/src/fipspost_post.c:147-200 | with the force-fail bit clear and results below 1000, 0 is returned if and only if every test passes, apart from integrity if bit 6 is set |
| PostRunner.ZeroCanHideFailure | cc_fips/src/fipspost_post.c:130 | with larger results a failing run can return 0 |
| PostRunner.CodeDecodes | cc_fips/src/fipspost_post.c:130 | position and result are recovered from a code whenever the result lies in a known window of a thousand values |
| PostRunner.CodesCollide | cc_fips/src/fipspost_post.c:130 | two failures share a code if and only if their results differ by a thousand times the difference of their positions |
| PostRunner.SameOutcome | cc_fips/src/fipspost_post.c:121-136 | two failing runs return the same value if and only if their first counted failures collide in this way |
| PostRunner.RecoverableExactly | cc_fips/src/fipspost_post.c:130 | codes name position and result uniquely if and only if no two different results agree modulo 1000 |
| PostRunner.FailureIsNamed | cc_fips/src/fipspost_post.c:121-136 | with results in a window of a thousand values around 0, a nonzero return names the first test that neither passed nor was waived, and its result |
| PostRunner.IndicatorFailure | cc_fips/src/fipspost_post_indicator.c:297 | a failing indicator test gives -2999, which names it in the window that ends with 1 and would name the integrity test in the one that ends with 0 |
| PostRunner.ForceFailRunsAll | cc_fips/src/fipspost_post.c:153-200 | with the force-fail bit set all tests run, and the last result decides unless bit 8 is set |
| PostRunner.NoPanicChangesNothing | cc_fips/src/fipspost_post.c:198-199 | with FORCEFAIL clear NOPANIC has no effect |

## Left out

- CastSchedule.SetKey: the C function's local buffers x, z, X, Z and k are sequences updated by position, so aliasing between them is not modelled; the key object and the caller's key bytes are heap objects.
- CastEcb.EcbEncrypt: buffers that overlap with the output ahead of the unread input are excluded, as they are by the mode interface; the same holds for the other three block loops.
- Words.Rol: rotation by 0 is a true rotation; the C fallback shifts by 32 in that case, which the language leaves undefined.
- BlowfishSetup.Setup: key lengths outside 8 to 56 bytes are excluded, as the function's assertions do.
- TraceFormat.HeaderRoundTrip: the little-endian layout is fixed, as on all platforms that write the stream.
- TraceFormat.ParseBuffer: where the C test both reads past the buffer and overflows a fixed array, the model reports one of the two.
- Tracer.Recorder.Call: the text behind a name address does not change during a session; the recorder's comments demand this of callers, and the status text lives until the table is written.
- Tracer.Recorder.Start: logging is not modelled, and a writer's return code is a function of its history.
- Workspace.Ws.Alloc: which block a request gets whose sum wraps around is not stated, only that the check passes; such a block would lie outside the buffer.
- Workspace.RunWithWorkspace: allocation failure of the heap variant is not modelled.
- WorkspaceSizes.Bound: wrap-around of cc_size in the size functions is not modelled, nor are the assembly tables or the other generated families (ccn, ccec, ccrsa, ccdh), which repeat the same two shapes.
- X963Kdf.Kdf.Final: what C does once the loop has passed the contexts is undefined; the method reports it and stops.
- X963Kdf.Derive: clearing the context on the way out is not modelled, and the final state of the hash contexts is not stated.
- BitCounts.Clz: the 32- and 64-bit loops are one method with the width as parameter; the compiler intrinsics that replace the fallbacks are not modelled.
- FaultCanary.Set: a length of 0 is excluded, since the code then divides by zero; the input buffers must not be the output.
- PostRunner.Post.Run: the individual tests are parameters, timing, logging and trace events are not modelled, and codes are unbounded integers.
- Literal S-box and P-array contents, known-answer tests and the HMAC of the module image.
- AES, ChaCha20-Poly1305, GCM, CCM, XTS, RSA, elliptic curves and the DRBGs.
- Inline assembly, intrinsics, constant-time behaviour, secure erasure, thread safety, kext and sysctl plumbing.
- Byte swaps and the little-endian and 64-bit loads and stores, which would only add easy members.
