# Firmware verification

A Dafny model of the parts of the IoT monitoring firmware that protect, store and move its data, with
proofs about them. Loops over buffers are methods over arrays, the objects and static state the source
updates in place are classes, and formats and modes are functions; each method is proved against its
function, and the functions' laws are lemmas.

`dafny verify dfyconfig.toml` checks everything.

## What is modelled

- **Cryptography** (`lib/mbedtls/library`). `GaloisField`, `AesColumns` and `AesTables` derive the AES
  tables from the generator loops: 3 generates the field, so logarithms multiply. `AesCipher` states the
  cipher and the equivalent inverse cipher of FIPS 197 and proves the second inverts the first;
  `AesContext` proves the key-schedule loops and the table-driven block functions against it, and
  `AesBytes` says what they do to each byte. `CbcMode`,
  `XtsMode`, `StreamModes` and `Ccm` are proved over an abstract block function, which `AesModes` fills
  in. `CipherStream` and `Padding` are the caching layer of `cipher.c`: its output does not depend on how
  the caller cuts the data.
- **Transport sessions and replay window** (`firmware/shared`). `Transport` follows two sessions across a
  channel that drops, repeats and reorders; `Replay` shows that the 64-bit window is a fast form of the
  set of accepted nonces.
- **Historian** (`firmware/hub`). `HistorianRecords`, `HistorianRing`, `Historian` and `HistorianRuns`: the
  encrypted ring as a sequence, what eviction leaves after any run of writes, and what a restart recovers.
  The capacity is a parameter of at least 64.
- **Gateway to Hub** (`firmware/gateway`). `GatewayCache`, `BatchCodec`, `GatewayAuth` and
  `GatewayPipeline`: cache, frame codec, authentication, trust filter, and the convergence of the Hub's
  values to the cache over any run.
- **Field links** (`firmware/shared`). `Crc16` and `LinkFraming`: both checks as linear maps, detection of
  two-byte bursts, and the RS-485 and LoRa frame formats.
- **Firmware update and telemetry** (`firmware/shared`, `cloud`). `Ota` covers the chunked transfer, the
  two flash slots, and the device identity; `Telemetry` the store's count of distinct series.

`Arith`, `Bytes`, `Words`, `Counter` and `LittleEndian` hold what these share. HMAC-SHA256 is a function of
which only the output length is known, and a float is four bytes with an equality test of which nothing is
assumed.

## Where the code and its comments disagree

The model follows the code.

- `ota_session_abort` says that the next begin cleans up (`firmware/shared/ota_session.c:189-194`); the next
  begin is refused, because the flash update is still in progress (`Ota.AbortBlocksRestart`).
- The self check after an update is meant to run after the reboot (`firmware/shared/ota_session.c:211-252`),
  but initialisation discards the pending version at every boot (`firmware/shared/device_identity.c:43-80`),
  so it finds nothing to confirm (`Ota.RebootForgets`).
- A manifest carries an image HMAC, which the session does not compare (`Ota.Update` holds for every one); the
  last chunk of a transfer may reach beyond the announced image size (`Ota.Overshoot`, `Ota.Deliver`).
- The self check is written to roll back when a module fails to initialise, but the four initialisers always
  answer true (`Ota.SelfCheckAlwaysConfirms`).
- `mbedtls_ccm_star_encrypt_and_tag` with no tag sets the five upper bits of the flags byte, where the fields
  shown for it in the comments would be zero (`Ccm.FlagBitsNoTag`).
- The historian's nonce comment names the ring index and a monotonic counter, and calls their difference critical
  (`firmware/hub/historian.c:50-55`); the callers pass the ring position twice. A nonce comes back whenever its
  position does: when the ring has gone round (`HistorianRuns.NoncesOfRun`), and after a restart for every
  record that was lost (`HistorianRuns.RestartReuses`).
- A version 1 batch frame is encoded with an eight-byte header and decoded with a four-byte one
  (`BatchCodec.VersionOneExactly`); the encoder's size check does not count the tag (`BatchCodec.EncodeFrame`).
- A LoRa packet built without a payload still announces the length it was given
  (`LinkFraming.LoraWireAccepted`).
- A transport session refuses old frames, but not those of an earlier session (`Transport.AnySessionTakes`).
- The Hub takes an authentic batch again whatever its sequence number (`GatewayPipeline.ConvergedAgain`).
- The pending limit is said never to be reached under steady load, as the 60-second timer fires first
  (`firmware/hub/historian.h:88-91`); after a start the timer is idle until 64 records have been flushed once
  (`Historian.FlushDueIs`).
- With the historian's clock set back, eviction takes new records for old ones
  (`HistorianRing.TooOldExactly`, `HistorianRing.ClockBackwardsEmpties`).
- The Hub asks for the trust of a 16-bit node id by its low byte, so ids 256 apart share
  their trust (`GatewayPipeline.SharedTrust`).
- A series key joins tags by colons without escaping them, so the number of keys is the number of series only
  when no two points collide (`Telemetry.AmbiguousExactly`, `Telemetry.Store.CountedExactly`).
- Zero padding does not record how much of it there is (`Padding.ZerosRoundTrip`).

## Model

| member | source | states |
|---|---|---|
| AesCipher.DecryptEncrypt | lib/mbedtls/library/aes.c:589-1007 | For every 128-, 192- or 256-bit key and every block, the equivalent inverse cipher under the reversed and inverse-mixed schedule returns the block the cipher encrypted |
| AesCipher.EqInvCipherInverse | lib/mbedtls/library/aes.c:853-1007 | Decryption under the transformed schedule inverts encryption for every list of round keys, however they were expanded |
| AesCipher.InvRoundsFollow | lib/mbedtls/library/aes.c:952-1007 | After i inverse rounds the state is the forward state of that many rounds fewer than all full rounds, before its shift and substitution are undone |
| AesColumns.InvMixColumnInverse | lib/mbedtls/library/aes.c:425-458 | Column mixing with 0E, 0B, 0D, 09 undoes mixing with 02, 03, 01, 01 on every column |
| AesColumns.InvMixColumnLinear | lib/mbedtls/library/aes.c:728-735 | Inverse mixing distributes over key addition, which is what allows transformed round keys |
| AesColumns.SboxInverse | lib/mbedtls/library/aes.c:409-423 | The two S-boxes undo each other on every byte |
| GaloisField.PowSurjective | lib/mbedtls/library/aes.c:392-396 | The generator 3 reaches every non-zero byte with an exponent from 1 to 255 |
| GaloisField.PowInjective | lib/mbedtls/library/aes.c:392-396 | No byte is reached twice within 255 steps, so the log table is a function |
| GaloisField.LogMul | lib/mbedtls/library/aes.c:379 | Adding logarithms modulo 255 multiplies in the field of section 4 of FIPS 197 |
| GaloisField.InverseIsInverse | lib/mbedtls/library/aes.c:412-413 | pow[255 - log[i]] is the multiplicative inverse |
| AesBytes.ProductSteps | lib/mbedtls/library/aes.c:378-379 | The field product, one bit of the multiplier at a time, reduced by 0x1B |
| AesBytes.SboxIs | lib/mbedtls/library/aes.c:409-423 | The S-box of x is the affine map of section 5.1.1 of FIPS 197, constant 0x63, applied to a field inverse of x, zero for zero |
| AesTables.GenerateTables | lib/mbedtls/library/aes.c:383-459 | The generator loops fill the S-boxes, the eight fused tables and the round constants with the values FIPS 197 defines |
| AesTables.MulByLogs | lib/mbedtls/library/aes.c:379 | The table macro computes the field product, zero operands included |
| AesTables.GenerateSboxes | lib/mbedtls/library/aes.c:409-423 | The S-box loop stores the inverse followed by the affine map, and the reverse table at its value |
| AesTables.ForwardColumn | lib/mbedtls/library/aes.c:829-851 | Four rotated forward-table words add up to a mixed column |
| AesTables.ReverseColumn | lib/mbedtls/library/aes.c:853-875 | Four rotated reverse-table words add up to an inverse-mixed column |
| AesContext.Context.SetKeyEnc | lib/mbedtls/library/aes.c:589-684 | The three key-schedule loops write the words of KeyExpansion (section 5.2 of FIPS 197), for keys of 16, 24 and 32 bytes and no others, which leave the context alone |
| AesContext.KeyByte | lib/mbedtls/library/aes.c:620-622 | The first words of the buffer it fills are the bytes of the key in order |
| AesContext.ScheduleByte | lib/mbedtls/library/aes.c:622-680 | Every further byte of that buffer, from those one and nk words before: at multiples of nk byte (j + 1) mod 4 through the S-box and the round constant into byte 0, for the longest keys byte j through the S-box halfway, else byte j as it is |
| AesContext.RoundConstantBytes | lib/mbedtls/library/aes.c:398-404 | The round constants are the powers of two, then 0x1B and 0x36 |
| AesContext.Context.SetKeyDec | lib/mbedtls/library/aes.c:691-746 | The decryption schedule is the encryption schedule reversed, its inner words inverse-mixed through the tables |
| AesContext.InverseKeyWord | lib/mbedtls/library/aes.c:729-734 | Reverse-table lookups of S-box outputs are InvMixColumns of the key word |
| AesContext.Context.EncryptBlock | lib/mbedtls/library/aes.c:881-936 | The table rounds, two per iteration, compute the cipher of section 5.1 of FIPS 197 |
| AesBytes.FirstByte | lib/mbedtls/library/aes.c:881-900 | The first step adds the round key to the block byte by byte |
| AesBytes.RoundByte | lib/mbedtls/library/aes.c:829-851 | Byte r of column c after a full round, from four substituted bytes of the shifted diagonal, the factors 2, 3, 1, 1, and the round key |
| AesBytes.LastRoundByte | lib/mbedtls/library/aes.c:905-930 | The last round shifts and substitutes without mixing |
| AesBytes.CipherRounds | lib/mbedtls/library/aes.c:881-936 | Key addition, full rounds one after the other, and one last round make the cipher |
| AesBytes.RoundKeyByte | lib/mbedtls/library/aes.c:881-936 | Round key i is words 4 i to 4 i + 3 of the expanded key |
| AesContext.Context.DecryptBlock | lib/mbedtls/library/aes.c:952-1007 | The reverse-table rounds compute the equivalent inverse cipher of section 5.3.5 |
| AesContext.RoundTrip | lib/mbedtls/library/aes.c:589-1007 | End to end through both contexts: decrypting under a decryption schedule gives back the block |
| AesModes.AesPair | lib/mbedtls/library/aes.c:881-1007 | AES meets what the mode theorems ask of a block cipher: decryption undoes encryption on every block; and the block function they are given is the cipher under the key schedule |
| AesModes.AesCbcInverse | lib/mbedtls/library/aes.c:1084-1157 | CBC over AES is inverted for every key, initial value and message |
| AesModes.AesXtsInverse | lib/mbedtls/library/aes.c:1190-1299 | XTS over AES is inverted for every pair of keys, unit number and length from 16 bytes |
| CbcMode.CbcRoundTrip | lib/mbedtls/library/aes.c:1084-1157 | If D undoes E, CBC decryption undoes CBC encryption |
| CbcMode.CbcEncryptAt | lib/mbedtls/library/aes.c:1137-1151 | Each ciphertext block is the encryption of its plaintext block added to the ciphertext block before, or to the initial value |
| CbcMode.CbcDecryptAt | lib/mbedtls/library/aes.c:1119-1135 | Each plaintext block is the decryption of its ciphertext block, added to the one before |
| CbcMode.CbcEncryptAppend | lib/mbedtls/library/aes.c:1137-1151 | Encrypting in two calls with the chaining value carried over is encrypting the whole |
| CbcMode.CryptCbcEncrypt | lib/mbedtls/library/aes.c:1137-1151 | The in-place loop writes CBC of section 6.2 of NIST SP 800-38A at the offset, touches nothing else, and leaves the last ciphertext block in iv |
| CbcMode.CryptCbcDecrypt | lib/mbedtls/library/aes.c:1119-1135 | The in-place loop writes CBC decryption at the offset, touches nothing else, and leaves the last input block in iv |
| CipherStream.Context.Update | lib/mbedtls/library/cipher.c:550-629 | Whatever is fed in, what has been emitted is one-shot CBC of the full blocks processed, the remainder is cached in order, and nothing outside the emitted range is written |
| CipherStream.Context.Accounting | lib/mbedtls/library/cipher.c:550-629 | Bytes emitted plus bytes cached equal bytes consumed, at all times |
| CipherStream.Context.Finish | lib/mbedtls/library/cipher.c:898-993 | Encryption appends the padded last block; decryption demands whole blocks and succeeds exactly when the last block unpads, reporting its data length |
| CipherStream.PaddedIs | lib/mbedtls/library/cipher.c:715-855 | What each padding mode appends, byte by byte |
| CipherStream.UnpadsIs | lib/mbedtls/library/cipher.c:726-895 | When a last block is well padded, and how much of it is data, from its bytes |
| CipherStream.EncryptChunks | lib/mbedtls/library/cipher.c:485-993 | For any split of a message, the outputs concatenate to one-shot CBC of the padded message |
| CipherStream.DecryptChunks | lib/mbedtls/library/cipher.c:485-993 | For any split of a ciphertext of a padded message, exactly the message comes back |
| CipherStream.RoundTrip | lib/mbedtls/library/cipher.c:485-993 | Encrypting under any split and decrypting under any other returns the message, for every reversible padding |
| Padding.GetPkcs | lib/mbedtls/library/cipher.c:726-751 | The mask loop accepts exactly when the last p bytes equal p with 1 <= p <= length (section 6.3 of RFC 5652) |
| Padding.AddPkcs | lib/mbedtls/library/cipher.c:715-724 | Writes PKCS7 padding after the data and nothing else |
| Padding.PkcsRoundTrip | lib/mbedtls/library/cipher.c:715-751 | The padding length of a padded block is unique, so removal finds the original data length |
| Padding.GetOneAndZeros | lib/mbedtls/library/cipher.c:770-796 | Accepts exactly the blocks that end in 0x80 and zeros, and reports where the 0x80 is |
| Padding.OneAndZerosRoundTrip | lib/mbedtls/library/cipher.c:758-796 | In a padded block the place of the 0x80 is unique and is the data length |
| Padding.GetZerosAndLen | lib/mbedtls/library/cipher.c:815-840 | Accepts exactly the blocks whose last byte p follows p - 1 zeros |
| Padding.ZerosAndLenRoundTrip | lib/mbedtls/library/cipher.c:803-840 | For such a block p is unique and gives the original data length |
| Padding.GetZeros | lib/mbedtls/library/cipher.c:857-876 | Reports one more than the index of the last non-zero byte |
| Padding.ZerosRoundTrip | lib/mbedtls/library/cipher.c:847-876 | Zero padding gives the data length back if and only if the data is empty or ends in a non-zero byte |
| Padding.ZerosCounterexample | lib/mbedtls/library/cipher.c:847-876 | A message ending in a zero byte loses it |
| XtsMode.NextTweakIsMulX | lib/mbedtls/library/aes.c:1172-1185 | The two-word shift with its table-free reduction is multiplication by x modulo x^128 + x^7 + x^2 + x + 1 |
| XtsMode.PolyInjective | lib/mbedtls/library/aes.c:1172-1185 | Blocks and field elements correspond one to one, so that step is the only one with this meaning |
| XtsMode.TweakSteps | lib/mbedtls/library/aes.c:1219-1254 | The first tweak as given, each further one multiplied by x |
| XtsMode.MulXIs | lib/mbedtls/library/aes.c:1172-1185 | Multiplication by x shifts and adds 0x87 for the bit shifted out |
| XtsMode.XtsEncryptAt | lib/mbedtls/library/aes.c:1242-1258 | A block outside stealing is added to its tweak, encrypted, and added to the tweak again |
| XtsMode.XtsDecryptAt | lib/mbedtls/library/aes.c:1242-1258 | The same for decryption |
| XtsMode.XtsEncryptSteals | lib/mbedtls/library/aes.c:1261-1296 | The last full block gives up its head as the partial block; its tail fills up the rest, which is encrypted under the next tweak |
| XtsMode.XtsDecryptSteals | lib/mbedtls/library/aes.c:1228-1296 | Decryption does so with the last two tweaks exchanged |
| XtsMode.XtsInverse | lib/mbedtls/library/aes.c:1190-1299 | Decryption inverts encryption for every length of at least one block, with ciphertext stealing and the last two tweaks exchanged (sections 5.3 and 5.4 of IEEE Std 1619-2007) |
| XtsMode.StolenInverse | lib/mbedtls/library/aes.c:1261-1296 | Stealing with exchanged tweaks undoes stealing, on the last full block and the partial one |
| XtsMode.CryptXts | lib/mbedtls/library/aes.c:1190-1299 | The buffer loops compute the standard; lengths below 16 bytes or above 2^20 blocks are refused and leave the output alone |
| StreamModes.ChunkIndependence | lib/mbedtls/library/aes.c:1306-1513 | For each of these modes, any split with the state carried over gives the same bytes and the same final state |
| StreamModes.RunInverse | lib/mbedtls/library/aes.c:1306-1513 | A byte machine that undoes another in every state undoes it on every input |
| StreamModes.OfbInverse | lib/mbedtls/library/aes.c:1419-1457 | OFB undoes itself |
| StreamModes.CtrInverse | lib/mbedtls/library/aes.c:1464-1513 | CTR undoes itself |
| StreamModes.CfbInverse | lib/mbedtls/library/aes.c:1306-1367 | CFB128 decryption undoes encryption and ends in the same state |
| StreamModes.Cfb8Inverse | lib/mbedtls/library/aes.c:1372-1412 | CFB8 decryption undoes encryption and ends in the same state |
| StreamModes.OfbReference | lib/mbedtls/library/aes.c:1419-1457 | Byte i meets byte i mod 16 of the initial value encrypted i / 16 + 1 times over (section 6.4 of NIST SP 800-38A) |
| StreamModes.CtrReference | lib/mbedtls/library/aes.c:1464-1513 | Byte i meets byte i mod 16 of the encrypted counter plus i / 16 (section 6.5) |
| StreamModes.CtrCountersDistinct | lib/mbedtls/library/aes.c:1496-1500 | No counter block repeats within 2^128 blocks |
| StreamModes.CfbReference | lib/mbedtls/library/aes.c:1306-1367 | Each ciphertext block is the plaintext plus the encryption of the previous ciphertext block (section 6.3) |
| StreamModes.Cfb8Reference | lib/mbedtls/library/aes.c:1372-1412 | The register is always the last 16 bytes of initial value and ciphertext |
| StreamModes.CryptOfb | lib/mbedtls/library/aes.c:1419-1457 | The loop with its offset runs the OFB machine; an offset above 15 is refused with everything unchanged |
| StreamModes.CryptCfb128 | lib/mbedtls/library/aes.c:1306-1367 | The loop runs the CFB128 machine in either direction, with register and offset carried out; an offset above 15 is refused with everything unchanged |
| StreamModes.CryptCfb8 | lib/mbedtls/library/aes.c:1372-1412 | The loop runs the CFB8 machine in either direction and leaves its register in iv |
| StreamModes.CryptCtr | lib/mbedtls/library/aes.c:1464-1513 | The loop runs the CTR machine, with counter, stream block and offset carried out; an offset above 15 is refused with everything unchanged |
| Counter.IncrementFrom | lib/mbedtls/library/aes.c:1496-1500 | The carry loop adds one to the big-endian bytes from a position on, wrapping at their width |
| Counter.AddToValue | lib/mbedtls/library/aes.c:1496-1500 | k increments add k modulo 256 to the width |
| Ccm.AuthCrypt | lib/mbedtls/library/ccm.c:133-302 | The in-place loops produce the CTR encryption, and as tag the last CBC ciphertext block over the formatted data added to the encrypted counter block 0 (sections 6.1 and 6.2 of NIST SP 800-38C); exactly the admissible lengths are accepted, and refusal leaves the output unchanged |
| Ccm.MacOfFormatted | lib/mbedtls/library/ccm.c:199-274 | The chaining value taken through first block, additional data and payload in turn is the CBC-MAC over all formatted blocks of appendix A.2 |
| Ccm.MacIsCbc | lib/mbedtls/library/ccm.c:105-110 | The CBC-MAC is the last ciphertext block of CBC over the same blocks |
| Ccm.TagIs | lib/mbedtls/library/ccm.c:291-299 | The tag, through CBC and the key stream block of counter 0 |
| Ccm.FormattedBytes | lib/mbedtls/library/ccm.c:199-274 | What is authenticated, byte by byte: first block, length and additional data padded with zeros, payload padded with zeros |
| Ccm.FirstBlockBytes | lib/mbedtls/library/ccm.c:171-196 | The places of flags, nonce and length in the first block |
| Ccm.CounterBlockBytes | lib/mbedtls/library/ccm.c:234-247 | The places of flags, nonce and counter in a counter block |
| Ccm.CryptPayload | lib/mbedtls/library/ccm.c:255-289 | The payload loop, partial block included, encrypts with counters 1, 2, ... and authenticates the plaintext in both directions |
| Ccm.PutFirstBlock | lib/mbedtls/library/ccm.c:183-196 | The length field is big-endian, and the call is refused exactly when the length does not fit it |
| Ccm.NextCounterBlock | lib/mbedtls/library/ccm.c:284-288 | The carry loop on the counter field steps from counter block i to i + 1 |
| Ccm.CountersOfCallDistinct | lib/mbedtls/library/ccm.c:244-298 | In every accepted call, counter 0 for the tag and 1 to ceil(length / 16) for the payload give pairwise distinct blocks |
| Ccm.CtrCryptAt | lib/mbedtls/library/ccm.c:255-289 | Payload byte j meets key stream block j / 16 + 1 |
| Ccm.CtrCryptTwice | lib/mbedtls/library/ccm.c:255-289 | The payload encryption undoes itself |
| Ccm.FlagBits | lib/mbedtls/library/ccm.c:183-186 | For the tag lengths CCM allows, the flags byte holds the fields of appendix A.2.1 without overlap |
| Ccm.FlagBitsNoTag | lib/mbedtls/library/ccm.c:156-186 | With tag length 0 the wrapped subtraction sets all five upper bits |
| Ccm.FirstBlockApart | lib/mbedtls/library/ccm.c:183-247 | The first authenticated block is never one of the counter blocks |
| Ccm.EncryptAndTag | lib/mbedtls/library/ccm.c:307-341 | Succeeds exactly on admissible lengths; only the CCM* variant allows an empty tag |
| Ccm.AuthDecrypt | lib/mbedtls/library/ccm.c:346-399 | Accepts exactly when the tag is the one encryption makes; otherwise reports failure and zeroes the output |
| Ccm.RoundTrip | lib/mbedtls/library/ccm.c:307-399 | Decrypting what was encrypted with the same nonce and data is accepted and returns the plaintext |
| Transport.KeysMirror | firmware/shared/transport_encryption.c:37-81 | One peer sends with what the other receives with if and only if their ids differ, up to an HMAC coincidence |
| Transport.KeysAre | firmware/shared/transport_encryption.c:56-295 | The keys: HMAC over the direction name and the two ids in ascending order, cut to 16 bytes |
| Transport.NonceInjective | firmware/shared/transport_encryption.c:97-108 | The CCM nonce determines session id and counter |
| Transport.NonceBytes | firmware/shared/transport_encryption.c:97-108 | Session id, then the counter high byte first, then zeros |
| Transport.NoncesOfSession | firmware/shared/transport_encryption.c:97-181 | Two frames of a session share a nonce exactly when they are a multiple of 2^32 apart |
| Transport.OpenSeal | firmware/shared/transport_encryption.c:110-250 | A sealed frame is opened to its plaintext exactly when its counter has not been passed |
| Transport.ChannelDelivers | firmware/shared/transport_encryption.c:183-250 | Under any drops, repetitions and reorderings of fewer than 2^32 frames, exactly the frames ahead of everything before them are delivered, in order of arrival |
| Transport.WrongMic | firmware/shared/transport_encryption.c:222-248 | A frame with a wrong MIC is not taken and moves nothing |
| Transport.ForgeriesChangeNothing | firmware/shared/transport_encryption.c:183-250 | With frames of wrong MIC anywhere among the arrivals, what is delivered is what the genuine arrivals alone deliver |
| Transport.RecordsIncrease | firmware/shared/transport_encryption.c:183-250 | Each frame is delivered at most once, and never an earlier one after a later one |
| Transport.RecordsSubsequence | firmware/shared/transport_encryption.c:183-250 | What is delivered is a subsequence of the frames that arrived |
| Transport.LosslessDeliversAll | firmware/shared/transport_encryption.c:183-250 | A lossless schedule in order delivers everything |
| Transport.CounterStartsOver | firmware/shared/transport_encryption.c:110-250 | The bound is exact: after frame 2^32 - 1, frame 0 is taken again |
| Transport.AnySessionTakes | firmware/shared/transport_encryption.c:37-250 | A frame sealed in any session between two nodes is taken by any session of the other if and only if its counter has not been passed there |
| Transport.TakenAgain | firmware/shared/transport_encryption.c:37-250 | So a frame taken once is taken again after the receiver has created its next session |
| Transport.CreateSessions | firmware/shared/transport_encryption.c:30-47 | The k-th session since initialisation has id k + 1 modulo 256 |
| Transport.NoncesOfSessions | firmware/shared/transport_encryption.c:30-108 | Frames of any sessions have the same nonce if and only if their sessions are equal modulo 256 and their counters modulo 2^32 |
| Transport.SessionsShareKeyStream | firmware/shared/transport_encryption.c:30-181 | Sessions 256 apart between the same nodes share keys and nonces, so ciphertexts differ as the plaintexts do |
| Transport.Session.Encrypt | firmware/shared/transport_encryption.c:110-181 | Session id, counter, CTR ciphertext and CCM tag under the sending key, and the counter one further modulo 2^32; or refuses and changes nothing |
| Transport.Session.Decrypt | firmware/shared/transport_encryption.c:183-250 | An admissible frame is taken if and only if its MIC is the CCM tag of what it decrypts to under the receiving key, and moves the counter behind its own; every other result, with counter and buffer kept, or the buffer zeroed on a wrong MIC |
| Transport.Subsystem.CreateSession | firmware/shared/transport_encryption.c:37-81 | Sorted node pair, direction labels and a fresh eight-bit session id; without initialisation nothing changes |
| Transport.Exchange | firmware/shared/transport_encryption.c:30-295 | Two created sessions, sends and arbitrary arrivals: what comes out is what the channel theorem says |
| Replay.ReplayTable.Check | firmware/shared/replay_protection.c:57-117 | A frame is accepted exactly when it is fresh against the set of nonces accepted from its node since its last reset; how the reference nonce and time move; other nodes keep their state |
| Replay.WindowIs | firmware/shared/replay_protection.c:84-116 | Bit i of the window is set if and only if nonce highest - i was accepted, and none above the highest was |
| Replay.ReplayTable.Window | firmware/shared/replay_protection.c:84-116 | Every tracked node has such a window |
| Replay.ReplayTable.FindOrAlloc | firmware/shared/replay_protection.c:24-46 | Finds the entry or takes the first free one; fails exactly when the node is new and the table full |
| Replay.ReplayTable.ResetNode | firmware/shared/replay_protection.c:119-127 | Forgets one node and no other |
| Replay.ReplayTable.Reset | firmware/shared/replay_protection.c:50-55 | Forgets all nodes |
| Replay.ReplayTable.FullMeansAllTracked | firmware/shared/replay_protection.c:24-46 | A full table tracks 64 different nodes |
| Replay.ShiftMoves | firmware/shared/replay_protection.c:88-91 | Shifting the bitmap moves every bit up by the shift, for every amount below 64 |
| Replay.TrackAhead | firmware/shared/replay_protection.c:86-92 | Sliding the window keeps bit i set exactly when nonce highest - i was accepted |
| Replay.TrackFar | firmware/shared/replay_protection.c:92-95 | Starting the window over for a nonce 64 or more ahead keeps that meaning of its bits |
| Replay.TrackBehind | firmware/shared/replay_protection.c:101-116 | Marking a nonce behind keeps that meaning, and its bit told whether it was accepted before |
| Replay.Run | firmware/shared/replay_protection.c:24-132 | Over any run of checks and resets, a nonce accepted twice for a node has a reset of that node in between |
| Replay.StaysAccepted | firmware/shared/replay_protection.c:57-127 | An accepted nonce stays in the set until its node is reset |
| Replay.LockedOut | firmware/shared/replay_protection.c:75-117 | A node silent for longer than the tolerance is turned away as stale through any run of events, until it is reset |
| HistorianRecords.DecodeEncode | firmware/hub/historian.c:74-169 | A record encrypted for a ring position decrypts there to the same 24-byte record |
| HistorianRecords.UnpackPack | firmware/hub/historian.h:97-112 | The packed record layout is read back field by field |
| HistorianRecords.PackBytes | firmware/hub/historian.h:97-112 | The places of the fields in a packed record |
| HistorianRecords.UnpackBytes | firmware/hub/historian.h:97-112 | The fields are read from those places |
| HistorianRecords.PositionNonceBytes | firmware/hub/historian.c:50-68 | The ring position, high byte first, twice, then zeros |
| HistorianRecords.EncodeIs | firmware/hub/historian.c:74-121 | A slot is the encrypted packed record followed by its tag |
| HistorianRecords.DecodeIs | firmware/hub/historian.c:126-169 | A slot reads back if and only if its tag is that of what it decrypts to |
| HistorianRecords.PositionNonceInjective | firmware/hub/historian.c:50-68 | Two positions have the same nonce only if they are the same position |
| HistorianRecords.SamePositionLeaks | firmware/hub/historian.c:74-121 | Two records encrypted at one position: their ciphertexts differ exactly as the records do |
| HistorianRing.PositionByMod | firmware/hub/historian.c:370-373 | The two modulo steps address the j-th record from the oldest |
| HistorianRing.ViewWrite | firmware/hub/historian.c:325-337 | Writing a slot appends to the sequence held and disturbs no other record |
| HistorianRing.EvictedIsLongestPrefix | firmware/hub/historian.c:243-262 | Eviction by age drops exactly the stale records before the first one that is not |
| HistorianRing.StaleIs | firmware/hub/historian.c:246-261 | A record is stale if it cannot be read or is too old, the wrap-around of the difference included |
| HistorianRing.KeptExactly | firmware/hub/historian.c:243-267 | Of what is not evicted by age, a write keeps the latest, one less than the capacity |
| HistorianRing.EvictionErrorsIs | firmware/hub/historian.c:256-261 | Eviction counts the unreadable records among those it drops |
| HistorianRing.MatchingIs | firmware/hub/historian.c:373-384 | A record matches if and only if it is held, lies in the time window where bounds are given, and has the node and metric asked for |
| HistorianRing.MatchingSteps | firmware/hub/historian.c:362-385 | Matches come in the order held, each as often as it is held |
| HistorianRing.SearchErrorsIs | firmware/hub/historian.c:362-371 | The error counter takes in the records passed before the search ends |
| HistorianRing.KeptIsRecent | firmware/hub/historian.c:236-268 | With an orderly clock, everything kept is at most 30 days old |
| HistorianRing.TooOldExactly | firmware/hub/historian.c:248-250 | For all pairs of times: a record counts as too old if and only if it is more than 30 days old, or the clock has gone back by less than 2^64 ms short of 30 days |
| HistorianRing.ClockBackwardsEmpties | firmware/hub/historian.c:243-262 | A write stamped before all records held throws all of them away |
| HistorianRing.BackedFlush | firmware/hub/historian.c:193-210 | Once the pending slots are stored, storage restores exactly what memory holds, eviction and wrap-around included |
| Historian.Historian.Init | firmware/hub/historian.c:272-297 | What storage holds becomes what memory holds; a count beyond the capacity leaves the ring empty |
| Historian.Historian.Write | firmware/hub/historian.c:311-346 | New contents are the kept old records followed by the new one; the flush is done exactly when due, and the unflushed part grows by this record otherwise |
| Historian.Historian.Evict | firmware/hub/historian.c:236-268 | Longest stale prefix first, counting the unreadable records in it, then the oldest if still full; storage stays recoverable |
| Historian.Historian.Flush | firmware/hub/historian.c:193-210 | Every pending record is stored at its ring position; nothing held changes |
| Historian.Historian.AutoFlush | firmware/hub/historian.c:220-228 | Flushes at 64 pending records or after a minute, so fewer than 64 are ever pending |
| Historian.FlushDueIs | firmware/hub/historian.c:220-228 | A flush is due with 64 records pending, or a minute after the last one; before the first flush only the number counts |
| Historian.Historian.Read | firmware/hub/historian.c:348-388 | Returns the first max matches of the query, oldest first, each held and within the window, node and metric asked for; skips undecryptable records and counts those met before the search ends |
| Historian.Conservation | firmware/hub/historian.c:252-267 | From an empty start, written less evicted is what is held |
| Historian.CrashAndRecover | firmware/hub/historian.c:193-297 | Restarting between any two operations holds exactly what was held at the last flush; fewer than 64 written records are lost, namely those since |
| HistorianRuns.RetainedIs | firmware/hub/historian.c:236-346 | After any run of writes with an orderly clock, what is held is the longest end of all that was written that fits the capacity and reaches back at most 30 days |
| HistorianRuns.WriteAll | firmware/hub/historian.c:311-346 | The ring holds exactly what write-by-write retention says, its statistics account for every record, and storage holds the same of the first k records |
| HistorianRuns.RunAndRecover | firmware/hub/historian.c:193-297 | After any run of writes, a restart holds what the first k records would have left, and fewer than 64 are missing |
| HistorianRuns.WriteSlots | firmware/hub/historian.c:311-346 | The i-th write of a run from write index w encrypts at position (w + i) mod capacity |
| HistorianRuns.NoncesOfRun | firmware/hub/historian.c:311-346 | Two writes of a run have the same nonce if and only if they are a multiple of the capacity apart |
| HistorianRuns.RestartReuses | firmware/hub/historian.c:272-346 | Across a restart, write j after it has the nonce of write i before it if and only if i and j differ by the records kept, modulo the capacity: the nonces of the lost records are used again |
| HistorianRuns.RestartLeaks | firmware/hub/historian.c:272-346 | One record written and lost, one written after the restart: both are under one key stream |
| GatewayCache.Cache.Write | firmware/gateway/stateful_cache.c:47-80 | New or changed values are stored dirty, equal ones suppressed, a full cache refuses new keys; the statistics say which |
| GatewayCache.WrittenIs | firmware/gateway/stateful_cache.c:47-80 | A known key keeps its place and is dirty unless the value is the same; a new key goes to the end, dirty, while fewer than 1024 are held |
| GatewayCache.Cache.Read | firmware/gateway/stateful_cache.c:82-91 | Found exactly when the key is cached, with its value |
| GatewayCache.Cache.GetDirty | firmware/gateway/stateful_cache.c:108-119 | The first dirty entries in order, as many as fit |
| GatewayCache.Cache.ClearDirty | firmware/gateway/stateful_cache.c:99-106 | Clears one key and nothing else |
| GatewayCache.DirtyAfterSent | firmware/gateway/stateful_cache.c:99-119 | Clearing the first k dirty entries leaves exactly the others dirty, in order |
| BatchCodec.EncodeFrame | firmware/gateway/batch_forwarder.c:124-167 | Header, entries and room for the tag, exactly these bytes and no others; a version 2 frame runs past the end of the buffer if and only if 8 + 7 k <= size < 40 + 7 k |
| BatchCodec.BodyBytes | firmware/gateway/batch_forwarder.c:136-158 | The bytes of header and entries, numbers low byte first |
| BatchCodec.DecodeFrame | firmware/gateway/batch_forwarder.c:169-250 | The loops give the same answer as the format on every byte sequence and every bound on the entries |
| BatchCodec.DecodeHeader | firmware/gateway/batch_forwarder.c:179-236 | Which byte sequences are accepted, and the header and number of entries read from them |
| BatchCodec.DecodedEntry | firmware/gateway/batch_forwarder.c:196-246 | Each entry from its seven bytes |
| BatchCodec.DecodeSound | firmware/gateway/batch_forwarder.c:169-250 | A frame is accepted only if its header and its entries, encoded again, are what the wire starts with |
| BatchCodec.FrameRoundTrip | firmware/gateway/batch_forwarder.c:124-250 | A version 2 frame decodes to its header and its entries, whatever the tag |
| BatchCodec.VersionOneMisread | firmware/gateway/batch_forwarder.c:124-250 | A version 1 frame whose entry comes back wrong |
| BatchCodec.VersionOneExactly | firmware/gateway/batch_forwarder.c:124-250 | A version 1 frame is accepted, and its entries come back if and only if byte k of them is byte k mod 4 of the sequence number |
| BatchCodec.VersionOneWhole | firmware/gateway/batch_forwarder.c:124-250 | Header and entries both come back if and only if the sequence number and every entry byte are zero |
| GatewayAuth.AuthContext.Sign | firmware/gateway/gateway_auth.c:38-52 | Signs exactly when authenticated and the frame is not empty |
| GatewayAuth.GatewayTracker.Verify | firmware/gateway/gateway_auth.c:90-171 | Accepts if and only if authenticated, version 2, at least 40 bytes, and the last 32 bytes are the HMAC of the rest under the session key; and the two other refusals |
| GatewayAuth.Ingest | firmware/gateway/gateway_auth.c:184-267 | Verify, decode, note the sequence, hand on the trusted entries in order; on refusal the tracker and the output keep their contents |
| GatewayAuth.EdgeTracker.Attest | firmware/gateway/gateway_auth.c:278-318 | A verified node is trusted until its expiry counted from now; no other node gains or loses trust; fails exactly when unverified or the table is full |
| GatewayAuth.EdgeTracker.IsTrusted | firmware/gateway/gateway_auth.c:320-344 | The loop decides by the first active entry of the node |
| GatewayPipeline.FrameAccepted | firmware/gateway/gateway_auth.c:38-171 | A signed frame passes verification under the same key and decodes to what was put in |
| GatewayPipeline.Hub.Receive | firmware/gateway/gateway_auth.c:184-267 | A frame whose tag is not the HMAC of the rest leaves values, sequence numbers and tracker alone; an authentic one brings its trusted entries |
| GatewayPipeline.Forwarder.Flush | firmware/gateway/batch_forwarder.c:42-117 | Only a reported success marks the batch clean and advances the sequence; a frame that reached the Hub brought it exactly the batch |
| GatewayPipeline.ConvergedAcknowledged | firmware/gateway/batch_forwarder.c:55-116 | Marking an ingested batch clean keeps cache and Hub in agreement |
| GatewayPipeline.ConvergedDelivered | firmware/gateway/batch_forwarder.c:55-116 | A batch that was ingested but reported failed keeps cache and Hub in agreement |
| GatewayPipeline.Run | firmware/gateway/batch_forwarder.c:42-117 | Over any interleaving of writes and flushes, sends lost or taken, every clean entry of a trusted node is the last value the Hub ingested for it; and the Hub sees consecutive sequence numbers modulo 2^32 if and only if no taken frame that was reported failed is followed by another taken one |
| GatewayPipeline.ConvergedAgain | firmware/gateway/gateway_auth.c:184-267 | A repeated frame leaves Hub and cache in agreement if and only if it is up to date for every clean entry of a trusted node |
| GatewayPipeline.TakeAgain | firmware/gateway/gateway_auth.c:90-267 | An authentic frame is taken whatever its sequence number, which becomes the last one |
| GatewayPipeline.RollsBack | firmware/gateway/gateway_auth.c:184-267 | Two values of one metric, both delivered: the frame of the first, taken again, is out of date |
| GatewayPipeline.SharedTrust | firmware/gateway/gateway_auth.c:225-262 | Nodes 256 apart are trusted together or not at all |
| GatewayPipeline.Drain | firmware/gateway/batch_forwarder.c:55-116 | Without further writes, k successful flushes leave exactly max(0, d - 22 k) dirty, the last ones |
| Crc16.ModbusCrc | firmware/shared/rs485_protocol.c:16-30 | The nested loops compute the reflected check with polynomial 0xA001 |
| Crc16.CcittCrc | firmware/shared/lora_handler.c:83-99 | The nested loops compute the check with polynomial 0x1021 |
| Crc16.RunLinear | firmware/shared/rs485_protocol.c:16-30 | Both checks distribute over the exclusive or of registers and messages |
| Crc16.Steps | firmware/shared/rs485_protocol.c:21-26 | One bit of each check, with its polynomial and direction |
| Crc16.CrcSteps | firmware/shared/lora_handler.c:83-99 | The check starts from 0xFFFF; each byte is added in at its end of the register and shifted in eight steps |
| Crc16.ShiftInjective | firmware/shared/rs485_protocol.c:20-27 | The shift-and-xor step can be undone |
| Crc16.RunInjective | firmware/shared/lora_handler.c:83-99 | Different registers stay different under the same bytes |
| Crc16.BurstDetected | firmware/shared/rs485_protocol.c:16-30 | Every change confined to two neighbouring bytes changes the check, for messages of every length |
| LinkFraming.Rs485RoundTrip | firmware/shared/rs485_protocol.c:32-99 | Parsing an encoded frame, with anything after it, gives the frame back |
| LinkFraming.Rs485Parts | firmware/shared/rs485_protocol.c:32-61 | The places of start byte, addresses, length, payload and check |
| LinkFraming.LoraParts | firmware/shared/lora_handler.c:121-152 | The places of the header fields, payload and check of a packet |
| LinkFraming.ByteValues | firmware/shared/rs485_protocol.c:56-57 | The two bytes of a check on the wire |
| LinkFraming.Rs485ParseSound | firmware/shared/rs485_protocol.c:63-99 | A frame is accepted only if its encoding is what was received |
| LinkFraming.Rs485BurstRejected | firmware/shared/rs485_protocol.c:63-99 | A changed frame is rejected if the change is within two neighbouring checked bytes and the length is intact |
| LinkFraming.Rs485Encode | firmware/shared/rs485_protocol.c:32-61 | Writes exactly the frame, or refuses and writes nothing |
| LinkFraming.Rs485ParseFrame | firmware/shared/rs485_protocol.c:63-99 | Same answer as the format on every byte sequence |
| LinkFraming.LoraRoundTrip | firmware/shared/lora_handler.c:121-208 | Parsing a built packet gives it back |
| LinkFraming.LoraParseSound | firmware/shared/lora_handler.c:166-208 | A packet is accepted only if its encoding is exactly what was received |
| LinkFraming.LoraBurstRejected | firmware/shared/lora_handler.c:166-208 | A change within two neighbouring checked bytes is rejected, even in the length field |
| LinkFraming.LoraBuild | firmware/shared/lora_handler.c:121-152 | Writes exactly the packet; it parses back if and only if the payload is present or announced as empty |
| LinkFraming.LoraWireAccepted | firmware/shared/lora_handler.c:121-208 | A packet is accepted if and only if as many bytes follow the header as it announces |
| LinkFraming.LoraParsePacket | firmware/shared/lora_handler.c:166-208 | Same answer as the format, and the error counter goes up for a wrong check only |
| Ota.Flash.Begin | firmware/shared/flash_partition.c:29-37 | Erases the announced size of the slot that does not boot and nothing else; refused while an update is in progress |
| Ota.Flash.Write | firmware/shared/flash_partition.c:39-48 | Writes at the offset and nowhere else in the slot, only to a slot being written; the end is a 32-bit sum, whose wrap-around passes the test |
| Ota.WriteInside | firmware/shared/flash_partition.c:39-48 | A write that is let through stays in the slot if and only if the sum does not wrap |
| Ota.Flash.End | firmware/shared/flash_partition.c:168-176 | Ends the update whether or not the slot was being written |
| Ota.Flash.SetBoot | firmware/shared/flash_partition.c:178-184 | The target boots next |
| Ota.Flash.Rollback | firmware/shared/flash_partition.c:186-192 | The slot that booted when the last update began boots again |
| Ota.Compatibility | firmware/shared/ota_manifest.c:10-32 | Compatible exactly for the same domain and variant and a newer version |
| Ota.Session.Begin | firmware/shared/ota_session.c:34-79 | Which of the refusals applies, in order; a started session faces a blank place for its image, and the booting slot keeps its bytes |
| Ota.Session.ProcessChunk | firmware/shared/ota_session.c:81-175 | While in transfer, the slot holds the accepted chunks in order and the rest of the image is blank; refusals change counts only; received is accepted plus rejected; on completion the other slot boots and the manifest version is pending, the confirmed version unchanged |
| Ota.RefusalIs | firmware/shared/ota_session.c:90-118 | A chunk is taken if and only if it is next in sequence, not empty, at most 256 bytes, at the end of what is there, and within 128 KiB |
| Ota.Deliver | firmware/shared/ota_session.c:81-175 | Whatever order the chunks arrive in, the slot holds the chunks taken in their turn; once complete it holds exactly the image if and only if the last chunk is as long as what was missing |
| Ota.InOrderCompletes | firmware/shared/ota_session.c:81-175 | In order, every chunk that can be taken is taken |
| Ota.Update | firmware/shared/ota_session.c:34-175 | A whole update, for every manifest HMAC: it completes if and only if the chunks stay within the largest image |
| Ota.Overshoot | firmware/shared/ota_session.c:128-167 | 100 bytes announced and 256 written, over flash that was not erased |
| Ota.AbortBlocksRestart | firmware/shared/ota_session.c:34-194 | After an abort no call on the session takes anything, and neither slot changes, however many calls there are |
| Ota.InitRestarts | firmware/shared/flash_partition.c:120-139 | Initialising flash lets an update start again |
| Ota.BootSelfCheck | firmware/shared/ota_session.c:211-252 | Confirms the pending version if the checks pass and rolls back if they do not |
| Ota.SelfCheckAlwaysConfirms | firmware/shared/ota_session.c:211-252 | The modules checked always answer true, so a pending version is always confirmed and the rollback never happens |
| Ota.Identity.Init | firmware/shared/device_identity.c:43-80 | A reboot restores the identity and discards a pending version, in storage too |
| Ota.Identity.Set | firmware/shared/device_identity.c:82-95 | Provisioned once only |
| Ota.Identity.ConfirmBoot | firmware/shared/device_identity.c:136-150 | The pending version becomes the version |
| Ota.RebootForgets | firmware/shared/ota_session.c:211-252 | A reboot between completion and the self check loses the pending version, so nothing is ever confirmed |
| Telemetry.Store.Write | cloud/telemetry_store.c:101-149 | Appends the point, and afterwards every tracked count is the number of distinct series keys of its tenant |
| Telemetry.Store.Recount | cloud/telemetry_store.c:122-145 | The nested dedupe loops compute the size of that set |
| Telemetry.Store.FindOrCreate | cloud/telemetry_store.c:49-69 | Finds or creates the entry of a tenant; fails exactly when it is new and the table full |
| Telemetry.Store.Query | cloud/telemetry_store.c:167-192 | A prefix, in insertion order, of exactly the points of the token's tenant |
| Telemetry.PointsAreTheTenants | cloud/telemetry_store.c:167-192 | What is found are the tenant's points and no others |
| Telemetry.Store.GetCardinality | cloud/telemetry_store.c:194-205 | The number of distinct series, zero for an untracked tenant |
| Telemetry.KeyInjective | cloud/telemetry_store.c:39-44 | Without colons in site and node, a key stands for one series |
| Telemetry.KeyOfTags | cloud/telemetry_store.c:39-44 | The key of a point is its site, node and metric, joined by colons |
| Telemetry.AmbiguousExactly | cloud/telemetry_store.c:39-44 | A series that can be stored shares its key with another that can be stored if and only if the key has colons at two other places that cut it into three tags of at most 63 characters |
| Telemetry.ColonFree | cloud/telemetry_store.c:39-44 | Without a colon in its tags a series has its key to itself |
| Telemetry.ColonCollides | cloud/telemetry_store.c:39-44 | Two series with one key |
| Telemetry.ColonWithoutCollision | cloud/telemetry_store.c:39-44 | A colon alone does not make a collision: the other readings may be too long to store |
| Telemetry.CountsSeriesExactly | cloud/telemetry_store.c:125-146 | A tenant has as many distinct keys as distinct (site, node, metric) triples if and only if no two of its points collide, and otherwise fewer |
| Telemetry.Store.CountedExactly | cloud/telemetry_store.c:125-146 | So the stored count is the number of distinct series exactly when no two stored points of the tenant collide |
| Telemetry.Store.IssueToken | cloud/telemetry_store.c:151-165 | A tenant name too long for its field is cut off |

## Left out

- Ota.Session.ProcessChunk: does not model the branches for a failing flash write, which cannot fail while a transfer is on, nor the 32-bit wrap of the chunk statistics
- GatewayCache.Cache.Write: does not model the 32-bit wrap of the statistics
- GatewayPipeline.Forwarder.Flush: does not model a missing send function, nor the 32-bit wrap of the statistics
- GatewayAuth.EdgeTracker.Attest: takes the outcome of `attestation_verify` as a parameter
- Transport.Exchange: both peers count session ids from their own subsystem, and the session's age limit of `transport_session_valid` is not part of it
- CipherStream.Context.Update: models the CBC branch; ECB passes one block through, and the stream and AEAD branches call the modes directly
- Replay time stamps as 64-bit numbers; they are only compared and subtracted smaller from greater
- Memory beyond the end of a buffer or a flash slot: a write that overruns is told as far as the buffer goes
- Historian storage whose append or load fails, and a crash in the middle of a flush
- In-place use of one buffer for input and output, null pointers, and the zeroing of locals
- Hardware, alternative and PSA implementations of the cryptography, the small-table variants, allocation and self tests
- The constant-time primitives, modelled by the masks they document; no timing is claimed
- Radio, MQTT, InfluxDB and Zigbee handling, join and acknowledgement state machines, JSON and printing
- Audit log, fault tree, canary, configuration portal, delta filter, diagnostics and power state: simpler invariants than those here
- Rule tables, failsafe tables, domain profiles and sensor drivers: constants and single branches
- `rs485_create_frame`, cache and forwarder getters, `telemetry_store_get_all_cardinality` and the cardinality threshold: copies and comparisons of state already covered
