# Verification model of the mdsapi data-integrity stack and its small engines

This project models, in Dafny, the parts of `mdsapi` whose job is to bring data back unchanged, and
the stateful engines around them, and proves what they promise.

- **AES and CBC** (`mdsapi/src/aes.c`): `Gf256`, `AesTables` and `AesState` hold the byte arithmetic,
  the tables and the four round transformations as functions; `SubstitutionBox` says where the
  substitution table comes from; `AesCipher` the cipher and the straight
  inverse cipher for any round-key contents; `AesKnownAnswers` the three example vectors of appendix C of
  FIPS 197; `AesDiffusion` what a ciphertext depends on; `KeySchedule` the recursive definition of section 5.2 of
  FIPS 197; `CbcMode` the chaining of section 6.2 of NIST SP 800-38A over any block cipher; `Padding`
  the fill characters; `Printing` what is seen of a text up to its first NUL. `Aes.Context` is the code itself: a round-key buffer and the pointers to state,
  key and vector that survive from call to call, with every transformation done in place. A byte
  pointer is null or a position in an array. `ByteBlocks` and `CbcBuffers` say what a call makes of
  its two buffers, which may be one array; `CbcStreaming` makes the calls in sequence; `CbcBytes` and
  `CbcCalls` state the chaining byte by byte.
- **Base64** (`mdsapi/src/base64.c`): `Base64Spec` says what is encoded and decoded, `Base64` holds the
  loops with their group buffers and capacity checks. `EndToEnd` joins it to the cipher.
- **CRC-16 and the two-copy store** (`mdsapi/src/crc.c`, `mdsapi/src/file.c`): `Crc16` holds the table and
  the loop, `CrcTheory` polynomial division over GF(2), long division on paper, and the errors division
  cannot miss, `CrcBitErrors` the order of x and with it the errors of up to three bits. `Files` is a disk (named byte sequences, and a history of every state it has been in)
  with the copy loop; `Storage` saves, backs up, loads and recovers; `BoundedLog` is the log file of
  limited size. What the system calls do (a write that takes some bytes, none, is interrupted or
  fails, a failing open, read or close) comes from a script; the byte order of the machine is a
  parameter.
- **Engines**: `MdsList` (the linked queue), `GpioEvents` (the edge detector as a step machine),
  `Supervisor` (probing, restarting and powering off) and `AppRegistry` (the ten slots in shared memory).
  What the kernel answers (poll, reads, process probes, file existence) are parameters.

What the code does differently from what one would expect is modelled as it is, and stated:

- A reading of a stored file that succeeds only at the third attempt is thrown away
  (`Storage.LoadFile`).
- A save reports success whatever its two writes took; it is loaded if and only if both took
  everything (`Storage.SaveIsLoadedExactlyIf`).
- A save ignores what becomes of its backup. Wherever it is cut off, and whatever fails in the backup, an
  intact copy is left if and only if the copy it relies on is intact: the backup it makes, complete enough
  to hold the record, or where it makes none the one that is there (`Storage.AlwaysRecoverableExactlyIf`,
  `Storage.SaveLeavesCopyExactlyIf`). On a full disk it empties both copies and reports success
  (`Storage.FullDiskLosesBothCopies`).
- A save cut off while the new record is incomplete leaves a file that is merely too short; the load
  reports a read error although the backup is intact (`Storage.InterruptedSave`). The next save backs
  the short file up over that backup: cut off as well, it can leave no intact copy
  (`Storage.SecondInterruptedSave`). A recovery cut off half-way leaves the same read error for good
  (`Storage.InterruptedRecovery`).
- An append to the log that is cut off leaves the old log or the new one if and only if the scratch copy,
  whose result is ignored, was whole (`BoundedLog.OldOrNewExactlyIf`); the next append copies what is left
  over it (`BoundedLog.NextAppendLosesCopy`).
- The text of `mds_api_AES_CBC_decrypt_buffer2` does not end in NUL at its length unless the fill is NUL or,
  where no fill came off, the byte behind it happens to be (`Aes.Context.CbcDecryptBuffer2`). Printed as the
  test application prints it, it has one fill character behind it, and is the message only under a
  condition of its own (`Printing.PrintedIsMessageExactlyIf`, `EndToEnd.SealAndOpen`).
- Two adjacent bytes of a record can change unseen if and only if they are the last of the payload and
  the first of a CRC stored low byte first (`Storage.SeesPairAtExactlyIf`).
- A log append longer than the maximum is written whole (`BoundedLog.LogIsLastBytesExactlyIf`).
- A fill character of 128 or more is never stripped where plain `char` is signed
  (`Padding.StripUndoesPadExactlyIf`).
- A registry record set under `null`, the marker of a free slot, goes into the first free slot and is
  read back from there, until the next new name takes the slot (`AppRegistry.MarkerIsKeptExactlyIf`).
- A GPIO pin started with another value than 0 or 1 loses its first change; a pin on both edges reports
  every change if and only if all its values are 0 and 1 or it never changes
  (`GpioEvents.EveryChangeIsReportedExactlyIf`).
- Where a length is not a number of whole blocks, the chain takes in what stands behind the text up to the
  end of its last block; then `length % 16` further bytes of the input are copied behind the chain, and the
  block that begins with them is enciphered on its own (`Aes.Context.CbcEncryptBuffer`).

`dafny verify dfyconfig.toml` checks everything.

## Model

| member | source | states |
|---|---|---|
| Gf256.XtimeLinear | mdsapi/src/aes.c:366-369 | `xtime` is linear over GF(2) |
| Gf256.MonomialsArePowers | mdsapi/src/aes.c:366-369 | repeated `xtime` is multiplication by x, x^2, x^3, x^4 modulo x^8+x^4+x^3+x+1, computed by polynomial reduction |
| Gf256.MultiplyIsFieldProduct | mdsapi/src/aes.c:406-411 | the `Multiply` macro is the product in GF(2^8) for every constant of five bits |
| Gf256.MultiplyDropsHighBits | mdsapi/src/aes.c:406-411 | for larger constants the macro multiplies by the low five bits only |
| AesTables.RsBoxUndoesSBox | mdsapi/src/aes.c:146-181 | the inverse substitution box undoes the substitution box on every byte |
| AesTables.SBoxUndoesRsBox | mdsapi/src/aes.c:146-181 | and the other way round |
| SubstitutionBox.SBoxIsAffineOfInverse | mdsapi/src/aes.c:146-163 | every entry of the table is the affine map of section 5.1.1 of FIPS 197 applied to the inverse of its index in GF(2^8), 0 standing for its own |
| AesTables.RconIsPowerOfX | mdsapi/src/aes.c:183-186 | the stored round constants are the powers of x in the field |
| AesState.MixColumnsInverse | mdsapi/src/aes.c:372-434 | the matrix products of `MixColumns` and `InvMixColumns` are two-sided inverses on every state |
| AesState.MixedInPlace | mdsapi/src/aes.c:378-391 | the sums of neighbours and their `xtime` give the column of the GF(2^8) matrix product |
| AesState.InvMixedByMacro | mdsapi/src/aes.c:429-432 | the sums of `Multiply` terms give the column of the inverse matrix product |
| AesState.SubBytesInverse | mdsapi/src/aes.c:323-333 | the byte substitutions are two-sided inverses on every state |
| AesState.ShiftRowsInverse | mdsapi/src/aes.c:338-364 | the row shifts are two-sided inverses on every state |
| AesState.ShiftRowsMovesRows | mdsapi/src/aes.c:338-364 | row r of the shifted state is row r rotated left by r columns |
| AesCipher.BackwardMeetsForward | mdsapi/src/aes.c:504-527 | invariant of the inverse cipher on a ciphertext: each inverse round meets the inside of the matching forward round |
| AesCipher.ForwardMeetsBackward | mdsapi/src/aes.c:479-502 | the converse invariant for the cipher on a decrypted block |
| AesCipher.InvCipherUndoesCipher | mdsapi/src/aes.c:479-527 | decryption undoes encryption for every block, every round-key contents and every number of rounds |
| AesCipher.CipherUndoesInvCipher | mdsapi/src/aes.c:479-527 | encryption undoes decryption, as generally |
| AesKnownAnswers.KnownAnswer128 | mdsapi/src/aes.c:233-527 | with the key, the plaintext and the ciphertext of appendix C.1 of FIPS 197 as byte lists: enciphering under the expanded key gives the one, deciphering the other |
| AesKnownAnswers.KnownAnswer192 | mdsapi/src/aes.c:233-527 | the same for appendix C.2 |
| AesKnownAnswers.KnownAnswer256 | mdsapi/src/aes.c:233-527 | the same for appendix C.3 |
| AesDiffusion.EveryRoundKeyMatters | mdsapi/src/aes.c:479-527 | whichever of the nr+1 round keys is changed, in whatever way, every block is enciphered and deciphered differently |
| AesDiffusion.OneByteChangesAll | mdsapi/src/aes.c:479-502 | whatever the round keys, two blocks that differ in exactly one byte have ciphertexts of three rounds that differ in all sixteen bytes |
| KeySchedule.ExpandedWords | mdsapi/src/aes.c:233-305 | each word of the expanded key is the word of the recursive definition |
| KeySchedule.TempByBytes | mdsapi/src/aes.c:252-298 | rotating, substituting and adding `Rcon` byte by byte gives the word the definition adds, with `Rcon` in range for all three key sizes |
| KeySchedule.ScheduleIsReversible | mdsapi/src/aes.c:249-304 | any consecutive words, as many as the key has, determine the key: no two keys of a size share a stretch of their schedules |
| CbcMode.EncryptRecurrence | mdsapi/src/aes.c:585-595 | C_i = E(P_i xor C_{i-1}) with C_{-1} the vector |
| CbcMode.RecurrenceDetermines | mdsapi/src/aes.c:585-595 | the recurrence has no other solution |
| CbcMode.DecryptUndoesEncrypt | mdsapi/src/aes.c:559-643 | decryption with the same key and vector recovers every block, for any number of blocks |
| CbcMode.EncryptUndoesDecrypt | mdsapi/src/aes.c:559-643 | and encryption recovers every ciphertext block |
| CbcBytes.EncryptedBytes | mdsapi/src/aes.c:585-595 | byte t of a deciphered ciphertext block is byte t of the text plus byte t of the vector, or byte t-16 of the ciphertext |
| CbcBytes.DecryptedBytes | mdsapi/src/aes.c:624-633 | the same equation for the text that decryption gives |
| CbcBytes.MaskedBytes | mdsapi/src/aes.c:587 | an input buffer of its own is left with the vector, and then the ciphertext, added to its bytes; outside the text it is as before |
| CbcBytes.BehindTheText | mdsapi/src/aes.c:597-602 | behind the ciphertext of part of a block stands the encipherment of the next `length % 16` bytes of the input and what stood behind them in the output; everything else is as before |
| CbcBytes.BehindTheDecryptedText | mdsapi/src/aes.c:635-640 | the same behind a decrypted text |
| Padding.PaddedLength | mdsapi/src/aes.c:702-714 | the padded length is the next multiple of 16, adding nothing to whole blocks |
| Padding.StrippedIsLongestWithoutFill | mdsapi/src/aes.c:689-697 | stripping removes fill only, and all of it; nothing where plain chars are signed and the fill is 128 or more |
| Padding.StripOfPadded | mdsapi/src/aes.c:646-698 | stripping a padded message gives the message without its own trailing fill, or the padded message where nothing matches the fill |
| Padding.StripUndoesPadExactlyIf | mdsapi/src/aes.c:646-698 | a message survives padding and stripping if and only if it is empty or does not end in the fill; with signed chars and a fill of 128 or more, if and only if it is whole blocks |
| Aes.Context.Init | mdsapi/src/aes.c:81-123 | types 0, 1 and 2 set 4, 6 and 8 key words and 10, 12 and 14 rounds, an unknown type those of 0 |
| Aes.Context.KeyExpansion | mdsapi/src/aes.c:233-305 | fills four words more than four times the number of rounds with the recursive definition for all three key sizes, and nothing beyond |
| Aes.Context.AddRoundKey | mdsapi/src/aes.c:309-319 | adds round key `round` to the state in place |
| Aes.Context.SubBytes | mdsapi/src/aes.c:323-333 | substitutes every byte in place |
| Aes.Context.ShiftRows | mdsapi/src/aes.c:338-364 | the assignments through one temporary shift all three rows |
| Aes.Context.MixColumns | mdsapi/src/aes.c:372-393 | the in-place loop is the GF(2^8) matrix product of section 5.1.3 of FIPS 197 |
| Aes.Context.InvSubBytes | mdsapi/src/aes.c:438-448 | the inverse substitution in place |
| Aes.Context.InvShiftRows | mdsapi/src/aes.c:450-476 | the inverse shift in place |
| Aes.Context.InvMixColumns | mdsapi/src/aes.c:418-434 | the in-place loop is the inverse matrix product of section 5.3.3 |
| Aes.Context.Cipher | mdsapi/src/aes.c:479-502 | the loop of rounds in place is the cipher, and touches the 16 bytes of the state only |
| Aes.Context.InvCipher | mdsapi/src/aes.c:504-527 | the loop of inverse rounds in place is the inverse cipher |
| Aes.Context.XorWithIv | mdsapi/src/aes.c:559-566 | adds the 16 bytes at the vector pointer to a block |
| Aes.Context.EncryptBlock | mdsapi/src/aes.c:587-593 | one turn of the loop: mask the input in place, encipher into the output, leave the vector pointer at the new ciphertext, also where the two blocks lie in one buffer |
| CbcBuffers.EncryptedWhole | mdsapi/src/aes.c:585-602 | for whole blocks the buffers behind a call hold the CBC chain and P_i xor C_{i-1}, and nothing else has changed |
| CbcBuffers.EncryptedInTwoSteps | mdsapi/src/aes.c:585-602 | the loop over all blocks, the partial one included, and then the block behind them that begins with `length % 16` further bytes, give the buffers of a call of any length |
| Aes.Context.CbcEncryptBuffer | mdsapi/src/aes.c:568-603 | any length, and two regions of one buffer or of two: the output is the CBC chain and the rest, the input is left masked, a null key or vector continues with what the last call left, the vector pointer ends at the last ciphertext block |
| CbcBuffers.DecryptedText | mdsapi/src/aes.c:624-640 | whatever a call does behind the whole blocks, the first length bytes are those of the decrypted chain |
| Aes.Context.CbcDecryptBuffer | mdsapi/src/aes.c:606-643 | the converse, for any length and two regions of one buffer or of two, with the vector pointer left inside the input |
| CbcCalls.Encrypt | mdsapi/src/aes.c:568-603 | one call in terms of bytes: the round keys behind it are those of the key it was given, or as before; text and plaintext are chained; the vector pointer is left 16 bytes before the end of the output |
| CbcCalls.Decrypt | mdsapi/src/aes.c:606-643 | the same for decryption, with the vector pointer left 16 bytes before the end of the input |
| CbcCalls.ChainOfBytes | mdsapi/src/aes.c:585-595 | what chained means at every byte, in terms of the inverse cipher and exclusive or |
| Aes.InputBuffInit | mdsapi/src/aes.c:716-724 | the message followed by fill, and the padded length |
| Aes.Context.CbcEncryptBuffer2 | mdsapi/src/aes.c:646-660 | pads and encrypts up to 1008 bytes; beyond that fails and changes nothing |
| Aes.Context.CbcEncryptBuffer2Malloc | mdsapi/src/aes.c:663-681 | the same for any length into a new buffer |
| CbcBuffers.EndsInNulExactlyIf | mdsapi/src/aes.c:689-697 | with the NUL one place behind, the byte at the returned length is NUL if and only if the fill is, or, where no fill came off, the byte behind the text is |
| Aes.Context.CbcDecryptBuffer2 | mdsapi/src/aes.c:683-698 | decrypts any length, returns the length without trailing fill, writes its NUL one place behind that, and so ends the text in NUL under exactly that condition |
| Printing.PrintedIsMessageExactlyIf | mdsapi/testapp/mds_api_aes_test.c:54-79 | padded, stripped and printed from a zeroed buffer, a message is seen as it was if and only if it has no NUL and either the fill is NUL, or it is whole blocks and does not end in the fill, or it ends in exactly one fill character; with signed chars and a fill of 128 or more, if and only if it has no NUL and is whole blocks |
| CbcStreaming.EncryptStream | mdsapi/src/aes.c:573-595 | a region encrypted in any chunks of whole blocks, with key and vector for the first call only and the vector anywhere apart from the first block, leaves both buffers as one call on the whole does |
| CbcStreaming.DecryptStream | mdsapi/src/aes.c:611-633 | the same for decryption |
| EndToEnd.DecryptedIsEncrypted | mdsapi/src/aes.c:568-643 | the two raw calls undo each other for every length, whole blocks or not |
| EndToEnd.StreamAcross | mdsapi/src/aes.c:568-643 | what one context encrypts in chunks, another of the same key size decrypts in any other chunks: the bytes come back |
| Base64Spec.SplitIsSixBitGroups | mdsapi/src/base64.c:57-60 | the masks and shifts cut the 24-bit group of section 4 of RFC 4648 into its four six-bit fields |
| Base64Spec.JoinSplit | mdsapi/src/base64.c:183-185 | the decoder's arithmetic undoes the encoder's |
| Base64Spec.SplitJoin | mdsapi/src/base64.c:57-60 | and the encoder's the decoder's on six-bit values |
| Base64Spec.DecodeUndoesEncode | mdsapi/src/base64.c:32-267 | decoding an encoding gives the bytes back, for every input |
| Base64Spec.DecodeStopsAt | mdsapi/src/base64.c:150-163 | only the longest prefix in the alphabet matters, and its length k gives 3(k/4) + max(0, k%4 - 1) bytes |
| Base64Spec.EncodeUndoesDecode | mdsapi/src/base64.c:150-267 | encoding the decoding of a canonical string (section 3.5 of RFC 4648) gives the string back |
| Base64Spec.EncodedIsCanonical | mdsapi/src/base64.c:48-119 | the encoder produces canonical strings only |
| Base64Spec.AlphabetIs | mdsapi/src/base64.c:10-18 | the table holds A to Z, a to z, 0 to 9, plus and slash |
| Base64Spec.FirstVectors | mdsapi/src/base64.c:48-119 | the test vectors of section 10 of RFC 4648 up to three bytes |
| Base64Spec.LastVectors | mdsapi/src/base64.c:48-119 | the test vectors of four to six bytes |
| Base64.EncodeLoop | mdsapi/src/base64.c:49-80 | between two bytes the groups so far are written and the bytes over are in the group buffer, for every position |
| Base64.EncodeGroups | mdsapi/src/base64.c:49-80 | the main loop has encoded all full groups and holds the rest in its group buffer, or the buffer is too small for the whole text |
| Base64.EncodeRemainder | mdsapi/src/base64.c:83-119 | one or two bytes over: their characters and padding, or no room |
| Base64.B64Encode | mdsapi/src/base64.c:32-130 | for every earlier contents of the buffer: returns the length 4*ceil(n/3), -1 exactly if the buffer is not longer than that; on success the text is in front, a NUL behind it and every byte behind that as before, so that the string in the buffer is the text; on failure nothing behind the buffer's stated end changes |
| Base64.Translate | mdsapi/src/base64.c:172-179 | the search over the table gives a character's value and leaves other bytes alone |
| Base64.DecodeLoop | mdsapi/src/base64.c:150-206 | the same between two characters, up to the first outside the alphabet |
| Base64.DecodeGroups | mdsapi/src/base64.c:150-206 | the main loop stops at the first character outside the alphabet with all full groups decoded |
| Base64.B64Decode | mdsapi/src/base64.c:132-267 | returns the decoded length, -1 exactly if the buffer is not longer than that; the same on what is written, and the string in the buffer is the decoded text if and only if that has no NUL in it |
| EndToEnd.SealedIsChain | mdsapi/testapp/mds_api_aes_test.c:111-135 | what is sent is Base64 of a text that is chained byte by byte with the padded message |
| EndToEnd.OpenedIsChain | mdsapi/testapp/mds_api_aes_test.c:54-79 | what is opened is stripped from a text that is chained with the decoded bytes |
| EndToEnd.OpenedIsSealed | mdsapi/testapp/mds_api_aes_test.c:54-135 | encrypt with padding, encode, decode, decrypt with stripping: the message without trailing fill, for every key, vector, message and fill |
| EndToEnd.OpenedIsMessageExactlyIf | mdsapi/testapp/mds_api_aes_test.c:54-135 | it is the message itself if and only if the message survives its fill |
| EndToEnd.Seal | mdsapi/testapp/mds_api_aes_test.c:111-135 | the two calls of the sender leave that text in the buffer, or report that it does not fit; a message of more than 1008 bytes is rejected |
| EndToEnd.Open | mdsapi/testapp/mds_api_aes_test.c:54-79 | the two calls of the receiver, on any text, whole blocks or not, and what is printed of the result |
| EndToEnd.SealAndOpen | mdsapi/testapp/mds_api_aes_test.c:54-135 | all four calls on buffers, between two contexts of one key size, for every message that is not rejected; when the returned text, and when the printed one, is the message |
| Crc16.Crc16Get | mdsapi/src/crc.c:26-36 | the loop computes the register over the whole buffer |
| Crc16.CheckValue | mdsapi/src/crc.c:6-36 | the CRC of the digits 1 to 9 in ASCII is 0x31c3 |
| CrcTheory.ByteStepIsEightBits | mdsapi/src/crc.c:33 | one table step is eight division steps, for every register and byte: all 256 table entries are right |
| CrcTheory.CrcIsPolynomialRemainder | mdsapi/src/crc.c:26-36 | for every buffer the CRC is the remainder of the message times x^16 modulo x^16+x^12+x^5+1 |
| CrcTheory.CrcIsLongDivision | mdsapi/src/crc.c:26-36 | and its two bytes are what long division of the message extended by sixteen zero bits leaves over |
| CrcTheory.CrcLinear | mdsapi/src/crc.c:26-36 | the CRC of the difference of two buffers of one length is the difference of their CRCs |
| CrcTheory.ResidueIsZero | mdsapi/src/crc.c:26-36 | a message followed by its CRC, high byte first, has CRC 0 |
| CrcTheory.BurstChangesCrc | mdsapi/src/crc.c:26-36 | any change within sixteen adjacent bits, at any bit position of a buffer of any length, changes the CRC |
| CrcTheory.TwoAdjacentBytesChangeCrc | mdsapi/src/crc.c:26-36 | any change within two adjacent bytes changes the CRC |
| CrcTheory.OddErrorChangesCrc | mdsapi/src/crc.c:26-36 | flipping any odd number of bits, wherever they are, changes the CRC |
| CrcBitErrors.PeriodExactlyIf | mdsapi/src/crc.c:26-36 | x^n is 1 modulo the CRC polynomial if and only if 32767 divides n |
| CrcBitErrors.TwoBitsChangeCrcExactlyIf | mdsapi/src/crc.c:26-36 | two flipped bits of a buffer of any length change the CRC if and only if their distance is not a multiple of 32767 |
| CrcBitErrors.ThreeBitErrorsChangeCrc | mdsapi/src/crc.c:26-36 | any error of one, two or three bits in up to 4095 bytes changes the CRC |
| Files.Disk.Cp | mdsapi/src/file.c:249-328 | the result and the files for every pattern of failing opens, reads and closes and of short, empty, interrupted and failing writes; in between the destination holds some prefix of the source all the time |
| Files.FaultlessCompletes | mdsapi/src/file.c:265-297 | short, empty and interrupted writes alone never keep a copy from completing; then it fails only if closing fails |
| Files.OverwriteResult | mdsapi/src/file.c:249-328 | a copy onto another file leaves a beginning of the source, all of it whenever it reports success |
| Files.FailedReadExactly | mdsapi/src/file.c:279-328 | a copy whose k-th read is the first call to fail leaves 4096*k bytes of the source, or all of it, and reports failure |
| Files.FailedWriteExactly | mdsapi/src/file.c:284-296 | a copy whose m-th write is the first call to fail leaves what the writes before it have taken, none of them beyond its chunk, and reports failure |
| Files.FailedClose | mdsapi/src/file.c:299-328 | a copy of which only the close fails is complete and reports failure |
| Files.Disk.WriteAll | mdsapi/src/file.c:284-296 | the inner loop hands over the whole chunk in order, unless a write fails |
| Files.CopyIsExactIf | mdsapi/src/file.c:265-297 | a completed copy equals its source if and only if no longer file was left untruncated and no file was truncated by being copied onto itself |
| Storage.LoadFile | mdsapi/src/file.c:57-113 | whichever attempts to open or to read the file fail, the retry loop returns 0 if and only if one of the first two attempts gets through and the file is long enough and intact, with the first length bytes of the file in the caller's buffer; otherwise -2, -4 or -5 says which error, and the first length bytes of the buffer are 0 |
| Storage.ReadingExactly | mdsapi/src/file.c:57-113 | the condition of each of the four results of a reading, in terms of the attempts that fail and the bytes of the file |
| Storage.FileRecovery | mdsapi/src/file.c:34-45 | copies the backup over the file, and fails if there is none or the copy fails; every state on the way has some beginning of the backup in the file, as far as the copy has come |
| Storage.FileBackup | mdsapi/src/file.c:47-55 | copies the file to its backup if it exists, whatever comes of it; every state on the way has the file as it was and some beginning of it in the backup |
| Storage.WriteRecord | mdsapi/src/file.c:421-435 | the file is emptied, then holds what the first write took of the payload, then what the second took of the CRC, and these states are in the history |
| Storage.StorageSave | mdsapi/src/file.c:415-436 | 0, or -2 if the file cannot be opened, and the file holds what the two writes took of the payload and of its CRC; every state on the way is that of a backup, complete or not, or of a record in the making, and the one with the empty file is among them |
| Storage.FaultlessSave | mdsapi/src/file.c:415-436 | without a failing call file and backup are the new and the old record |
| Storage.SaveIsLoadedExactlyIf | mdsapi/src/file.c:415-436 | a save that opens the file returns 0; a load gives its payload if and only if both writes took everything, and otherwise says that the file is too short |
| Storage.StorageLoad | mdsapi/src/file.c:396-413 | -1 exactly if there is no file and no recovery, with the buffer as before; otherwise the result of the last reading, after at most one recovery from a CRC mismatch; with 0 the buffer holds the first length bytes of the file as the call leaves it, with -2, -4 and -5 it is cleared; every state on the way has some beginning of the backup in the file |
| Storage.SaveThenLoad | mdsapi/src/file.c:396-436 | one array saved and another loaded with no failing call: both return 0, the arrays agree on the length bytes, the file is payload and CRC, the backup the file before, and no other file has changed |
| Storage.FaultlessLoad | mdsapi/src/file.c:396-413 | without a failing call a missing file or a CRC mismatch brings back the backup and loads again; a short file does not |
| Storage.LoadAfterSave | mdsapi/src/file.c:396-436 | what is saved is loaded |
| Storage.TwoCopies | mdsapi/src/file.c:415-436 | after any run of saves in which no call fails the file holds the last payload, the backup the one before, and no other file has changed |
| Storage.DamageIsRepairedExactlyIf | mdsapi/src/file.c:396-436 | after a run of saves in which no call fails: if the last payload is damaged with its CRC field intact, a load in which no recovery fails gives the payload before and restores the file byte for byte from the backup, and the next load repairs nothing, unless the damage has the same CRC, when it is loaded |
| Storage.DetectableDamageIsRepaired | mdsapi/src/file.c:396-436 | so for damage within two adjacent bytes, within sixteen adjacent bits, of an odd number of bits, or of two bits in up to 4095 bytes |
| Storage.BurstInRecordIsSeen | mdsapi/src/file.c:431-432 | stored high byte first, a sixteen-bit burst anywhere in a record is seen, also across payload and CRC |
| Storage.SeesPairAtExactlyIf | mdsapi/src/file.c:431-432 | for every nonempty payload and every position k of its record, no change of bytes k and k+1 goes unseen if and only if the CRC is stored high byte first or k+1 is not its first byte |
| Storage.AlwaysRecoverableExactlyIf | mdsapi/src/file.c:415-436 | for every script of the backup: every state a save passes through has an intact copy in file or backup if and only if the file is intact and enough of it is copied, or, where nothing is copied, the backup that is there is intact |
| Storage.FaultlessRecoverableExactlyIf | mdsapi/src/file.c:415-436 | where no call of the backup fails, if and only if the file, or without a file the backup, is intact before |
| Storage.GuardedIsKept | mdsapi/src/file.c:47-55 | in other words, if and only if the backup that the save goes on with is intact |
| Storage.SaveLeavesCopyExactlyIf | mdsapi/src/file.c:415-436 | a save that runs to its end returns 0, and leaves an intact copy if and only if both writes took everything or that condition holds |
| Storage.FullDiskLosesBothCopies | mdsapi/src/file.c:415-436 | where every write fails, a save of any store with the file in it empties file and backup and returns 0 |
| Storage.InterruptedSave | mdsapi/src/file.c:415-436 | under that condition, from any of these states, a load gives the old or the new payload if and only if the file is not left too short; if it is, the old payload is loaded when the short file is removed |
| Storage.SecondInterruptedSave | mdsapi/src/file.c:47-55 | a save that follows one cut off with a short file, and can open the backup, can be cut off where no intact copy is left |
| Storage.InterruptedRecovery | mdsapi/src/file.c:34-45 | from any state of a recovery from an intact backup, the next load gives the backup's payload if and only if enough of it was copied; otherwise a read or open error, and the files stay as they are |
| BoundedLog.WriteDataMaxsize | mdsapi/src/file.c:139-205 | the file is the end of what the scratch copy holds and the new data, whatever became of that copy, and the scratch copy is gone; with no failing call that is the old log from the first byte that fits on, nothing of it if none fits, and the new data; other files are as before; every state on the way is that of the copy or of the new log in the making |
| BoundedLog.OldOrNewExactlyIf | mdsapi/src/file.c:156-204 | for every script of the scratch copy: in every state of an append to a log that is not empty the old log is whole in its file or the scratch file, or the new one is in place, if and only if the scratch copy is whole |
| BoundedLog.NextAppendLosesCopy | mdsapi/src/file.c:156-158 | the append after one cut off with a shorter log copies that log over the scratch file, and the old log is in neither file |
| BoundedLog.LogIsSuffix | mdsapi/src/file.c:139-205 | after any run of appends in which no call fails the log is the end of their history and no shorter than the maximum allows |
| BoundedLog.LogIsLastBytesExactlyIf | mdsapi/src/file.c:180-197 | after such a run it is exactly the last min(total, max) bytes if and only if the last append is no longer than the maximum |
| BoundedLog.AppendAll | mdsapi/src/file.c:139-205 | the same run on a disk, through the copy, the offset and the reading loop, with other short writes in every append and whatever scratch file was there before: the file holds the last bytes of the history, or the last append if that is longer than the maximum; the scratch file is gone after the second append, and other files are as before |
| MdsList.Instance.Add | mdsapi/src/mds_list.c:21-58 | the new node is linked at the tail: contents grow by the item at the end, and the links, the ends and the count stay in step |
| MdsList.Instance.Pop | mdsapi/src/mds_list.c:60-105 | the first item leaves, its node is freed once; an empty queue or a missing destination changes nothing |
| MdsList.Instance.DelAll | mdsapi/src/mds_list.c:107-132 | every node is freed once and every item released in order |
| MdsList.ListAdd | mdsapi/src/mds_list.c:21-58 | the call through a pointer that may be null |
| MdsList.ListPop | mdsapi/src/mds_list.c:60-105 | likewise |
| MdsList.ListDelAll | mdsapi/src/mds_list.c:107-132 | likewise |
| MdsList.ListGetNum | mdsapi/src/mds_list.c:134-142 | the count is the number of items |
| MdsList.FirstInFirstOut | mdsapi/src/mds_list.c:21-132 | under any mix of calls, what has left followed by what is queued is what was queued followed by what was added |
| MdsList.Run | mdsapi/src/mds_list.c:21-132 | the heap queue goes through exactly these contents |
| GpioEvents.Manager.Start | mdsapi/src/gpio_evt.c:222-243 | takes over the pins up to the terminator, at most five, with their initial values |
| GpioEvents.Manager.CheckPin | mdsapi/src/gpio_evt.c:158-210 | one reading of one pin: the last value and the callback it causes |
| GpioEvents.Manager.PollOnce | mdsapi/src/gpio_evt.c:117-213 | one turn: the callbacks are made in the order of the table, each for the edge of what was read from a pin; the next wait is the long one |
| GpioEvents.TurnHistory | mdsapi/src/gpio_evt.c:155-211 | a turn adds to each pin's history its own edge and nothing else |
| GpioEvents.Manager.Monitor | mdsapi/src/gpio_evt.c:117-215 | any number of turns: each pin's history is the edge filter of its stream of readings, whatever the timeouts, flags and failed reads; a pin that no later turn flags keeps the value and the edge of its reading in the first turn |
| GpioEvents.SamplesAre | mdsapi/src/gpio_evt.c:117-171 | the stream of a pin is that of the rounds in which poll reports something, the pin is flagged or the round is the first, and the read succeeds: of all of them, and in order |
| GpioEvents.EdgesAre | mdsapi/src/gpio_evt.c:171-208 | the edge filter gives one event for every step from 0 to 1 or from 1 to 0 that the pin is configured for, in order |
| GpioEvents.TurnInOrder | mdsapi/src/gpio_evt.c:155-211 | the calls of one turn are in the order of the table, at most one for a pin |
| GpioEvents.BothEdgesAlternate | mdsapi/src/gpio_evt.c:175-206 | with 0/1 values a pin on both edges reports every change, rising and falling by turns |
| GpioEvents.RisesMinusFalls | mdsapi/src/gpio_evt.c:175-206 | rises minus falls is the last value minus the first |
| GpioEvents.ConfiguredEdges | mdsapi/src/gpio_evt.c:178-194 | a pin on one edge reports exactly the events of that kind that it would report on both |
| GpioEvents.EveryChangeIsReportedExactlyIf | mdsapi/src/gpio_evt.c:171-208 | a pin on both edges reports as many events as its values change if and only if all of them, the initial one included, are 0 and 1, or none differs from the initial one |
| GpioEvents.FirstChangeLost | mdsapi/src/gpio_evt.c:222-243 | a pin whose owner starts it with another value than 0 or 1 loses its first change |
| Supervisor.UndecidedIsShort | mon/launcher.c:221-249 | a program is decided after at most fifty probes |
| Supervisor.MissingExactlyIf | mon/launcher.c:221-256 | a program is given up if and only if the last ten probes in a row did not find it |
| Supervisor.PowerOffExactlyIf | mon/launcher.c:231-241 | the machine is powered off if and only if a fifth probe meets a zombie |
| Supervisor.FoundExactlyIf | mon/launcher.c:243-248 | a program is found, with its number of threads, if and only if the last probe gives neither -1 nor -2 |
| Supervisor.DecidedExactlyIf | mon/launcher.c:221-249 | the loop ends with the first probe that finds the program, hits the fifth zombie or is the tenth miss in a row |
| Supervisor.RestartsExactly | mon/launcher.c:250-256 | the programs started again, in order, are those whose last ten probes missed them and whose file is there |
| Supervisor.DecidedOnce | mon/launcher.c:221-249 | of all beginnings of a series of results only one decides |
| Supervisor.Supervisor.ProbeProgram | mon/launcher.c:217-249 | the loop with its resetting counter terminates and ends exactly where the series is decided |
| Supervisor.Supervisor.ProbeAll | mon/launcher.c:213-258 | the programs are probed in order, those given up whose file exists are started again, and the failure flag says whether every program was found at once |
| Supervisor.Supervisor.Sweep | mon/launcher.c:212-286 | in terms of probe results: power-off for a zombie exactly at a program with five zombie results; for missing threads if and only if every checked program was found by its first probe and some program that expects threads had fewer and finds the flag file absent, and at the first such program; the sweep goes on if all were found at once with enough threads, whatever the flag file; which programs are started again |
| AppRegistry.SetIsMapUpdate | mdsapi/src/mds_shm.c:148-211 | set under any name but the marker is a map update, unless the name is new and all slots are taken, when nothing changes; the order of the names never changes |
| AppRegistry.SetIsReadBackExactlyIf | mdsapi/src/mds_shm.c:148-246 | what is set under a name, the marker included, is found there at once if and only if the name is registered or a slot is free |
| AppRegistry.SetThenGet | mdsapi/src/mds_shm.c:148-246 | the two calls in sequence on the slots, for every name |
| AppRegistry.RunIsBoundedMap | mdsapi/src/mds_shm.c:148-211 | after any run of sets the slots hold the first ten names in order of first registration, each with the data of the last request for it |
| AppRegistry.FirstNamesAre | mdsapi/src/mds_shm.c:183-205 | these names are those of the requests for a name, the marker apart, that no request before them was for, in order |
| AppRegistry.RegisterAll | mdsapi/src/mds_shm.c:110-277 | the same run of calls on new slots, and then all records: what is returned is that table |
| AppRegistry.SetBetweenGets | mdsapi/src/mds_shm.c:148-246 | a set leaves what is found under every other name as it was |
| AppRegistry.MarkerIsLastSpare | mdsapi/src/mds_shm.c:163-181 | after any run of sets a search for the marker finds the last record set under it if no name was registered since, a cleared record if one was, and nothing once ten names are registered |
| AppRegistry.MarkerIsKeptExactlyIf | mdsapi/src/mds_shm.c:163-181 | a record set under the marker survives a run of sets under names if and only if the run registers no new name |
| AppRegistry.Registry.Init | mdsapi/src/mds_shm.c:110-145 | the first attachment initialises the slots, later ones change nothing |
| AppRegistry.Registry.Set | mdsapi/src/mds_shm.c:148-211 | the search and the overwrite in place refine the table, the record in the first free slot included; used slots stay a prefix with distinct names |
| AppRegistry.Registry.Get | mdsapi/src/mds_shm.c:213-246 | the record found for any name with its id replaced by the name, or failure; nothing a reader could see changes |
| AppRegistry.Registry.GetAll | mdsapi/src/mds_shm.c:248-277 | the records in the order of first registration, and their number |

## Left out

- Aes.Context.CbcEncryptBuffer: regions that overlap, which `memcpy` does not allow, round keys in the same array as an argument, and negative lengths.
- Aes.Context.CbcDecryptBuffer: the same; decryption in place would destroy the vector it needs.
- Aes.Context.CbcDecryptBuffer2: is given an output of two bytes more than the text, the room its NUL may need.
- EndToEnd.Seal: the test application does not look at the result of the first call and would pass -1 on as a length; here a rejected message goes no further.
- EndToEnd.Open: the test application's buffers of 512 bytes; here they are as long as the text needs, and zeroed as there.
- Files.Disk.Cp: file modes, and errors of `close` on the source, which the code does not look at.
- Storage.StorageSave: the partial writes are not split further than one state per call; every other cut-off point is in its history.
- Storage.StorageLoad: the probing for existence is one question, not three a second apart.
- BoundedLog.WriteDataMaxsize: a scratch file or a log that cannot be opened, where the code closes a null stream; and failing writes to the log itself, whose results the code does not look at and whose bytes the stream may still hold.
- GpioEvents.Manager.Start: a second start while the polling thread is already running.
- Supervisor.Supervisor.Sweep: the endless loop around the sweep, sleeps, process scanning, fork and the power-off itself; a power-off ends the model.
- AppRegistry.Registry.Set: the broadcast, names longer than the message buffer, and two processes at once.
- ECB, which handles the first 16 bytes only and chains nothing.
- Overflow of `int` counters and lengths, allocation failure other than in the queue, and the locale's idea of `isalnum` beyond ASCII.
- The items of a queue are values; freeing one twice because it was queued twice is not modelled.
- Sockets and IPC, log daemon, UART, network, time synchronisation, LED and raw GPIO access, INI reading, string helpers: plumbing or easy members.
