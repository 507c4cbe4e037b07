# Verified core of the vault firmware and its flasher

A Dafny model of the algorithmic parts of an airgapped vault: the KEF encryption format, the A/B firmware
upgrade, the host flasher's AES and SLIP code, the animated-QR transport, base conversion, BIP-39 decoding,
the settings store, line wrapping and the mirrored vault. `dafny verify dfyconfig.toml` checks everything.

| files | models |
|---|---|
| `SBox`, `SBoxField`, `AesColumns`, `AesSpec`, `AesRounds`, `Aes`, `Cbc` | table-based AES and CBC of the flasher, against FIPS 197 and section 6.2 of NIST SP 800-38A |
| `Slip` | SLIP framing and the two SLIP readers of the flasher |
| `Bytes`, `Kef`, `KefProofs`, `KefEnvelope`, `KefSoundness` | the KEF format: cipher, padding, retrying authentication, version choice, envelope |
| `Flash`, `FlashPlan`, `FirmwareWriter`, `Firmware`, `DeviceCheck` | chunked flash writing, the three-phase upgrade under power loss, chunked pattern search |
| `KeySum`, `QrParser`, `QrTransport`, `QrSizes`, `Base32`, `Bbqr`, `Decimal` | splitting into QR frames, reassembly, BBQr coding |
| `Positional`, `BaseConv`, `Bip39` | Base43/Base58, mnemonics |
| `Settings` | the nested settings dictionary against a flat map |
| `TextWrap` | the line wrapping scan against the best break of every line |
| `Examples` | literal instances of the formats |
| `Arith`, `Chunks` | products, quotients and concatenations the others share |
| `VaultFiles`, `Vault` | SD card with flash mirror, sealed secrets, manifest ids, sessions, restoring |

Foreign code enters as parameters with stated laws: AES, SHA-256 and deflate in KEF (`Kef.Primitives.Valid`; `KefProofs.PrimitivesExist`
shows the laws can be met), deflate in BBQr, the first hash byte in BIP-39, JSON in the vault. Random IVs, short
reads, power cuts and failing writes are universally quantified.

Code and comment disagree in one modelled place: the comment at `src/krux/kef.py:318` counts the attempts from the number of bytes that were
unpadded, but for embedded tags the tag is already cut off by then, so there can be up to 16 more; the model follows the code.

Properties that fail on some inputs are stated with the exact condition, and with an input that fails:

- the image after a stall: `FirmwareWriter.WriteData`, `FirmwareWriter.StallIsHarmlessIffZero`; `FirmwareWriter.StallingReader`
- crash safety: `Firmware.Upgrade`, `Firmware.UpgradeSafety`; `Firmware.BackupOnlyIsNotCrashSafe`, `Firmware.StallReachesActiveSlot`
- chunked search: `DeviceCheck.SearchIsExact` with `DeviceCheck.TooLittleKeptMisses`; `DeviceCheck.ShortReadsMiss`
- the two SLIP readers: `Slip.ReadersAgree`, `Slip.ReadersAgreeFromStart`; `Slip.ReadersDiffer`
- frames in their QR codes: `QrSizes.PMofNFitsExactly`, `QrSizes.BBQrFitsExactly`; `QrSizes.HundredPartsOverflow`, `QrSizes.LastBBQrFrameCanOverflow`
- the sum test: `KeySum.SumTestIsExact`; `QrParser.ZeroIndexFools`
- NUL recovery: `KefProofs.PublicNulRecovery`, `KefProofs.EmbeddedNulRecovery`; `KefProofs.EmptyIsRefused`
- suggested ECB versions: `KefEnvelope.SealUnseal`; `KefEnvelope.SuggestedEcbRefused`
- empty namespaces: `Settings.SetKeepsFullExactly`; `Settings.NoneLeavesEmptyNamespace`
- clashing settings: `Settings.NoClashIsExact`; `Settings.ClashLosesSetting`

## Model

| member | source | states |
|---|---|---|
| `SBox.Inverse` | package/ktool.py:107-108 | the inverse S-box table undoes the S-box table on every byte |
| `SBoxField.TableIsSBox` | package/ktool.py:107 | the table is the S-box of FIPS 197: 0 goes to 0x63, and every other byte has exactly one inverse in GF(2^8), whose affine image is its entry |
| `SBoxField.InverseIsUnique` | package/ktool.py:107 | inverses in GF(2^8), with multiplication defined from doubling, are unique |
| `AesColumns.InvMixAfterMix` | package/ktool.py:111-126 | the inverse mix behind the decryption tables undoes the mix behind the encryption tables, on every column |
| `AesColumns.MixOfOneByte` | package/ktool.py:111-114 | mixing a single byte gives its multiples by 2, 1, 1, 3, rotated |
| `AesColumns.InvMixOfOneByte` | package/ktool.py:117-126 | inverse mixing of a single byte gives its multiples by 14, 9, 13, 11, rotated |
| `AesColumns.InvMixIsLinear` | package/ktool.py:191-198 | the inverse mix distributes over XOR, which is why decryption keys may be mixed in advance |
| `AesColumns.MixByBytes` | package/ktool.py:111-114 | a column may be mixed one byte at a time and summed, so four table lookups are one MixColumns |
| `AesSpec.BackwardRetracesForward` | package/ktool.py:213-247 | after every decryption round the state is the substituted state of the matching encryption round |
| `AesSpec.InvCipherAfterCipher` | package/ktool.py:200-266 | for every 16-, 24- or 32-byte key and every block, decryption gives the block back |
| `AesRounds.RoundFormula` | package/ktool.py:213-221 | every column after an inner round is the matrix product of section 5.1.3 of FIPS 197 over the substituted bytes of columns c, c+1, c+2, c+3, plus the key word |
| `AesRounds.EndsFormula` | package/ktool.py:206-232 | the first key is added before the first round, and the last round substitutes and shifts without mixing |
| `AesRounds.Schedule128` | package/ktool.py:152-166 | the first expanded word of appendix A.1 of FIPS 197 |
| `AesRounds.Schedule256` | package/ktool.py:152-182 | the first expanded words of appendix A.3 of FIPS 197, with the substitution in mid-group |
| `Aes.RconTableIsRcon` | package/ktool.py:104 | all thirty round constants are the powers of x in GF(2^8) |
| `Aes.TableEntries` | package/ktool.py:111-126 | every entry of T1..T8 and U1..U4 is the stated GF(2^8) multiples of the substituted byte, or of the byte |
| `Aes.EncTables` | package/ktool.py:111-114 | four T1..T4 lookups are SubBytes, ShiftRows and MixColumns of a column |
| `Aes.DecTables` | package/ktool.py:117-120 | four T5..T8 lookups are the inverse steps of a column |
| `Aes.KeyTables` | package/ktool.py:123-126 | four U1..U4 lookups are InvMixColumns of a key word |
| `Aes.KeyWords` | package/ktool.py:145 | the key read as words is the first group of the FIPS 197 schedule |
| `Aes.NextGroup` | package/ktool.py:156-182 | one turn of the expansion loop moves the in-place key words to the next group of the schedule, for all three key sizes |
| `Aes.ChainXor` | package/ktool.py:164-182 | the inner XOR loops turn a range of words of the old group into words of the new group |
| `Aes.CopyWords` | package/ktool.py:148-189 | the copy loops put schedule words in place in Ke and, reversed by rounds, in Kd |
| `Aes.InvertInnerKeys` | package/ktool.py:191-198 | the last loop makes Kd the decryption schedule: inner rounds mixed, first and last untouched |
| `Aes.ExpandKey` | package/ktool.py:128-198 | both round-key arrays hold exactly the FIPS 197 schedules, for every legal key |
| `Aes.AES.constructor` | package/ktool.py:128-198 | a new object holds the two schedules of its key |
| `Aes.AES.Encrypt` | package/ktool.py:200-232 | the table rounds compute the FIPS 197 cipher; exactly blocks of another length raise |
| `Aes.AES.Decrypt` | package/ktool.py:234-266 | the table rounds compute the equivalent inverse cipher; exactly blocks of another length raise |
| `Cbc.AES_128_CBC.Create` | package/ktool.py:268-279 | succeeds exactly on legal keys with no IV or one of 16 bytes, and chains from that IV or from zeros |
| `Cbc.AES_128_CBC.Encrypt` | package/ktool.py:280-287 | the block is chained to the previous ciphertext, which it replaces; a refused block leaves the chain alone |
| `Cbc.AES_128_CBC.Decrypt` | package/ktool.py:289-297 | unchains with the previous ciphertext and remembers the received one; a refused block leaves the chain alone |
| `Cbc.DecryptAfterEncrypt` | package/ktool.py:280-297 | CBC decryption undoes CBC encryption over any number of blocks from the same IV |
| `Cbc.BlocksAreChained` | package/ktool.py:280-287 | every ciphertext block is the cipher of plaintext xor the ciphertext block before, the first one xor the IV |
| `Cbc.EncryptAll` | package/ktool.py:1168-1170 | block after block on one object is CBC encryption from the block it was left with |
| `Cbc.EncryptImage` | package/ktool.py:1166-1170 | appending 15 zeros and taking whole blocks encrypts exactly the image zero-filled to whole blocks |
| `Slip.EscapeIsOnePass` | package/ktool.py:761-768 | two successive replacements escape every byte exactly once |
| `Slip.ReadStream` | package/ktool.py:440-473 | the frames of any packet list read back as exactly that list, leaving the reader idle |
| `Slip.SlipReader.Feed` | package/ktool.py:440-473 | one port read of any size advances the reader as its bytes say; an empty read is a timeout and changes nothing |
| `Slip.ReadPackets` | package/ktool.py:440-473 | however the stream is cut into reads, a fresh reader yields exactly the written packets |
| `Slip.RecvOneReturn` | package/ktool.py:770-804 | skips to the first END and returns the frame after it, or reports the bad escape |
| `Slip.ReceiveFrame` | package/ktool.py:761-804 | from a written frame the receiver returns that packet and stops at the frame's end, whatever follows |
| `Slip.ReadersAgree` | package/ktool.py:440-804 | after the start code the two readers give the same on a byte string if and only if it is not cut inside an escape (escapes well formed up to an END directly after an ESC); there the receiver returns a frame and the reader raises |
| `Slip.ReadersAgreeFromStart` | package/ktool.py:440-804 | from the start they agree exactly on nothing, on a start code with a frame not cut inside an escape, and on a wrong head before a frame with a bad escape |
| `Slip.ReadersDiffer` | package/ktool.py:440-804 | two inputs on which they differ |
| `Examples.SlipFrame` | package/ktool.py:761-768 | the bytes of a frame with both special bytes in it |
| `Kef.Cipher.Authenticate` | src/krux/kef.py:277-341 | the retry loop tries candidates in order within its budget and returns the first whose tag matches, or None |
| `Kef.UnpadOfPkcs` | src/krux/kef.py:509-538 | PKCS#7 unpadding undoes padding on every byte string |
| `Kef.UnpadOfNul` | src/krux/kef.py:509-538 | NUL padding is undone exactly on strings not ending in NUL; otherwise the trailing NULs are lost |
| `KefProofs.RoundTrip` | src/krux/kef.py:147-341 | for every version, key, IV and plaintext that safe encryption accepts, decryption returns exactly the plaintext |
| `KefProofs.UnsafeRoundTrip` | src/krux/kef.py:147-341 | with the safety check off the eight versions without NUL padding encrypt and give back every plaintext, repeated ECB blocks included |
| `KefSoundness.DecryptIsExact` | src/krux/kef.py:223-341 | decryption of every byte string under all twelve versions, in terms of hash, GCM tag and block cipher: a wrong size raises, None exactly when no plaintext is authentic, otherwise the shortest authentic one |
| `KefSoundness.DecryptIsSound` | src/krux/kef.py:223-341 | bytes come out only of a payload that is IV, ciphertext and the tag its version prescribes |
| `KefSoundness.EncryptIsExact` | src/krux/kef.py:147-221 | encryption succeeds exactly when the IV fits and, in safe mode, none of three refusals applies, and gives IV, ciphertext of the padded data and tag, version by version |
| `KefSoundness.EncryptErrors` | src/krux/kef.py:147-221 | which error is raised, in the order of the checks |
| `KefProofs.PublicNulRecovery` | src/krux/kef.py:296-341 | with the safety check off, versions 5 and 10 recover the plaintext if and only if it is not empty, ends in at most auth+1 NULs and no shorter candidate collides |
| `KefProofs.EmptyIsRefused` | src/krux/kef.py:223-244 | the empty plaintext encrypts under versions 5 and 10 with the safety check off, and decryption then refuses the payload for its size |
| `KefProofs.EmbeddedNulRecovery` | src/krux/kef.py:296-341 | with the safety check off, versions 0 and 1 recover the plaintext if and only if plaintext plus tag end in at most 17 NULs, no more than the plaintext is long, and no earlier candidate collides |
| `KefProofs.DuplicatesMeanRepeats` | src/krux/kef.py:190-196 | the unique-block count refuses exactly the data in which two blocks are equal |
| `KefEnvelope.SuggestVersions` | src/krux/kef.py:343-417 | for every non-empty plaintext exactly one version per mode survives the eliminations, the one of a closed decision table; an empty one raises |
| `KefSoundness.SuggestionIs` | src/krux/kef.py:343-417 | the suggested version compresses from 120 bytes on or, in ECB, when a block repeats; it pads with NULs exactly short ECB and CBC plaintexts of at most 32 bytes not ending in NUL; it never hides a 16-byte tag |
| `KefEnvelope.UnwrapOfWrap` | src/krux/kef.py:420-506 | unwrapping gives back id, version, iterations and payload of everything wrap accepts |
| `KefEnvelope.WrapOfUnwrap` | src/krux/kef.py:420-506 | re-wrapping an unwrapped envelope gives the same bytes if and only if the envelope is canonical |
| `KefSoundness.WrapLayout` | src/krux/kef.py:420-470 | what wrap accepts, and where length, id, version, iterations and payload lie |
| `KefSoundness.UnwrapLayout` | src/krux/kef.py:473-506 | what unwrap accepts, and where it finds each field |
| `KefEnvelope.SealUnseal` | src/krux/kef.py:147-506 | suggest, encrypt, wrap, unwrap, decrypt is the identity; in CBC, CTR and GCM nothing fails, in ECB only the duplicate-block error, exactly when the padded data repeats a block |
| `KefEnvelope.SuggestedEcbRefused` | src/krux/kef.py:190-196 | a plaintext whose suggested ECB version encrypt refuses |
| `Flash.OnlyErasedTakesAll` | src/krux/firmware.py:151-156 | a byte of flash stores whatever is written exactly when it was erased, since programming only clears bits; hence the erase before every write |
| `FlashPlan.FiveEmptyReadsAreFine` | src/krux/firmware.py:126-130 | a reader that is empty at most five times in all, and only between chunks, is read to the end |
| `FlashPlan.LateReader` | src/krux/firmware.py:126-130 | in particular one with nothing to give for up to five reads at the start |
| `FlashPlan.ImageLayout` | src/krux/firmware.py:150-156 | an image starts with a zero and the size of the data, least byte first, then data and suffix |
| `FirmwareWriter.FlushChunk` | src/krux/firmware.py:150-157 | erase then write leaves exactly header bytes and buffer there and nothing else changed, as logged operations inside the chunk |
| `FirmwareWriter.ReadMore` | src/krux/firmware.py:115-124 | a short read and the suffix after it extend the buffer by the next bytes of the payload and by no others |
| `FirmwareWriter.AppendSuffix` | src/krux/firmware.py:136-145 | the hash suffix is continued over chunk borders byte for byte |
| `FirmwareWriter.FinishChunk` | src/krux/firmware.py:132-160 | a chunk is flushed when full or when the payload ends, keeping image and progress consistent |
| `FirmwareWriter.CloseChunk` | src/krux/firmware.py:132-160 | a complete chunk is flushed and the reader followed on, or the run ends for lack of flash |
| `FirmwareWriter.WriteData` | src/krux/firmware.py:92-160 | told from the pattern of reads alone: how many chunks it writes and whether it ends normally; it stalls exactly when a read comes back empty in mid-chunk before the run ends, and it succeeds without a stall exactly when the data can be read with at most five empty reads and the image fits the flash; only the written chunks change, and a normal exit wrote the whole payload in order; the measure includes the five-attempt budget |
| `FirmwareWriter.FullChunksHoldImage` | src/krux/firmware.py:92-160 | without a stall flash holds header, data and suffix with zero fill in exactly ceil(total/chunk) chunks |
| `FirmwareWriter.ShortChunkLeavesGap` | src/krux/firmware.py:132-157 | in any run, after the first short chunk the flash holds a zero where the next payload byte belongs |
| `FirmwareWriter.GapIsHarmlessIffZero` | src/krux/firmware.py:132-157 | with a short chunk, a run that wrote the whole payload leaves the image if and only if every payload byte from the gap on is zero |
| `FirmwareWriter.StallIsHarmlessIffZero` | src/krux/firmware.py:126-157 | so a stalled run that wrote the whole payload leaves the image if and only if everything from the stalled read on is zero |
| `FirmwareWriter.StallDamages` | src/krux/firmware.py:132-157 | a stall in front of a byte that is not zero damages the image at that byte, even if the run fails later |
| `FirmwareWriter.StallingReader` | src/krux/firmware.py:126-133 | a plan and a reader with such a stall, whose chunks are the payload but not the image |
| `FirmwareWriter.RegionIsImageAndShortage` | src/krux/firmware.py:112-157 | conservation: the flash written is exactly header, payload and what the chunks leave unused |
| `FirmwareWriter.StallTakesMore` | src/krux/firmware.py:112-157 | a stalled run takes at least the room left in the stalled chunk more flash than the image |
| `Firmware.FindActive` | src/krux/firmware.py:65-76 | the first entry with its active bit set, with its address and size, whatever its magic; none exactly when no bit is set |
| `Firmware.UpdateIsFound` | src/krux/firmware.py:65-89 | lookup after an update returns the new address and size at the same index |
| `Firmware.EntryBytes` | src/krux/firmware.py:79-89 | the updated entry holds the bytes 5A A5 D0 CD, then address and size big-endian, and no other byte of the sector changes |
| `Firmware.BootConfigIs` | src/krux/firmware.py:303-311 | the backup sector is used exactly when the main one has no active entry |
| `Firmware.OtherSlot` | src/krux/firmware.py:393 | the image goes to 0x390000 if 0x80000 is active, and to 0x80000 in every other case |
| `Firmware.UpdateBootConfigSector` | src/krux/firmware.py:79-89 | the bytearray edit rewrites exactly the entry's address, size and magic and keeps the sector's length |
| `Firmware.PhasesAreRecoverable` | src/krux/firmware.py:392-431 | three confined phases, each complete before the next, are recoverable at every power cut, torn operations included |
| `Firmware.UpgradeIsCrashSafe` | src/krux/firmware.py:392-431 | if the first phase spares the active slot and the image is there before the sectors change, then at every power cut the old slot is intact and either main is the old configuration or backup is and the new slot holds the whole image |
| `Firmware.UpgradeSafety` | src/krux/firmware.py:392-431 | a complete upgrade is crash safe if and only if the main sector was valid, the first phase spared the active slot and left the whole image in the new one |
| `Firmware.ImagePhaseSafety` | src/krux/firmware.py:397-408 | a first phase that fails is crash safe if and only if it spared the active slot |
| `Firmware.BackupOnlyIsNotCrashSafe` | src/krux/firmware.py:307-422 | if only the backup sector was valid, some power cut leaves no valid configuration |
| `Firmware.StallReachesActiveSlot` | src/krux/firmware.py:42-62 | with a firmware of the largest size and the second slot active, a stall after the first byte makes every run that completes erase the active slot |
| `Firmware.ImageFits` | src/krux/firmware.py:42-62 | the largest image in 64 KiB chunks stays below the next slot |
| `Firmware.HarmlessIsNoStall` | src/krux/firmware.py:397-408 | with a hash that is not all zero, no stall leaves the image: harmless is the absence of a stall |
| `Firmware.WriteSector` | src/krux/firmware.py:410-431 | a sector write changes flash to exactly that sector there |
| `Firmware.WriteImage` | src/krux/firmware.py:397-408 | complete without a stall exactly when the file can be read with at most five empty reads, none in mid-chunk, and it then stays in the slot; a complete run leaves the image in the slot if and only if it did not stall or everything from the stall on is zero |
| `Firmware.Upgrade` | src/krux/firmware.py:303-431 | whether it stalls and whether it completes, from the pattern of reads; a complete run without a stall leaves new image, updated main, old backup, nothing else changed and the new firmware found, with the size in the image header equal to the size in the configuration; with a hash that is not all zero a complete run is crash safe if and only if main was valid and no read stalls, and with any hash there is an exact condition on the inputs too; a failing run without a stall is crash safe, one with a stall if and only if the chunks it writes spare the active slot; with no configuration or an oversized file nothing is written |
| `DeviceCheck.Find` | src/krux/firmware.py:232-236 | substring search is exact |
| `DeviceCheck.IsThisDevice` | src/krux/firmware.py:221-238 | true exactly when some chunk joined to its predecessor holds the pattern |
| `DeviceCheck.SearchIsExact` | src/krux/firmware.py:221-238 | wherever enough of every read is kept for the pattern, chunked search answers as whole-file search, for patterns of any length |
| `DeviceCheck.FullReadsOverlap` | src/krux/firmware.py:221-238 | full 1024-byte reads and patterns of at most 21 bytes keep enough |
| `DeviceCheck.TooLittleKeptMisses` | src/krux/firmware.py:221-238 | and only there: for any read sizes that keep too little there is a file, read in those sizes, whose only match is missed |
| `DeviceCheck.ShortReadsMiss` | src/krux/firmware.py:221-238 | short reads in the middle can hide a match |
| `KeySum.SumTestIsExact` | src/krux/qr.py:81-91 | count and sum match if and only if the keys are exactly the expected range |
| `KeySum.SumTestNeedsPositiveKeys` | src/krux/qr.py:81-91 | with keys below the range the test is fooled |
| `QrParser.QRPartParser.Parse` | src/krux/qr.py:61-79 | a frame is stored under its announced index; one that does not parse raises and leaves the parts alone; the format is settled by the first frame either way |
| `QrParser.QRPartParser.IsComplete` | src/krux/qr.py:81-91 | the summing loop decides the completeness test |
| `QrParser.QRPartParser.Result` | src/krux/qr.py:93-105 | the parts joined in increasing key order |
| `QrParser.CompleteMeansAll` | src/krux/qr.py:61-91 | on any run with legal indices, even with a changing total, complete means the key set is exactly the announced range |
| `QrParser.ZeroIndexFools` | src/krux/qr.py:81-91 | frames numbered 0 and 3 of 2 count as complete |
| `QrTransport.OrderFree` | src/krux/qr.py:61-105 | in any order with any repetitions the parser is complete exactly when every part was seen, and then joins to the original |
| `QrTransport.PartsCover` | src/krux/qr.py:108-140 | the parts of any split in order are the data |
| `QrTransport.HeaderParses` | src/krux/qr.py:116-214 | every generated pMofN frame is detected and parsed back to its part, index and total |
| `QrTransport.DetectIs` | src/krux/qr.py:198-214 | what is taken for a multi-part frame, and for which format |
| `QrTransport.PlainTransport` | src/krux/qr.py:61-105 | a text without a header completes a fresh parser by itself and is what it joins |
| `QrTransport.PMofNFamily` | src/krux/qr.py:108-140 | the frames of any pMofN split satisfy what order-free reassembly needs |
| `QrTransport.BBQrParses` | src/krux/bbqr.py:54-79 | every generated BBQr frame is detected and parsed back to its part, index and total |
| `QrTransport.BBQrParsesExactly` | src/krux/bbqr.py:54-79 | which frames parse as BBQr and to what, an index not below the total being refused |
| `QrTransport.BBQrFamily` | src/krux/qr.py:128-140 | the frames of any BBQr split up to 1295 parts satisfy what order-free reassembly needs |
| `Examples.FrameHeaders` | src/krux/qr.py:116-130 | headers of both frame formats, literally |
| `QrSizes.ToQrCodes` | src/krux/qr.py:108-140 | the endless generator shows the parts in turn, in both formats, for any number of frames |
| `QrSizes.SplitPMofNFacts` | src/krux/qr.py:161-171 | the pMofN split has the fewest parts that hold the data beside their headers, of the smallest size that does, all full but the last, which is not empty |
| `QrSizes.PMofNFitsExactly` | src/krux/qr.py:161-171 | every pMofN frame fits its QR code if and only if the last full frame and the last frame do, a condition on length and capacity alone |
| `QrSizes.UpTo99PartsFit` | src/krux/qr.py:161-171 | up to 99 parts that condition holds |
| `QrSizes.HundredPartsOverflow` | src/krux/qr.py:148-171 | 900 characters at the smallest code make 100 parts, for which it fails |
| `QrSizes.PMofNTransport` | src/krux/qr.py:61-171 | every non-empty text at every width, shown in any order with any repetitions, completes the parser exactly when every part was seen, and is then what it joins |
| `QrSizes.SplitBBQrFacts` | src/krux/qr.py:172-187 | BBQr parts are the even share rounded up to eight and fit, something is left for the last, and the oversize correction is never taken |
| `QrSizes.BBQrFitsExactly` | src/krux/qr.py:172-187 | every BBQr frame fits if and only if the payload exceeds the full parts by at most the capacity less header |
| `QrSizes.LastBBQrFrameCanOverflow` | src/krux/qr.py:172-187 | a payload and width whose last frame is too large |
| `Base32.Repack` | src/krux/bbqr.py:183-234 | the shared bit-buffer loop regroups the bits without losing or adding any, leaving a rest shorter than a group |
| `Base32.Encode` | src/krux/bbqr.py:211-234 | the stream encoder gives the base32 text of section 6 of RFC 4648, unpadded |
| `Base32.Decode` | src/krux/bbqr.py:185-208 | the stream decoder gives the bytes of the text, ignores padding, and raises exactly on characters outside the alphabet |
| `Base32.EncodedLength` | src/krux/bbqr.py:211-234 | the text has as many characters as five-bit groups are needed |
| `Base32.AlphabetIsRfc4648` | src/krux/bbqr.py:183-234 | the alphabet is the one of section 6 of RFC 4648 |
| `Examples.Base32Vector` | src/krux/bbqr.py:211-234 | a test vector of section 10 of RFC 4648 |
| `Base32.DecodedOfEncoded` | src/krux/bbqr.py:183-234 | decoding undoes encoding for every byte string |
| `Base32.DecodedByParts` | src/krux/bbqr.py:183-209 | cutting after a multiple of eight characters commutes with decoding |
| `Bbqr.UnhexlifyOfHexlify` | src/krux/bbqr.py:108-164 | hex decoding undoes hex encoding |
| `Bbqr.DecodeBbqr` | src/krux/bbqr.py:108-133 | the accumulating loop decodes part by part and inflates Z; any bad part raises |
| `Bbqr.DecodeByParts` | src/krux/bbqr.py:108-133 | decoding by parts is decoding the whole when all parts but the last are multiples of eight |
| `Bbqr.CodeIsDecodable` | src/krux/bbqr.py:136-164 | what encode_bbqr produces decodes to the data, with the Z-to-2 switch |
| `Bbqr.EncodingChoice` | src/krux/bbqr.py:136-164 | H and 2 are kept; Z becomes 2 exactly for data of at most 5000 bytes that compression does not shorten, and otherwise carries the compressed data; a short text never grows by it; hex is upper case |
| `Bbqr.SplitIsAligned` | src/krux/qr.py:172-187 | every part but the last of a BBQr split is a multiple of eight characters |
| `Bbqr.BBQrTransport` | src/krux/bbqr.py:108-164 | encode, split, show in any order, reassemble and decode is the identity for H, 2 and Z at every width |
| `Positional.ConvertBack` | src/krux/baseconv.py:138-192 | base conversion there and back is the identity on every digit string, leading zeros included |
| `BaseConv.Encode` | src/krux/baseconv.py:167-192 | the encoder's loops convert the bytes to the base, keeping leading zeros |
| `BaseConv.Decode` | src/krux/baseconv.py:138-164 | the decoder's loops convert back; exactly strings with a foreign character raise |
| `BaseConv.AlphabetIs` | src/krux/baseconv.py:138-192 | the digits are the characters of the Base58 and Base43 alphabets in order |
| `Examples.Base58Vectors` | src/krux/baseconv.py:167-192 | 0 and 255 as 15Q |
| `BaseConv.DecodedOfEncoded` | src/krux/baseconv.py:138-192 | decoding undoes encoding on every byte string |
| `BaseConv.EncodedOfDecoded` | src/krux/baseconv.py:138-192 | encoding undoes decoding on every string over the alphabet |
| `Bip39.KMnemonicBytes` | src/krux/bip39.py:18-48 | the accumulator loop yields the leading bits as entropy, with the error cases in the source's order |
| `Bip39.AcceptedIffLeadingBits` | src/krux/bip39.py:10-48 | words of 11 bits, the first leading, hold the entropy big-endian and are accepted exactly when the last bits of the last word are the leading bits of the hash byte |
| `Bip39.SplitFits` | src/krux/bip39.py:37-41 | to_bytes never overflows |
| `Bip39.MnemonicOfEntropy` | src/krux/bip39.py:10-48 | every entropy of the matching length is returned by the words BIP-39 generates from it |
| `Bip39.EntropyOfMnemonic` | src/krux/bip39.py:10-48 | and by no other accepted words |
| `Settings.SetGet` | src/krux/settings.py:201-224 | after a set, that setting has the value and every setting apart from it is unchanged |
| `Settings.DeleteGet` | src/krux/settings.py:201-242 | after a delete, that setting is gone and every setting apart from it is unchanged |
| `Settings.DeleteKeepsFull` | src/krux/settings.py:226-242 | deletion never leaves an empty namespace behind |
| `Settings.SetKeepsFullExactly` | src/krux/settings.py:213-224 | storing leaves no empty namespace if and only if the value is not None or the setting's namespace was already there |
| `Settings.StoreRefinesMap` | src/krux/settings.py:79-91 | over any run of assignments to settings without name clashes the store answers as a flat map and gains no empty namespace |
| `Settings.ReadsLastAssigned` | src/krux/settings.py:79-91 | over any run a setting reads as the value last assigned to it or as its default, and a default is never stored |
| `Settings.SettingsDetermineTree` | src/krux/settings.py:201-242 | trees without empty namespaces and with the same settings are equal |
| `Settings.SameSettingsSameTree` | src/krux/settings.py:79-91 | runs that amount to the same non-default values store the same tree |
| `Settings.NoneLeavesEmptyNamespace` | src/krux/settings.py:213-224 | storing None in a new namespace leaves an empty one |
| `Settings.ClashLosesSetting` | src/krux/settings.py:213-224 | storing a setting named like a namespace of another loses that one |
| `Settings.LongerIsLost` | src/krux/settings.py:213-224 | for every tree: storing a setting loses every setting inside a namespace of that name |
| `Settings.ClashShutsOut` | src/krux/settings.py:213-224 | for every tree and every two clashing settings: storing one leaves the other no place |
| `Settings.NoClashIsExact` | src/krux/settings.py:201-242 | storing any one setting of a set leaves a place for all of them if and only if no two clash |
| `Settings.LookupIsGet` | src/krux/settings.py:201-211 | where nothing clashes, what is stored under a key is the value of the setting |
| `Settings.Store.GetSetting` | src/krux/settings.py:201-211 | walks the levels and returns what is stored there, be it a namespace of that name, or the default, changing nothing |
| `Settings.Store.SetSetting` | src/krux/settings.py:213-224 | the tree with the value set, a namespace of that name overwritten; dirty is raised exactly when what is stored changes |
| `Settings.Store.DeleteSetting` | src/krux/settings.py:226-242 | the tree without the setting, or namespace of that name, and without emptied namespaces; dirty is raised exactly when it was there or its namespace held nothing |
| `Settings.ClimbBack` | src/krux/settings.py:239-242 | the reversed loop prunes bottom up; it raises dirty exactly when the innermost namespace is empty |
| `TextWrap.Scan` | src/krux/display.py:292-338 | one pass breaks every line at the last word boundary that fits, or, if no word fits, after as many characters as fit, until text or lines run out |
| `TextWrap.ToLines` | src/krux/display.py:292-355 | shows that layout, the last line ending in an ellipsis exactly when text is left over; raises only with no lines to put text in |
| `TextWrap.LayoutIsUnique` | src/krux/display.py:292-338 | that description leaves only one layout |
| `TextWrap.LinesGiveBack` | src/krux/display.py:292-338 | the lines in order give back the text read, with only single blanks and newlines dropped |
| `TextWrap.ShownLinesFit` | src/krux/display.py:317-353 | no line is wider than the screen; with the ellipsis exactly when one narrow glyph fits |
| `TextWrap.EllipsisKeepsMost` | src/krux/display.py:340-353 | the line with the ellipsis keeps as much of the line as fits beside it |
| `TextWrap.EveryLineReadsOn` | src/krux/display.py:301-338 | if every glyph fits, every line consumes text, so as many lines as characters never truncate |
| `TextWrap.WidthIsCount` | src/krux/display.py:317-320 | a text is as wide as its characters, narrow below U+3000 and wide from there on |
| `VaultFiles.Storage.WriteWithMirror` | src/krux/vault.py:67-80 | raises exactly when the card write does, and then leaves the mirror alone |
| `VaultFiles.Storage.DeleteWithMirror` | src/krux/vault.py:83-92 | each side is removed or not, independently |
| `VaultFiles.Storage.RestoreFromFlash` | src/krux/vault.py:131-160 | every mirrored file comes back, all other files stay; without mirrored meta it raises and changes nothing |
| `VaultFiles.CopySecrets` | src/krux/vault.py:146-158 | the copy loop takes exactly the listed names from the mirror, in any order |
| `VaultFiles.OthersKeptOverRuns` | src/krux/vault.py:67-92 | over any run with any failures, files no operation names are untouched on both sides |
| `VaultFiles.MirrorNeverMatters` | src/krux/vault.py:67-92 | runs that differ only in what happens on the mirror leave the same card |
| `VaultFiles.LastCleanKeepsStep` | src/krux/vault.py:67-92 | a file whose last operation went through is the same on both sides, whatever failed before |
| `VaultFiles.RestoreReproduces` | src/krux/vault.py:131-160 | restored onto a blank card, every such file is as it was |
| `Examples.Paths` | src/krux/vault.py:11-20 | the paths on card and mirror, literally |
| `Vault.OpenedOfSealed` | src/krux/vault.py:168-214 | sealing fails exactly on ids over 252 bytes, and what was sealed opens to itself |
| `Vault.SealedEnvelope` | src/krux/vault.py:168-203 | a file holds an envelope under the given id with version 20 and 100000 iterations around the encrypted payload |
| `Vault.NothingThere` | src/krux/vault.py:177-214 | without its file a secret is None and the manifest empty, and a manifest that does not open is None |
| `Vault.NextIdIsNew` | src/krux/vault.py:222-242 | the next id exists, is new to the manifest and keeps its ids distinct numbers |
| `Vault.NextIdIsSuccessor` | src/krux/vault.py:222-227 | the next id is one more than the largest, of at least three characters, and 001 at first |
| `Vault.RemovedFacts` | src/krux/vault.py:244-247 | removal drops exactly that id and keeps the rest distinct |
| `Vault.RemoveByEntries` | src/krux/vault.py:244-247 | removal goes entry by entry and keeps the order |
| `Vault.NewestIdIsReissued` | src/krux/vault.py:222-247 | removing the newest entry undoes adding it, and its id is issued again |
| `Vault.VaultManager.SaveSecret` | src/krux/vault.py:194-203 | a saved secret loads as itself whatever the mirror did; no other file changes |
| `Vault.VaultManager.DeleteSecret` | src/krux/vault.py:216-220 | a deleted secret no longer loads; no other file changes |
| `Vault.SessionsStayGood` | src/krux/vault.py:168-247 | over any run of additions and removals with any failures, ids stay distinct, every listed secret loads as stored, and a saved manifest loads as itself |
| `Vault.RestoredLoads` | src/krux/vault.py:131-214 | after a restore, secrets, manifest and meta load as before wherever their last operation went through |
| `Vault.CardLossIsSurvived` | src/krux/vault.py:131-247 | after a run that went through on both sides, a blank card restored from the mirror is again a good vault |

## Left out

- AES, SHA-256, PBKDF2 and deflate under KEF: foreign modules, present as parameters with laws; key derivation is not modelled.
- Aes.AES.Encrypt: words are 32 bits wide; Python's unbounded words above bit 31 are not represented, since only the low 32 bits are ever read.
- KefEnvelope.SuggestVersions: takes bytes only; the conversion of str input is not modelled.
- FirmwareWriter.WriteData: the announced size is taken to be the file's length, and an access beyond the flash counts as a failing write.
- Firmware.Upgrade: signature, version and device checks, prompts and reboot come before or after the flash phases and are not modelled; neither is the path without a public key, which fails on an unbound name.
- Slip.SlipReader.Feed: port waiting, time-outs and retries are not modelled beyond the empty read.
- Flashing protocol, reset pins, argument parsing and progress output of the flasher: device I/O.
- QrTransport.HeaderParses: text frames only; the bytes variant of pMofN and the white space, underscore and non-ASCII digits Python's int accepts are not modelled.
- Bbqr.DecodeBbqr: binary file types; the UTF-8 decoding of types J and U is not modelled.
- Bbqr.BBQrTransport: ends with the bytes, before the UTF-8 decoding of types J and U.
- QrParser.QRPartParser.Result: text parts; a bytes part is returned by itself in the source, and BBQr parts go through Bbqr.DecodeBbqr.
- QrSizes.ToQrCodes: number and size of the parts are parameters, as the split functions give them.
- QR image encoding and FORMAT_NONE: foreign encoder, one branch.
- Settings.Store.SetSetting: the nested dictionaries are values here, so updates in place through shared references are written as rebuilding the path.
- Settings.Store.GetSetting: a setting on the way to a key, where the source raises on most values, is excluded by a precondition, in the other two operations too.
- Settings files, storage location and the Category and Number getters: file I/O and single-branch checks.
- Bip39.KMnemonicBytes: starts from the word list; stripping and splitting the phrase is not modelled.
- TextWrap.ToLines: starts at the scan, after the early return for short texts; where the next page starts after truncation is returned but nothing is claimed about it, because a break at a blank can skip a character.
- Vault.SessionsStayGood: ids are file names as strings, so path normalisation and case folding of the file system are not modelled; ids issued by the vault are digits.
- VaultFiles.Storage.RestoreFromFlash: writes to the card succeed while restoring; directory creation is not modelled.
- Secret type detection, encoding hints, hash previews, pages, drivers, simulator, fonts and translations: heuristics, user interface and data.
