# gombus, modelled and proved in Dafny

gombus is an M-Bus master (EN 13757-2, -3) and a wireless M-Bus decoder (EN 13757-4). This project models its
logic, from the bytes a transport delivers to the readings a caller gets, and proves what the protocol code
is for: frames are found however their bytes arrive, the wildcard search finds every slave that can be found and
nothing else, records keep their place whatever their values hold, CRCs catch bursts, and what a meter encodes
and encrypts is what the decoder returns.

`dafny verify dfyconfig.toml` checks everything.

## How it is built

| module | models | main results |
|---|---|---|
| `Bytes`, `Numbers`, `DifFields` | encoding.go, the DIFE numbers of field.go | BCD, signed BCD, two's complement and DIFE numbers are exact inverses of their encoders |
| `Floats`, `Dates` | float64 conversion, datetime.go | integers are kept as the nearest float; timestamps are read iff they are encoded |
| `Records`, `Walker`, `Entries` | the record walk of decode.go | the parser decides a grammar (if and only if); tiling, locality, round trip, resynchronisation |
| `Frames`, `Streams` | frame.go, read.go, the probe reader of scan.go | framing is exact, verdicts are stable, reads do not depend on chunking |
| `LongFrames`, `Session` | LongFrame.Decode, ReadAllFrames | the frame count bit walk is disciplined against anything and complete against an ideal slave |
| `Search`, `Scan`, `Stragglers` | scan.go | what the search returns, in what order, at exactly what cost; termination against any bus |
| `Crc`, `Link` | wmbus/crc.go, wmbus/link.go | CRC is long division, bursts of 16 bits are detected, formats A and B are exact inverses |
| `Transport`, `Cipher`, `Cmac`, `Crypto`, `Telegram` | the rest of wmbus | layers invert their encoder both ways, CMAC per RFC 4493, readings survive layers, encryption and air |

Methods follow the source's loops and in-place updates and are proved equal to specification functions
(`ReadLongFrame` to `ReadLong`, `ScanSecondary` to `ScanFrom`, `ParseTransport` to `Parse`, and so on); the
theorems are lemmas about those functions.

A transport is a function of the frames written so far (`Streams.Env`): what then arrives, as a list of
events (bytes in pieces of any size, silence, deadline, cancelled context, broken transport), whether a write fails and
whether the context is over. Lemmas that say "whatever the bus does" quantify over every such function. Running
out of events is the deadline. An ideal bus (`Scan.IdealBus`) holds any list of slaves with 8-digit numbers: every
slave matching a selection acknowledges, the acknowledgements of one selection arrive together, a slave
selected alone answers REQ_UD2 with its frame in any pieces, and what several selected slaves send after REQ_UD2
is arbitrary. An ideal slave (`Session.IdealSlave`) takes the first request after SND_NKE as fresh and advances
exactly when the frame count bit changes.

The unit of a record stays symbolic: the VIF, its VIFE chain and the plain text that determine it. The block
cipher is an arbitrary keyed permutation. The CRC register is a string of sixteen bits, shifted and added
without carry as in the source.

## Where the code and its comments differ, or surprise

- scan.go:143-145 says the search is bounded by 10 selections per digit level. It sends 10 for each shared prefix
  instead: `Scan.PerLevelBoundFails` gives four distinguishable meters that need more than 80, `Scan.PerLevelBound`
  says exactly on which buses the bound holds, and `Scan.SearchIsExact` gives the true cost.
- scan.go:247-248 says that a selection neither answered nor collided matched nothing. Bytes that start a frame and
  never finish it are taken for silence too, and stay buffered, where they hide the next acknowledgement:
  `Scan.GarbleReadsAsSilence` and `Scan.AcknowledgementReadsAsSilence` are inputs. `Scan.SelectClassified` says exactly
  which held and arriving bytes are silence, one slave or a collision.
- scan.go:136 promises every slave on the bus. A client that holds such bytes when the search starts misses slaves
  and reports success: `Scan.StrayByteHidesMeter` is an input, and `Scan.SearchIsExact` says exactly which slaves are
  found: those from the first digit on whose acknowledgements complete the bytes held (`Scan.Resync`). It also needs
  the acknowledgements to one selection to arrive in one read: `Stragglers.StragglersHideMeters` is a bus of two
  meters, ideal but for that, on which the search reports success and finds neither.
- read.go:112-115 skips what precedes an acknowledgement, so one left over from earlier answers for the link reset of
  ReadAllFrames: `Session.StrayAckFails`, `Session.StaleFrameIsReturned`, and `Session.WalkIsComplete` for what
  holds in every case.
- decode.go:98-100 says bounds violations come back as ErrInvalidFrame. A record that runs past the data returns the
  record walker's own error; only the frame-level checks return ErrInvalidFrame. `LongFrames.UndocumentedAtInput` is
  such a frame and `LongFrames.UndocumentedExactly` says which frames they are. The wireless side does wrap every
  such error, as its comment says.
- decode.go:483-484 handles an unknown data field. All sixteen codes are handled before it, so it is unreachable.

## Model

| member | source | states |
|---|---|---|
| Bytes.CalcCheckSum | encoding.go:155-161 | the byte accumulator is the arithmetic sum modulo 256 |
| Bytes.BitOrDisjoint | field.go:256-286 | or-ing in a shifted field that clears the bits below it is addition: DIFE fields never overlap |
| Numbers.UintToBcd | encoding.go:18-33 | for every width it yields the field's BCD digits exactly when the value fits, and an error otherwise; never a truncated value |
| Numbers.BcdDigits | encoding.go:38-60 | succeeds iff the field is non-empty, all nibbles are digits and the exact value fits 64 bits; with a sign nibble to skip, it reads the field without it |
| Numbers.BcdMagnitude | encoding.go:68-70 | the unsigned BCD reading of a field |
| Numbers.BcdSigned | encoding.go:81-97 | negates exactly when the top nibble is Fh and the rest is valid BCD within int64 |
| Numbers.MagnitudeInverse | encoding.go:18-70 | a field reads as v iff it is the encoding of v at that width: encoder and decoder are mutual inverses |
| Numbers.SignedRoundTrip | encoding.go:72-97 | every signed value that leaves room for the sign nibble comes back |
| Numbers.UintLE | encoding.go:105-114 | little-endian value of at most the first eight bytes |
| Numbers.IntLE | encoding.go:120-131 | the shift-up, arithmetic-shift-down form is two's complement at every width |
| Numbers.TwosComplementRoundTrip | encoding.go:116-131 | every value of n bytes survives encoding and sign extension |
| Floats.NearestFloat | decode.go:491-496 | the float64 an integer is kept as is a float, and no float is nearer |
| Floats.ExactFloat | decode.go:491-496 | it is the integer itself iff that is a float, as up to 2^53 in magnitude |
| Dates.TypeGExact | datetime.go:40-126 | two bytes read as a date iff it is a real one and they are its encoding: the library rolling days over never yields another |
| Dates.TypeFExact | datetime.go:49-70 | four bytes read as a moment iff its fields are in place and the invalid bit is clear |
| Dates.TypeIExact | datetime.go:72-92 | six bytes read as a moment iff its fields are in place |
| Dates.StampRoundTrip | datetime.go:128-195 | every moment a width can say comes back, with the summer-time flag |
| DifFields.DecodeStorageNumber | field.go:256-264 | the or-ing loop is the positional sum of the DIF bit and four bits a DIFE |
| DifFields.DecodeTariff | field.go:267-275 | the loop is the positional sum of two bits a DIFE |
| DifFields.DecodeDevice | field.go:278-286 | the loop is the positional sum of one bit a DIFE |
| DifFields.ChainHolds | field.go:256-286 | each storage, tariff and device number in range is carried by the chain built for it |
| DifFields.ChainUnique | field.go:256-286 | two chains carry the same three numbers iff they agree below the extension bits |
| DifFields.DifeBijection | field.go:256-286 | with k DIFEs, every triple in range has exactly one encoding up to extension bits and other DIF bits |
| Records.ParseExact | decode.go:326-393 | a record is parsed as w iff w is well formed and the bytes start with its encoding: no record is a prefix of another and what follows cannot matter |
| Records.ExtensionsSound | decode.go:304-319 | extension chains end on the first byte without the extension bit, after at most ten |
| Records.ExtensionsComplete | decode.go:304-319 | every chain of at most ten bytes is read back whole, whatever follows |
| Walker.ReadExtensions | decode.go:304-319 | the index-driven loop reads exactly the chain, with the same error for overlong and truncated chains |
| Walker.DecodeLvar | decode.go:509-571 | every LVAR range: payload width, value, and which bytes are errors |
| Walker.IntegerRawValue | decode.go:491-496 | bit fields read unsigned, everything else sign-extended, as a float64 |
| Walker.DecodeRecordValue | decode.go:425-486 | every data-field code: value, timestamp under a date unit, width, and truncation |
| Walker.DecodeVib | decode.go:344-376 | VIF, plain-text unit and VIFE chain, and their exact total length |
| Walker.DecodePlainText | decode.go:353-364 | the announced characters, or truncation |
| Walker.DecodeRecord | decode.go:326-393 | the record at an index is the meaning of the parsed bytes, and the length reported is exactly their length |
| Walker.DecodeData | decode.go:266-296 | the index loop with fillers and sentinels is the recursive walk |
| Walker.RoundTrip | decode.go:266-296 | serialised records with any fillers and an optional opaque tail decode to exactly those records |
| Walker.Tiling | decode.go:266-296 | whatever decodes is tiled exactly by fillers, well-formed records and an optional opaque tail |
| Walker.DecodePrefix | decode.go:266-296 | after any items the walk starts afresh on what follows |
| Walker.Locality | decode.go:266-296 | appending bytes appends their records, unless a sentinel was met, after which nothing more is looked at |
| Walker.SerializedLength | decode.go:249-296 | each record takes at least two bytes and each filler one |
| Walker.BadValueKeepsSync | decode.go:425-571 | overwriting a record's value bytes leaves every other record and everything else in that record as it was |
| Entries.EntryRoundTrip | decode.go:326-571 | one reading of every kind (function, numbers, unit, text, value) survives encoding |
| Entries.EntriesRoundTrip | decode.go:266-393 | a list of readings with fillers anywhere decodes to exactly those readings in order |
| Frames.ParseLongFrameExact | read.go:52-83 | a buffer yields frame f and length n iff f is a well-formed frame, the buffer starts with it and n is its length |
| Frames.VerdictIsStable | read.go:52-83 | a verdict other than "need more" never changes when bytes arrive |
| Frames.WithFcb | frame.go:45-56 | setting the frame count bit changes that bit and no other |
| Frames.SetFcb | frame.go:45-56 | the in-place or-ing does exactly that to the C field and nothing to any other byte |
| Frames.SetFcv | frame.go:48-49 | the same for the frame count valid bit |
| Frames.ClearFcb | frame.go:51-52 | clears the frame count bit of the C field and nothing else |
| Frames.ClearFcv | frame.go:54-55 | clears the frame count valid bit of the C field and nothing else |
| Frames.SetLength | frame.go:68-72 | both length bytes hold the length less 6 modulo 256; nothing else changes |
| Frames.SetChecksum | frame.go:63-65 | the last but one byte holds the sum over C to the end of the data; nothing else changes |
| Frames.Finish | frame.go:63-72 | setting length and checksum turns any body into a frame the parser accepts |
| Frames.NewShortFrame | frame.go:19-32 | a short frame with its checksum |
| Streams.Client.WriteFrame | gombus.go:127-142 | a cancelled context sends nothing; a sent frame is followed by what the environment answers |
| Streams.Client.FillBuffer | read.go:158-192 | skips silence and empty reads, appends the first bytes, or reports deadline, context or transport |
| Streams.Client.Consume | read.go:195-198 | drops exactly the first n buffered bytes |
| Streams.Client.ReadLongFrame | read.go:92-110 | the read loop is the specified read, for every transport |
| Streams.Client.ReadSingleCharFrame | read.go:116-133 | the acknowledgement loop is the specified one, for every transport |
| Streams.Client.IndexOfAck | read.go:121-122 | the first acknowledgement in the buffer, if there is one |
| Streams.Client.ProbeResponse | scan.go:427-475 | the probe reader is the specified one: acknowledgement or frame, garbage dropped |
| Streams.ReadLongKeeps | read.go:88-110 | conservation: a returned frame comes off the front of the bytes delivered; a failed read loses nothing |
| Streams.ChunkingIndependence | read.go:92-110 | on a healthy transport the result depends on the pending bytes alone, not on how they are split |
| Streams.PipelinedFrames | read.go:92-110 | successive reads return exactly the frames sent, in order, and keep what follows |
| Streams.AckIsFound | read.go:112-133 | the first E5h among the pending bytes is found, what precedes it dropped, what follows kept |
| LongFrames.DecodeLongFrame | decode.go:101-149 | the whole frame decoder, its error order included |
| LongFrames.UndocumentedExactly | decode.go:98-149 | the error is not one of the documented ones exactly on variable responses whose user data cannot be tiled by fillers, records and a tail |
| LongFrames.UndocumentedAtInput | decode.go:98-149 | a well-formed frame with such an error: its one record stops after the DIF |
| LongFrames.FixedRoundTrip | decode_fixed.go:41-111 | what a meter reports in the fixed structure is what is decoded: number, status, and both counters exactly, storage 0 and 1, units crossed |
| LongFrames.FixedCounterIsLocal | decode_fixed.go:80-111 | overwriting one counter's bytes changes that counter's value and nothing else |
| LongFrames.DecodeFixedFrame | decode_fixed.go:41-58 | succeeds iff the frame is long enough and its number is BCD, whatever the counters hold |
| LongFrames.DecodeCounter | decode_fixed.go:84-111 | binary or BCD counters by the status bit; a bad one is a bad value, not a bad frame |
| LongFrames.MoreMeansSentinel | decode.go:174-179 | only a walk that ended on 1Fh announces more frames |
| Session.ReadAllFrames | gombus.go:153-199 | the loop with lastFCB is the specified walk, for every transport |
| Session.BuildRequest | gombus.go:176-182 | the request that goes out carries the frame count bit asked for, and a valid checksum |
| Session.WalkIsDisciplined | gombus.go:147-199 | against any transport: at most 64 requests, alternating frame count bits from 0, one frame a request, every frame but the last announcing more |
| Session.WalkIsComplete | gombus.go:147-199 | against an ideal slave: its whole answer when at most 64 telegrams, ErrTooManyFrames otherwise, if no acknowledgement is pending beforehand; in every case, what the first answer is read off |
| Session.StrayAckFails | read.go:112-133 | with an acknowledgement pending the walk fails with ErrNoLongFrameFound whenever what is left over cannot start a frame |
| Session.StaleFrameIsReturned | read.go:112-133 | a stale frame behind a stray acknowledgement is returned as the slave's answer |
| Session.IdealSlaveExists | gombus.go:147-199 | every list of telegrams has an ideal slave |
| Search.FoundExactly | scan.go:136-206 | searched from any first digit on: ascending, the address of every slave from that digit on whose number no other has, and nothing else |
| Search.NarrowedIsFound | scan.go:201-206 | narrowing a prefix that did not collide finds the same slaves |
| Search.FoundAscending | scan.go:161-197 | entries are strictly ascending by number from every branch on |
| Search.SelectionsExactly | scan.go:161-206 | ten selections, plus ten for every proper prefix at least two slaves share |
| Scan.PerLevelBound | scan.go:139-145 | on an ideal bus the documented ten selections per digit level hold iff at most seven prefixes are shared |
| Scan.PerLevelBoundFails | scan.go:139-145 | an ideal bus of four distinguishable meters whose search exceeds the documented bound |
| Scan.MaskToBcd | scan.go:371-388 | a mask is accepted iff it is eight digits or wildcards, and packed low byte first |
| Scan.BuildSelection | scan.go:353-366 | the selection frame, with every other field a wildcard |
| Scan.SelectMask | scan.go:249-285 | silence, single or collision, for every transport; an invalid mask sends nothing |
| Scan.SelectClassified | scan.go:258-285 | whatever is held, for any bytes in any pieces: single iff what is held or else arrives first is exactly one E5h, silent iff there is nothing or only the start of a frame, which stays buffered, else a collision, which drops it |
| Scan.GarbleReadsAsSilence | scan.go:247-285 | one garbled byte is taken for silence and stays buffered |
| Scan.AcknowledgementReadsAsSilence | scan.go:247-285 | behind such a byte an acknowledgement is taken for silence too |
| Stragglers.StragglerNarrows | scan.go:161-206 | of acknowledgements arriving apart, the first counts as one slave, the next is read as its reply and rejected, and the search narrows |
| Stragglers.StragglersHideMeters | scan.go:136-206 | when acknowledgements arrive apart, any two meters with different numbers and one first digit can both be missed by a search that reports success |
| Stragglers.LooseEnvIsLoose | scan_test.go:25-138 | every list of slaves makes such a bus: ideal but for acknowledgements that arrive apart |
| Scan.ReadSecondaryAddress | scan.go:289-298 | the request and the reading of the reply's header |
| Scan.SecondaryFromHeader | scan.go:302-324 | number, manufacturer, version and medium of a long enough header with a BCD number |
| Scan.ScanSecondaryDigit | scan.go:161-197 | the in-place loop is the specified search and on success leaves the mask as it found it |
| Scan.NarrowSecondary | scan.go:201-206 | one digit deeper, or nothing at full depth |
| Scan.ScanSecondary | scan.go:150-157 | the whole search, for every transport |
| Scan.MaskMatches | scan.go:326-388 | a mask on the wire matches a slave iff its fixed digits are a prefix of the slave's number |
| Scan.SelectIdeal | scan.go:258-285 | on an ideal bus a selection is classified by how many slaves it matched |
| Scan.SearchTerminates | scan.go:161-206 | whatever the bus answers, at most 10 + 10^2 + ... + 10^8 selections are sent |
| Scan.SearchIsExact | scan.go:136-206 | on every ideal bus, from a client holding nothing or the start of a frame: the distinguishable slaves, ascending, with the addresses in their own headers, from exactly the digit at which the held bytes are resolved; holding nothing, all of them at exactly the stated cost |
| Scan.ScanResyncs | scan.go:161-206 | until the acknowledgements complete the held bytes nothing is found; the colliding selection that does so clears the line, and all is found from there on, at an exact cost |
| Scan.StrayByteHidesMeter | scan.go:136-206 | with one stray byte held, the search of a bus with one meter succeeds and finds nothing, whatever the meter's number |
| Scan.GarbageIsDropped | scan.go:258-285 | held bytes that start no frame cost one collision and nothing else, if no number starts with 0 |
| Scan.IdealBusExists | scan_test.go:25-138 | every list of slaves makes an ideal bus |
| Crc.Crc16 | wmbus/crc.go:15-28 | the byte-and-bit loops compute the CRC as fed bit by bit |
| Crc.Check | wmbus/crc.go:33-40 | the comparison with the transmitted bytes, high byte first |
| Crc.CrcIsLongDivision | wmbus/crc_test.go:9-32 | for every byte string, the complement of the remainder of message and sixteen zeros on schoolbook division |
| Crc.DivisionIdentity | wmbus/crc_test.go:9-32 | that remainder is one: message = quotient times generator plus remainder, over GF(2) |
| Crc.AcceptsIsResidue | wmbus/crc.go:30-40 | data and CRC are accepted iff they leave one fixed residue |
| Crc.BurstDetected | wmbus/crc.go:15-40 | after an accepted block, any change within sixteen consecutive bits of data and CRC is rejected, at every length |
| Crc.CheckExact | wmbus/crc.go:30-40 | exactly one pair of CRC bytes is accepted for any data |
| Link.ParseFormatA | wmbus/link.go:110-129 | header check, length check, block walk, in the source's order |
| Link.StripFormatABlocks | wmbus/link.go:134-155 | the offset loop is the block-wise specification |
| Link.ParseFormatB | wmbus/link.go:164-199 | one or two checked blocks around the 128-byte boundary |
| Link.ParseWithoutCrc | wmbus/link.go:205-217 | the frame of L+1 bytes, CRCs already removed |
| Link.FormatAExact | wmbus/link.go:110-155 | a frame is returned iff the input starts with its format A encoding, payload at most 246 bytes |
| Link.FormatBExact | wmbus/link.go:157-199 | a frame is returned iff the input starts with its one format B encoding, payload at most 242 bytes |
| Link.StrippedExact | wmbus/link.go:201-217 | a frame is returned iff the input starts with its header and payload |
| Link.IdentSerial | wmbus/link.go:251-261 | reads the same identification fields to the same values as the wired decoder |
| Transport.ParseTransport | wmbus/tpl.go:84-121 | the loop over layers is the specified walk; each layer strictly shortens the rest |
| Transport.Parser.ParseHeader | wmbus/tpl.go:125-183 | fields updated in place, and the error of each short or unsupported header |
| Transport.Parser.ParseAuthLayer | wmbus/tpl.go:197-243 | the message counter behind its optional fields; the length field decides where the walk goes on |
| Transport.WalkRoundTrip | wmbus/tpl.go:84-243 | any stack of layers over any header parses to the last counter present, the header fields and the data |
| Transport.AcceptedIsSerialized | wmbus/tpl.go:84-243 | conversely, whatever is accepted is such a stack, and its result is determined by it |
| Transport.ParseIsSound | wmbus/tpl.go:155-183 | the encrypted length is a multiple of 16 within the data, and the mode is supported |
| Cipher.CbcRoundTrip | wmbus/crypto.go:64-72 | chaining is undone for every permutation, key, vector and whole number of blocks |
| Cipher.XorInto | wmbus/cmac.go:29-51 | the byte-wise exclusive or into a buffer |
| Cmac.ShiftLeftOne | wmbus/cmac.go:65-80 | the in-place loop is the doubling of RFC 4493 section 2.3 |
| Cmac.ShiftIsDoubling | wmbus/cmac.go:65-80 | the shift doubles the big-endian value modulo 2^128, and the reduction applies exactly on overflow |
| Cmac.CmacSubkeys | wmbus/cmac.go:55-63 | K1 and K2 of RFC 4493 section 2.3 |
| Cmac.MaskLast | wmbus/cmac.go:22-40 | complete last block with K1, padded or empty one with K2 |
| Cmac.PadBlock | wmbus/cmac.go:36-39 | an incomplete block, 80h, and zeros |
| Cmac.ComputeMac | wmbus/cmac.go:22-53 | for every block map and every message, the MAC of RFC 4493 section 2.4 |
| Cmac.CmacAes | wmbus/cmac.go:16-53 | the same under a key of one block, and an error for any other key |
| Crypto.BuildModeFiveIv | wmbus/crypto.go:77-84 | address, then the access number eight times |
| Crypto.DeriveKey | wmbus/crypto.go:98-110 | the CMAC of constant, counter, number and padding; an error without a counter |
| Crypto.DecryptPayload | wmbus/crypto.go:17-61 | the whole of decrypt, in its order of checks |
| Crypto.DecryptIsTotal | wmbus/crypto.go:17-61 | after any accepted transport layer the misalignment error cannot occur; each other error has an exact cause; length and plaintext tail are kept |
| Crypto.DecryptRoundTrip | wmbus/crypto.go:17-61 | what was encrypted with two leading fillers comes back with its plaintext tail |
| Telegram.FillWired | wmbus/telegram.go:128-155 | the buffer filled in place is a wired response with the wireless address, a non-BCD number zeroed |
| Telegram.DecodeApplication | wmbus/telegram.go:128-165 | decoding through the wired frame gives exactly the records of the payload, or ErrInvalidFrame |
| Telegram.WiredRefinesWalk | wmbus/telegram.go:121-165 | the synthetic frame decodes iff the payload does, with the same records and the wireless address |
| Telegram.DecodeTelegram | wmbus/telegram.go:87-113 | layers, decryption and application in turn, for every frame and key |
| Telegram.DecodeWithKeyRing | wmbus/telegram.go:67-83 | the key of the link layer's number; a meter without one is decoded iff its telegram is sound and unencrypted |
| Telegram.TransmitDecodes | wmbus/telegram.go:87-113 | for any layers, header and security mode, decoding what was transmitted is walking the payload that was meant |
| Telegram.ReadingsRoundTrip | wmbus/telegram.go:87-165 | the readings a meter sends are the readings decoded, in order, under its number and address |
| Telegram.AirRoundTrip | wmbus/link.go:107-199 | the same through formats A and B, with any bytes received behind the telegram |

## Left out

- Transports, clocks, deadlines in seconds, polling intervals and sleeps: replaced by the events of `Streams.Env`.
- Units, media and scaling: decodeUnit, combinableVIFEs, durationOfLimitExceed, customUnitOf's exponent and Unit.Value are functions of the VIF, VIFEs and text the record keeps; `Records.IsRaw` keeps only which of them are never sign-extended.
- Floating point: a 32-bit real keeps its bits; integers are rounded as the conversion to float64 rounds them, and negative zero is zero. Unit.Value's scaling is not modelled.
- Time zones: a timestamp is its calendar fields. The library's calendar is `Dates.DaysIn`, with its rolling of a day into the next month.
- Product names, readable status, manufacturer strings to codes, records.go: lookups and filters.
- ScanPrimary, SelectSecondary, ReadBySecondary, ReadSingleFrame and the address-writing commands: short compositions of the operations modelled.
- Parse's choice between formats A and B, which the bytes alone cannot decide (wmbus/link.go:91-94).
- AES and the library's CBC mode: an arbitrary permutation and its chaining. `Cipher.CbcDecrypt` is a specification function, not a loop.
- Error texts and wrapping: errors are small datatypes; those no modelled caller tells apart are one value (undecodable frames in `Session`, write and deadline-setting failures).
- Aliasing of the decoder's input with the records it returns: sequences are values.
- Session.WalkIsComplete: no if-and-only-if on the stale bytes before the walk; stale frames can themselves be read as answers, so whether the slave's own answer comes back depends on their contents (`Session.StaleFrameIsReturned`).
- Scan.SearchIsExact: assumes the acknowledgements to one selection arrive in one read, without which it is false (`Stragglers.StragglersHideMeters`), that nothing is on its way beforehand, and that what the client holds is at most the start of a frame (other held bytes: `Scan.GarbageIsDropped`). Without these, bytes of one selection are read by the next; `Scan.SelectClassified` and `Stragglers.StragglerNarrows` say what each step then does, `Scan.SearchTerminates` bounds the search, and what it finds depends on what several selected slaves send at once, which nothing restricts.
