# Verified model of a Spotify Connect client library

This project models the computational cores of the client in Dafny and proves what they are for. The parts that
the program changes step by step (codebook tables, limb vectors, cipher registers, buffers, the track list) are
classes and loops here too; each is proved against a definition on values, and the properties below are proved of
those definitions.

- **Vorbis codebooks** (`Bits`, `Huffman`, `HuffmanTables`, `HuffmanSetup`, `HuffmanDecode`) and **floor lines**
  (`FloorLine`). The allocation of codewords from an array with one free subtree per level, which its own comment
  calls not totally trivial to prove, is shown to keep a partition of the code space, to choose the lowest free
  codeword each time as section 3.2.1 of the Vorbis I specification asks, and to fail exactly when Kraft's sum
  exceeds 1. The fast table, the binary search and the linear scan are shown to decode those codewords, with the
  exact condition under which they do.
- **Diffie-Hellman** (`BigNat`, `Modular`, `BigEndian`, `BigUint`, `KeyExchange`): limb arithmetic is integer
  arithmetic, modular exponentiation is exact, and both ends get the same secret bytes.
- **The packet channel** (`Shannon`, `ShannonWords`, `ShannonLaws`, `ShannonCipher`, `ApCodec`): the cipher's registers, keystream
  and MAC are those of recurrences stated apart from it, down to the bits of its S-boxes; how a buffer is cut does not matter; any list of packets arrives whole, in order, with every MAC accepted.
- **The download path** (`Ctr`, `OggPages`, `OggLacing`, `OggRefusal`, `OggDemuxer`, `VorbisTap`): counter mode with seeking
  (section 6.5 of NIST SP 800-38A), the stripped header and the demuxer (sections 5 and 6 of RFC 3533) give the same
  events for every cut of the download, and packets laced in any way come out as they went in. What a sink that
  refuses packets loses is stated exactly.
- **Playback order** (`PlaybackOrder`, `ContextState`, `ShuffleLaws`, `QueueRevision`, `Timeline`): index and shuffle order stay sound under every
  mutator for all random numbers; rounds, undo and snapshots agree; history, current track and queue are one line.
- **Codecs** (`SpotifyId`, `Protobuf`, `ProtobufCodec`, `Mercury`, `MercuryRuns`, `MercuryDispatcher`): base-62 ids, the protobuf
  wire format, and replies reassembled from packets.

Randomness, the AES block, the socket and the context's own resolver are parameters: an arbitrary seed, an arbitrary
function on 16-byte blocks, a byte pipe, an offered track; the packet sink is any list of answers.

## Main results

- Codewords: `Huffman.Codebook.ComputeCodewords`, `Huffman.StandardUnique`, `HuffmanTables.NoPrefix`,
  `HuffmanDecode.BuildCodebook`, `HuffmanDecode.Decode`, `HuffmanDecode.DecodeRun`,
  `HuffmanDecode.DecodePacket`; lines: `FloorLine.DrawLine`.
- Key exchange: `BigUint.BigUint.ModExp`, `KeyExchange.SecretsAgree`, `KeyExchange.Exchange`.
- Channel: `ShannonLaws.StreamLaw`, `ShannonLaws.MacLaw`, `Shannon.PiecesAreWhole`, `Shannon.RunInverse`, `ShannonCipher.Cipher.Process`, `ApCodec.ReceiveWire`,
  `ApCodec.Transfer`.
- Download: `Ctr.Aes128CtrAt` with `Ctr.SeekIsSlice`, `OggPages.PiecesAreWhole`, `OggLacing.PacketsDelivered`,
  `OggLacing.EndPageTime`, `OggRefusal.NothingLostIff`, `VorbisTap.Tap.Download`, `VorbisTap.FileDelivered`.
- Order: the invariant `Valid` of `ContextState.State`, kept by every method; `PlaybackOrder.RoundPlaysAll`,
  `PlaybackOrder.BackUndoesOn`, `ContextState.SnapshotShowsNext`, `ContextState.OrderAdopted`,
  `Timeline.RunKeepsLine`, `Timeline.RunWalks`.
- Codecs: `SpotifyId.DecodeOfEncode`, `SpotifyId.FromBase62`, `Protobuf.MessageRoundTrip`,
  `Protobuf.AllSeenIffPlain`, `MercuryRuns.DeliveredAsOwed`, `MercuryRuns.ReplyDelivered`, `MercuryRuns.RunSound`.

## Where the code and its documentation differ

The model follows the code, shows an input on which the two differ, and proves exactly when they agree.

- `src/connect/context_state.h:120-122` says that the shuffle order is empty when shuffle is off.
  `apply_playback_order` can set it with shuffle off (`ContextState.OrderWithShuffleOff`). Every other mutator keeps
  the statement; this one does exactly when shuffle is on or no listed URI behind the current track's names another
  known track (`ContextState.State.ApplyPlaybackOrder`). What holds always is the invariant that is used: while
  shuffling, the order is a permutation of all tracks.
- `src/audio/ogg_demuxer.h:21-24` promises a packet the time of the page that holds its end. Of two packets that end
  on one page the first gets 0 (`OggLacing.FirstOfTwoUntimed`); a packet gets the page's time exactly when it ends
  with the page, or that time is 0 (`OggLacing.EndPageTime`). The comment in `src/audio/ogg_demuxer.cpp:120-122` says
  both things.
- `src/proto/pb_codec.h` writes doubles but has no member that reads one (`Protobuf.DoubleIsLost`);
  `Protobuf.AllSeenIffPlain` states exactly which messages are read back whole.
- A move to the next track is to keep what has been played for the way back, but the history holds 64
  (`src/session.cpp:1271-1272`): `Timeline.OldestIsLost`, and exactly when nothing is lost `Timeline.RunKeepsLine`.

## Model

| member | source | states |
|---|---|---|
| Bits.BitReverse | deps/stb/stb_vorbis.c:1010-1017 | the five mask-and-shift rounds give the word whose 32 bits are those of the input in the opposite order |
| Bits.MaskedReverseIsReversed | deps/stb/stb_vorbis.c:1010-1017 | bit by bit, every bit i ends at 31 - i |
| Bits.Reverse32Involutive | deps/stb/stb_vorbis.c:1010-1017 | reversing twice changes nothing |
| Bits.ReversePrefix | deps/stb/stb_vorbis.c:1010-1017 | two words agree in their first j bits exactly when their reversals agree in their last j; what lets a codeword prefix be searched by numeric order |
| Bits.ToBitsAt | deps/stb/stb_vorbis.c:1640-1645 | bit i of a number's bits is the parity of its quotient by 2^i |
| Huffman.Codebook.AddEntry | deps/stb/stb_vorbis.c:1075-1084 | a codeword goes to its symbol's slot, or with its length and symbol to the next slot of a sparse codebook, and nothing else changes |
| Huffman.Codebook.ComputeCodewords | deps/stb/stb_vorbis.c:1086-1130 | succeeds exactly when the lengths' Kraft sum is at most 1; then every used symbol is stored, bit-reversed, with the codeword that the rule of section 3.2.1 of Vorbis I gives it |
| Huffman.Codebook.AllocateRest | deps/stb/stb_vorbis.c:1105-1130 | the loop over the later symbols, from any state reached after the first: same two directions |
| Huffman.Codebook.AllocateNext | deps/stb/stb_vorbis.c:1105-1127 | one symbol keeps the partition of the code space into used and free subtrees, or shows that the Kraft sum exceeds 1 |
| Huffman.FirstLeaves | deps/stb/stb_vorbis.c:1098-1100 | the array then holds every leaf beside codeword 0 |
| Huffman.FindLeaf | deps/stb/stb_vorbis.c:1116-1118 | the upward search ends at the deepest free level not below the wanted one, or at 0 exactly when there is none |
| Huffman.Propagate | deps/stb/stb_vorbis.c:1121-1127 | the level written was empty each time, the sum never passes 32 bits, and the array holds what is left free of the split subtree |
| Huffman.StandardUnique | deps/stb/stb_vorbis.c:1110-1113 | giving each symbol in turn the lowest free codeword of its length leaves no choice |
| Huffman.StandardExample | deps/stb/stb_vorbis.c:1086-1130 | the example of section 3.2.1 of Vorbis I: lengths 2, 4, 4, 4, 4, 2, 3, 3 have the codewords printed there |
| Huffman.StandardIsPrefixFree | deps/stb/stb_vorbis.c:1110-1115 | that rule never lets two symbols' subtrees meet |
| Huffman.AllocateTake | deps/stb/stb_vorbis.c:1116-1127 | taking the first leaf of the found subtree keeps the partition, the rule, and the balance of free space and Kraft sum |
| Huffman.TakeIsLowest | deps/stb/stb_vorbis.c:1110-1118 | the leaf chosen is the lowest one of its length that meets no earlier codeword, for any reachable free set |
| Huffman.TakeOrdered | deps/stb/stb_vorbis.c:1112-1115 | non-empty levels strictly decrease in code value as they deepen, also after the split, so there is one free subtree per level |
| Huffman.TakeKeepsApart | deps/stb/stb_vorbis.c:1116-1127 | no used subtree meets a free one after the step |
| Huffman.TakeCovers | deps/stb/stb_vorbis.c:1116-1127 | every code stays either used or free after the step |
| Huffman.AllocateFails | deps/stb/stb_vorbis.c:1116-1117 | when no level at or above the wanted one is free, the Kraft sum of the lengths exceeds 1, whatever follows |
| HuffmanTables.OwnsIffBegins | deps/stb/stb_vorbis.c:1668-1681 | an accumulator begins with a codeword exactly when the codeword's subtree contains the reversed accumulator |
| HuffmanTables.OwnerUnique | deps/stb/stb_vorbis.c:1086-1130 | no two codewords own the same code |
| HuffmanTables.NoPrefix | deps/stb/stb_vorbis.c:1086-1130 | no stored codeword, read first bit first, is a prefix of another |
| HuffmanTables.ListedRank | deps/stb/stb_vorbis.c:3785-3795 | the number of used symbols is the number of slots of a sparse codebook |
| HuffmanTables.Qsort | deps/stb/stb_vorbis.c:1197 | the first n entries are ordered, a permutation of themselves, and the rest untouched |
| HuffmanTables.SortedHasOwners | deps/stb/stb_vorbis.c:1179-1198 | the sorted list of codewords is strictly increasing, and each entry belongs to one symbol and each listed symbol to one entry |
| HuffmanTables.FindSorted | deps/stb/stb_vorbis.c:1209-1220 | the halving loop ends at the last entry not above the code, or at the first entry when all are above |
| HuffmanTables.SearchFindsOwner | deps/stb/stb_vorbis.c:1668-1682 | for every code inside a listed codeword's subtree, that place is the codeword's |
| HuffmanSetup.ListCodewords | deps/stb/stb_vorbis.c:1186-1195 | the reversed codewords of just the symbols to be searched, in symbol order |
| HuffmanSetup.ComputeSortedHuffman | deps/stb/stb_vorbis.c:1179-1230 | sorted codewords, with the symbol, and in a sparse codebook the length, of each in its own place |
| HuffmanSetup.FindPlace | deps/stb/stb_vorbis.c:1209-1221 | each codeword is found at the place that is its owner's, so the assertion there holds |
| HuffmanSetup.PlaceSymbols | deps/stb/stb_vorbis.c:1206-1229 | the loop over entries fills every place with its owner although it walks in another order |
| HuffmanSetup.FillMatches | deps/stb/stb_vorbis.c:1146-1151 | just the table entries whose low bits are the word are set |
| HuffmanSetup.ComputeAcceleratedHuffman | deps/stb/stb_vorbis.c:1134-1154 | every table entry is the last slot below the 16-bit limit whose word its low bits begin with, or -1 |
| HuffmanDecode.BuildCodebook | deps/stb/stb_vorbis.c:3772-3844 | from codeword lengths to all tables: refused exactly when the Kraft sum exceeds 1, else ready for all three decoders, and sparse exactly when asked for and under a quarter of the entries are used |
| HuffmanDecode.FinishCodebook | deps/stb/stb_vorbis.c:3824-3844 | sorted tables and fast table agree on the codewords, also after a sparse codebook drops its codeword list |
| HuffmanDecode.HasSlot | deps/stb/stb_vorbis.c:3824-3844 | every used symbol has a slot that stands for it, in a sparse codebook and in a plain one |
| HuffmanDecode.BitReader.constructor | deps/stb/stb_vorbis.c:1634-1647 | a reader holds the packet's bits: bit k is bit k % 8, least significant first, of byte k / 8 |
| HuffmanDecode.PacketBit | deps/stb/stb_vorbis.c:1640-1645 | bit k of a packet is set exactly when byte k / 8, divided by 2^(k % 8), is odd |
| HuffmanDecode.CodeBitAt | deps/stb/stb_vorbis.c:1075-1084 | a codeword's bits are read from its most significant one down |
| HuffmanDecode.BitReader.PrepHuffman | deps/stb/stb_vorbis.c:1634-1647 | refilling changes no bit that is still to be read, and ends with more than 24 bits or an empty packet |
| HuffmanDecode.BitReader.Consume | deps/stb/stb_vorbis.c:1739-1745 | drops the first n bits |
| HuffmanDecode.BinaryDecode | deps/stb/stb_vorbis.c:1666-1693 | finds the codeword the accumulator begins with exactly when it is in the sorted table and enough bits are held, and consumes exactly its length |
| HuffmanDecode.LinearDecode | deps/stb/stb_vorbis.c:1695-1712 | the same over the list in symbol order, with no condition on the table |
| HuffmanDecode.CodebookDecodeScalarRaw | deps/stb/stb_vorbis.c:1656-1713 | both ways behind one condition on the codebook's size and tables |
| HuffmanDecode.FastSlot | deps/stb/stb_vorbis.c:1720-1723 | a table hit is always the slot of a codeword that the accumulator begins with |
| HuffmanDecode.FastFinds | deps/stb/stb_vorbis.c:1141-1153 | every slot below the 16-bit limit with a short codeword is hit, in a sparse codebook and in a plain one |
| HuffmanDecode.NoShorterCodeword | deps/stb/stb_vorbis.c:1722-1726 | a codeword that the accumulator begins with and holds in full is the one encoded next |
| HuffmanDecode.TakeFast | deps/stb/stb_vorbis.c:1722-1726 | the fast path returns the symbol encoded and consumes its length |
| HuffmanDecode.DecodeRaw | deps/stb/stb_vorbis.c:1717-1729 | fast table, then search: right for a symbol exactly when its bits can be held and a decoder can reach it; unreachable are only short codewords at or past entry 32767 of a searched codebook |
| HuffmanDecode.Decode | deps/stb/stb_vorbis.c:1754-1756 | the same, as the symbol rather than the slot of a sparse codebook |
| HuffmanDecode.DecodeRun | deps/stb/stb_vorbis.c:1754-1756 | the bits of any list of symbols are read back as that list exactly when each codeword fits the refill at its place and the tables reach it |
| HuffmanDecode.DecodePacket | deps/stb/stb_vorbis.c:1634-1756 | the same from the packet's bytes: a packet whose bits, lowest first in each byte, begin with a list's codewords is decoded to that list exactly when each fits its refill and is reachable |
| HuffmanDecode.LowestBitFirst | deps/stb/stb_vorbis.c:1642-1644 | an instance: under two codewords of one bit, the byte 1 is the second symbol |
| HuffmanDecode.RefilledIsHeld | deps/stb/stb_vorbis.c:1634-1647 | how many bits a refill holds depends only on how many are left: all up to 24, else between 25 and 32 |
| HuffmanDecode.ShortReadBack | deps/stb/stb_vorbis.c:1754-1756 | codewords of at most 25 bits always fit |
| HuffmanDecode.LongCodewordUnread | deps/stb/stb_vorbis.c:1684-1692 | an instance of a codeword that does not: 26 bits where 33 are left |
| FloorLine.PredictIsNearest | deps/stb/stb_vorbis.c:1935-1943 | the predicted point is the last one not past the line, counted from y0 towards y1, and both ends lie on it |
| FloorLine.DrawLine | deps/stb/stb_vorbis.c:2034-2081 | every x of the line gets the y that the division predicts, and nothing else is written |
| BigUint.BigUint.Trim | src/crypto/bigint.cpp:7-9 | drops leading zero limbs and keeps the value |
| BigUint.BigUint.BitLength | src/crypto/bigint.cpp:69-75 | the value is at least 2^(bits-1) and below 2^bits |
| BigUint.BigUint.Rshift1 | src/crypto/bigint.cpp:77-84 | halves the value, rounding down |
| BigUint.BigUint.Cmp | src/crypto/bigint.cpp:86-94 | orders trimmed numbers as their values |
| BigUint.BigUint.Mul | src/crypto/bigint.cpp:96-112 | the product; every 64-bit accumulator fits |
| BigUint.BigUint.MulRow | src/crypto/bigint.cpp:100-109 | one row adds one limb's multiple at its place |
| BigUint.MulStep | src/crypto/bigint.cpp:104-106 | a limb plus a product of limbs plus a carry fits 64 bits, and its halves are the next limb and carry |
| BigUint.BigUint.SubInplace | src/crypto/bigint.cpp:114-124 | the difference of two numbers, the first not the smaller |
| BigUint.BigUint.ShlInplace | src/crypto/bigint.cpp:126-143 | multiplies by a power of two, across whole and part limbs |
| BigUint.BigUint.Mod | src/crypto/bigint.cpp:145-162 | the remainder; zero for a zero modulus |
| BigUint.BigUint.Reduce | src/crypto/bigint.cpp:152-160 | each round starts with less than twice the shifted modulus and ends with the remainder |
| BigUint.BigUint.ModExp | src/crypto/bigint.cpp:164-178 | base^exp mod m for every m of at least 1; for m = 0, 1 or 0 as the exponent is zero or not |
| BigUint.BigUint.SquareAndMultiply | src/crypto/bigint.cpp:168-176 | result * b^e stays congruent to the power sought |
| BigNat.TrimmedUnique | src/crypto/bigint.cpp:7-9 | trimmed numbers of equal value are equal limb by limb |
| KeyExchange.FromBe | src/crypto/bigint.cpp:11-21 | the value of the bytes, most significant first, whatever their number |
| KeyExchange.ToBe | src/crypto/bigint.cpp:39-53 | the shortest bytes of the value |
| KeyExchange.CanonicalUnique | src/crypto/bigint.cpp:39-53 | two shortest byte strings of one value are the same |
| KeyExchange.PublicKey | src/handshake/handshake.cpp:61-65 | the bytes of generator^private mod prime |
| KeyExchange.SharedSecret | src/handshake/handshake.cpp:128-131 | the bytes of remote^private mod prime |
| KeyExchange.PowersCommute | src/handshake/handshake.cpp:61-64 | (g^a mod p)^b and g^(ab) agree modulo p |
| KeyExchange.SecretsAgree | src/handshake/handshake.cpp:128-131 | both ends' secrets are the same byte string, whatever the keys and any modulus above zero |
| KeyExchange.Exchange | src/handshake/handshake.cpp:61-131 | the two halves run together end in one secret, g^(ab) mod p |
| Shannon.RunSplit | src/crypto/shannon.cpp:111-167 | two calls on the parts of a buffer leave the bytes and the state of one call on the whole |
| Shannon.PiecesAreWhole | src/crypto/shannon.cpp:111-167 | the same for any number of calls on any pieces |
| Shannon.RunInverse | src/crypto/shannon.cpp:169-170 | deciphering what was enciphered gives it back and leaves the same state |
| Shannon.RunInverseBack | src/crypto/shannon.cpp:169-170 | and enciphering what was deciphered gives the ciphertext back |
| Shannon.RunWord | src/crypto/shannon.cpp:135-148 | the whole-word path does what four single bytes do |
| Shannon.RunFromNormal | src/crypto/shannon.cpp:114-134 | a stale byte buffer has no influence when no bits of it are counted |
| Shannon.ByteRoundTrip | src/connection/ap_codec.cpp:18-19 | a byte made from a number reads as the number's low eight bits |
| ShannonWords.ByteBitAt | src/crypto/shannon.cpp:22-34 | bit i of a byte, selected by a mask of one bit, is bit i of its number |
| ShannonWords.XorWordBits | src/crypto/shannon.cpp:36-44 | a bit of an exclusive or is set when those of the two words differ |
| ShannonWords.XorByteBits | src/crypto/shannon.cpp:120-124 | the same of bytes |
| ShannonWords.TurnOne | src/crypto/shannon.cpp:6-8 | turning by one moves every bit one place up, and the top bit to the bottom |
| ShannonWords.Sbox1Bits | src/crypto/shannon.cpp:10-14 | bit by bit: each bit flips where one of two copies turned by 5 and 7 has a bit, and then where copies turned by 19 and 22 do |
| ShannonWords.Sbox2Bits | src/crypto/shannon.cpp:16-20 | the same with the turns 7 and 22, then 5 and 19 |
| ShannonWords.ReadLeBits | src/crypto/shannon.cpp:22-27 | the bits of a word are those of its four bytes, the first byte lowest |
| ShannonWords.WriteLeBits | src/crypto/shannon.cpp:29-34 | byte q written is bits 8q to 8q + 7 of the word |
| ShannonWords.Low32Bits | src/crypto/shannon.cpp:68 | the word of a length has the length's low 32 bits |
| ShannonLaws.ClockMovesOn | src/crypto/shannon.cpp:36-44 | a clock takes the register one word on in the sequence that its recurrence defines: the new word, the input at place 13, the correction of the word that comes to the front |
| ShannonLaws.ClockOutput | src/crypto/shannon.cpp:41-43 | the keystream word of every clock is the one the sequence gives |
| ShannonLaws.CrcMovesOn | src/crypto/shannon.cpp:100-104 | each word fed to the MAC is one step of the recurrence of the second register |
| ShannonLaws.KeyLaw | src/crypto/shannon.cpp:54-72 | a key loads its little-endian words, padded with zeros, and its length; then 16 clocks without input, folded into the register before them |
| ShannonLaws.KeyRegistersLaw | src/crypto/shannon.cpp:74-81 | a keyed cipher starts from the Fibonacci numbers 1 to 987 and the constant 0x6996c53a |
| ShannonLaws.NonceLaw | src/crypto/shannon.cpp:83-89 | a nonce is loaded in the same way under that constant; the new constant is the first register, and no keystream is in hand |
| ShannonLaws.StreamLaw | src/crypto/shannon.cpp:111-167 | byte p of a message of any length is xored with byte p % 4 of keystream word p / 4 + 1 of the sequence that the message's own words feed |
| ShannonLaws.RunEnciphers | src/crypto/shannon.cpp:169-170 | so for enciphering, and for deciphering the other way round |
| ShannonLaws.MacLaw | src/crypto/shannon.cpp:172-194 | byte p of the MAC is byte p % 4 of keystream word 17 + p / 4 of a register made of the one after the message, the mark for the bits left over, and the second register |
| ShannonCipher.Cipher.constructor | src/crypto/shannon.cpp:74-81 | the saved registers are those the key gives |
| ShannonCipher.Cipher.Clock | src/crypto/shannon.cpp:36-44 | one step of the registers and the keystream word, in place, as `ShannonLaws.ClockMovesOn` and `ShannonLaws.ClockOutput` pin them |
| ShannonCipher.Cipher.LoadKey | src/crypto/shannon.cpp:54-72 | absorbs a key of any length, the last word padded with zeros |
| ShannonCipher.Cipher.Nonce | src/crypto/shannon.cpp:83-89 | the state after it depends on the saved registers and the nonce only, whatever was ciphered before |
| ShannonCipher.Cipher.Process | src/crypto/shannon.cpp:111-167 | buffered bytes, whole words and trailing bytes together do what the byte-at-a-time definition does, from any state; from a word boundary every byte is xored with its own byte of the keystream sequence |
| ShannonCipher.Cipher.WholeWords | src/crypto/shannon.cpp:135-148 | the word loop goes on where the buffered bytes ended, leaving fewer than four bytes |
| ShannonCipher.Cipher.Finish | src/crypto/shannon.cpp:172-194 | a MAC of any length, a function of the state |
| ShannonCipher.Cipher.CheckMac | src/crypto/shannon.cpp:196-203 | accepts exactly the MAC of the state, and nothing longer than 64 bytes |
| ShannonCipher.SameBytes | src/crypto/shannon.cpp:200-202 | the accumulated difference is zero exactly when all bytes agree |
| ApCodec.NonceNumber | src/crypto/shannon.cpp:91-97 | the four bytes of a nonce, as numbers and most significant first, make up the nonce, for all 32-bit numbers |
| ApCodec.FrameLength | src/connection/ap_codec.cpp:16-20 | a frame is its command, its payload's length with the upper byte first, and the payload; so it says its own length, up to 65535 |
| ApCodec.PacketByte | src/connection/ap_codec.cpp:14-32 | every byte of a packet: the frame's against the keystream of the nonce, and the four of the MAC |
| ApCodec.NonceAfter | src/connection/ap_codec.cpp:22 | the nonce k packets on is k more, modulo 2^32 |
| ApCodec.WireAt | src/connection/ap_codec.cpp:14-32 | the k-th packet of a list stands behind those before it, under the nonce k further on |
| ApCodec.ReadInTwo | src/connection/ap_codec.cpp:34-45 | deciphering three bytes and then the rest undoes enciphering all at once, and ends in the same state |
| ApCodec.ReceivePacket | src/connection/ap_codec.cpp:14-51 | a packet is read back with its command, payload and MAC accepted, whatever follows it |
| ApCodec.ReceiveWire | src/connection/ap_codec.cpp:14-51 | any list of packets under counting nonces is read back whole and in order, with no MAC refused |
| ApCodec.Pipe.RecvAll | src/connection/ap_codec.cpp:37-49 | takes just the bytes asked for, or fails when there are fewer |
| ApCodec.Codec.Send | src/connection/ap_codec.cpp:14-32 | puts one packet, of 3 bytes, the payload and 4 more, on the wire and moves the nonce on; a payload above 65535 bytes is refused and leaves all as it was |
| ApCodec.Codec.Recv | src/connection/ap_codec.cpp:34-51 | reads one packet as the definition says, with its failures, and moves the nonce on in either case |
| ApCodec.SendEach | src/connection/ap_codec.cpp:14-32 | sends of a list put its packets on the wire one behind the other |
| ApCodec.RecvEach | src/connection/ap_codec.cpp:34-51 | receives in a row give the packets that the definition reads, or fail where it does |
| ApCodec.Transfer | src/connection/ap_codec.cpp:14-51 | a list sent by one codec comes out of another with the same key and nonce, and the pipe is empty again |
| ApCodec.Seal | src/connection/ap_codec.cpp:16-27 | the frame and MAC that a nonce gives |
| ApCodec.RecvBody | src/connection/ap_codec.cpp:40-50 | payload and MAC behind a header, with an empty payload too |
| Ctr.XorTwice | src/crypto/bcrypt_wrap.cpp:87 | exclusive or with the same byte twice changes nothing |
| Ctr.XorBitsAt | src/crypto/bcrypt_wrap.cpp:87 | bit j of an exclusive or is set exactly when bit j of its arguments differs, for numbers of any width |
| Ctr.XorAt | src/crypto/bcrypt_wrap.cpp:87 | so for bytes; zero changes nothing, and a byte cancels itself |
| Ctr.StreamByte | src/crypto/bcrypt_wrap.cpp:80-93 | byte k of a stream is xored with byte k % 16 of the block enciphered from the counter that is k / 16 more than the first, modulo 2^128 |
| BigEndian.BeDigit | src/crypto/bcrypt_wrap.cpp:90-92 | byte i of a counter is its number's base-256 digit, the last byte the lowest |
| Ctr.AheadTwice | src/crypto/bcrypt_wrap.cpp:90-92 | counters add modulo 2^128 |
| Ctr.Increment | src/crypto/bcrypt_wrap.cpp:90-92 | the byte loop adds exactly one modulo 2^128 |
| Ctr.AddBlocks | src/crypto/bcrypt_wrap.cpp:145-152 | the carry loop adds any 64-bit number exactly modulo 2^128 |
| Ctr.EncryptIsAtZero | src/crypto/bcrypt_wrap.cpp:80-93 | the block-by-block definition is byte-wise exclusive or with the keystream |
| Ctr.SeekIsSlice | src/crypto/bcrypt_wrap.cpp:140-192 | enciphering at an offset is the slice of the whole stream's |
| Ctr.EncryptSplit | src/crypto/bcrypt_wrap.cpp:140-192 | neighbouring stretches join |
| Ctr.DecryptUndoes | src/crypto/bcrypt_wrap.cpp:140-192 | a stream enciphered as a whole is deciphered from any offset on |
| Ctr.XorInto | src/crypto/bcrypt_wrap.cpp:181-184 | only the bytes of the block change |
| Ctr.Aes128Ctr | src/crypto/bcrypt_wrap.cpp:62-97 | counter mode as section 6.5 of NIST SP 800-38A defines it, in place |
| Ctr.Aes128CtrAt | src/crypto/bcrypt_wrap.cpp:140-192 | the same at any 64-bit byte offset, from within a block too |
| OggPages.FindMagic | src/audio/ogg_demuxer.cpp:98-106 | the resync scan ends at the first place a page may start, or where too few bytes are left |
| OggPages.NextLonger | src/audio/ogg_demuxer.cpp:96-115 | what can be done with the bytes at hand is still the thing to do when more arrive |
| OggPages.DrainSplit | src/audio/ogg_demuxer.cpp:94-153 | draining what has come and then what comes next is draining it all |
| OggPages.AnnouncedAsWritten | src/audio/ogg_demuxer.cpp:44-54 | an identification header, assembled field by field as section 4.2.2 of Vorbis I lays it out, announces just its rate, its channels and its nominal bitrate |
| OggPages.IdentifiesOnly | src/audio/ogg_demuxer.cpp:44-45 | a packet is taken for one exactly when it begins with one |
| OggPages.FormatAnnounced | src/audio/ogg_demuxer.cpp:42-54 | the format after the first packet is the one in the header it begins with, or else 44100 Hz, two channels and bitrate 0 |
| OggPages.MillisecondsBounds | src/audio/ogg_demuxer.cpp:123 | a time is the samples times 1000 by the rate, rounded down, and 0 at rate 0; a product beyond 64 bits wraps |
| OggPages.LeDigit | src/audio/ogg_demuxer.cpp:108-119 | byte i of a granule position is its number's base-256 digit i |
| OggPages.DrainStops | src/audio/ogg_demuxer.cpp:94-153 | what is kept is too little for another step |
| OggPages.PiecesAreWhole | src/audio/ogg_demuxer.cpp:77-92 | any pieces pushed one after another end as one push of them all, from any state |
| OggLacing.LaceIsAddSegments | src/audio/ogg_demuxer.cpp:117-148 | a page's table and data are walked as its segments, and only the last carries the page's time |
| OggLacing.PacketWhole | src/audio/ogg_demuxer.cpp:129-148 | the segments of a packet, also of a length that is a multiple of 255, make up that packet |
| OggLacing.PageLayout | src/audio/ogg_demuxer.cpp:95-119 | where a page has its capture pattern, granule position, segment count and segment lengths (section 6 of RFC 3533) |
| OggLacing.PacketsWhole | src/audio/ogg_demuxer.cpp:129-148 | the segments of many packets make up those packets |
| OggLacing.FromFresh | src/audio/ogg_demuxer.cpp:40-75 | the first three packets are joined in one header event with the announced format; each later one is an event of its own, in order |
| OggLacing.PageTaken | src/audio/ogg_demuxer.cpp:96-150 | a page at the front is taken whole, whatever its unchecked fields and whatever follows |
| OggLacing.PagesTaken | src/audio/ogg_demuxer.cpp:94-153 | and so is a run of pages, of which packets may span several |
| OggLacing.PacketsDelivered | src/audio/ogg_demuxer.cpp:40-153 | any three or more packets, laced and paged in any way, come out byte for byte, each once, in order, with their times, under the rate, channels and bitrate written in the first, and nothing is left over |
| OggLacing.StampsSettled | src/audio/ogg_demuxer.cpp:123 | once the first packet is out, times are taken at the rate it announced |
| OggLacing.StampAt | src/audio/ogg_demuxer.cpp:123-140 | a segment carries the time of its page exactly when it is the last on it, else 0 |
| OggLacing.PacketTimeAt | src/audio/ogg_demuxer.cpp:135-141 | a packet's time is that of its last segment |
| OggLacing.EndPageTime | src/audio/ogg_demuxer.cpp:120-141 | for all pages and packets, a packet gets the time of the page that holds its end exactly when it ends with that page, or that time is 0 |
| OggLacing.FirstOfTwoUntimed | src/audio/ogg_demuxer.cpp:139-141 | an instance: of two short packets on one page the first gets no time |
| OggLacing.JunkSkipped | src/audio/ogg_demuxer.cpp:98-106 | bytes before the first page that hold no page start make no difference |
| OggDemuxer.Demuxer.constructor | src/audio/ogg_demuxer.cpp:8-9 | starts empty, at 44100 Hz and two channels |
| OggDemuxer.Demuxer.EmitPacket | src/audio/ogg_demuxer.cpp:40-75 | one packet as a header or as an offer to the sink, held back with its time when it is refused |
| OggDemuxer.Demuxer.AddHeader | src/audio/ogg_demuxer.cpp:42-62 | one of the first three packets, with the header callback fired at the third and never again |
| OggDemuxer.Demuxer.TryParsePages | src/audio/ogg_demuxer.cpp:94-153 | the scan over the buffer by positions takes the pages that the definition takes, up to the first refusal, and keeps the rest |
| OggDemuxer.Demuxer.TakePage | src/audio/ogg_demuxer.cpp:107-149 | one page out of the middle of the buffer |
| OggDemuxer.Demuxer.AddSegments | src/audio/ogg_demuxer.cpp:129-148 | the walk over the segment table, up to a refused packet |
| OggDemuxer.Demuxer.Push | src/audio/ogg_demuxer.cpp:77-92 | appends, offers a held packet again, and parses unless that is refused; with a sink that accepts it drains the buffer |
| OggRefusal.AcceptedAll | src/audio/ogg_demuxer.cpp:94-153 | with a sink that accepts everything, offering is draining |
| OggRefusal.HeldComesFirst | src/audio/ogg_demuxer.cpp:80-91 | a held packet is offered before anything else, and while it is refused nothing is parsed |
| OggRefusal.RefusedIsHeld | src/audio/ogg_demuxer.cpp:65-72 | a refused packet taken later leaves the stream as if it had been taken at once |
| OggRefusal.NothingLostIff | src/audio/ogg_demuxer.cpp:129-148 | a page in which a packet is refused loses nothing exactly when that packet ends the page |
| OggRefusal.SecondIsLost | src/audio/ogg_demuxer.cpp:141-146 | an instance: the second of two packets on a page is never offered when the first is refused |
| OggDemuxer.ReadU64Le | src/audio/ogg_demuxer.cpp:28-32 | eight bytes as a number, least significant first |
| OggDemuxer.FindMagicShift | src/audio/ogg_demuxer.cpp:98-106 | searching from a place in the buffer is searching the rest of it |
| VorbisTap.ChunkAdvances | src/session.cpp:1671-1688 | a chunk deciphered at its own offset and stripped takes the attempt to where the longer download stands, also when it ends inside the header |
| VorbisTap.Tap.OnChunk | src/session.cpp:1670-1690 | the callback in place |
| VorbisTap.Tap.CaptureHeader | src/session.cpp:1625-1630 | keeps the first 167 bytes however they are cut |
| VorbisTap.Tap.Download | src/session.cpp:1667-1690 | with a sink that accepts, any chunks of one attempt leave headers, packets, kept bytes and counters as one chunk would |
| VorbisTap.AudioIvNumber | src/audio/decrypt_audio.cpp:6-9 | the initial counter as one number |
| VorbisTap.FileDelivered | src/session.cpp:1667-1690 | a file that is a 167-byte header and paged packets, enciphered, is delivered packet by packet |
| PlaybackOrder.BackUndoesOn | src/connect/context_state.cpp:140-188 | going back undoes going on, and the other way round, with wrapping and without |
| PlaybackOrder.NaturalSteps | src/connect/context_state.cpp:159-166 | in the natural order going on adds one and going back takes one off, with wrapping and without |
| PlaybackOrder.GoneBackAt | src/connect/context_state.cpp:171-188 | k steps back without wrapping lead k places back, if there are so many |
| PlaybackOrder.RoundPlaysAll | src/connect/context_state.cpp:140-165 | as many steps as there are tracks return to the start and play each track once, from any track and in any order |
| PlaybackOrder.ReachedAt | src/connect/context_state.cpp:140-165 | where k steps lead |
| PlaybackOrder.SwapPermutes | src/connect/context_state.cpp:233-236 | exchanging two places keeps a permutation |
| PlaybackOrder.AppendPermutes | src/connect/context_state.cpp:257-261 | appending the places of new tracks makes a longer permutation |
| PlaybackOrder.PermutesLength | src/connect/context_state.cpp:205-238 | a permutation has as many entries as there are tracks |
| ContextState.ShuffledPermutes | src/connect/context_state.cpp:229-236 | whatever is drawn, the shuffle keeps a permutation and moves nothing before its first place |
| ShuffleLaws.SeedsMatch | src/connect/context_state.cpp:229-232 | the generator is a bijection on 64 bits |
| ShuffleLaws.AnyDraw | src/connect/context_state.cpp:229-232 | any number below the bound can be drawn next |
| ShuffleLaws.ShuffleExchanges | src/connect/context_state.cpp:229-236 | a shuffle is the exchanges that the seed's draws name |
| ShuffleLaws.AnyOrder | src/connect/context_state.cpp:233-236 | every order that keeps the places before the first one shuffled comes from some draws |
| ShuffleLaws.NewOrderDrawn | src/connect/context_state.cpp:202-237 | a new order shuffles every place, or all but that of the current track, which is put in front |
| ShuffleLaws.AnyNewOrder | src/connect/context_state.cpp:202-237 | every permutation of the tracks is a new order for some draws; with a current track, every one that begins with it |
| ShuffleLaws.ExtendedDrawn | src/connect/context_state.cpp:239-262 | new tracks come behind the order, shuffled among themselves by draws of their own |
| ContextState.NewOrderPermutes | src/connect/context_state.cpp:205-238 | a new order is a permutation of all tracks with the current one, if any, in front, for every seed |
| ContextState.ExtendedPermutes | src/connect/context_state.cpp:239-262 | new tracks extend the order behind what it held |
| ContextState.GrownAddsOnce | src/connect/context_state.cpp:281-286 | no URI is added that is empty, there already, or added before |
| ContextState.GrownHasAll | src/connect/context_state.cpp:281-286 | every URI offered is there afterwards |
| ContextState.GrownKeepsOrder | src/connect/context_state.cpp:281-286 | what is added keeps the order in which it was offered |
| ContextState.GrownAll | src/connect/context_state.cpp:281-286 | tracks with URIs that are not empty, not known and not repeated are all added, as they stand |
| ContextState.CompletedPermutes | src/connect/context_state.cpp:305-336 | the adopted order with the left-out tracks behind it is a permutation |
| ContextState.UnusedAscends | src/connect/context_state.cpp:332-335 | the tracks that the observed order leaves out follow in list order |
| ContextState.OrderAdopted | src/connect/context_state.cpp:305-336 | an observed order, given as the URIs it plays, is adopted track for track from the current one on |
| ContextState.AdoptsIffNamed | src/connect/context_state.cpp:311-331 | something is adopted exactly when another known track is listed behind the current one |
| ContextState.OrderWithShuffleOff | src/connect/context_state.cpp:294-338 | an instance of an order that is kept with shuffle off |
| QueueRevision.ComputeQueueRevision | src/connect/context_state.cpp:378-394 | the hash of the URIs, each with its end mark, in hexadecimal |
| QueueRevision.HashOfA | src/connect/context_state.cpp:382-388 | the hash of the one byte 0x61 is 0xaf63dc4c8601ec8c, as published for FNV-1a |
| QueueRevision.TerminatedA | src/connect/context_state.cpp:383-390 | what is hashed of a URI is its bytes and 0xff |
| QueueRevision.HexAt | src/connect/context_state.cpp:391-393 | character i stands for the hash's base-16 digit, the lowest last |
| QueueRevision.HexDigits | src/connect/context_state.cpp:391-393 | the sixteen digits are 0 to 9 and a to f, in that order |
| QueueRevision.MixInjective | src/connect/context_state.cpp:383-388 | another byte, or another hash before it, gives another hash |
| QueueRevision.RevisionChanges | src/connect/context_state.cpp:378-394 | changing one byte of one URI changes the revision |
| ContextState.SnapshotShowsNext | src/connect/context_state.cpp:340-376 | a snapshot's first next track is the one a non-wrapping advance selects, and the following ones those of further advances; there are as many as the window holds, or as are left |
| ContextState.SnapshotShowsPrevious | src/connect/context_state.cpp:340-376 | its previous tracks, from the last backwards, are those that going back selects; as many as the window holds, or as there are |
| ContextState.State.constructor | src/connect/context_state.h:116-122 | starts with no tracks, no index and no options |
| ContextState.State.SetPlayOrigin | src/connect/context_state.cpp:12-15 | stores the origin |
| ContextState.State.SetContext | src/connect/context_state.cpp:17-28 | a different context loses tracks, index and order; the same one keeps them |
| ContextState.State.Clear | src/connect/context_state.cpp:30-40 | empties all |
| ContextState.State.SetTracks | src/connect/context_state.cpp:42-49 | new tracks, no index, and a new order if shuffling |
| ContextState.State.SetCurrentTrackUri | src/connect/context_state.cpp:51-61 | the first track with the URI, or no change |
| ContextState.State.SetCurrentByUid | src/connect/context_state.cpp:63-74 | the first track with the uid, or no change |
| ContextState.State.SetCurrentByIndex | src/connect/context_state.cpp:76-82 | the index if it is in range, or no change |
| ContextState.State.StartContextPlayback | src/connect/context_state.cpp:84-107 | starts at the head of the order; a shuffled start avoids the given track whenever there is another, by exchanging the first two |
| ContextState.State.ResolveSkipTo | src/connect/context_state.cpp:109-123 | URI before uid before index; the first that names a track decides |
| ContextState.State.AdvanceNext | src/connect/context_state.cpp:140-165 | selects the next in the order, natural or shuffled, wraps or stays as the options say |
| ContextState.State.AdvancePrev | src/connect/context_state.cpp:167-188 | selects the previous one |
| ContextState.State.AdvanceMany | src/connect/context_state.cpp:140-165 | k advances with the context on repeat lead where the order's definition says |
| ContextState.State.SetOptions | src/connect/context_state.cpp:190-198 | turning shuffle on puts the current track in front of the new order; leaving it as it is keeps the order |
| ContextState.State.RebuildShuffleOrder | src/connect/context_state.cpp:205-238 | the order that the seed defines |
| ContextState.State.AppendShuffleIndices | src/connect/context_state.cpp:239-262 | extends the order by the new places |
| ContextState.State.TracksNearEnd | src/connect/context_state.cpp:264-275 | true exactly when at most that many tracks are left in the order |
| ContextState.State.AppendTracks | src/connect/context_state.cpp:277-292 | adds what is new, counts it, and keeps the old order as the beginning of the new |
| ContextState.State.ApplyPlaybackOrder | src/connect/context_state.cpp:294-338 | current track, adopted tail, then the rest; no change of order when nothing was adopted; an order that was empty with shuffle off stays so exactly when shuffle is on or nothing is adopted |
| ContextState.State.TakeSnapshot | src/connect/context_state.cpp:340-376 | the current track, the windows around it in playing order, and the revision of what comes next |
| Timeline.OnKeepsLine | src/session.cpp:2149-2164 | a move from the queue keeps history, current and queue as one line exactly when the current track is not empty, is not the queue's front, and the history holds fewer than 64 |
| Timeline.OfferedFollows | src/session.cpp:2149-2164 | with the queue empty an offered track plays, and follows the line under the same condition |
| Timeline.BackKeepsLine | src/session.cpp:2166-2177 | a move back keeps it exactly when the current track is not empty |
| Timeline.RunKeepsLine | src/session.cpp:2149-2177 | for all lines and all runs, the line is kept exactly when each move finds a track that enters the history and room for it, and then the run only walks along it |
| Timeline.NeverLonger | src/session.cpp:2149-2177 | no run served from queue and history makes the line longer, so what is lost stays lost |
| Timeline.RunWalks | src/session.cpp:2149-2177 | on a line of non-empty tracks with unequal neighbours, of any length, the line is kept exactly when no move on is made from place 64 or beyond with a queue left |
| Timeline.OldestIsLost | src/session.cpp:1267-1273 | an instance: from the last but one of 66 tracks the oldest is lost |
| Timeline.EveryStateIsAt | src/session.cpp:862-878 | each state is a place on its own line |
| Timeline.Session.QueuePopFront | src/session.cpp:1253-1259 | takes the front, if there is one |
| Timeline.Session.HistoryPopBack | src/session.cpp:1260-1266 | takes the back, if there is one |
| Timeline.Session.PushHistory | src/session.cpp:1267-1273 | appends unless empty; beyond 64 the oldest goes |
| Timeline.Session.StartPlayback | src/session.cpp:862-878 | what played enters the history unless it is empty, the same, or not to be pushed |
| Timeline.Session.Next | src/session.cpp:2149-2164 | queue first, else the track the context offers, else no move |
| Timeline.Session.Previous | src/session.cpp:2166-2177 | the last of the history plays and the current track heads the queue |
| SpotifyId.DecodeOfEncode | src/spotify_id.cpp:24-90 | every 128-bit id is read back from its text |
| SpotifyId.EncodeOfDecode | src/spotify_id.cpp:24-90 | every accepted text is written back the same |
| SpotifyId.TextHolds | src/spotify_id.cpp:75-90 | 22 digits are enough for 128 bits |
| SpotifyId.DigitOrder | src/spotify_id.cpp:30-33 | digits count from 0, small letters from 10, capitals from 36, each range by one; nothing else is a digit |
| SpotifyId.ValDigit | src/spotify_id.cpp:26-44 | character i of a text is its number's base-62 digit, the lowest last |
| SpotifyId.FromBase62 | src/spotify_id.cpp:24-45 | accepts exactly the 22-character texts of the alphabet with a value below 2^128 |
| SpotifyId.MulAdd | src/spotify_id.cpp:34-41 | the byte loop multiplies by 62 and adds, with the overflow as its carry |
| SpotifyId.PrefixTooBig | src/spotify_id.cpp:41 | an overflow on the way means that the whole text is too big |
| SpotifyId.DivMod62 | src/spotify_id.cpp:81-86 | the byte loop divides by 62 and leaves the digit |
| SpotifyId.ToBase62 | src/spotify_id.cpp:75-90 | the 22 base-62 digits of the id |
| Protobuf.VarintRoundTrip | src/proto/pb_codec.h:22-28 | every 64-bit number is read back from its varint, whatever follows |
| Protobuf.VarintBack | src/proto/pb_codec.h:94-105 | reading goes on from any bits already read, and never too far |
| Protobuf.VarintDigit | src/proto/pb_codec.h:22-28 | byte i of a varint holds its number's base-128 digit i, and its top bit exactly when more follow |
| Protobuf.LittleEndianDigit | src/proto/pb_codec.h:68 | byte i of a double is its bits' base-256 digit i |
| Protobuf.EncodedExamples | src/proto/pb_codec.h:20-80 | a field of each kind, written out byte by byte |
| Protobuf.SkipWidths | src/proto/pb_codec.h:141-159 | wire types 1 and 5 pass over eight and four bytes, and 3, 4, 6 and 7 are refused |
| Protobuf.TagRoundTrip | src/proto/pb_codec.h:29-31 | field number and wire type are read back |
| Protobuf.DelimitedRoundTrip | src/proto/pb_codec.h:53-57 | bytes are read back by their length |
| Protobuf.SkipLands | src/proto/pb_codec.h:142-159 | skipping any written field lands where the next begins |
| Protobuf.FieldRoundTrip | src/proto/pb_codec.h:64-77 | a field of any kind is read back |
| Protobuf.MessageRoundTrip | src/proto/pb_codec.h:73-77 | a message is read back field by field, to any depth, but for doubles |
| Protobuf.AllSeenIffPlain | src/proto/pb_codec.h:64-69 | all is read back exactly when there is no double at any depth: the reader can only skip them |
| Protobuf.DoubleIsLost | src/proto/pb_codec.h:64-69 | a message of one double is the instance: it is read back as an empty one |
| ProtobufCodec.Writer.WriteVarint | src/proto/pb_codec.h:22-28 | appends the varint |
| ProtobufCodec.Writer.WriteTag | src/proto/pb_codec.h:29-31 | appends the tag |
| ProtobufCodec.Writer.WriteUint64 | src/proto/pb_codec.h:32-35 | appends a number field |
| ProtobufCodec.Writer.WriteInt32 | src/proto/pb_codec.h:36-40 | the same with the sign extended to 64 bits |
| ProtobufCodec.SignExtension | src/proto/pb_codec.h:36-40 | the number written is congruent to the value modulo 2^64, and its upper 33 bits are the sign |
| ProtobufCodec.Writer.WriteBool | src/proto/pb_codec.h:49-52 | 0 or 1 |
| ProtobufCodec.Writer.WriteBytes | src/proto/pb_codec.h:53-57 | length and bytes |
| ProtobufCodec.Writer.WriteDouble | src/proto/pb_codec.h:64-69 | eight bytes, least significant first |
| ProtobufCodec.Writer.WriteField | src/proto/pb_codec.h:73-77 | a message goes through a writer of its own |
| ProtobufCodec.Writer.WriteFields | src/proto/pb_codec.h:73-77 | appends what encoding the fields defines |
| ProtobufCodec.Reader.AtEnd | src/proto/pb_codec.h:91 | true exactly when nothing is left to read |
| ProtobufCodec.Reader.ReadVarint | src/proto/pb_codec.h:94-105 | the number, or one of two exceptions |
| ProtobufCodec.Reader.ReadTag | src/proto/pb_codec.h:108-114 | the tag, or the end |
| ProtobufCodec.Reader.ReadLenDelim | src/proto/pb_codec.h:117-123 | a reader over just the bytes counted |
| ProtobufCodec.Reader.ReadByteString | src/proto/pb_codec.h:125-140 | the bytes counted |
| ProtobufCodec.Reader.SkipField | src/proto/pb_codec.h:142-159 | each wire type, and the exception for others |
| ProtobufCodec.Reader.DecodeField | src/proto/pb_codec.h:94-159 | reading one field by a schema |
| ProtobufCodec.Reader.DecodeFields | src/proto/pb_codec.h:94-159 | reading to the end does what decoding defines |
| Mercury.TakesAllPieces | src/dispatcher.cpp:145-161 | the pieces of a packet are taken from its bytes |
| Mercury.HeadOfPacket | src/dispatcher.cpp:121-135 | sequence number, flags and count are read back from a packet with an eight-byte number |
| Mercury.PacketReceived | src/dispatcher.cpp:121-191 | what a packet's bytes do is what its pieces do |
| Mercury.ZigZagBack | src/dispatcher.cpp:175-177 | every 32-bit status is read back from its zigzag form |
| Mercury.HeaderRead | src/dispatcher.cpp:163-182 | any header that was written is read to its end, with the last URI and the last status in it, whatever other fields it has |
| Mercury.HeaderExample | src/dispatcher.cpp:163-179 | an instance in bytes: a header with URI and status 200 |
| Mercury.FirstPacketExample | src/dispatcher.cpp:121-161 | an instance in bytes: a first packet for request 7, whose piece goes on |
| Mercury.LastPacketExample | src/dispatcher.cpp:121-191 | an instance in bytes: the last packet completes the reply, with its two parts, URI and status |
| Mercury.PartRestored | src/dispatcher.cpp:151-160 | the stretches of a part join to the part |
| Mercury.CutsRestored | src/dispatcher.cpp:145-161 | parts cut over packets in any way end equal to the originals, with nothing pending |
| Mercury.UnreadableHeader | src/dispatcher.cpp:167-179 | a header of one byte with an unknown wire type cannot be read |
| MercuryRuns.StepSound | src/dispatcher.cpp:229-238 | one event keeps the numbers apart |
| MercuryRuns.RunSound | src/dispatcher.cpp:163-190 | in any run, until the 64-bit numbers run out, no request is answered twice and none is awaited after its answer |
| MercuryRuns.HandleOwn | src/dispatcher.cpp:121-191 | what a packet of any bytes does to the request it is for |
| MercuryRuns.HandleForeign | src/dispatcher.cpp:121-191 | and that it does nothing to any other |
| MercuryRuns.RunFollows | src/dispatcher.cpp:137-191 | while no event ends the program, each request stands where its own traffic alone has brought it |
| MercuryRuns.StopsExactly | src/dispatcher.cpp:163-182 | the program ends exactly when the last packet of an awaited request brings a header that cannot be read: the exception has no handler (`src/dispatcher.cpp:34`, `src/dispatcher.cpp:91`) |
| MercuryRuns.DeliveredAsOwed | src/dispatcher.cpp:121-191 | over any bytes whatever, a request gets exactly what its own packets complete before the program ends |
| MercuryRuns.ReplyDelivered | src/dispatcher.cpp:121-191 | a reply, cut in any way among any other traffic, is delivered once, with its own parts, exactly when its header can be read and no earlier last packet for an awaited request brought one that cannot |
| MercuryRuns.OneBadHeaderEndsAll | src/dispatcher.cpp:163-182 | an instance: the good reply behind a bad header is never delivered |
| MercuryDispatcher.Pending.AddPieces | src/dispatcher.cpp:145-161 | the loop over pieces, with what a packet that ends early leaves behind |
| MercuryDispatcher.Dispatcher.Request | src/dispatcher.cpp:232-238 | takes the next number and waits under it |
| MercuryDispatcher.Dispatcher.GiveUp | src/dispatcher.cpp:258-272 | no longer waits |
| MercuryDispatcher.Dispatcher.HandleMercury | src/dispatcher.cpp:121-191 | one packet, malformed or not, changes the table as one step of a run does, and no other request; it throws, and ends the program, only when the last one brings an unreadable header |
| MercuryDispatcher.Dispatcher.FinishReply | src/dispatcher.cpp:163-190 | the last packet reads the header and answers the request, or throws, leaves it unanswered and ends the program |
| MercuryDispatcher.ReadHeader | src/dispatcher.cpp:167-179 | the reading loop over the header, with its exceptions |
| MercuryDispatcher.ReadSeq | src/dispatcher.cpp:126-130 | a number of any width, kept to 64 bits |

## Left out

- Sockets, HTTP, WebSocket, JSON, files, mDNS, logging, threads, clocks and timeouts: input and output, or libraries that are not part of this model.
- The AES block, SHA-1, HMAC, RSA and the random generator: the AES block is any function on 16 bytes, random numbers are any seed; the others are not modelled.
- Floating point: windowing, residues, the inverse transform, gain and limiter. In `FloorLine.DrawLine` the array holds the y of each x, not the table value that y selects; its integers do not wrap, and the variant with a division table (`STB_VORBIS_DIVIDE_TABLE`) is not modelled.
- HuffmanTables.Qsort: the library's sort is modelled by one that does the same by its contract; how it sorts is not part of this model.
- HuffmanDecode.BuildCodebook: takes the lengths as they have been read; reading them from the setup packet, the vector values and out-of-memory returns are left out.
- HuffmanDecode.Decode: a codebook that is sparse and has no entry at all has no list of sorted values; the macro's lookup there is not modelled as memory but as the failure -1 that the slow path gives, and neither is the extra slot in front of the sorted values that holds -1.
- HuffmanDecode.BitReader.PrepHuffman: the packet is a list of bytes; the segment bookkeeping behind the next byte, and the invalid state that `get_bits` leaves at the end of a packet, are left out.
- BigUint.BigUint.SubInplace: the two operands are different objects, as they are wherever the source calls it.
- Little-endian and padded byte forms of big integers, which the proofs of the exchange do not need.
- Shift-and-or of disjoint bits is written as addition where words are numbers (`KeyExchange.FromBe`, `Protobuf.Joined`, `BigUint.BigUint.Rshift1`), with proofs that nothing overlaps.
- ApCodec.Codec.Recv: when the pipe ends early, what is left of the payload buffer and of the cipher is not stated; the connection is given up then.
- VorbisTap.Tap.OnChunk: the sink accepts every packet here; after a refusal the result depends on where chunks end, since a held packet is offered again at each push. The stop flag is left out.
- Further download attempts on other URLs go on with the same demuxer (`src/session.cpp:1666-1669`); one attempt is modelled, from any state of the demuxer.
- `size_t` and stream offsets are below 2^64, and windows and positions do not wrap.
- ContextState.State.ResolveSkipTo: one step here, although the source takes the lock twice; locks are left out throughout.
- QueueRevision.ComputeQueueRevision: a character of a URI counts as its low eight bits; two queues that differ in more than one byte may have one revision, as with any hash of 64 bits.
- Which permutations the shuffle's seeds reach, and with what chance: any list of draws gives some permutation and each permutation comes from some list, but all draws of one shuffle follow from one seed of 64 bits.
- Timeline.Session.Next: what the context offers is a parameter; the playback thread it starts and the flags it resets are left out.
- MercuryDispatcher.Dispatcher.HandleMercury: a lost connection, which wakes every waiter with an error, and sequence numbers that come round after 2^64 requests are left out. After an exception nothing runs, so no method of the dispatcher is called.
- The other writers of `src/proto/pb_codec.h` (32-bit, enum, string), which differ in argument type only.
- The context resolver's worker and deferred skips: check and act are not atomic there, so no property over all interleavings is claimed.
- Base 64, DNS names, blob parsing and artwork counters: helpers of other parts of the program.
