# Verification of a video-integrity system

A Dafny 4.11 model of the parts of the system that carry its guarantees, with proofs.
`dafny verify dfyconfig.toml` checks everything.

A Logger captures video frames, hashes the edge map of each one with SHA-256, signs the hash,
and sends content id, hash, signature and image to a Server, which stores them; a Verifier is meant to
recompute hashes later and compare. Around this there are a Merkle tree builder, four separately written
Base64 coders, and a client that collects key shares. The project proves, for all inputs:

* the streaming hasher of picosha2, with 64-bit words masked only here and there, a 4 x 16-bit length
  counter and two cases of padding, computes the SHA-256 of FIPS 180-4 of the concatenation of whatever pieces
  it is fed; both one-shot wrappers agree with it for every buffer size; the constants are the root fractions of the
  first primes that the standard asks for, and the logical functions are fixed bit by bit;
* all four Base64 coders compute the encoding of section 4 of RFC 4648, defined here on the bit
  stream, and each decoder undoes it; the tolerant decoder is characterised on arbitrary text, including exactly
  when it gives up, and stays inside its buffers;
* the level-by-level Merkle build gives the tree of the recursive definition in section 2.1 of RFC 6962
  (without prefix bytes), with n - 1 new nodes and height the rounded-up binary logarithm; equal roots mean
  equal leaves or an explicit hash collision;
* from camera to store: over a reliable network, however it cuts up sends and receives, the Server serves every
  captured frame: one row for each with its own content id, hash and signature, in order, and no bytes left over; every
  image is kept under its id if and only if no id came with two different images; over any network, the same
  holds of a prefix as long as no call fails, and what the first failed receive leaves behind is stated;
* a handler consumes exactly the announced payload if and only if the announced size fits its
  command; the Server serves any stream of such messages in order;
* the text that is hashed determines an edge map, so the Verifier's verdict is positive exactly for a matching map or
  a collision; for which other pixel values the text is unambiguous is settled for any two values and for any range
  of values from 0;
* share collection stops exactly when the threshold is reached or passed or twenty requests are made, and hands on exactly the
  set of the replies; the set stays within the threshold exactly when the threshold is positive, and always
  misses a threshold above the number of different tokens among the first three; the share request survives its
  round trip exactly when the threshold has one digit and the memory behind the request does not start with another.

## How the model is laid out

| files | content |
|---|---|
| `Bytes`, `Bits` | bytes, C strings, machine words as bounded integers, bitwise operations |
| `Sha256Spec`, `Sha256Logic`, `Primes`, `Sha256Constants` | SHA-256 as FIPS 180-4 defines it; what its functions do to single bits, its equations, and where its constants come from |
| `Picosha2Words`, `Picosha2Block`, `Picosha2Length`, `Picosha2`, `HashText` | the hasher, bottom up, and its hexadecimal text |
| `Base64Spec` | Base64 as a bit stream, with its laws |
| `Base64Accumulator`, `Base64Table`, `Base64Staging`, `Base64BitArray`, `VerifyLength` | the four coders and the decoded-length formula |
| `MerkleSpec`, `MerkleTree` | trees as values, and the constructor on the heap |
| `Decimal`, `TwoWordCode`, `FrameHash` | decimal text, unique reading of texts over two words, frame hashing, the Verifier |
| `ContentId`, `Protocol`, `Wire`, `ServerLoop`, `LoggerPipeline`, `Pipeline` | content ids, messages, sockets, Server, Logger, and both together |
| `Shares` | tokens, the share file, the collecting loop |

Code that works step by step is a method with loops over arrays, queues or fields, proved against a
function; code that only computes is a function. A specification function is never the code's own body: the
bit-stream Base64, the FIPS compression on 32-bit words, the recursive Merkle split and the per-message
`Effect` are separate definitions.

Modelling conventions:

* `word_t` is 64 bits wide and wraps; the `int` accumulators of the first Base64 form wrap at 32 bits in two's
  complement (the left shift too); `size_t` in `calcDecodeLength` wraps at 64 bits; the sizes in the protocol are 32 bits
  wide and are cut down to `int` where the code does so. Other counters (`int length`, `size()`)
  are unbounded.
* In picosha2 `&`, `|`, `^` are defined bit by bit on integers and masks are proved to be remainders. In the Base64
  coders shifts and masks by powers of two are written as division and remainder; `|=` in the tolerant decoder stays a
  bitwise or, proved to fall on clear bits of a byte already assigned.
* A socket may take or deliver any part of what is asked for, or fail, at every call. `failures` counts the calls that
  failed. At the Server `arrived` and `coming` are what can be read and what the peer still sends; the
  boundary moves between any two calls. A `reliable` port does not fail and does not time out while there is something to
  take or still to come; in which pieces it takes and delivers stays open.
* Camera frames and content ids are inputs. OpenCV and the signature are unknown functions (`Lab`), with the
  sizes the Logger relies on as assumptions (`Handles`): an edge map has one byte per pixel, all YUV images of a run have one size,
  a signature text has no NUL and fits 350 characters. The database is a list of rows, the file system a map.

Where code and intent differ, the model follows the code:

* The numbers of a share request are printed next to each other and read back with `atoi`, `/ 10` and `% 10` from a
  buffer without a terminator. This is only right for a threshold of at most 9, and only if no digit lies behind the
  request (`Decimal.ShareRequestRoundTrip`).
* `send_binary` of the Server reports an empty buffer as a failure (`Wire.SendBinary`).
* A message announcing 2^31 bytes or more, a video message shorter than its fields, and `ANO_SHARE_RES` with a
  payload leave the stream out of step (`Protocol.AlignmentIsExact`).
* Pixel values are hashed as decimals without separators. For images with two pixel values this is unambiguous if
  and only if the two decimals do not commute (`FrameHash.TwoValuesExactly`), for images with all values up to m if and
  only if m is at most 9 (`FrameHash.AllValuesExactly`). The `make_hash` functions accept any image with one channel;
  in the programs they only ever get Canny's output, whose values 0 and 255 are on the safe side.
* `main` of the Verifier (`Verifier/Verifier.cpp:174-190`) never calls `make_hash`, so it compares an empty string and
  never confirms a stored hash (`FrameHash.Verifier.VerifyAsShipped`). `FrameHash.Verifier.Verify` is the check with
  the call in place.
* With a threshold of zero one share is collected, one more than the threshold; a threshold above 3, or above the
  number of different tokens among the first three, is never reached (`Shares.GetThreshhold`).
* Content ids show a second and its milliseconds without leading zeros, filled up with zeros on the right, so instants of
  one second share an id exactly when their milliseconds differ by trailing zeros only, as .005, .050 and .500
  do (`ContentId.SameIdExactly`). The capturing loop does not wait either, so two frames may fall into one millisecond.
  The later image then overwrites the earlier one; both rows are kept (`Pipeline.SameIdLosesFrame`,
  `Pipeline.ImagesKeptExactly`).
* `video_data_send` does not check its receives: after a failed one it stores what came, zero-filled
  (`ServerLoop.Server.HandleVideo`).
* The call of `send_data_to_server` in `Logger/Logger.cpp:811` is commented out, and `YUV_switch` is false
  (`Logger/Logger.cpp:775`), so the shipped `main` takes the grey-scale path and sends nothing; `RunYuv` is the run with
  the switch on and the call in place.
* `h_base64_decode` leaves the left-over bits of two characters and a pad before the terminator, so such a result is
  not terminated at its length unless those bits are zero (`Base64Table.HDecode`).

## Model

| member | source | states |
|---|---|---|
| `Bits.BitwiseLow` | Merkle_Tree/picosha2.h:48 | Truncating to k bits commutes with and, or, xor: upper bits never reach lower ones. |
| `Bits.MaskIsMod` | Merkle_Tree/picosha2.h:48 | A mask of k ones keeps exactly the remainder modulo 2^k. |
| `Bits.OrDisjoint` | Merkle_Tree/picosha2.h:97-102 | Or-ing a value below 2^k onto a multiple of 2^k adds it; used for loads, carries and pending Base64 bits. |
| `Picosha2Words.RotrAgrees` | Merkle_Tree/picosha2.h:73-76 | Two 64-bit shifts, or and mask give the 32-bit circular shift of FIPS 180-4 for every distance below 32. |
| `Picosha2Words.ChAgrees` | Merkle_Tree/picosha2.h:67 | The upper half of the complement does not leak: the 64-bit choice equals the 32-bit one. |
| `Picosha2Words.SigmasAgree` | Merkle_Tree/picosha2.h:78-89 | The four sigma functions equal those of section 4.1.2 of FIPS 180-4. |
| `Picosha2Words.Temp1Agrees` | Merkle_Tree/picosha2.h:118 | The unmasked sum is exact (no 64-bit overflow) and congruent to T1 modulo 2^32. |
| `Picosha2Words.RoundAgrees` | Merkle_Tree/picosha2.h:117-128 | A round that masks only where it forms `e` and `a` is the round of section 6.2.2. |
| `Picosha2Words.ScheduleAgrees` | Merkle_Tree/picosha2.h:103-106 | A masked 64-bit sum is the next schedule word modulo 2^32. |
| `Picosha2Words.LoadAgrees` | Merkle_Tree/picosha2.h:97-102 | Four shifted bytes or-ed together are the big-endian word of the block. |
| `Picosha2Block.FillSchedule` | Merkle_Tree/picosha2.h:95-106 | The array holds the 64 schedule words of the standard. |
| `Picosha2Block.RunRounds` | Merkle_Tree/picosha2.h:108-128 | The eight variables end as the working variables after 64 rounds. |
| `Picosha2Block.Hash256Block` | Merkle_Tree/picosha2.h:91-140 | The digest array is replaced by the hash value after one more block, all words below 2^32. |
| `Picosha2Length.AddToDataLength` | Merkle_Tree/picosha2.h:235-247 | Digits stay below 65536 and their value grows by n modulo 2^64, although the carry loop stops early. |
| `Picosha2Length.CarryStep` | Merkle_Tree/picosha2.h:238-246 | Moving the overflow of a digit into the carry keeps what digits and carry are worth modulo 2^64. |
| `Picosha2Length.BitLengthDigits` | Merkle_Tree/picosha2.h:249-261 | The shifted digits are worth eight times the counter modulo 2^64. |
| `Picosha2Length.WriteDataBitLength` | Merkle_Tree/picosha2.h:248-268 | Eight big-endian bytes of eight times the counter modulo 2^64 are written, nothing else changes. |
| `Picosha2.Hash256OneByOne.constructor` | Merkle_Tree/picosha2.h:184-191 | A new hasher is valid and has seen the empty message. |
| `Picosha2.Hash256OneByOne.Process` | Merkle_Tree/picosha2.h:193-203 | Keeps the class invariant (fewer than 64 bytes buffered, counter and hash words those of the message so far) and appends the piece to the message. |
| `Picosha2.Hash256OneByOne.Finish` | Merkle_Tree/picosha2.h:205-222 | The hash words become those of the whole padded message. |
| `Picosha2.Hash256OneByOne.GetHashBytes` | Merkle_Tree/picosha2.h:224-232 | Writes the SHA-256 of the message, or as much as fits, and leaves the rest of the output. |
| `Picosha2.HashWholeBlocks` | Merkle_Tree/picosha2.h:197-202 | Hashes the leading whole blocks and stops with fewer than 64 bytes left. |
| `Picosha2.HashTail` | Merkle_Tree/picosha2.h:205-222 | For every residue 0..63 feeds exactly the tail and the padding of section 5.1.1. |
| `Picosha2.PaddingOne` | Merkle_Tree/picosha2.h:216-221 | With at most 55 bytes left the padding fits one block. |
| `Picosha2.PaddingTwo` | Merkle_Tree/picosha2.h:212-216 | With more than 55 the padding spills into a second block that starts with 56 zeros. |
| `Sha256Spec.AbsorbConcat` | Merkle_Tree/picosha2.h:193-203 | Absorbing can be cut at any block boundary, the reason why pieces do not matter. |
| `Sha256Constants.RoundConstants` | Merkle_Tree/picosha2.h:50-61 | The constant of round t is the first 32 fractional bits of the cube root of prime t. |
| `Sha256Constants.InitialWords` | Merkle_Tree/picosha2.h:63-65 | The initial words are the first 32 fractional bits of the square roots of 2, 3, 5, 7, 11, 13, 17, 19. |
| `Primes.PrimesExactly` | Merkle_Tree/picosha2.h:50-61 | Between two entries of the table of primes there is no prime, so entry t is prime t. |
| `Sha256Logic.BitOfRotr` | Merkle_Tree/picosha2.h:73-76 | Rotation by n moves bit i + n to place i, around the end of the word. |
| `Sha256Logic.BitOfCh` | Merkle_Tree/picosha2.h:67 | Ch chooses bit by bit between its last two arguments. |
| `Sha256Logic.BitOfMaj` | Merkle_Tree/picosha2.h:69-71 | Maj is the majority of three bits. |
| `Sha256Logic.BitOfSigmas` | Merkle_Tree/picosha2.h:78-89 | Each sigma function adds three bits of its argument modulo 2, at these distances. |
| `Sha256Logic.ScheduleEquation` | Merkle_Tree/picosha2.h:97-106 | The schedule: the block's words most significant byte first, then sums of four terms with one reduction. |
| `Sha256Logic.RoundEquations` | Merkle_Tree/picosha2.h:117-128 | The eight variables after a round, as sums with one reduction. |
| `Sha256Logic.CompressEquation` | Merkle_Tree/picosha2.h:129-139 | Round t uses constant and schedule word t, and the old hash value is added at the end. |
| `Sha256Logic.PaddingLayout` | Merkle_Tree/picosha2.h:205-222 | Padding is 0x80, the fewest zeros that fit, and the length in bits modulo 2^64 as a big-endian number. |
| `Sha256Logic.DigestLayout` | Merkle_Tree/picosha2.h:224-232 | The digest is the eight words in order, each big-endian. |
| `Picosha2.HashPieces` | Merkle_Tree/picosha2.h:193-232 | For every list of pieces, empty ones included, the result is the SHA-256 of their concatenation, with the constants of `Sha256Constants` and the functions of `Sha256Logic`. |
| `Picosha2.Hash256` | Merkle_Tree/picosha2.h:288-296 | The random-access form computes SHA-256. |
| `Picosha2.Hash256Buffered` | Merkle_Tree/picosha2.h:298-317 | The single-pass form computes the same for every buffer size above 0. |
| `Picosha2.Hash256HexString` | Merkle_Tree/picosha2.h:343-350 | Returns the lower-case hexadecimal SHA-256 of the argument. |
| `HashText.OutputHex` | Merkle_Tree/picosha2.h:144-154 | The filled width-2 output is two digits for every byte. |
| `HashText.HexAsPrinted` | Merkle_Tree/picosha2.h:144-154 | Every byte appears as its two lower-case digits, the higher one first. |
| `HashText.HexInjective` | Merkle_Tree/picosha2.h:144-154 | Hexadecimal text determines the bytes. |
| `HashText.CollisionOfDigests` | Merkle_Tree/misc.h:11-14 | Two strings with one hash string have one SHA-256 digest. |
| `Base64Spec.SameStream` | openssl/sign.cpp:13-35 | Cutting bytes into sextets keeps every bit of the stream. |
| `Base64Spec.RoundTrip` | openssl/sign.cpp:37-66 | Decoding an encoding gives the bytes back, for every byte string. |
| `Base64Spec.AlphabetAsPrinted` | openssl/sign.cpp:69-75 | The alphabet and the pad are the characters of Table 1 of RFC 4648. |
| `Base64Spec.EncodingIsNulFree` | openssl/sign.cpp:69-75 | An encoding has no NUL, so every decoder may read it as a C string. |
| `Base64Spec.SextetGroup` | helloworld/test_bs64.cc:29-32 | The 3-to-4 shift-and-mask formula yields the sextets of the bit stream. |
| `Base64Spec.OctetGroup` | helloworld/test_bs64.cc:77-79 | The 4-to-3 formula yields the octets of the bit stream. |
| `Base64Spec.EncodedLength` | openssl/sign.cpp:80 | An encoding has four characters for every three bytes or part of three. |
| `Base64Accumulator.ShiftIn` | openssl/sign.cpp:22 | Wrap-around at 32 bits never reaches the last two bytes in the accumulator. |
| `Base64Accumulator.SextetFromAccumulator` | openssl/sign.cpp:22-31 | Hence each emitted sextet is that of the bit stream, whatever was lost above. |
| `Base64Accumulator.OctetFromAccumulator` | openssl/sign.cpp:56-63 | The same for the octets of the decoder. |
| `Base64Accumulator.BEncode` | openssl/sign.cpp:13-35 | Returns the RFC 4648 encoding of every byte string. |
| `Base64Accumulator.BuildIndexTable` | openssl/sign.cpp:41-47 | The table holds each character's place in the alphabet and -1 elsewhere. |
| `Base64Accumulator.BDecode` | openssl/sign.cpp:37-66 | Decodes exactly the leading alphabet characters. |
| `Base64Table.HEncode` | openssl/sign.cpp:76-113 | Returns the RFC 4648 encoding, its length and a terminator, all inside the allocation of 4 * (n / 3) + 5 bytes. |
| `Base64Table.BuildReverseTable` | openssl/sign.cpp:121-139 | As the `strchr` scan builds it: places of the alphabet, 64 for NUL, -1 elsewhere. |
| `Base64Table.PlaceSextet` | openssl/sign.cpp:161-178 | Each or-assignment completes a byte that was assigned before, with bits that do not overlap; the finished bytes are the octets so far. |
| `Base64Table.MopUp` | openssl/sign.cpp:180-201 | Gives up exactly when a pad came after 0 or 1 characters modulo 4; otherwise keeps the data and writes the terminator inside the buffer, at once or, after two characters and a pad, two places on, with the pending byte in between. |
| `Base64Table.HDecode` | openssl/sign.cpp:116-202 | On arbitrary NUL-terminated text: NULL if and only if a pad is reached after 0 or 1 alphabet characters modulo 4; otherwise the decoding of the text before the first pad, cleaned as `CleanedCharacter` says, with exact length; what stands at that length, and where the terminator is. |
| `Base64Table.CleanedConcat` | openssl/sign.cpp:146-160 | A text is cleaned character by character. |
| `Base64Table.CleanedCharacter` | openssl/sign.cpp:156-160 | A character of the alphabet stays, a space becomes a plus sign, anything else is dropped. |
| `Base64Table.PostingIsUndone` | openssl/sign.cpp:150-157 | Plus signs that were posted as spaces make no difference: a posted encoding decodes to its bytes. |
| `Base64Table.HRoundTrip` | openssl/sign.cpp:76-202 | On an encoding the tolerant decoder never gives up and returns the bytes with their exact number, terminated right after them. |
| `Base64Table.EncodeAndDecode` | openssl/sign.cpp:76-202 | Running encoder and tolerant decoder gives back every byte string, its length and a terminator after it. |
| `Base64Table.EncodePostAndDecode` | openssl/sign.cpp:76-202 | Running encoder, posting and tolerant decoder gives back every byte string. |
| `Base64Staging.StagingEncode` | helloworld/test_bs64.cc:16-58 | Returns the RFC 4648 encoding. |
| `Base64Staging.IsBase64IsInAlphabet` | helloworld/test_bs64.cc:11-14 | The character test accepts exactly the alphabet. |
| `Base64Staging.JoinStaged` | helloworld/test_bs64.cc:77-79 | An index that `find` did not find only spoils bytes made from its place. |
| `Base64Staging.StagingDecode` | helloworld/test_bs64.cc:59-104 | Decodes exactly the leading alphabet characters, like the accumulator form. |
| `Base64BitArray.StoreBits` | test_dir/en_de_file.c:208-224 | Repeated halving stores the binary digits, zeros included, in their places. |
| `Base64BitArray.BitArrayEncode` | test_dir/en_de_file.c:184-265 | Returns the RFC 4648 encoding of every NUL-free string. |
| `Base64BitArray.BitArrayDecode` | test_dir/en_de_file.c:267-348 | The data bytes are the octets of the characters' bit stream. |
| `Base64BitArray.BitArrayRoundTrip` | test_dir/en_de_file.c:184-348 | On an encoding the decoder's bits fit its scratch array and the data bytes are the encoded ones. |
| `Base64BitArray.EncodeAndDecode` | test_dir/en_de_file.c:184-348 | Running encoder and decoder gives back the bytes of every C string, and their number. |
| `VerifyLength.DecodeLengthIsExact` | Verifier/verify.cpp:61-69 | For a non-empty encoding it is the exact number of encoded bytes. |
| `MerkleSpec.SplitPointUnique` | Merkle_Tree/merkle_tree.cpp:5-29 | The split point is the only power of two k with k < n <= 2k, as RFC 6962 asks. |
| `MerkleSpec.SplitPairUp` | Merkle_Tree/merkle_tree.cpp:9-22 | One level of pairing does not change what the recursive split builds. |
| `MerkleSpec.BottomUpIsSplit` | Merkle_Tree/merkle_tree.cpp:7-28 | The level-by-level tree is the tree of the recursive definition. |
| `MerkleSpec.SplitShape` | Merkle_Tree/merkle_tree.cpp:7-28 | Leaves left to right, n - 1 branches, each with the hash of its children, height the rounded-up logarithm of n. |
| `MerkleSpec.CeilLog2IsLeast` | Merkle_Tree/merkle_tree.cpp:7-28 | That logarithm is the least h with n <= 2^h. |
| `MerkleSpec.Binding` | Merkle_Tree/merkle_tree.cpp:5-29 | Equal roots over equally many 64-character leaves mean equal leaves, or a named pair of different strings has one hash. |
| `MerkleSpec.LengthsMatter` | Merkle_Tree/merkle_tree.cpp:12 | Without prefix bytes, two leaves and the single hash above them have the same root, so equal numbers are needed. |
| `MerkleTree.Node.constructor` | Merkle_Tree/node.cpp:4-6 | A new node has the given hash and, in the model, no children. |
| `MerkleTree.AddParent` | Merkle_Tree/merkle_tree.cpp:12-14 | A new node with the hash of both children points at them; the level below stays as it was. |
| `MerkleTree.NextLevel` | Merkle_Tree/merkle_tree.cpp:9-26 | One round yields the next level, odd node promoted, leaves in order, one new node for each it takes away. |
| `MerkleTree.Build` | Merkle_Tree/merkle_tree.cpp:5-29 | The loop ends; pointers and hashes below the root are exactly those of the recursive tree, and the n - 1 nodes above the leaves are new and distinct. Through the fields alone: each of them has two children and the hash of left followed by right, and a walk from the root, left before right, meets the given nodes in order, no deeper than the rounded-up logarithm. |
| `MerkleTree.FieldsTell` | Merkle_Tree/merkle_tree.cpp:36-49 | Why: what holds of the shape can be read off `left`, `right` and `hash`, as `printTree` walks them. |
| `Decimal.AtoiOfToString` | Logger/Logger.cpp:658-677 | Printing in decimal and reading back is the identity. |
| `Decimal.ShareRequestRoundTrip` | command_parser/command_function_list.cpp:349-356 | Whatever lies behind the request in memory: n shares with threshold t come back as (n, t) if and only if t is at most 9 and no digit follows, or everything read is zero. |
| `FrameHash.MatData` | Verifier/Verifier.cpp:125-138 | The nested loops produce the decimal text of all pixels in row-major order. |
| `FrameHash.Verifier.MakeHash` | Verifier/Verifier.cpp:125-138 | Sets the Verifier's hash to that of the map and leaves the verdict. |
| `FrameHash.Verifier.Verify` | Verifier/Verifier.cpp:125-153 | After `make_hash` on one edge map, `compare_hash` with the stored hash of another of the same size sets the verdict to 1 exactly if the maps are equal or their texts collide, else to -1. |
| `FrameHash.Verifier.VerifyAsShipped` | Verifier/Verifier.cpp:174-190 | With the hash still empty, as `main` leaves it, no stored hash is confirmed. |
| `FrameHash.PixelTextInjective` | Logger/Logger.cpp:467-479 | On edge maps the text determines the pixels. |
| `FrameHash.HashesTellMaps` | Verifier/Verifier.cpp:125-138 | Hashes of two edge maps of one size are equal if and only if the maps are, or their texts collide. |
| `TwoWordCode.SpelledOnce` | Verifier/Verifier.cpp:125-138 | Two words that do not commute spell no text in two ways, of any length. |
| `FrameHash.TwoValuesExactly` | Verifier/Verifier.cpp:125-138 | With two pixel values the text determines images of one size if and only if the two decimals do not commute. |
| `FrameHash.PixelTextOfTwo` | Verifier/Verifier.cpp:125-138 | The text of two pixels is the decimal of the first followed by that of the second. |
| `FrameHash.AllValuesExactly` | Verifier/Verifier.cpp:125-138 | With all pixel values up to m it does if and only if m is at most 9. |
| `FrameHash.TenIsAmbiguous` | Verifier/Verifier.cpp:125-138 | A concrete pair of images for which it fails. |
| `Protocol.HeaderRoundTrip` | Client/client.h:43-50 | A header survives its eight bytes. |
| `Protocol.HeaderLayout` | Client/client.h:43-50 | Which byte carries which field; bytes 4 to 7 are the size in little endian. |
| `Protocol.FindHandler` | command_parser/command_parser.cpp:64-69 | The scan finds the first entry with the code of the command, or none. |
| `Protocol.HandlersByCode` | command_parser/command_parser.cpp:12-38 | Which of the twenty codes has which handler; no other code has one. |
| `Protocol.ConsumedByCode` | command_parser/command_function_list.cpp:76-362 | Which codes read the announced size, the video fields, four payloads, or nothing. |
| `Protocol.EffectByCode` | command_parser/command_function_list.cpp:76-362 | 0x01 adds a key, 0xff writes the test file, 0xe0 adds a share request, 0x02 stores a video; no other code changes anything. |
| `Protocol.EffectsByCode` | command_parser/command_function_list.cpp:76-105 | Over a run, the keys come from the messages with code 0x01 and the share requests from those with 0xe0, in order. |
| `Protocol.AlignmentIsExact` | command_parser/command_function_list.cpp:76-362 | A handler consumes exactly the announced payload if and only if the announced size fits its command. |
| `Protocol.CStringOfField` | command_parser/command_function_list.cpp:135-162 | A NUL-free string that fits comes out of its zero-filled field unchanged. |
| `Wire.Outbound.Send` | Server/server.cpp:231-265 | Any part of the data is handed over, or the call fails; it does not on a reliable port. |
| `Wire.Inbound.Recv` | Server/server.cpp:267-292 | Any part of what has arrived is taken from the front of the stream, or the call fails; it does not on a reliable port with something left in the stream. |
| `Wire.SendBinary` | Client/client.cpp:205-229 | Succeeds exactly when no send failed and there was something to send, on a reliable port always; then everything is sent in order, otherwise a prefix; no call is given more than 4096 bytes. |
| `Wire.RecvBinary` | Server/server.cpp:320-336 | Takes exactly the wanted bytes off the stream, however they arrive, unless a receive fails; on a reliable port none does when the stream has them. |
| `Wire.RecvBinaryChunked` | Client/client.cpp:231-247 | The same, and no request is for more than 4096 bytes. |
| `ServerLoop.Server.HandleVideo` | command_parser/command_function_list.cpp:122-187 | Consumes the payload and stores exactly its four fields; after a failed receive it has taken less and stores what came for each field, the frame filled with zeros. |
| `ServerLoop.Server.HandlePayload` | command_parser/command_function_list.cpp:76-362 | Consumes what the announced size comes to as an `int` and keeps what its handler keeps; after a failed receive nothing is kept. |
| `ServerLoop.Server.HandleFour` | command_parser/command_function_list.cpp:301-318 | Consumes four times the announced size. |
| `ServerLoop.Server.CmdParser` | command_parser/command_parser.cpp:45-81 | Dispatches to the handler of the command, which consumes what `Consumed` says, or less after a failed receive; a fitting message has its effect (by code: `HandlersByCode`, `ConsumedByCode`, `EffectByCode`); on a reliable port with enough in the stream no receive fails. |
| `ServerLoop.ReceiveHeader` | Server/server.cpp:443-455 | Tries for eight bytes and takes exactly them; it gives up only after six tries with fewer there, and then takes nothing; a reliable port with eight bytes to come delivers them. |
| `ServerLoop.NextMessage` | Server/server.cpp:443-457 | At a message boundary the eight bytes are the next header and its payload follows. |
| `ServerLoop.Server.Serve` | Server/server.cpp:425-479 | On every stream of well-formed messages: on a reliable port all are served in order and no byte is left. The keys grow by the payloads with code 0x01, the share requests by those with 0xe0, in order. On any port the first k have had their effects; without a failed receive exactly the rest is left, and less than a header can be read when the loop stops; with one, it was in message k, fewer bytes than its payload are gone, and what its handler left is stated. |
| `LoggerPipeline.Logger.Capture` | Logger/Logger.cpp:210-303 | The queues hold the first kept frames, each with its own content id; the bytes of each add up to three or more. |
| `LoggerPipeline.KeptExactly` | Logger/Logger.cpp:229-247 | A frame is kept if and only if its bytes add up to at least three; an empty or black one never is. |
| `LoggerPipeline.KeptLaws` | Logger/Logger.cpp:220-247 | These fix what is kept of every feed, in order. |
| `LoggerPipeline.VideoHeader` | Client/client.cpp:133-141 | A video message starts with 0x10, 0x12, 0x02, 0xa1, and announces 437 bytes more than the image has. |
| `LoggerPipeline.Logger.ConvertFrames2YUV` | Logger/Logger.cpp:306-346 | Appends the YUV and grey form of every frame in order. |
| `LoggerPipeline.Logger.EdgeDetectionYUV` | Logger/Logger.cpp:387-414 | Appends the edge map of every frame in order. |
| `LoggerPipeline.Logger.MakeHash` | Logger/Logger.cpp:445-483 | Appends the hash of every edge map in order. |
| `LoggerPipeline.Logger.SignHash` | Logger/Logger.cpp:485-511 | Appends the signature of every hash in order. |
| `LoggerPipeline.Logger.SendDataToServer` | Logger/Logger.cpp:543-656 | Unless a send fails, which none does on a reliable port, the stream grows by one message for each place of the four queues. |
| `LoggerPipeline.Logger.InitQueue` | Logger/Logger.cpp:164-181 | All queues are empty afterwards. |
| `LoggerPipeline.Logger.RunYuv` | Logger/Logger.cpp:776-816 | A run sends, for each captured frame, that frame with its own id, hash and signature, and leaves the queues empty for the next run. |
| `LoggerPipeline.OneMessage` | Logger/Logger.cpp:618-643 | Header and four fields sent one after the other are one message. |
| `Pipeline.VideoEffect` | command_parser/command_function_list.cpp:122-187 | What the Logger puts into a video message is what the Server stores. |
| `Pipeline.QueueEffects` | command_parser/command_function_list.cpp:122-187 | The messages of some queues leave one row per place in order, and under each id the last image sent with it. |
| `Pipeline.ImagesKeptExactly` | command_parser/command_function_list.cpp:140-163 | Every image is kept under its id if and only if no id came with two different images. |
| `Pipeline.SameIdLosesFrame` | command_parser/command_function_list.cpp:140-163 | Two different frames, 5 and 50 milliseconds into one second: the first image is lost, both rows are there. |
| `ContentId.GetCid` | Client/client.cpp:37-64 | The id has 23 characters: the second, the milliseconds as printed, and zeros; without NUL, so it fits its field. |
| `ContentId.SameIdExactly` | Client/client.cpp:50-61 | For 0 <= m < n < 1000 milliseconds two instants share an id if and only if they are of one second and n is 10 or 100 times m, m not 0. |
| `Pipeline.CaptureToStore` | Logger/Logger.cpp:776-816 | The whole way: over a reliable network every frame's row is stored in order, no byte is left, and every image is kept if and only if no id came with two different images; over any network, unless a send or receive fails, a prefix of the captured frames is stored and exactly the rest is in the stream. Each row has the frame's id, the SHA-256 text of the decimals of its edge map (colour conversion, grey form, Canny), and the signature of that. |
| `Shares.TokenizeLaws` | helloworld/greeter_server.cc:128-138 | A separator cuts a text into the tokens of both sides, and a text without separators is one token or none: this fixes the tokens of every text. |
| `Shares.Separators` | helloworld/greeter_server.cc:175 | The separators are bytes 9 to 13, space, bar and comma. |
| `Shares.OneLine` | helloworld/util.h:19-35 | A line is closed by byte 10. |
| `Shares.TokenizeLines` | helloworld/greeter_server.cc:128-138 | Tokenizing gives back, in order, any tokens that stand on lines of their own. |
| `Shares.ShareServer.GetShare` | helloworld/greeter_server.cc:172-185 | One of the first three tokens; the reply is recorded. |
| `Shares.WriteShare` | helloworld/util.h:19-35 | The file has one line for every element of the set. |
| `Shares.ReadShare` | helloworld/util.h:37-54 | The result has the lines of the file, each closed by a newline. |
| `Shares.SplitLinesOf` | helloworld/util.h:19-54 | Splitting by newlines undoes writing. |
| `Shares.GetThreshhold` | helloworld/greeter_client.cc:300-337 | The set is that of the replies actually issued; asking stops exactly when the threshold is reached or passed or twenty requests are made; the set has at most three elements; the set stays within the threshold if and only if that is positive; a threshold above the number of different tokens among the first three is missed after all twenty; the text handed on splits back into exactly the set. |

## Left out

- Picosha2.Hash256Buffered: buffer sizes of 0 and below, for which the code's loop does not end.
- Sha256Spec: section 5.1.1 of FIPS 180-4 is for messages below 2^64 bits; beyond that the length is taken modulo 2^64, as the code does.
- MerkleTree.Build: an empty list of leaves, for which the code's loop does not end. Given nodes are leaves with null children, which the code leaves unset.
- Base64BitArray.BitArrayEncode, Base64BitArray.BitArrayDecode: buffers have one byte more than the code allocates, for the terminator it writes.
- Base64BitArray.BitArrayDecode: texts with so many misplaced pads that their bits do not fit the scratch array; one byte between data and terminator is left open.
- Base64Table.HDecode: `length` is at least the length of the text, as at all its calls; a failing `malloc` is not modelled.
- VerifyLength.CalcDecodeLength: the empty text and a lone pad, for which the code reads before the text.
- FrameHash.MatData: maps with one channel, as edge detection delivers them.
- Decimal.Atoi: signs, leading space and overflow; it is only applied to texts that start with a digit.
- ServerLoop.Server.HandlePayload: the buffers of share requests and public keys have no terminator, and the handlers read on behind them; here what they keep ends with the payload. `Decimal.ShareRequestRoundTrip` says what reading on does to a share request.
- Protocol.Effect: share requests are kept as text; generating shares, generating a logger id and the responses that handlers send back are not modelled.
- ServerLoop.Server.HandleVideo: video messages whose size does not fit, for which the code writes past its buffers; a file that cannot be opened.
- ServerLoop.ReceiveHeader: a header that arrives in parts, and the result -1 of `recv`, which the code stores in an unsigned byte.
- LoggerPipeline.Logger.SendDataToServer: field sizes are 23, 64 and 350 at both ends, where the Logger takes string capacities and the Server a configuration file.
- LoggerPipeline.Logger.Capture: mutexes and the camera thread; every frame is looked at once, and pixel sums do not overflow.
- ContentId.GetCid: the text of the second (`strftime`) is a parameter; a clock that cannot be converted is not modelled.
- ServerLoop.Server.Serve: stops at the first failed receive; the code goes on, out of step with the stream.
- Pipeline.CaptureToStore: a peer that is slower than the time-out of the Server (bytes still to come when it stops) leaves the later frames unserved; the run needs a frame of at least one byte, because an empty send counts as failed; after a failed send the code goes on and nothing is claimed.
- Shares.GetThreshhold: failed remote calls, and the order in which a `std::set` lists its elements (any order is allowed).
- Shares.ShareServer.GetShare: fewer than three tokens, for which the code reads past its vector; which token is random.
- C-string terminators that fall outside a full field, and `deleteTree`, `printTree`.
- `another_share_request` as a sender: its payloads have no agreed number.
- The grey-scale path of the Logger, which fills no YUV queue.
- RSA, AES, Shamir's scheme, OpenCV, MySQL, gRPC, sockets, timeouts, threads and message queues.
- `helloworld/bs64.h`, which repeats the coders of `openssl/sign.cpp`.
- Base64 with line breaks through OpenSSL's BIO.
