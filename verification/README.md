# BIP 158 filter matching, modelled in Dafny

This project models the query side of BIP 158 compact block filters, as
`utils/bip158.py` implements it:

- **SipHash-2-4** (`rotl64`, `siphash_round`, `siphash`). The four state words are
  unbounded integers masked to 64 bits after every addition, as in Python. The
  byte loop packs every eight bytes into a little-endian word and absorbs it
  with two rounds. A last word holds the 0 to 7 leftover bytes with the length
  modulo 256 in its top byte. Finalisation uses four rounds.
- **The ranged hash** (`bip158_basic_element_hash`). SipHash is keyed with bytes
  0-7 and 8-15 of the reversed block hash, read little-endian. Its output is
  then mapped into `[0, N * M)` by `(h * (N * M)) >> 64`, with `M = 784931`.
- **Golomb-Rice decoding** (`golomb_decode`). It reads a unary quotient (ones
  closed by a zero) and then a `P`-bit remainder, most significant bit first,
  from a bit stream with a cursor. It returns `(q << P) + r`.
- **The query** (`gcs_match_any`). It hashes and sorts the targets, then decodes
  the `N` gaps of the filter into a running sum. It merges the two ascending
  sequences and stops at the first common value, or once every target is behind
  the running sum.

Modules:

- `Bitwise`: Python's shifts, `|` and `^` on non-negative integers, and their laws.
- `SipHash`: the hash as a function (`SipHash24`) and as the original loop (`SipHash.SipHash`).
- `RangedHash`: the ranged hash.
- `Golomb`: the bit stream class, the decoder method and its specification
  `RiceDecode`, and an encoder used only to state the round trip.
- `Matcher`: the query, with its specification `GcsMatch`.
- `Results`: the `Result` type.

Each loop of the original is a method proved equal to a specification function.
The function's own properties are proved as lemmas: bounds, round trips, and
what the answer means.

Where the code and the protocol description differ, the model follows the code:

- An empty target list makes the original fail at `target_hashes[0]`. The model
  returns `Err(NoTargets)` there; it neither answers false nor imposes a
  precondition.
- `N * M` is not limited to 128 bits; Python's integers are unbounded, and so are
  the model's.

## Model

| member | source | states |
|---|---|---|
| `SipHash.Rotl64` | utils/bip158.py:4-5 | a 64-bit word rotated by any amount from 0 to 64 stays a 64-bit word |
| `SipHash.Rotl64Value` | utils/bip158.py:4-5 | the shift-mask-or expression is a true rotation: the low `64 - b` bits move up by `b` and the top `b` bits come round to the bottom, without overlapping |
| `SipHash.Rotl64Inverse` | utils/bip158.py:4-5 | rotating by `b` and then by `64 - b` gives the word back, so no bit is lost |
| `SipHash.SipRound` | utils/bip158.py:7-22 | a round maps four 64-bit words to four 64-bit words |
| `SipHash.InitialWords` | utils/bip158.py:26-29 | a 128-bit key gives an initial state of 64-bit words |
| `SipHash.PackNext` | utils/bip158.py:33 | or-ing a byte in at bit `8 * (c % 8)` appends it, little-endian, to the bytes of the current block |
| `SipHash.CounterNext` | utils/bip158.py:33-35 | the counter `(c + 1) & 0xff` stays the byte count modulo 256, and `c & 7` is zero exactly when eight bytes have been gathered since the last block |
| `SipHash.CompressNext` | utils/bip158.py:35-40 | absorbing one more block extends the compression of the blocks before it |
| `SipHash.ScanStep` | utils/bip158.py:32-40 | one pass of the byte loop keeps its invariant: full blocks absorbed in order, the bytes since the last block packed into `t`, and `t` cleared after each block |
| `SipHash.AbsorbWordWords` | utils/bip158.py:36-39 | absorbing a 64-bit word keeps the state in 64-bit words |
| `SipHash.CompressWords` | utils/bip158.py:32-40 | absorbing any number of blocks keeps the state in 64-bit words |
| `SipHash.FinalStep` | utils/bip158.py:41 | after the loop every whole block has been absorbed, and or-ing `c << 56` into `t` gives the last word |
| `SipHash.LastWord` | utils/bip158.py:41 | or-ing the count into the top byte above the packed leftover bytes gives the last word |
| `SipHash.FinalValueBytes` | utils/bip158.py:41 | byte by byte, the last word holds the leftover bytes, then zeros, then the length modulo 256 in byte 7 |
| `SipHash.FinalValueBound` | utils/bip158.py:41 | the last word fits in 64 bits |
| `SipHash.FinalizeWord` | utils/bip158.py:46-51 | finalising a state of 64-bit words yields a 64-bit value |
| `SipHash.SipHashBound` | utils/bip158.py:24-51 | with a 128-bit key the hash of any message is a 64-bit value |
| `SipHash.SipHash` | utils/bip158.py:24-51 | the byte-at-a-time loop computes SipHash-2-4 as defined block by block |
| `SipHash.LeValueDigits` | utils/bip158.py:69-70 | little-endian packing puts byte `j` of the input at byte `j` of the value, and zero beyond its end |
| `SipHash.WordBound` | utils/bip158.py:69-70 | up to eight bytes packed little-endian fit in 64 bits |
| `RangedHash.ReverseIndex` | utils/bip158.py:68 | the reversed hash has the same length and holds byte `len - 1 - i` at `i` |
| `RangedHash.KeyBytes` | utils/bip158.py:68-70 | byte `j` of `k0` is byte `j` from the end of the block hash, and byte `j` of `k1` is byte `8 + j` from the end; bytes missing from a short hash are zero |
| `RangedHash.KeyWords` | utils/bip158.py:68-70 | both key words fit in 64 bits |
| `RangedHash.ScaledBelow` | utils/bip158.py:71 | a 64-bit value times `f`, shifted right by 64, is below `f`, and is 0 when `f` is 0 |
| `RangedHash.ElementHashRange` | utils/bip158.py:53-71 | the ranged hash lies in `[0, N * M)`, and is 0 when `N` is 0 |
| `RangedHash.BasicElementHash` | utils/bip158.py:53-71 | running the SipHash loop on the reversed-hash key gives the ranged hash |
| `Golomb.BitStream.constructor` | utils/bip158.py:88 | a new stream holds the filter bits with the cursor at the start |
| `Golomb.BitStream.ReadBit` | utils/bip158.py:120 | a one-bit read returns the bit under the cursor and moves past it, or fails at the end without moving |
| `Golomb.BitStream.Read` | utils/bip158.py:123 | an `n`-bit read returns the next `n` bits and moves past them, or fails without moving when fewer remain |
| `Golomb.OnesRunFacts` | utils/bip158.py:119-121 | the quotient counts exactly the 1 bits before the first 0 bit or the end of the stream |
| `Golomb.BitsValueBound` | utils/bip158.py:123 | `p` remainder bits read as binary give a value below `2^p` |
| `Golomb.GolombDecode` | utils/bip158.py:118-125 | the decoder's result and where it leaves the cursor are those of `RiceDecode`, failures included |
| `Golomb.RiceDecodeValue` | utils/bip158.py:118-125 | a successful decode read `q` ones, a zero and `p > 0` bits of value `r < 2^p`, returns `(q << p) + r`, and ends just after those bits |
| `Golomb.BitsValueOf` | utils/bip158.py:123 | reading back `k` bits written most significant first gives the low `k` bits of the value |
| `Golomb.BitsOfValue` | utils/bip158.py:123 | writing the value of a bit string out in as many bits gives the string back |
| `Golomb.RiceRoundTrip` | utils/bip158.py:118-125 | wherever the Rice code of `x` sits, decoding there returns `x` and leaves the cursor just past the code |
| `Golomb.RiceDecodeIsCode` | utils/bip158.py:118-125 | the bits a successful decode consumed are exactly the Rice code of the value it returned |
| `Golomb.DecodeAllEncoded` | utils/bip158.py:94-96 | decoding as many values as were encoded back to back gives the list back |
| `Matcher.SortFacts` | utils/bip158.py:86 | the sorted hashes are ascending and are a permutation of the input |
| `Matcher.SortHashes` | utils/bip158.py:85-86 | sorting keeps the same hashes, each as often, and puts them in ascending order |
| `Matcher.HashedNext` | utils/bip158.py:80-83 | appending the next target's hash keeps the list in step with the targets |
| `Matcher.HashedAll` | utils/bip158.py:79-83 | after the loop the list holds exactly the ranged hashes of the targets |
| `Matcher.MatchStep` | utils/bip158.py:94-96 | each pass decodes one gap: a decode failure ends the query; otherwise the gap is added to the running sum |
| `Matcher.MergingLater` | utils/bip158.py:96 | a larger running sum keeps every skipped target behind it |
| `Matcher.Hit` | utils/bip158.py:99-100 | when the current target equals the running sum, that sum is a target hash |
| `Matcher.Passed` | utils/bip158.py:103-104 | when the current target is above the running sum, the sum is no target hash and some target is still ahead |
| `Matcher.Exhausted` | utils/bip158.py:108-112 | once every target has been skipped, none is the running sum and all lie below it |
| `Matcher.MatchSorted` | utils/bip158.py:88-116 | the merge of sorted hashes with the decoded running sums answers as `MatchFrom` does, failures included |
| `Matcher.GcsMatchOfSorted` | utils/bip158.py:90-116 | merging over any list with the target hashes as members gives the query's answer or its decode failure |
| `Matcher.GcsMatchAny` | utils/bip158.py:73-116 | hashing, sorting and merging compute the query `GcsMatch`, including the failure on an empty target list |
| `Matcher.ValuesFacts` | utils/bip158.py:94-96 | the running sums of non-negative gaps are as many as the gaps, ascending, and never below the start |
| `Matcher.AnyInCons` | utils/bip158.py:99-100 | a target occurs in a list of sums exactly when it is the first sum or occurs in the rest |
| `Matcher.NoneAbove` | utils/bip158.py:108-112 | sums none of which is below a bound that every target lies under contain no target |
| `Matcher.MatchFromMeaning` | utils/bip158.py:94-116 | when the gaps decode, the merge returns true exactly when some running sum is a target hash; stopping early loses nothing |
| `Matcher.GcsMatchMeaning` | utils/bip158.py:73-116 | over a filter whose `N` gaps decode, the query is true exactly when the ranged hash of some target is a filter member |
| `Matcher.GcsMatchEncoded` | utils/bip158.py:73-116 | for a filter that Rice-codes the gaps `deltas`, the query answers whether some target hash is a running sum of `deltas` |
| `Matcher.GcsMatchOrder` | utils/bip158.py:79-86 | permuting the targets does not change the answer |
| `Matcher.GcsMatchEdges` | utils/bip158.py:90-96 | an empty target list fails at the first hash; with `N = 0` and some target, the answer is false |

## Left out

- The `bitstring` library is not part of this model. A stream is a fixed `seq<bool>` with a cursor. `bool(stream.read(1))` is taken to be the value of the bit read. A read past the end is `Err(ReadPastEnd)`, never zero bits.
- `int('', 2)` raises for an empty remainder when `P` is 0. This is modelled as `Err(EmptyRemainder)`; with the fixed `P = 19` it cannot happen.
- Exceptions are modelled as `Result` values: `MatchError` for the query and `DecodeError` for the decoder. An exception's type and message are not modelled.
- Hex parsing (`bytes.fromhex` of the targets and the block hash, `BitStream(hex=...)`) is not modelled. The model takes bytes and bits, so malformed hex is not modelled.
- Reading `N` and the filter out of the `gcs_data` dictionary is not modelled. They are parameters.
- `N` is a natural number; a negative `N` (an empty `range`) is not modelled.
- The `assert type(data) == bytes` check in `siphash` is not modelled. The message is a byte sequence by its type.
- The keys `k0` and `k1` are natural numbers. The bound lemmas need them below `2^64`, which the ranged hash guarantees (`RangedHash.KeyWords`).
- `Matcher.SortHashes`: `list.sort()` sorts in place. The model returns a new sequence computed by an insertion sort (`Sort`), and proves it sorted and a permutation. No stability claim is made; equal integers are indistinguishable.
- `Matcher.GcsMatchAny`: the merge loop is a separate method, `Matcher.MatchSorted`, called on the sorted hashes. The steps and their order are as in the original.
- Building filters (hashing a whole set, sorting, Golomb-Rice encoding) is outside this core. `Golomb.RiceEncode` and `Golomb.EncodeAll` exist only to state the decoder's round trips.
- Known-answer test vectors for SipHash and for filters are not modelled. The model proves structure and bounds, not particular digests.
