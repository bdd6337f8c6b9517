# Sharding and placing artifacts: a verified model

An artifact is stored so that no single server can read it and so that it survives the
loss of servers. `shard_file` encrypts the file under a fresh key, splits key and nonce
by Shamir's scheme over GF(2^8), erasure-codes the ciphertext and throws all plain blocks
away, puts a key share in front of every coded block, and XORs each resulting shard with
a hash pad. `unshard_fd` undoes every layer from any eight shards. `optim.py` decides
which shard goes to which server and which node fetches it.

This project models that behaviour in Dafny and proves:

* the bit-sliced field arithmetic computes, in all 32 lanes, the product of GF(2^8)
  modulo x^8 + x^4 + x^3 + x + 1 (section 4.2 of FIPS 197), its square and its inverse;
  bit-slicing is a bijection; the field laws hold;
* any k or more distinct key shares give the key back, and k - 1 of them fit every key
  with exactly one choice of coefficients; of up to 2k shares, one repetition loses some
  keys, however many are different, and one damaged value byte in one share loses every key;
* any eight or more distinct undamaged shards, in any order, give back exactly the file,
  through all layers, whatever was drawn at random or found in uninitialised padding;
* with damaged shards among the others, exactly when the file comes back, as long as no
  shard is accepted that is damaged in front of its table of digests: the shares must still
  combine to the shared key, and eight different erasure-coded bodies must be intact with
  the right slot in the last readable table; that condition on the accepted shards is two:
  no digest collides, and no metadata is changed, which validation never checks - one
  changed number in a ninth shard can stop the recovery, though eight are intact;
* what one flipped byte does in the sealed part, the key values, the coded body and the
  table of digests;
* every byte of a stored shard: the pre-image, the pad as digests of what is hashed, the
  key share, the sealed key and nonce, the index, the printed metadata, the coded block and
  the digests, each with its place and its numbers written out;
* padding, metadata printing and scanning, shard validation and erasure bookkeeping do
  what that needs, each as a theorem of its own;
* the formulas that `optim.py` builds say what its rules mean, spelled out over the indices
  of the problem with sets and nested sums, and exactly when they do so
  with the list that the module was loaded with in place of the object's; every placement that
  satisfies them fits the servers in total; and they serve every race node with a type
  exactly when no threshold of the type is below 1;
* Base64 decoding undoes encoding, and depends on the longest alphabet prefix only; the
  characters are those of the six-bit parts in the 64-character alphabet.

## How the files fit together

| files | what they hold |
|---|---|
| `Bytes.dfy`, `Lists.dfy` | byte strings, blocks, cutting up and joining; lists without repetitions |
| `GF256.dfy`, `Carryless.dfy` | the field, and its product as a remainder of polynomials over GF(2) |
| `Polynomials.dfy`, `RepeatedPoints.dfy` | interpolation, and what it does when points repeat |
| `Bitslice.dfy`, `Transpose.dfy`, `Hazmat.dfy` | words that hold 32 lanes, moving bytes in and out of them, and the in-place operations on arrays |
| `Shamir.dfy`, `KeyShares.dfy`, `SecretShares.dfy` | the scheme, the loops that make and combine key shares, and the sealed secret |
| `ErasureCode.dfy`, `ErasureExample.dfy` | what the erasure-coding library is taken to promise, and a field code that keeps these promises |
| `Metadata.dfy`, `RsLayout.dfy`, `RsRecovery.dfy`, `ShardFormat.dfy`, `RsShard.dfy` | the metadata text, the parts of a shard, reading them back, all its bytes, and the loops over files |
| `RsDamage.dfy`, `RsFlips.dfy`, `DamageExample.dfy` | damaged shards among the others, one flipped byte, and a changed metadata number that stops the recovery |
| `Randomize.dfy` | the hash pad |
| `Pipeline.dfy`, `StoredFormat.dfy`, `PipelineRecovery.dfy`, `PipelineFlips.dfy`, `ShardFiles.dfy`, `PipelineExample.dfy` | all layers together: as functions, all bytes of a stored shard, when they give the file back, what one flipped byte does, as the loops over files, and libraries that meet all hypotheses |
| `Sums.dfy`, `Placement.dfy`, `Thresholds.dfy` | sums over lists, what the placement rules say and imply, and what thresholds have to do with it |
| `Formulas.dfy`, `RulesSpelled.dfy`, `LoadedLists.dfy`, `OptimizerRules.dfy` | the formulas that the rules build, what they say over the indices, what the loaded list has to do with them, and the rule methods |
| `Base64.dfy`, `Base64Bits.dfy` | the codec, and its characters as bits |

Code that the source runs in place is a method over arrays or over `File` objects, and is
proved against a function; the theorems are about these functions.

## What is taken from outside

Calls into code that is not in the repository are parameters, with their promises as
explicit hypotheses: sealing and opening are inverse (`SecretShares.OpenUndoesSeal`); MD5
is any function with 16-byte results; SHA-256 is any opaque context whose digests have 32
bytes, and is never initialised again (`Randomize.Sha`); the erasure code is linear, the
first column of its matrix is all ones, any k rows determine the data, and decoding
succeeds when there is such data and at most m erasures (`ErasureCode.CodecContract`).
Where shares combine to a wrong key, that the sealed secret does not open under this one
key is a hypothesis of its own (`SecretShares.Rejects`).
`ErasureExample.ContractSatisfiable` proves that these hypotheses about the erasure code
can be met, for all k <= m <= 255, and `PipelineExample.ShardingPossible` that all
hypotheses can be met together, for every file of a size that fits. Random bytes, and the
bytes that an uninitialised buffer happens to hold, are arguments.

## Model

| member | source | states |
|---|---|---|
| GF256.MulComm | artifact-manager-plugin/src/util/hazmat.c:92-199 | the product is commutative |
| GF256.MulAssoc | artifact-manager-plugin/src/util/hazmat.c:92-199 | the product is associative |
| GF256.MulAddLeft | artifact-manager-plugin/src/util/hazmat.c:78-199 | the product distributes over addition on the left |
| GF256.MulAddRight | artifact-manager-plugin/src/util/hazmat.c:78-199 | the product distributes over addition on the right |
| GF256.MulOne | artifact-manager-plugin/src/util/hazmat.c:92-199 | 1 is neutral for the product |
| GF256.NoZeroDivisors | artifact-manager-plugin/src/util/hazmat.c:92-199 | a product is zero exactly when a factor is |
| GF256.MulUnrolled | artifact-manager-plugin/src/util/hazmat.c:107-198 | eight selected multiples of a, each by the next power of x, add up to the product computed bit by bit |
| GF256.SquareIsLinear | artifact-manager-plugin/src/util/hazmat.c:206-244 | squaring is the linear map that the reduced bit pattern gives (Freshman's Dream) |
| GF256.Pow256 | artifact-manager-plugin/src/util/hazmat.c:250-266 | every element is its own 256th power |
| GF256.InvIsPow254 | artifact-manager-plugin/src/util/hazmat.c:250-266 | the addition chain computes the 254th power |
| GF256.InvCorrect | artifact-manager-plugin/src/util/hazmat.c:246-266 | that power is the inverse of every nonzero element, and 0 for 0 |
| Carryless.RemainderUnique | artifact-manager-plugin/src/util/hazmat.c:86-88 | a polynomial over GF(2) has one remainder below degree 8 modulo x^8 + x^4 + x^3 + x + 1 |
| Carryless.MulIsRemainder | artifact-manager-plugin/src/util/hazmat.c:86-199 | r is the product of a and b if and only if it is the remainder of their carry-less product modulo x^8 + x^4 + x^3 + x + 1 |
| Bitslice.LaneAdd | artifact-manager-plugin/src/util/hazmat.c:78-83 | adding words adds the bytes of every lane |
| Bitslice.LaneMul | artifact-manager-plugin/src/util/hazmat.c:92-199 | the word-level product holds in every lane the field product of that lane's bytes |
| Bitslice.LaneSquare | artifact-manager-plugin/src/util/hazmat.c:205-244 | the word-level square holds in every lane the byte times itself |
| Bitslice.LaneInv | artifact-manager-plugin/src/util/hazmat.c:250-266 | the word-level chain holds in every lane the byte's inverse |
| Transpose.LanesOfSlice | artifact-manager-plugin/src/util/hazmat.c:33-62 | taking bytes out of the words they were put in gives the bytes back |
| Transpose.SliceOfLanes | artifact-manager-plugin/src/util/hazmat.c:33-62 | putting the bytes of eight words back into words gives the words back |
| Hazmat.BitsliceBytes | artifact-manager-plugin/src/util/hazmat.c:33-46 | afterwards lane l of the eight words is byte l, for all 32 bytes |
| Hazmat.UnbitsliceBytes | artifact-manager-plugin/src/util/hazmat.c:49-62 | afterwards byte l is lane l of the words, and the rest of the array is untouched |
| Hazmat.SetAll | artifact-manager-plugin/src/util/hazmat.c:65-72 | afterwards every lane is the given byte, through the sign-filling shift |
| Hazmat.AddInto | artifact-manager-plugin/src/util/hazmat.c:75-83 | r becomes the sum of r and x |
| Hazmat.MulInto | artifact-manager-plugin/src/util/hazmat.c:86-199 | r becomes the product of what a and b held, also when r is a |
| Hazmat.SquareInto | artifact-manager-plugin/src/util/hazmat.c:202-244 | r becomes the square of what x held, also in place |
| Hazmat.InvInto | artifact-manager-plugin/src/util/hazmat.c:247-266 | r becomes the inverse of x in every lane, through the chain of squares and products |
| Polynomials.RootBound | artifact-manager-plugin/src/util/hazmat.c:334-351 | a polynomial with as many distinct roots as coefficients is zero |
| Polynomials.AgreeEqual | artifact-manager-plugin/src/util/hazmat.c:334-351 | two polynomials that agree on as many distinct points as they have coefficients are equal |
| Polynomials.InterpolationExists | artifact-manager-plugin/src/util/hazmat.c:334-351 | the interpolation polynomial goes through all points with distinct x |
| Polynomials.InterpolationUnique | artifact-manager-plugin/src/util/hazmat.c:334-351 | and is the only one of its length that does |
| Polynomials.InterpolationRecovers | artifact-manager-plugin/src/util/hazmat.c:334-351 | interpolating values of a polynomial at enough distinct points gives its value at any t |
| RepeatedPoints.RepeatedTerm | artifact-manager-plugin/src/util/hazmat.c:340-350 | a point whose x occurs twice adds nothing to the sum, because the inverse of 0 is 0 |
| RepeatedPoints.TooFewUnrepeated | artifact-manager-plugin/src/util/hazmat.c:334-351 | when fewer than k nonzero x occur only once, some polynomial of k coefficients with a nonzero constant interpolates to 0 at 0 |
| RepeatedPoints.InterpolationDiffers | artifact-manager-plugin/src/util/hazmat.c:334-351 | changing one value at an x that occurs once changes the interpolation at every t that is none of the other x |
| RepeatedPoints.InterpolationSplits | artifact-manager-plugin/src/util/hazmat.c:334-351 | interpolation with repetitions is interpolation through the points that occur once, with the product over the repetitions divided out of their values and multiplied in at t |
| RepeatedPoints.FewRepetitions | artifact-manager-plugin/src/util/hazmat.c:334-351 | when some of the nonzero x repeat, but at most k positions do, some polynomial of k coefficients interpolates at 0 to something else than its constant, whatever the x are |
| RepeatedPoints.MonomialsSuffice | artifact-manager-plugin/src/util/hazmat.c:334-351 | interpolation that is right for the first k powers, at whatever points, is right for every polynomial of k coefficients |
| Shamir.Recovery | artifact-manager-plugin/src/util/hazmat.c:274-353 | k or more shares of a key, with distinct x and in any order, combine to the key |
| Shamir.RepeatedSharesLost | artifact-manager-plugin/src/util/hazmat.c:319-353 | when fewer than k of the nonzero x occur only once, the shares of some key combine to another key, however many shares there are |
| Shamir.FewRepeatedLost | artifact-manager-plugin/src/util/hazmat.c:319-353 | when some of the nonzero x repeat, but at most k shares have such an x, the shares of some key combine to another key, however many different ones there are |
| Shamir.AlwaysRecoveredIff | artifact-manager-plugin/src/util/hazmat.c:274-353 | with at most 2k shares, or at most k different ones, of nonzero x, every key is recovered if and only if there are k shares and no x repeats |
| Shamir.AlwaysRecoveredByPowers | artifact-manager-plugin/src/util/hazmat.c:274-353 | for every list of shares, every key is recovered if and only if the k powers 1, x, .., x^(k-1) are interpolated correctly at 0 |
| Shamir.RepetitionSurvives | artifact-manager-plugin/src/util/hazmat.c:319-353 | a longer list can recover every key in spite of a repetition: for k = 1, three shares at 1 and one at 0xbc |
| Shamir.OneDamagedShare | artifact-manager-plugin/src/util/hazmat.c:319-353 | one share that may be damaged, among enough intact ones with distinct nonzero x: the key is recovered if and only if that share is one of the key's, too |
| Shamir.ThresholdExact | artifact-manager-plugin/src/util/hazmat.c:285-311 | for distinct nonzero x, any values and any secret byte, a coefficient vector fits k - 1 points if and only if it is one particular vector |
| Shamir.ThresholdExactKey | artifact-manager-plugin/src/util/hazmat.c:274-312 | k - 1 key shares are shares of every 32-byte key, for exactly one choice of the k - 1 random coefficient slices |
| KeyShares.EvaluateShare | artifact-manager-plugin/src/util/hazmat.c:300-309 | the coefficient loop evaluates the share polynomial at x in all 32 lanes |
| KeyShares.CreateKeyshares | artifact-manager-plugin/src/util/hazmat.c:274-312 | share i of n is the byte i + 1 and the 32 share polynomials' values there |
| KeyShares.BasisAtZero | artifact-manager-plugin/src/util/hazmat.c:336-346 | the inner loop leaves numerator and denominator of the Lagrange basis polynomial at 0 in every lane |
| KeyShares.CombineKeyshares | artifact-manager-plugin/src/util/hazmat.c:319-353 | the key becomes the byte-wise Lagrange interpolation at 0 of all given shares |
| SecretShares.CreateShares | artifact-manager-plugin/src/util/sss.c:77-106 | every share is its key share in 33 bytes and, behind it, what sealing 32 zero bytes and the secret with a nonce of 24 zero bytes gives, from byte 16 on |
| SecretShares.CombineShares | artifact-manager-plugin/src/util/sss.c:116-149 | -1 and an untouched buffer if there is no share or two ciphertexts differ; else the return code and the message, from byte 32 on, of opening 16 zero bytes and the ciphertext with a nonce of 24 zero bytes and the combined key |
| SecretShares.SecretRecovery | artifact-manager-plugin/src/util/sss.c:77-149 | any k or more distinct shares agree, and open with return code 0 to exactly the secret |
| SecretShares.OpenedExact | artifact-manager-plugin/src/util/sss.c:126-148 | with intact sealed parts the shares open to the secret if they combine to its key; if they combine to another one, they are turned down if and only if opening rejects that one key |
| ErasureCode.TextInEveryCodingBlock | artifact-manager-plugin/src/util/rs_shard.cpp:162-207 | with a first matrix column of ones, data whose other blocks are zero is coded into copies of its first block |
| ErasureCode.DecodeRecovers | artifact-manager-plugin/src/util/rs_shard.cpp:996-1007 | at most m erasures with k distinct surviving blocks decode to the data that was encoded |
| Metadata.ScanPrinted | artifact-manager-plugin/src/util/rs_shard.cpp:383-386 | scanning the eight printed integers gives the same eight in the same order, whatever follows them |
| Metadata.MetaLength | artifact-manager-plugin/src/util/rs_shard.cpp:383-386 | eight nonnegative 32-bit integers print to at most 88 bytes |
| Metadata.BuildMeta | artifact-manager-plugin/src/util/rs_shard.cpp:383-393 | the padding loop ends with the text and NUL bytes up to exactly 1024 |
| Metadata.PrintedDecimal | artifact-manager-plugin/src/util/rs_shard.cpp:383-386 | a number is printed as the decimal digits of its value, as the characters 0x30 to 0x39, without a leading zero |
| Metadata.PrintedTen | artifact-manager-plugin/src/util/rs_shard.cpp:383-386 | 10 is printed as the characters 0x31 and 0x30, and -10 with a 0x2d in front |
| Metadata.MetaLines | artifact-manager-plugin/src/util/rs_shard.cpp:383-386 | the text is three lines of three, four and one number, single blanks between them and a newline behind each line |
| Metadata.ScanNumber | artifact-manager-plugin/src/util/rs_shard.cpp:645-645 | white space, a plus, a minus or no sign, and digits scan to the signed decimal value and what follows the longest run of digits |
| Metadata.ScanNoNumber | artifact-manager-plugin/src/util/rs_shard.cpp:645-645 | without a digit behind white space and sign there is no number |
| RsLayout.PaddedSizeFits | artifact-manager-plugin/src/util/rs_shard.cpp:315-327 | padding gives a multiple of 128, adds less than 128 bytes, and k blocks of whole machine words then cover the size exactly |
| RsLayout.PaddedSizeIs | artifact-manager-plugin/src/util/rs_shard.cpp:315-327 | the padded size is 128 times, and a block 16 times, the number of started units of 128 bytes |
| RsLayout.StreamBytes | artifact-manager-plugin/src/util/rs_shard.cpp:651-674 | byte t of block j of what is digested is the file's, or where the file is too short that of the last block before it that reaches so far, or 0 in the first |
| ShardFormat.ShardSpelled | artifact-manager-plugin/src/util/rs_shard.cpp:252-486 | a shard has 130 bytes, 16 for each started 128 bytes of the file, and 16 for each shard: index + 1 in two bytes, the high one first; a block coded from the eight parts of the metadata text; a block coded from the eight parts of the file and the padding; and the digest of every coded block in its place |
| ShardFormat.MetaSpelled | artifact-manager-plugin/src/util/rs_shard.cpp:383-393 | the metadata text of n bytes is, in 1024 bytes, the padded size, the block size and n; 8, the number of shards, 32 and the padded size; 1; and NUL bytes |
| RsRecovery.ErasureListExact | artifact-manager-plugin/src/util/rs_shard.cpp:892-976 | the list is 0..k-1 and then, strictly increasing and below k + m, k + i - 1 for exactly the indices i that no shard has |
| RsRecovery.ErasureBound | artifact-manager-plugin/src/util/rs_shard.cpp:892-994 | it has at most m entries if and only if k distinct indices survive, however many duplicates there are; with its -1 it fits k + m slots as soon as one survives |
| RsRecovery.MetaDataIsText | artifact-manager-plugin/src/util/rs_shard.cpp:383-393 | the first metadata block is the text and NULs, and all others are NUL |
| RsRecovery.MetaCodingIsText | artifact-manager-plugin/src/util/rs_shard.cpp:201-231 | so every shard's coded metadata block is the text itself |
| RsRecovery.ShardScans | artifact-manager-plugin/src/util/rs_shard.cpp:639-645 | and the direct scan of any shard reads exactly the numbers that were printed |
| RsRecovery.ShardIsGood | artifact-manager-plugin/src/util/rs_shard.cpp:639-681 | an undamaged shard passes validation against the table written with it |
| RsRecovery.GoodIffSlotRight | artifact-manager-plugin/src/util/rs_shard.cpp:639-681 | an undamaged shard passes validation against any table if and only if its own slot there is right |
| RsRecovery.GoodSpelled | artifact-manager-plugin/src/util/rs_shard.cpp:625-681 | a shard with scannable metadata is accepted if and only if it and the table are long enough, its index is between 1 and m, and the 16 bytes of the table at the index are the digest of what is read from byte 130 on |
| RsRecovery.IndexRead | artifact-manager-plugin/src/util/rs_shard.cpp:639-642 | the index is 256 times the first byte and the second |
| RsRecovery.ReadsSurvive | artifact-manager-plugin/src/util/rs_shard.cpp:900-976 | every block that is read back, for metadata or body, is the block that was coded for its index |
| RsRecovery.ShardsValidate | artifact-manager-plugin/src/util/rs_shard.cpp:532-735 | validation keeps all undamaged shards of one file, in their order |
| RsRecovery.PassesRecover | artifact-manager-plugin/src/util/rs_shard.cpp:888-1272 | both decoding passes return the data blocks that were encoded |
| RsRecovery.PassFails | artifact-manager-plugin/src/util/rs_shard.cpp:996-1230 | if decoding returns -1 in either pass, so does the whole, and nothing is written |
| RsRecovery.RsRoundTrip | artifact-manager-plugin/src/util/rs_shard.cpp:741-1295 | shards of one file in any order and with duplicates, at least eight of them distinct, decode to return code 1 and exactly the file, whatever the padding held |
| RsDamage.GoodIffIntact | artifact-manager-plugin/src/util/rs_shard.cpp:639-681 | when no shard is accepted that is damaged in front of its table, the accepted shards are exactly those that are undamaged there and have the right slot in the last readable table |
| RsDamage.RecoveryExact | artifact-manager-plugin/src/util/rs_shard.cpp:495-1295 | among any shards of which none is accepted that is damaged in front of its table, by a collision or in its metadata: return code 1 and the file if eight different shards are undamaged there with the right slot in the last readable table, and -1 otherwise |
| RsDamage.WrongTableStops | artifact-manager-plugin/src/util/rs_shard.cpp:563-601 | what the missing vote costs: with fewer than eight right slots in the last readable table the result is -1, however many other shards agree on the right one |
| RsDamage.DamageTolerated | artifact-manager-plugin/src/util/rs_shard.cpp:488-1295 | if the last readable table is the file's, eight different shards undamaged in front of their tables give exactly the file |
| RsDamage.MetadataUnchecked | artifact-manager-plugin/src/util/rs_shard.cpp:639-681 | a shard with right index and body and any eight integers of the same block size and one read-in as metadata is accepted if and only if its slot is right: no digest covers the metadata |
| RsDamage.NothingExplains | artifact-manager-plugin/src/util/rs_shard.cpp:996-1007 | when eight different coded blocks are right and one more is wrong, no data explains all of them, and decoding need not succeed |
| DamageExample.MetadataCanStop | artifact-manager-plugin/src/util/rs_shard.cpp:639-1007 | for every file there are nine shards, one with a changed number in its metadata, that a code which keeps every promise does not decode, although all digests are right and eight shards are intact |
| RsFlips.FlippedBody | artifact-manager-plugin/src/util/rs_shard.cpp:639-681 | among distinct undamaged shards, a flipped byte in a coded body whose digest changes costs that shard only: enough are intact if and only if there are nine |
| RsFlips.FlippedTable | artifact-manager-plugin/src/util/rs_shard.cpp:532-681 | a flipped byte in a table costs nothing unless the table is the last shard's and the slot that of a shard that is there; then it costs that shard |
| RsShard.ShardMeta | artifact-manager-plugin/src/util/rs_shard.cpp:81-244 | every file is overwritten with its two index bytes and its coded metadata block |
| RsShard.ShardFd | artifact-manager-plugin/src/util/rs_shard.cpp:252-486 | file i then holds index, coded metadata, coded body and the digests of all body blocks, byte by byte as in ShardFormat, with blocks of 16 bytes for each started 128 of the input |
| RsShard.TrustedTable | artifact-manager-plugin/src/util/rs_shard.cpp:532-601 | the trusted table is the one of the last readable file |
| RsShard.AgreeingTables | artifact-manager-plugin/src/util/rs_shard.cpp:532-601 | when the readable files agree on a table, that is the trusted one |
| RsShard.ValidateShards | artifact-manager-plugin/src/util/rs_shard.cpp:605-735 | the accepted files come first in their original order, the rest of the array is null, and their number is returned |
| RsShard.KeptOrRejected | artifact-manager-plugin/src/util/rs_shard.cpp:605-723 | every file is counted exactly once, as good or as bad |
| RsShard.GatherShards | artifact-manager-plugin/src/util/rs_shard.cpp:892-994 | the nested search collects the surviving blocks and exactly the erasure list, within its k + m slots |
| RsShard.DecodeShards | artifact-manager-plugin/src/util/rs_shard.cpp:892-1007 | one pass terminates the list with -1 and decodes what was gathered |
| RsShard.WriteBlocks | artifact-manager-plugin/src/util/rs_shard.cpp:1247-1269 | exactly the first origsize bytes of the blocks are written, across whole blocks and single bytes |
| RsShard.DecodeFile | artifact-manager-plugin/src/util/rs_shard.cpp:846-1287 | both passes, the scan and the truncation give the result of the unsharding function |
| RsShard.UnshardFd | artifact-manager-plugin/src/util/rs_shard.cpp:741-1295 | validates, decodes and writes; -1 and an untouched output when that fails |
| Randomize.RandomizeRoundTrip | artifact-manager-plugin/src/util/rs_shard.cpp:1297-1646 | removing the pad restores the file, because both sides derive the same pad from the pre-image and the length |
| Randomize.HashCount | artifact-manager-plugin/src/util/rs_shard.cpp:1381-1439 | max(100, n) + 1 finalisations for n full chunks; the last n hash the base with the counters 1..n, all different |
| Randomize.HashRounds | artifact-manager-plugin/src/util/rs_shard.cpp:1378-1396 | the round loop leaves the digest and the context of the iterated hash, and records its inputs, each of which was updated and finalised |
| Randomize.InputsSpelled | artifact-manager-plugin/src/util/rs_shard.cpp:1378-1438 | what is hashed is the pre-image; 100 less the full chunks times the digest of all inputs before; and for every full chunk the last of these digests with a four-byte counter from 1, the low byte first |
| Randomize.PadSpelled | artifact-manager-plugin/src/util/rs_shard.cpp:1378-1445 | byte i of the pad is byte i % 32 of the digest of all these inputs up to counter i / 32, or up to the last round |
| Randomize.FillPad | artifact-manager-plugin/src/util/rs_shard.cpp:1399-1445 | every pad byte is the base's or a counter digest's, in order, with the last digest cut off |
| Randomize.BuildPad | artifact-manager-plugin/src/util/rs_shard.cpp:1378-1445 | the loops build the pad and record exactly the inputs that PadSpelled gives it from |
| Randomize.RandomizeHeader | artifact-manager-plugin/src/util/rs_shard.cpp:1297-1497 | the file becomes the pre-image and, from byte 32 on, its old bytes XORed with those of the pad for its old size |
| Randomize.UnrandomizeHeader | artifact-manager-plugin/src/util/rs_shard.cpp:1499-1646 | the file becomes its bytes from 32 on, XORed with those of the pad that the first 32 give for their number |
| Pipeline.EncryptedSize | artifact-manager-plugin/src/util/crypto_secretbox.cpp:21-34 | the ciphertext is 32 bytes longer than the file, and opens to 32 zero bytes and the file |
| Pipeline.StoredParts | artifact-manager-plugin/src/shard.cpp:129-166 | unrandomizing a stored shard gives its share and its coded part back |
| StoredFormat.StoredSpelled | artifact-manager-plugin/src/shard.cpp:44-136 | a stored shard is the pre-image and, XORed with its pad, the key share at i + 1, what sealing key, nonce and the rest of the buffer gives, and shard file i of what sealing 32 zero bytes and the file under that key and nonce gives |
| StoredFormat.PlainIs | artifact-manager-plugin/src/shard.cpp:166-166 | unrandomizing any shard gives its bytes from 32 on, XORed with the pad of the first 32 |
| StoredFormat.UsedSpelled | artifact-manager-plugin/src/shard.cpp:215-216 | the first shares are combined, as many as the number of shards is modulo 256 |
| StoredFormat.TooManyStop | artifact-manager-plugin/src/shard.cpp:215-216 | with 256 shards, or a multiple, there is none to combine, and nothing comes back |
| Pipeline.FileDecrypted | artifact-manager-plugin/src/shard.cpp:223-226 | which decrypt the ciphertext to the file |
| PipelineRecovery.UnshardedExact | artifact-manager-plugin/src/shard.cpp:148-231 | with intact sealed parts, no accepted body that is damaged in front of its table, and a combined key that is the shared one or rejected: the file if the shares combine to the shared key and eight different bodies are intact, and nothing otherwise |
| PipelineRecovery.IntactShares | artifact-manager-plugin/src/shard.cpp:148-231 | with intact shares at distinct x, and no accepted body that is damaged in front of its table: the file if and only if eight different bodies are intact |
| PipelineRecovery.EndToEnd | artifact-manager-plugin/src/shard.cpp:44-231 | any eight or more distinct stored shards, in any order, unshard to exactly the file they were made from |
| PipelineRecovery.OneDamagedKeyPart | artifact-manager-plugin/src/shard.cpp:215-226 | one key part that may be damaged, with the hypotheses of UnshardedExact otherwise: the file if and only if the part is still one of the key's and eight different bodies are intact |
| PipelineRecovery.RepeatedExact | artifact-manager-plugin/src/shard.cpp:148-231 | undamaged shards with any repetitions: the file if and only if they combine to the shared key and eight numbers are different, if another combined key is rejected |
| PipelineRecovery.AlwaysUnshardedIff | artifact-manager-plugin/src/shard.cpp:148-231 | undamaged shards with any repetitions: the file comes back for every shared key if and only if the shares always combine to their key, if one lost key's combination is rejected |
| PipelineRecovery.DuplicatesIff | artifact-manager-plugin/src/shard.cpp:148-231 | of at most sixteen shards, or shards with at most eight different numbers, the file comes back for every shared key if and only if there are eight and none repeats, if one lost key's combination is rejected |
| PipelineRecovery.WrongCombination | artifact-manager-plugin/src/shard.cpp:215-226 | shares that combine to another key, which is rejected, stop the recovery, whatever the bodies are |
| PipelineFlips.DamagedShareStops | artifact-manager-plugin/src/shard.cpp:215-219 | two shares whose sealed parts differ stop the recovery, however many shards are intact |
| PipelineFlips.FlippedSealedByteStops | artifact-manager-plugin/src/shard.cpp:163-226 | one flipped byte in the sealed part of one of two or more stored shards stops the recovery |
| PipelineFlips.FlippedKeyByteStops | artifact-manager-plugin/src/shard.cpp:163-226 | so does one flipped value byte in the key part of one of eight or more distinct stored shards, if the one key they then combine to is rejected |
| PipelineFlips.FlippedBodyByte | artifact-manager-plugin/src/shard.cpp:148-231 | one flipped byte in the coded body of one of eight or more distinct stored shards, whose digest changes: the file if there are nine or more, nothing if there are eight |
| PipelineFlips.FlippedTableByte | artifact-manager-plugin/src/shard.cpp:148-231 | one flipped byte in the table of one of eight or more distinct stored shards: the file, unless there are eight, the shard is the last one, and the digest is that of one of them |
| PipelineExample.OneByteStops | artifact-manager-plugin/src/shard.cpp:44-231 | for every file that fits there are libraries and eight stored shards that give it back, and nothing after one byte is flipped |
| ShardFiles.FinishShard | artifact-manager-plugin/src/shard.cpp:118-136 | the file becomes the randomized concatenation of share and coded part |
| ShardFiles.ShardFile | artifact-manager-plugin/src/shard.cpp:44-144 | shard file i then holds exactly the stored shard i, in the format of StoredFormat |
| ShardFiles.SplitShards | artifact-manager-plugin/src/shard.cpp:163-203 | every file keeps its coded part, and the shares are collected in order |
| ShardFiles.Decrypt | artifact-manager-plugin/src/shard.cpp:218-226 | the output is written only if the shares agree and open, and the ciphertext opens with the 32 bytes of the opened secret as key and the 24 behind them as nonce; then it is the message from byte 32 on |
| ShardFiles.UnshardFile | artifact-manager-plugin/src/shard.cpp:148-231 | the output is what the unsharding function gives, or is untouched where the program aborts |
| OptimizerRules.Optimizer.CreateOptModel | shard-sharding-server/src/scatterlib/optim.py:54-89 | all formulas collected are true exactly for the placements that meet the ten rules as RulesSpelled writes them out, and exactly for those that satisfy the problem when both lists agree on types, n and m |
| OptimizerRules.Optimizer.RuleOneServerMustHaveShard | shard-sharding-server/src/scatterlib/optim.py:288-299 | adds for every race node and shard, and for nothing else, the formula that is true exactly when the race node's having the shard implies that some server has it |
| OptimizerRules.Optimizer.RuleOneServerMustHaveBlob | shard-sharding-server/src/scatterlib/optim.py:301-308 | adds for every race node and instance, and for nothing else, the formula that is true exactly when the race node's having the blob implies that some server has it |
| OptimizerRules.Optimizer.RuleSumShardsBetweenNAndM | shard-sharding-server/src/scatterlib/optim.py:310-326 | adds for every race node and instance, and for nothing else, the formula that is true exactly when the sum of shards is 0 or between the loaded list's n and m |
| OptimizerRules.Optimizer.RuleRaceNodeHasBlobIfHasShards | shard-sharding-server/src/scatterlib/optim.py:382-404 | adds for every race node and instance, and for nothing else, the formula that is true exactly when there are no shards, or the race node and some server have the blob |
| OptimizerRules.Optimizer.RuleBlobMatchesInstance | shard-sharding-server/src/scatterlib/optim.py:481-497 | adds for every race node and instance, and for nothing else, the formula that is true exactly when the race node has the blob just if it has shards |
| OptimizerRules.Optimizer.RuleServerCapacity | shard-sharding-server/src/scatterlib/optim.py:499-521 | adds for every server, and for nothing else, the formula that is true exactly when the sizes of its shards and blobs, summed over all dependencies and instances, are at most its capacity |
| OptimizerRules.Optimizer.RuleOnlyOneInstancePerRaceNode | shard-sharding-server/src/scatterlib/optim.py:523-546 | adds for every race node and dependency, and for nothing else, the formula that is true exactly when it has shards of at most one instance |
| OptimizerRules.Optimizer.RuleOneInstancePerRaceNode | shard-sharding-server/src/scatterlib/optim.py:548-569 | adds for every instance, and for nothing else, the formula that is true exactly when at most one race node has shards of it |
| OptimizerRules.Optimizer.RuleNoDuplicateShardsNoExtraShards | shard-sharding-server/src/scatterlib/optim.py:594-616 | adds for every shard, and for nothing else, the three formulas on its race nodes, its servers, and their equal number |
| OptimizerRules.Optimizer.RuleRaceNodeHasDependencies | shard-sharding-server/src/scatterlib/optim.py:639-670 | adds for every race node and every type of the loaded list, and for nothing else, the formula that is true exactly when enough shards of exactly one dependency of the type are there |
| Formulas.FormulaSays | shard-sharding-server/src/scatterlib/optim.py:288-670 | each of the twelve kinds of formulas, nested sums and conditionals included, evaluates to exactly its constraint, under every assignment |
| RulesSpelled.FormulaSpelled | shard-sharding-server/src/scatterlib/optim.py:288-670 | the same, with every constraint written out over the indices of the problem, the numbers of elements of sets, and nested sums |
| RulesSpelled.StatedSpelled | shard-sharding-server/src/scatterlib/optim.py:288-670 | which tuples of indices formulas are added for, kind by kind |
| RulesSpelled.SatisfiesSpelled | shard-sharding-server/src/scatterlib/optim.py:54-89 | all constraints hold if and only if the ten rules do, written out in the same way |
| Formulas.CollectedSays | shard-sharding-server/src/scatterlib/optim.py:54-89 | the formulas of a set of constraints are all true if and only if the constraints hold |
| Formulas.AgreeingLists | shard-sharding-server/src/scatterlib/optim.py:324-325 | when the module's list of dependencies agrees with the object's on types, n and m, the rules say the same with either |
| LoadedLists.LoadedBoundsMatter | shard-sharding-server/src/scatterlib/optim.py:310-326 | the formula with the loaded n and m is true for exactly the placings that meet the object's, if and only if both bounds admit the same numbers of the instance's shards |
| LoadedLists.LoadedTypesMatter | shard-sharding-server/src/scatterlib/optim.py:639-670 | where every dependency can be served, the formula for a type of both lists says the same as with the object's list, if and only if the type is at the same indices in both |
| Placement.HoldersUnique | shard-sharding-server/src/scatterlib/optim.py:548-569 | the sum is at most 1 if and only if no two race nodes have shards of the instance |
| Placement.UsableOfTypeUnique | shard-sharding-server/src/scatterlib/optim.py:639-670 | the sum is at most 1 if and only if a race node has enough shards of no two dependencies of the type |
| Placement.OneInstanceOfEveryType | shard-sharding-server/src/scatterlib/optim.py:523-670 | with positive thresholds for a type, every race node has exactly one instance of it, and enough shards of it |
| Placement.EnoughInstances | shard-sharding-server/src/scatterlib/optim.py:548-670 | with positive thresholds for a type, the race nodes map injectively to its instances, so there are at least as many instances as race nodes |
| Thresholds.AlwaysServedIff | shard-sharding-server/src/scatterlib/optim.py:639-670 | if the rules can be satisfied at all, every satisfying placement serves every race node with a type if and only if every threshold of the type is at least 1 |
| Thresholds.ZeroThreshold | shard-sharding-server/src/scatterlib/optim.py:639-670 | concretely: a kit of two shards with threshold 0 on one of two race nodes satisfies all rules, and the other race node has nothing |
| Placement.ShardBalanced | shard-sharding-server/src/scatterlib/optim.py:594-616 | a shard takes as many bytes on all race nodes together as on all servers together |
| Placement.AllOnce | shard-sharding-server/src/scatterlib/optim.py:503-517 | the lists that are summed over hold every instance and every shard of the problem, exactly once |
| Placement.LoadIs | shard-sharding-server/src/scatterlib/optim.py:503-521 | what the capacity rule sums up is, dependency by dependency and instance by instance, the shard size times the number of shards on the server, and the size of the blob if it is there |
| Placement.BlobStored | shard-sharding-server/src/scatterlib/optim.py:382-404 | the blob of an assigned instance is on some server |
| Placement.CapacitySuffices | shard-sharding-server/src/scatterlib/optim.py:382-616 | the shard sizes times the numbers of shards, summed over race nodes, dependencies and instances, and one blob for every instance that some race node has shards of, are at most the sum of the capacities |
| Placement.RulesMean | shard-sharding-server/src/scatterlib/optim.py:288-670 | with positive thresholds, all rules hold if and only if: one instance of every type per race node, none shared, blob and n to m shards together, shards on one server exactly when on a race node, and what a server stores of all dependencies and instances fits it |
| Sums.DoubleCounting | shard-sharding-server/src/scatterlib/optim.py:499-521 | summing a table by rows or by columns gives the same |
| Base64.GroupIsBits | artifact-manager-plugin/src/util/base64.cpp:24-27 | the four sextets are the 24 bits of the three bytes, in order |
| Base64Bits.EncodedGroup | artifact-manager-plugin/src/util/base64.cpp:14-35 | three bytes become the characters, in the 64-character alphabet, of the four six-bit parts of their 24 bits, and then comes the encoding of the rest |
| Base64Bits.EncodedOne | artifact-manager-plugin/src/util/base64.cpp:37-50 | one byte becomes the characters of the first two six-bit parts of its bits with zeros behind them, and two times = |
| Base64Bits.EncodedTwo | artifact-manager-plugin/src/util/base64.cpp:37-50 | two bytes become the characters of the first three such parts, and one = |
| Base64Bits.DecodedBits | artifact-manager-plugin/src/util/base64.cpp:55-77 | four characters of the alphabet become the three bytes of their 24 bits, and then comes the decoding of the rest |
| Base64Bits.DecodedTail | artifact-manager-plugin/src/util/base64.cpp:79-91 | fewer than four before the end give as many bytes as they have full ones |
| Base64.RoundTrip | artifact-manager-plugin/src/util/base64.cpp:14-94 | decoding undoes encoding on every byte string |
| Base64.EncodedLength | artifact-manager-plugin/src/util/base64.cpp:14-53 | n bytes encode to 4 * ceil(n / 3) characters |
| Base64.DecodedLength | artifact-manager-plugin/src/util/base64.cpp:55-94 | p characters decode to floor(3p / 4) bytes |
| Base64.PrefixMaximal | artifact-manager-plugin/src/util/base64.cpp:63-63 | what is decoded is the longest prefix over the alphabet |
| Base64.DecodeByPrefix | artifact-manager-plugin/src/util/base64.cpp:55-94 | strings with the same alphabet prefix of length p decode to the same floor(3p / 4) bytes |
| Base64.FillIsIrrelevant | artifact-manager-plugin/src/util/base64.cpp:79-91 | the value of failed lookups in the missing tail positions never reaches the result |
| Base64.EncodeBytes | artifact-manager-plugin/src/util/base64.cpp:14-53 | the loop with its carried group computes the encoding, whose characters Base64Bits gives, tail included |
| Base64.DecodeString | artifact-manager-plugin/src/util/base64.cpp:55-94 | the loop with its carried group computes the decoding of the prefix, tail included |

## Left out

- File handles, descriptors and their offsets, memory files, allocation, logging and removing the shard files after use; a file is its bytes.
- The insides of Jerasure, libsodium, MD5, SHA-256 and of the random generators: only the promises listed above are used.
- Thresholds other than 8 in the erasure-coding layer and the pipeline: `rs_shard.cpp:648` has the size of the metadata block for 8 built in. The secret sharing is proved for every threshold.
- The branches for more than one read-in, which `rs_shard_fd` never takes, and the uninitialised `fp` that `rs_shard.cpp:211` tests: the model takes the branch that writes.
- Files whose padded size does not fit a 32-bit `int`: `RsLayout.SizesFit` excludes them, since the printed metadata then overflows.
- The vote on hash tables that the comment at `rs_shard.cpp:488-493` describes: the code compares the address of one shared buffer with itself, so the table read last is trusted, and `RsDamage.WrongTableStops` states what that costs. If no file is readable, the code leaves the table uninitialised; here it is empty, and no shard is accepted.
- RsLayout.GoodShard: a shard whose metadata does not scan, or whose index is outside 1..m, counts as bad; the code would use variables left from the shard before, or read outside the table.
- RsRecovery.RsUnshard: decoded metadata that does not scan, or that contradicts the threshold and the number of shards it was asked for, makes it return -1; the code would go on with these numbers. It cannot happen with undamaged shards, as `RsRecovery.RsRoundTrip` shows.
- Pipeline.Unsharded: gives no file where the program aborts on an assertion or exits; a ciphertext shorter than 32 bytes, where the code computes a wrapped length, is counted among these.
- RsShard.ValidateShards: counts shards as bad in the two cases of `RsLayout.GoodShard`.
- RsShard.DecodeFile: returns -1 in the cases of `RsRecovery.RsUnshard`.
- RsShard.UnshardFd: inherits both.
- RsDamage.RecoveryExact: two kinds of accepted damage are excluded by hypothesis: an index or body whose digest collides with the trusted one (`RsDamage.DigestsTell`), and a changed metadata block (`RsDamage.MetadataIntact`), which `RsDamage.MetadataUnchecked` shows to need no collision. What decoding makes of the latter is up to the library (`RsDamage.NothingExplains`), and `DamageExample.MetadataCanStop` is a case in which it fails.
- PipelineRecovery.UnshardedExact: all combined shares have their own sealed part; if sealed parts differ among each other, `PipelineFlips.DamagedShareStops` applies, and if all are damaged in the same way, what opening makes of it is up to the library.
- Shamir.AlwaysRecoveredIff: for at most 2k shares or at most k different ones; for others, `Shamir.AlwaysRecoveredByPowers` is the condition, and `Shamir.RepetitionSurvives` an example in which it holds with a repetition.
- PipelineFlips.FlippedBodyByte: a flip that leaves the digest as it was is not classified, and neither are flips in a pre-image, in an index or in a metadata block.
- LoadedLists.LoadedTypesMatter: for problems whose thresholds are positive and whose dependencies each have an instance with enough shards; a dependency that is never or always served can change its type unnoticed.
- Randomize.HashCount: for fewer than 2^32 chunks, since the counter has 32 bits.
- Randomize.RandomizeHeader: files of at least 32 bytes, since the code copies a whole digest into a buffer of the file's size.
- Hazmat.MulInto: the second factor may not be the result's array, as the source demands.
- The narrowing of lengths to `int` and `unsigned int` in the Base64 codec, and locales in which `isalnum` accepts more than ASCII.
- OptimizerRules.Optimizer.CreateOptModel: the module's own list of dependencies must have every index of the object's, since the code fails with an index error otherwise.
- In `optim.py`: the solver, the objective functions, routability, the simple mode, shards that were pushed before, and instances without a blob, for which the rules would fail on a missing key.
- Downloading, the HTTP server, the database, messaging, the web views and the configuration generators.
