# LightBlog: a verified model

LightBlog is a small blog server in C++. This project models its three components with the most
intricate behaviour and proves, for all inputs and all runs, what they compute.

* **The scrypt password stack** (`src/scrypt`). Each optimised routine over arrays and contexts is proved
  equal to the few lines with which its standard defines it: SHA-256 (FIPS 180-4) with a rotating register
  file and a split bit count, HMAC (RFC 2104), PBKDF2 (RFC 8018), Salsa20/8, BlockMix, ROMix and scrypt
  (RFC 7914), Base64 (RFC 4648), and the `$s1$` format from hashing to checking a password.
* **The BBCode replacement engine** (`src/bbcode/bbcode_parser.cpp`). It edits one growing string at
  positions recorded earlier. It is proved equal, after every event of every run, to a matcher over tokens
  that never looks at positions and renders at the end; and for well-nested input of any depth, in whatever
  run it stands, that is what a renderer following the nesting shows (`BbcodeNested.NestedShown`).
* **The blog itself** (`src/blog.cpp`, `src/main.cpp`, `src/blog.h`). Posts, users, sessions and the page
  cache form a state machine; its invariants hold in every run, and a blog with the cache answers like one
  that renders every page anew, exactly as long as no key can belong to pages of two kinds.

`dafny verify dfyconfig.toml` checks everything.

## How the model is built

A specification module states the standard or the state machine as functions on values (`Sha256Spec`,
`Hmac`, `Pbkdf2`, `Salsa`, `BlockMix`, `Smix`, `Scrypt`, `Base64`, `CStrings`, `BbcodeSpec`, `BlogSpec`, with
arithmetic in `Words`, `Bits` and `Decimal`). Code that works by changing things is a method or a class
(`Sha256Ctx`, `HmacCtx`, `Parser`, `BlogSystem`, and the array routines) whose `ensures` ties its result
or new state to those functions. What the program promises is then proved about the functions.

The definitions of the standards are in turn tied down by what they compute: the constants of SHA-256 are derived from the primes, the digest of "abc" and the Salsa20/8
example of RFC 7914 are worked out step by step (`Sha256Known`, `SalsaKnown`), and MAC, PBKDF2, BlockMix,
ROMix and Base64 are stated once more on plain octets, blocks and numbers (`Hmac.MacInNumbers`,
`Pbkdf2.BlockTrace`, `BlockMix.BlockMixTrace`, `Smix.RoMixTrace`, `Smix.IntegerifyOctets`,
`Base64.GroupValue`). For the matcher, `BbcodeRuns` and `BbcodeNested` say what a run shows in terms of
its input alone, and for the state machine `BlogAnswers`, `BlogAccounts` and `BlogEffects` say what every
request is answered and leaves behind in terms of rows, sessions and cache.

Widths are explicit. Words are `bv32` and octets `bv8`; the two halves of the SHA-256 bit count are 32-bit
numbers that wrap; the buffer sizes and offsets that `libscrypt_scrypt` computes in 32 bits are written with
their modulus; `params` of the stored string is a 32-bit number.

## What was found

* **32-bit sizes.** `libscrypt_scrypt` admits `r * p < 2^30`, as its documentation says, but computes
  `128 * r * p` and `256 * r + 64` in 32 bits. `Scrypt.SizesExact` shows these are the sizes needed if and
  only if both fit in 32 bits, `Scrypt.OverrunsIff` that the buffers are overrun in all other cases, and
  `Scrypt.SizesWrap` names accepted parameters of that kind. The 8-bit `r` and `p` of a stored string always
  fit (`Scrypt.McfSizesFit`).
* **A test that never fires.** `scrypt_ilog2` reports failure as 2^32 - 1, so `t < 1` in `libscrypt_mcf` is
  dead: for an `N` that is no power of two, 3 for example, a string is printed all the same
  (`Mcf.MisprintAndCheck`), but no password is ever accepted with it. The blog never stores such a string,
  since `libscrypt_scrypt` refuses the same `N` first (`Mcf.HashPassword`).
* **Exponent 31.** A password hashed with `N = 2^31` is stored but never accepted: `libscrypt_check` refuses
  exponents above 30 while the hashing side admits 31. `Mcf.StoredVerifies` and `Mcf.StoreAndCheck` give the
  exact answer for every exponent.
* **Home pages and posts share keys.** A view of the post `home<n>` can be answered with home page n, and
  a home page with a post that has its key as id (`BlogCache.HomeThenPost`, `BlogCache.PostThenHome`).
  `BlogCache.TrustedIff` gives the exact condition under which a cached page is the right one, and
  `BlogCache.ClashShows` that every clash shows after one more request. The first of the two happens even
  when no post has such an id. Only numerals of one to nine digits reach the home pages, so a longer key never
  clashes (`BlogCache.HomeKeyBound`). `BlogCache.PlainIndistinguishable` states what to ask of a run beforehand.
* **Saving a post under its own title is refused**, because the post's own row counts as taking the title
  (`BlogEffects.UpdateEffect`, `BlogEffects.UpdateNeedsNewTitle`).
* **Text after a NUL is lost in the database.** Text is bound as a C string, while ids, session names and
  comparisons in memory see all of it. So two titles that differ only after a NUL give two rows with one title
  (`BlogEffects.TwoRowsOneTitle`), and two login names that do give one account two sessions
  (`BlogAccounts.TwoSessionsOneAccount`). `BlogEffects.StoredTitle`, `BlogEffects.TitlesDiffer` and
  `BlogAccounts.LoginOwnsAccount` give the exact conditions, and `BlogAccounts.AccountsOwnOneIff` those for
  whole runs; without a NUL in a login name they always hold (`BlogAccounts.AccountsOwnOne`).
* **Sessions hold names, not accounts.** A user who takes a new name is logged out, one who keeps it is not
  (`BlogAccounts.RenameLogsOut`). But the abandoned session stays in the map until it is used, and when another
  user takes the old name it is live again and speaks for that user's row (`BlogAccounts.ChangesHands`). In
  every state of a run a cookie speaks for no account but its own if and only if no request of the run is
  foreign to it: a live session of another account that will take the very name over, or a login of another
  account that is given the same cookie (`BlogAccounts.KeepsAccountIff`, for one request
  `BlogAccounts.StrayIff`). The condition is the guard of the request, not its outcome.
* **A PBKDF2 iteration count of 0 acts as 1** (`Pbkdf2.Derive` with `Pbkdf2.Iterations`).

## Model

| member | source | states |
|---|---|---|
| Words.BigEndianRoundTrip | src/scrypt/sysendian.h:51-69 | `be32enc` then `be32dec` gives the word back, and decoding then encoding gives the four octets back |
| Words.LittleEndianRoundTrip | src/scrypt/sysendian.h:97-115 | the same for `le32enc` and `le32dec` |
| Words.DecValue | src/scrypt/sysendian.h:51-115 | as a number, what `be32dec` reads is the sum of its octets by powers of 256 from the last on, and what `le32dec` reads from the first on |
| Sha256Transform.MacrosAreStandard | src/scrypt/sha256.cpp:63-64 | the rewritten Ch and Maj are the ones of section 4.1.2 of FIPS 180-4 on all words |
| Sha256Transform.Rndr | src/scrypt/sha256.cpp:73-85 | one RNDr writes two of the eight words and moves none |
| Sha256Transform.RotatingRound | src/scrypt/sha256.cpp:73-85 | seen from offset (64 - i) % 8, one RNDr is the shifting round of section 6.2.2 of FIPS 180-4 |
| Sha256Transform.RotatesStep | src/scrypt/sha256.cpp:107-171 | after every round the rotating file, read from its moving offset, is the a..h of the standard after as many rounds |
| Sha256Transform.Realigned | src/scrypt/sha256.cpp:173-175 | after 64 rounds the file is aligned with the state again |
| Sha256Transform.Expand | src/scrypt/sha256.cpp:99-102 | W holds the message schedule of the standard at all 64 places |
| Sha256Transform.Transform | src/scrypt/sha256.cpp:91-181 | the state array becomes the standard's compression of the old state with the block |
| Sha256.BufferedBits | src/scrypt/sha256.cpp:240 | the low bits of the second count word give the octets buffered, even after the count wrapped |
| Sha256.CarrySum | src/scrypt/sha256.cpp:242-249 | adding with carry on the two 32-bit words adds the length in bits modulo 2^64 |
| Sha256.PaddingIsStandard | src/scrypt/sha256.cpp:192-210 | what is appended, with its length field from the two words, is the padding of section 5.1.1 of FIPS 180-4 for every message |
| Sha256.Sha256Ctx.Init | src/scrypt/sha256.cpp:213-229 | the context represents the empty message |
| Sha256.Sha256Ctx.AddBits | src/scrypt/sha256.cpp:242-249 | the two-word count follows the octets absorbed |
| Sha256.Sha256Ctx.Update | src/scrypt/sha256.cpp:232-272 | buffer, two-word bit count and chaining value represent the octets absorbed so far followed by the new ones, for any length |
| Sha256.Sha256Ctx.AbsorbBlocks | src/scrypt/sha256.cpp:263-268 | complete blocks are compressed straight from the input, leaving fewer than 64 octets |
| Sha256.Sha256Ctx.Pad | src/scrypt/sha256.cpp:191-210 | the context then represents the padded message |
| Sha256.Sha256Ctx.Final | src/scrypt/sha256.cpp:278-290 | the digest is SHA-256 of everything absorbed and the context is zeroed |
| Sha256.DigestChunks | src/scrypt/sha256.cpp:213-290 | any message cut into any sequence of updates hashes to the FIPS 180-4 digest of the whole |
| Sha256Known.RoundConstants | src/scrypt/sha256.cpp:107-171 | each of the 64 constants is the first 32 bits of the fractional part of the cube root of its prime, section 4.2.2 of FIPS 180-4 |
| Sha256Known.InitialHash | src/scrypt/sha256.cpp:219-228 | the eight initial words are those of the square roots of the first eight primes, section 5.3.3 |
| Sha256Known.PaddedShape | src/scrypt/sha256.cpp:183-210 | a padded message is the message, 0x80, the fewest zeros that fill up to eight octets short of a block, and its length in bits as a big-endian number modulo 2^64 |
| Sha256Known.AbcDigest | src/scrypt/sha256.cpp:91-290 | the digest of "abc" is the published one, worked out over all 64 words of the schedule and all 64 rounds, which leaves no freedom in a rotation, a shift or an offset |
| Sha256Known.OctetsInOrder | src/scrypt/sha256.cpp:286 | the digest is the eight words in order, each with its most significant octet first |
| Hmac.XorPad | src/scrypt/sha256.cpp:312-314 | a pad block xored with the key is the constant block xored with the zero-padded key |
| Hmac.HmacCtx.Init | src/scrypt/sha256.cpp:293-326 | for every key length the two contexts have absorbed the inner and outer key block of RFC 2104 |
| Hmac.HmacCtx.Update | src/scrypt/sha256.cpp:329-335 | the text grows by the input, in any chunks |
| Hmac.HmacCtx.Final | src/scrypt/sha256.cpp:338-354 | the digest is H((K0 xor opad), H((K0 xor ipad), text)) of section 2 of RFC 2104 |
| Hmac.MacInNumbers | src/scrypt/sha256.cpp:293-354 | the MAC written out on octets: a key of more than 64 octets is hashed, the block is filled up with zeros and masked with 0x36 and 0x5c, and the two hashes are nested |
| Pbkdf2.Block | src/scrypt/sha256.cpp:380-400 | from the copied HMAC state, T is F(P, S, c, i + 1) of section 5.2 of RFC 8018 |
| Pbkdf2.FoldRest | src/scrypt/sha256.cpp:391-400 | the in-place fold of U_2 to U_c into T |
| Pbkdf2.Derive | src/scrypt/sha256.cpp:361-411 | the buffer becomes the first dkLen octets of T_1, T_2, ... for every c, every allowed length and a short last block |
| Pbkdf2.PrefixOfLonger | src/scrypt/sha256.cpp:379-407 | a shorter output is a prefix of a longer one |
| Pbkdf2.OctetOfBlock | src/scrypt/sha256.cpp:379-411 | octet k of the key is octet k mod 32 of block k / 32 + 1 |
| Pbkdf2.BlockTrace | src/scrypt/sha256.cpp:380-400 | for every count, blocks u made by repeated MACs from the salt and the number of the block in four big-endian octets, and joined octet by octet with exclusive or, end in the block |
| Pbkdf2.OneMac | src/scrypt/sha256.cpp:361-411 | one block with one iteration is the MAC of the salt followed by 0, 0, 0, 1 |
| Salsa.QuarterInPlace | src/scrypt/crypto_scrypt-nosse.cpp:87-90 | four in-place updates of words at four places are the quarterround on them |
| Salsa.DoubleRoundInPlace | src/scrypt/crypto_scrypt-nosse.cpp:88-112 | the in-place statements are a column round followed by a row round |
| Salsa.SalsaInPlace | src/scrypt/crypto_scrypt-nosse.cpp:79-117 | sixteen words of the buffer become Salsa20/8 of section 3 of RFC 7914, the rest is untouched |
| Salsa.DoubleRoundBijective | src/scrypt/crypto_scrypt-nosse.cpp:88-112 | the double round has a two-sided inverse on 16-word blocks |
| SalsaKnown.RotlValue | src/scrypt/crypto_scrypt-nosse.cpp:87 | the four rotations in arithmetic: times 2^n modulo 2^32, plus the quotient by 2^(32 - n) |
| SalsaKnown.Columns | src/scrypt/crypto_scrypt-nosse.cpp:88-99 | the first half of a double round is a quarterround on each column, from its diagonal word downwards |
| SalsaKnown.Rows | src/scrypt/crypto_scrypt-nosse.cpp:101-112 | the second half is one on each row, from its diagonal word to the right |
| SalsaKnown.SalsaExample | src/scrypt/crypto_scrypt-nosse.cpp:79-117 | Salsa20/8 of the input in section 8 of RFC 7914 is the output given there, worked out over all eight rounds |
| BlockMix.BlkCpy | src/scrypt/crypto_scrypt-nosse.cpp:51-61 | the destination range equals the source range, nothing else changes |
| BlockMix.BlkXor | src/scrypt/crypto_scrypt-nosse.cpp:63-73 | the destination range is xored with the source range, nothing else changes |
| BlockMix.BlockMixInto | src/scrypt/crypto_scrypt-nosse.cpp:125-151 | for every r the output is scryptBlockMix of the input, section 4 of RFC 7914, and only output and scratch change |
| BlockMix.SourceIsPermutation | src/scrypt/crypto_scrypt-nosse.cpp:139-149 | the even/odd shuffle uses every Y exactly once, so every output block is written once |
| BlockMix.BlockMixTrace | src/scrypt/crypto_scrypt-nosse.cpp:125-151 | for every r, blocks X made by the steps of section 4 of RFC 7914 from the last block on stand in the output: X_1, X_3, ... in its first half and X_2, X_4, ... in its second |
| Smix.MaskedIndex | src/scrypt/crypto_scrypt-nosse.cpp:157-163 | masking the low 64 bits with N - 1 is Integerify modulo N of section 5 of RFC 7914, for every power of two up to 2^64 |
| Smix.Index | src/scrypt/crypto_scrypt-nosse.cpp:205-212 | the index read from the buffer is Integerify mod N and below N |
| Smix.IntegerifyOctets | src/scrypt/crypto_scrypt-nosse.cpp:157-163 | the row a lane looks up, for every r and every number of rows up to 2^64, is the number that the first eight of its last 64 octets spell, least significant first, modulo the number of rows |
| Smix.SameLastBlockSameRow | src/scrypt/crypto_scrypt-nosse.cpp:205-212 | lanes that agree in their last 64 octets look up the same row |
| Smix.FillTable | src/scrypt/crypto_scrypt-nosse.cpp:187-200 | the loop unrolled by two leaves V_i = H^i(B) for all i and H^N(B) in X |
| Smix.LookupAll | src/scrypt/crypto_scrypt-nosse.cpp:202-217 | the second unrolled loop with swapped buffers computes the N look-ups, every index within V |
| Smix.DecodeEncode | src/scrypt/crypto_scrypt-nosse.cpp:183-221 | words written to octets are read back |
| Smix.SmixInPlace | src/scrypt/crypto_scrypt-nosse.cpp:173-222 | the lane becomes scryptROMix of itself, section 5 of RFC 7914, and the octets around it keep their values |
| Smix.RoMixTrace | src/scrypt/crypto_scrypt-nosse.cpp:173-222 | for every N, blocks V and X made by the steps of section 5 of RFC 7914 end in the result |
| Scrypt.SizesExact | src/scrypt/crypto_scrypt-nosse.cpp:286-311 | the sizes computed in 32 bits are those needed if and only if 128 r p and 256 r + 64 fit in 32 bits |
| Scrypt.OverrunsIff | src/scrypt/crypto_scrypt-nosse.cpp:286-317 | some lane ends outside of B, or the scratch space outside of XY, if and only if 128 r p or 256 r + 64 does not fit in 32 bits |
| Scrypt.SizesWrap | src/scrypt/crypto_scrypt-nosse.cpp:251-311 | N = 2, r = 4096, p = 16384 passes every sanity check, yet the size of B comes out as 0 |
| Scrypt.McfSizesFit | src/scrypt/crypto-mcf.cpp:50-55 | with 8-bit r and p they always fit |
| Scrypt.Sane | src/scrypt/crypto_scrypt-nosse.cpp:244-271 | the sanity checks accept exactly the parameters stated in `Accepts`; the bit trick decides powers of two |
| Scrypt.MixAll | src/scrypt/crypto_scrypt-nosse.cpp:313-317 | with V and XY reused, every lane of the shared buffer is mixed on its own and no 32-bit offset wraps |
| Scrypt.MixedLane | src/scrypt/crypto_scrypt-nosse.cpp:313-317 | every lane of the result is the lane at the same place, mixed on its own |
| Scrypt.KeyOfOneLane | src/scrypt/crypto_scrypt-nosse.cpp:309-322 | with p = 1 the key is one derivation of 128 r octets, one scryptROMix and another derivation |
| Scrypt.Limits | src/scrypt/crypto_scrypt-nosse.cpp:247-271 | parameters on each side of every limit of the sanity checks |
| Scrypt.Derive | src/scrypt/crypto_scrypt-nosse.cpp:233-342 | returns 0 exactly for accepted parameters, with the scrypt key of section 6 of RFC 7914 unless the buffers would be overrun, which is reported; else -1 with the buffer untouched |
| Base64.DecodeEncode | src/scrypt/b64.cpp:122-308 | the reference decoder returns the encoded octets |
| Base64.EncodeDecode | src/scrypt/b64.cpp:122-308 | what the reference decoder accepts is the encoding of what it returns |
| Base64.EncodeLength | src/scrypt/b64.h:4 | an encoding has 4 ceil(n / 3) characters |
| Base64.AlphabetInOrder | src/scrypt/b64.cpp:55-57 | the digits in order |
| Base64.GroupValue | src/scrypt/b64.cpp:137-140 | the four digits of a group spell in base 64 the number that its three octets spell in base 256 |
| Base64.EncodeExamples | src/scrypt/b64.cpp:122-175 | the encodings of "f", "fo" and "foobar" given in section 10 of RFC 4648, and one with the last two digits |
| B64.B64Encode | src/scrypt/b64.cpp:122-175 | fails exactly when the target is smaller than 4 ceil(n / 3) + 1; otherwise writes the RFC 4648 encoding and a NUL |
| B64.B64Decode | src/scrypt/b64.cpp:183-308 | with a target the four-state decoder answers what the reference decoder prescribes for the string without white space, and stores those octets; without one it answers the same for the string with all digits blanked |
| B64.AcceptsCanonical | src/scrypt/b64.cpp:183-308 | a string is accepted exactly when, without white space, it is the encoding of octets that fit the target |
| B64.CountedIff | src/scrypt/b64.cpp:183-308 | a call with a target answers the count of a call without one if it fits and no spare bit is set, and fails otherwise |
| B64.SameOctetsSameDigits | src/scrypt/b64.cpp:288-296 | two accepted strings decode alike exactly when they differ in white space only |
| B64.RoundTrip | src/scrypt/b64.cpp:122-308 | encoding and then decoding into any target of at least n octets returns n and the octets |
| CStrings.StrTok | src/scrypt/crypto_scrypt-check.cpp:47-60 | one call of `strtok_r` with a dollar sign, cutting the string in place, delivers the next token |
| CStrings.HexRoundTrip | src/scrypt/crypto_scrypt-check.cpp:56 | `strtoul` in base 16 reads back what the `%06x` conversion printed |
| CStrings.StrToUl16Reads | src/scrypt/crypto_scrypt-check.cpp:56 | `strtoul` in base 16 skips white space, takes a sign and a prefix and reads the longest run of digits; a minus negates modulo 2^64 and what does not fit is 2^64 - 1 |
| CStrings.HexDigitTable | src/scrypt/crypto-mcf.cpp:68 | the sixteen digits, read in both cases and written in lower case |
| Mcf.Ilog2 | src/scrypt/crypto-mcf.cpp:16-33 | the exponent of a power of two from 2 to 2^31, and 2^32 - 1 for every other number |
| Mcf.PackRoundTrip | src/scrypt/crypto-mcf.cpp:61-62 | unpacking by shifts and masks undoes the packing exactly when the exponent is below 2^16 |
| Mcf.OwnText | src/scrypt/crypto-mcf.cpp:57-72 | with the parameters of the blog the string starts with `$s1$0e0810$`, then come the salt and the hash |
| Mcf.McfPrint | src/scrypt/crypto-mcf.cpp:41-73 | refuses r or p above 255; otherwise prints the string, or reports that it was too long |
| Mcf.FieldRejected | src/scrypt/crypto_scrypt-check.cpp:65-70 | a string with an exponent field above 30 is refused for every password, whatever salt and hash it carries |
| Mcf.MisprintAndCheck | src/scrypt/crypto-mcf.cpp:57-72 | for every N that is no power of two from 2 a string is printed and reported as good, and no password is accepted with it |
| Mcf.ThreeIsNoPower | src/scrypt/crypto-mcf.cpp:21-22 | 3 is such an N |
| Mcf.SlowEquals | src/scrypt/slowequals.cpp:5-24 | decides equality of strings, lengths included |
| Mcf.Rederive | src/scrypt/crypto_scrypt-check.cpp:65-93 | unpacks, decodes the salt, derives and encodes the key, rejecting exactly what cannot be derived |
| Mcf.Check | src/scrypt/crypto_scrypt-check.cpp:41-103 | for every stored string and password answers -1, 0 or 1 as `Verdict` prescribes |
| Mcf.TextTokens | src/scrypt/crypto-mcf.cpp:68 | the printed string is cut into exactly its four fields |
| Mcf.StoredVerifies | src/scrypt/crypto_scrypt-check.cpp:41-103 | a stored string accepts its password, another one exactly when the 64-octet keys agree, and none at exponent 31 |
| Mcf.FieldsDecide | src/scrypt/crypto_scrypt-check.cpp:41-103 | for all field values a candidate is refused exactly when exponent, r, p or the length of the salt is out of range, and else accepted exactly when the last field is the encoding of its key |
| Mcf.HashPassword | src/blog.cpp:1036-1083 | succeeds exactly for a generated salt, N a power of two from 2, r and p at least 1; then the string of the password is stored |
| Mcf.StoreAndCheck | src/blog.cpp:1036-1083 | hashing a password and checking a candidate accepts it exactly when the derived keys agree, for N up to 2^30 |
| BbcodeSpec.RunOk | src/bbcode/bbcode_parser.cpp:742-766 | in every run replaced tags belong to pairs of equal name that never cross, and what waits is unmatched closings, then pending openings, in order |
| BbcodeSpec.TokensAreInput | src/bbcode/bbcode_parser.cpp:195-197 | no text is lost or reordered: token i is what event i brought |
| BbcodeSpec.MatchPairs | src/bbcode/bbcode_parser.cpp:742-762 | a newly replaced pair crosses none of the earlier ones, and no pending opening lies inside a pair |
| BbcodeSpec.Innermost | src/bbcode/bbcode_parser.cpp:742-746 | a closing tag takes the last pending opening of its name |
| BbcodeRuns.AttributeCollected | src/bbcode/bbcode_parser.cpp:527-535 | in every run, after an opening and any text behind it the attribute named like the opening is what it was followed by all content found for it, in order; its other attributes and all other tags are unchanged |
| BbcodeRuns.OtherContent | src/bbcode/bbcode_parser.cpp:627-667 | content whose key is not the name of the last waiting tag changes no attribute |
| BbcodeRuns.OverlapShown | src/bbcode/bbcode_parser.cpp:742-762 | in every run without such an opening before it, of two pairs that overlap the one closed first is replaced and the other stays raw |
| BbcodeRuns.StrayShown | src/bbcode/bbcode_parser.cpp:742-766 | a closing without an opening stays raw, and so does every later closing of an opening before it |
| BbcodeNested.NestedShown | src/bbcode/bbcode_parser.cpp:721-767 | in whatever run a well-nested piece stands, it adds to the output its rendering along the nesting, each opening with the content collected directly inside its pair, and leaves the waiting tags as they were |
| BbcodeNested.NestedDocument | src/bbcode/bbcode_parser.cpp:721-767 | so a well-nested document of any depth is rendered along its nesting |
| BbcodeParser.SpansHold | src/bbcode/bbcode_parser.cpp:206-214 | every recorded span covers its own bracket text in the current string, and spans are disjoint and in order |
| BbcodeParser.RenderReplace | src/bbcode/bbcode_parser.cpp:750-754 | replacing one token in the rendering is one erase and one insert at the tag's recorded position |
| BbcodeParser.PairOutput | src/bbcode/bbcode_parser.cpp:747-754 | replacing the closing first leaves the opening's position right, and both edits together replace both tokens |
| BbcodeParser.FoundInnermost | src/bbcode/bbcode_parser.cpp:742-746 | the backward search finds the innermost pending opening of the name |
| BbcodeParser.RemoveMatched | src/bbcode/bbcode_parser.cpp:756-762 | erasing the discarded tags one by one leaves exactly the tags before the matched opening |
| BbcodeParser.Parser.DiscardedTagsCleanup | src/bbcode/bbcode_parser.cpp:839-850 | each discarded tag's first equal entry is erased, in order |
| BbcodeParser.Parser.FindOpening | src/bbcode/bbcode_parser.cpp:741-765 | the loop replaces the pair and lists the overlapped openings, or lists all openings passed when there is no match |
| BbcodeParser.Parser.BbcodeReplacements | src/bbcode/bbcode_parser.cpp:721-767 | a pass turns string and tags into those of the settled document; without a new tag it changes nothing |
| BbcodeParser.Parser.Feed | src/bbcode/bbcode_parser.cpp:195-214 | after every event string and tags are those of the matcher's document, whether or not a pass ran on text |
| BbcodeParser.Parse | src/bbcode/bbcode_parser.cpp:721-850 | after any run of events, with a pass wherever one is due, the string is the rendering of the matched tokens |
| TitleCodec.TitleEncode | src/blog.h:122-154 | the loop computes the id of a title |
| TitleCodec.UriDecode | src/blog.h:156-196 | the loop, with its early returns and stream conversion, computes the decoding |
| TitleCodec.DecodeEncode | src/blog.h:122-196 | decoding the id of a title gives the title without the dropped characters and with hyphens for spaces |
| TitleCodec.SameIdIffSameNormal | src/blog.h:122-154 | two titles have the same id exactly when these normal forms are equal |
| TitleCodec.NormalCut | src/blog.h:122-154 | the normal form keeps a NUL, and cutting at it before or after makes no difference |
| TitleCodec.IdIsPlain | src/blog.h:122-154 | an id holds letters, digits, hyphens and percent signs only |
| TitleCodec.PlainTitle | src/blog.h:122-154 | a title of letters, digits and hyphens is its own id |
| TitleCodec.EscapeDigits | src/blog.h:147-149 | every other byte is escaped as a percent sign and its two digits in upper case |
| TitleCodec.ReadTwo | src/blog.h:164-178 | exactly what any two characters behind a percent sign are read as, signs, white space and a lone digit included |
| BlogSafety.RunOk | src/blog.h:203-205 | in every reachable state ids are distinct and encode the titles the rows were saved under, user names are distinct, each name owns at most one session, and every cached page is the compressed rendering of the current tables |
| BlogSafety.HandleOk | src/main.cpp:182-249 | every single request, of readers and of users, keeps those invariants |
| BlogSafety.GetPostOk | src/blog.cpp:739-801 | rendering a post and filling its key keeps the cache right |
| BlogSafety.GetHomeOk | src/blog.cpp:414-480 | rendering a home page and filling its key keeps the cache right |
| BlogSafety.CreatePostOk | src/blog.cpp:874-932 | creating keeps ids distinct and forgets every page |
| BlogSafety.UpdatePostOk | src/blog.cpp:934-997 | updating keeps ids distinct and forgets every page |
| BlogSafety.DeletePostOk | src/blog.cpp:999-1034 | deleting keeps the order of the rows and forgets every page |
| BlogSafety.WithoutIsRemoval | src/blog.cpp:89-97 | with one session per name, dropping the name of a cookie's session drops that session and no other |
| BlogSafety.CreateSessionOk | src/blog.cpp:99-108 | a new session leaves its user exactly that one |
| BlogAnswers.BoundPrefix | src/sqlite_modern_cpp.h:727-736 | the database sees the longest prefix of a text without NUL |
| BlogAnswers.LoginEffect | src/blog.cpp:1166-1206 | in every sound state a login is granted if and only if the row of that name holds a hash that the password matches; then the sessions of the name give way to the new one, otherwise nothing changes |
| BlogAnswers.CheckedEffect | src/blog.cpp:67-87 | asking for the session empties the sessions after 1800 seconds, else drops the cookie if no row has its name, else changes nothing |
| BlogAnswers.Refused | src/blog.cpp:391-394 | without a session every request that would change something is answered so and leaves posts, users and cache as they are; no session is gained |
| BlogAnswers.ReloadEffect | src/main.cpp:241-249 | a reload empties the cache and does nothing else |
| BlogAnswers.ViewPostEffect | src/main.cpp:182-195 | a reader without a session gets the cached page; otherwise the page of the row with the id, cached without the controls of the logged-in user, or the not-found page, uncached |
| BlogAnswers.ViewHomeEffect | src/main.cpp:197-225 | the same for home pages, looked up under `home` and the digits asked for and stored under `home` and the canonical numeral |
| BlogCache.CachedPage | src/main.cpp:182-225 | what a sound cache holds under a view's key is the wanted page, or in case of a clash the other one |
| BlogCache.HomeKeyBound | src/blog.h:198-199 | `home` with a canonical numeral is the key of a home page exactly for numbers below 10^9, which the route can spell |
| BlogCache.TrustedIff | src/main.cpp:182-225 | every sound cache is right for a view if and only if the key is not claimed by a different page of the other kind |
| BlogCache.NoClash | src/blog.cpp:467 | without posts named like home pages only a view of such a name can clash |
| BlogCache.LoggedOutPage | src/blog.cpp:574-575 | a reader without a session gets the wanted page and nothing else |
| BlogCache.ViewAgrees | src/main.cpp:182-225 | without a clash a view answers like rendering anew, compressed or not, for readers with and without a session |
| BlogCache.Indistinguishable | src/main.cpp:182-249 | over every clash-free run all answers are those of the blog that always renders |
| BlogCache.PlainRun | src/main.cpp:182-225 | a run clashes nowhere if no post is named `home` plus digits, no saved title encodes to such a name and no view asks for a home key |
| BlogCache.PlainIndistinguishable | src/main.cpp:182-249 | so every such run is answered as by the blog that always renders, whoever asks and whenever |
| BlogCache.HomeThenPost | src/main.cpp:182-225 | looking at a home page, under any numeral, makes a view of the post with its canonical key show that page, where rendering says not found |
| BlogCache.PostThenHome | src/main.cpp:182-225 | looking at a post whose id is the key of a home view, leading zeros included, makes that view show the post, where rendering shows the home page |
| BlogCache.ClashShows | src/main.cpp:182-225 | every clash of `TrustedIff` shows after one more request from an empty cache |
| BlogAccounts.LiveIff | src/blog.cpp:67-87 | a cookie is logged in exactly when fewer than 1800 seconds have passed and some row carries the name its session holds |
| BlogAccounts.LogoutRemovesOwn | src/blog.cpp:132-143 | logging out through a cookie removes that cookie's own session and nothing else |
| BlogAccounts.LoginOwnsOne | src/blog.cpp:99-108 | after a login its name has one session, the new one, which is live for exactly 1800 seconds; older ones of the name are dead and other names keep theirs |
| BlogAccounts.LoginOwnsAccount | src/blog.cpp:89-108 | the account has just that session if and only if no session holds another name that means it, that is one differing after a NUL |
| BlogAccounts.TwoSessionsOneAccount | src/blog.cpp:89-108 | two logins under such names leave the account two live sessions |
| BlogAccounts.AccountsOwnOne | src/blog.cpp:99-108 | over every run without a NUL in a login name each account owns at most one session |
| BlogAccounts.AccountsOwnOneIff | src/blog.cpp:89-108 | in every state of a run each account owns at most one session if and only if no login is granted while its account has another session under another name |
| BlogAccounts.ChangeEffect | src/blog.cpp:1085-1163 | a change of details rewrites the asker's row alone, unless another name was asked for and some row has it |
| BlogAccounts.RenameLogsOut | src/blog.cpp:1085-1163 | right after a successful change and before expiry the session is live if and only if the name was kept |
| BlogAccounts.GainIff | src/blog.cpp:1085-1163 | one request makes a lasting session speak for a further row if and only if, by its guard, a live session of another name takes its name |
| BlogAccounts.StrayIff | src/blog.cpp:67-108 | a cookie that speaks for account i or none comes to speak for another if and only if the request is foreign to i |
| BlogAccounts.KeepsAccountIff | src/blog.cpp:67-108 | in every state of a run the cookie speaks for no account but i if and only if no request of the run is foreign to i |
| BlogAccounts.Quiet | src/blog.cpp:1085-1163 | no request is foreign in a run in which nobody asks for the session's name and no login issues the cookie |
| BlogAccounts.ChangesHands | src/blog.cpp:1119-1144 | when account i gives its name up and account j takes it, the cookie of i is live for j, and a change through it rewrites row j |
| BlogEffects.StoredTitle | src/sqlite_modern_cpp.h:727-736 | the stored title is the saved one up to its first NUL, and the id follows from it if and only if there was none |
| BlogEffects.TitlesDiffer | src/blog.cpp:886-896 | no two rows were saved under titles of the same normal form; their stored titles have one exactly when those agree up to the first NUL |
| BlogEffects.CreateEffect | src/blog.cpp:874-932 | creating succeeds exactly for filled fields and a title not taken; then one row is added under the nickname with the next number, its id names it and every page is forgotten; otherwise nothing changes |
| BlogEffects.TakenIff | src/blog.cpp:886-896 | the query finds a title taken exactly when some row was saved under a title of the same normal form |
| BlogEffects.TakenPlain | src/blog.cpp:886-896 | for rows saved without NUL that is when some stored title has the same normal form |
| BlogEffects.TwoRowsOneTitle | src/blog.cpp:874-932 | titles that differ only after a NUL can both be created and leave two rows with one title |
| BlogEffects.NulPair | src/sqlite_modern_cpp.h:727-736 | two texts that the database cannot tell apart but whose normal forms differ |
| BlogEffects.UpdateEffect | src/blog.cpp:934-997 | saving succeeds exactly for filled fields and a title no row, its own included, was saved under; then that row alone changes, keeping id and author, and every page is forgotten; a refused save changes nothing |
| BlogEffects.UpdateMissing | src/blog.cpp:952-987 | saving a row that does not exist is answered not found and changes nothing |
| BlogEffects.UpdateNeedsNewTitle | src/blog.cpp:960-969 | saving under a title of the normal form the row itself was saved under is refused without any change |
| BlogEffects.DeleteEffect | src/blog.cpp:999-1034 | the deleted id is not found any more, all others are found as before |
| Blog.BlogSystem.Loggout | src/blog.cpp:89-97 | erasing the first entry of a name, in whatever order the map is walked, removes all its sessions |
| Blog.BlogSystem.IsLoggedIn | src/blog.cpp:67-87 | expiry clears all sessions; a session of a missing user is dropped; the answer is whether the cookie has a session |
| Blog.BlogSystem.CreateSession | src/blog.cpp:99-108 | the older session goes and the new one is recorded |
| Blog.BlogSystem.GetPosts | src/blog.cpp:414-480 | the fields and the answer are those of the state machine |
| Blog.BlogSystem.GetThisPost | src/blog.cpp:739-801 | the fields and the answer are those of the state machine |
| Blog.BlogSystem.ViewPage | src/main.cpp:182-225 | the cache is asked before the session; fields and answer are those of the state machine |
| Blog.BlogSystem.CreatePost | src/blog.cpp:874-932 | one row per matching user, as the state machine inserts them |
| Blog.BlogSystem.UpdatePost | src/blog.cpp:934-997 | exactly which answer is given; on success the row of that id keeps its place, id and author, all other rows stay and the cache is empty; otherwise nothing changes |
| Blog.BlogSystem.DeletePost | src/blog.cpp:999-1034 | not found exactly when no row has the id; otherwise that row is cut out, the others keep their order and the cache is empty |
| Blog.BlogSystem.ChangeUserDetails | src/blog.cpp:1085-1163 | taken exactly when another name was asked for and a row has it; on success only the row of the session's account changes, in place |
| Blog.BlogSystem.LogoutGet | src/blog.cpp:132-143 | sessions and answer are those of the state machine |
| Blog.BlogSystem.LoginPost | src/blog.cpp:300-319 | a session is created exactly when one user has the name and the password matches |
| Blog.BlogSystem.ReloadGet | src/main.cpp:241-249 | a logged-in user empties the cache, anyone else does not |
| Blog.BlogSystem.Serve | src/main.cpp:182-249 | any request is one step of the state machine and keeps its invariants |

## Left out

The scrypt stack:

- Scrypt.Derive: where the source would leave its buffers, which the language does not define, the model stops and reports it; `Scrypt.OverrunsIff` says exactly when.
- Smix.SmixInPlace: requires what the source's own comment demands, a power of two N, given with its exponent, and buffers of the stated sizes.
- CStrings.StrTok: the Windows branch with `strtok`, which keeps its state in a static variable, is not modelled.
- CStrings.HexRoundTrip: assumes a 64-bit `unsigned long`.
- Mcf.HashPassword: the salt is an input of 16 characters or none; how it is generated is not modelled.
- Mcf.Check: requires the three characters that the first comparison reads; a null pointer is not modelled.
- Mcf.McfPrint: requires the 128 characters that the header promises; null pointers are not modelled.
- B64.B64Encode: the result is a mathematical number, so lengths of 2^31 or more are not truncated to `int`.
- B64.B64Decode: the result is a mathematical number, so strings that decode to 2^31 octets or more are not truncated.
- Pbkdf2.Derive: with c = 2^64 - 1 the source's loop on a 64-bit counter would not end; the model's loop does.
- Sha256Transform.Transform: the 64 written-out RNDr lines are one loop over the same constants.
- BlockMix.BlockMixInto: the three pointers of `blockmix_salsa8` are offsets into one buffer, as in all its calls; `blkcpy` and `blkxor` work on 32-bit words instead of `size_t`.
- Input buffers of SHA-256, HMAC and PBKDF2 are sequences, so a caller that passes the context's own memory as input is not modelled.
- Allocation, `mmap`, alignment, error-path frees and the clearing of local variables.
- The test helper that prints hexadecimal, and the 64-bit variants of the byte-order functions, which nothing calls.

The BBCode engine:

- The 119-state automaton and the lexer are replaced by the events they produce: text, text that also extends the attribute of the last tag, and a recognised tag with its type and attributes. That C77 pushes `[url]` a second time with a cleared position on a following space, and that a slash in the content of `[url]` or `[img]` marks the next tag as closing, is automaton behaviour; the second only chooses the type of an event. So is the missing `break` at src/bbcode/bbcode_parser.cpp:668, by which the content of `[email]` also enters the attributes of the next tag, which an event carries with it.
- The tag schema is an arbitrary function of name, type and attributes; macro substitution and the protocol guard are inside it.
- BbcodeParser.Parse: starts from a new parser, as every use in the program does. A second `parse` on the same object would keep the tags of the first.

The blog:

- Blog.BlogSystem.Serve: requests are handled one after the other; the detached threads of the source race on the maps without locks. The clock is read once per request.
- Blog.BlogSystem.GetPosts: rendering a home page is an arbitrary function of the rows and the page number, so the LIMIT and OFFSET of the query, their overflow for large page numbers and the links are inside it.
- Blog.BlogSystem.GetThisPost: rendering one post, including BBCode, and gzip are arbitrary functions.
- Blog.BlogSystem.LoginPost: the check of a stored hash is an arbitrary function here; `Mcf.Check` says what it is. New session names and the hash of a new password are inputs.
- Blog.BlogSystem.UpdatePost: row ids are numbers and primary keys, so "exactly one row" is "some row".
- SQL errors and the answers they cause, HTTP parsing, cookies' syntax, URL dispatch, static files, searching posts, date formatting and HTML text.
- BlogAccounts.LoginOwnsOne: speaks of the sessions of one name; with a NUL in a name an account can have more, as `BlogAccounts.LoginOwnsAccount` states exactly.
- BlogEffects.CreateEffect: a post's date comes from the clock and is stored as given; a `char` is one octet and the database's text encoding is not modelled.
- TitleCodec.TitleEncode: a `char` is one octet, and `isalnum` is that of the C locale.
- TitleCodec.UriDecode: conversion of two characters follows the standard stream rules for hexadecimal input; a lone `0x` is taken as no number.
