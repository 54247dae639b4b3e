# DES with CBC ciphertext stealing, and the image drivers around it

This project models the cipher core of the image encryptor: class `DES` in
`src/des.cpp` and the parts of the two command-line drivers, `src/enc_img.cpp`
and `src/dec_img.cpp`, that touch the cipher.

**Class DES**
- Its private helpers are `text_to_bitset`, `bitset_to_text`, `p_box`,
  `block_split`, `round_key_gen_split`, `left_shift`, `merge_halves`,
  `round_key_store` and `s_box`.
- They build a 16-round Feistel block cipher.
  - `encrypt` schedules the round keys forwards.
  - `decrypt` schedules them reversed.
  - Both store the keys in the member `keys`.
- `CBC_CTS_encrypt` and `CBC_CTS_decrypt` run the cipher in CBC mode.
  - The IV is fixed to the characters `12345678`.
  - A partial last block is handled by ciphertext stealing, in the CBC-CS1
    layout of the addendum to NIST SP 800-38A.
  - A plaintext shorter than one block is zero-padded to a single block.

**The drivers**
- Both pad the typed key with `'0'` to eight characters, or cut it to eight.
- The encryption driver copies the ciphertext into the buffer it writes as
  a PNG.
- The decryption driver fits the plaintext into a buffer of the image's
  byte size.

## How the model is built

- `bytes.dfy` (module `Bytes`):
  - bytes as `bv8`;
  - the bit order `text_to_bitset` and `bitset_to_text` use;
  - bytewise xor;
  - zero padding.
- `tables.dfy` (module `DesTables`):
  - the permutation tables, S-boxes and shift schedule, as one value;
  - the well-formedness the code relies on: every `p_box` entry is in
    range, IP and FP are mutually inverse, and the S-boxes are 8×4×16.
- `des_spec.dfy` (module `DesSpec`):
  - what each helper computes, as a pure function on bit sequences, where
    element k is bit k of the `bitset`;
  - the key schedule, the rounds and the block cipher;
  - the proof that `decrypt` undoes `encrypt` for every key and every set
    of well-formed tables.
- `cbc_cts.dfy` (module `CbcCts`):
  - CBC and ciphertext stealing as pure functions over any pair of block
    functions `enc`/`dec`;
  - the round-trip theorems, which hold whenever `dec` undoes `enc` on
    8-byte blocks;
  - the instantiation with the cipher of class DES (`DesEnc`, `DesDec`).
- `des.dfy` (module `Des`):
  - class `DES`, with `const tables` and the mutable field `keys`;
  - every member function of `src/des.cpp` as a method with the source's
    loops, proved to compute the specifying function.
  - The CBC methods take a ghost block function that stands for
    `encrypt(_, key)` or `decrypt(_, key)`. Their preconditions require
    that this function agree with the cipher on every block.
  - A few branches and loops of the longer C++ functions are separate
    methods, so that each proof stays small.
- `drivers.dfy` (module `ImageDrivers`):
  - key normalisation;
  - the two driver bodies after the image is loaded;
  - the output-buffer fitting of the decryption driver.

## Model

| member | source | states |
|---|---|---|
| Bytes.ShiftReadsBit | src/des.cpp:20 | `(c >> (7 - j)) & 1` is bit j of the byte, counting from the most significant bit |
| Bytes.ShiftWritesBit | src/des.cpp:32 | `bit << (7 - j)` is the byte with bit j set exactly when `bit` is 1 |
| Bytes.PackStep | src/des.cpp:30-34 | one iteration of `c \|= bit << (7 - j)` extends the packed prefix by that bit |
| Bytes.PackBit | src/des.cpp:30-34 | bit j of a packed byte is the j-th packed bit, and 0 past the packed ones |
| Bytes.PackUnpack | src/des.cpp:15-37 | packing the eight bits of a byte gives the byte back |
| Bytes.UnpackPack | src/des.cpp:15-37 | unpacking a packed byte gives its eight bits back |
| Bytes.XorBytesTwice | src/des.cpp:252 | xoring twice with the same bytes restores the original, which is why CBC decryption inverts CBC encryption |
| DesSpec.TextToBlock | src/des.cpp:15-24 | `text_to_bitset` reads eight bytes and yields a 64-bit block; where each bit lands is `TextToBlockBit` |
| DesSpec.BlockToText | src/des.cpp:26-37 | `bitset_to_text` yields eight bytes; which bits each gathers is `ByteBitsOfText` |
| DesSpec.PBox | src/des.cpp:39-46 | a `p_box` output has one bit per table entry, output bit N-1-i being input bit M - table[i] |
| DesSpec.TextToBlockBit | src/des.cpp:15-24 | bit j of byte i lands at block position 63 - (8i + j) |
| DesSpec.ByteBitsOfText | src/des.cpp:15-37 | the block bits that `bitset_to_text` gathers for byte i are the bits `text_to_bitset` took from byte i |
| DesSpec.TextRoundTrip | src/des.cpp:15-37 | `bitset_to_text(text_to_bitset(t))` is the first eight bytes of t |
| DesSpec.BlockRoundTrip | src/des.cpp:15-37 | `text_to_bitset(bitset_to_text(b))` is b |
| DesSpec.PBoxUndo | src/des.cpp:39-46 | a `p_box` by table b followed by a table that undoes b is the identity (IP and FP) |
| DesSpec.LeftShift | src/des.cpp:69-76 | the rotated half keeps 28 bits, bit i being bit (i + s) mod 28 of the input |
| DesSpec.KeyHalves0 | src/des.cpp:58-67 | PC-1 of the key split into two 28-bit halves: C is bits 0..27 and D bits 28..55 |
| DesSpec.KeyHalves | src/des.cpp:93-96 | the halves after i rounds of rotation stay 28 bits each; their content is `KeyHalvesRotated` |
| DesSpec.RoundKeys | src/des.cpp:87-98 | the schedule has sixteen 48-bit round keys; round key i is `RoundKeyShape` |
| DesSpec.Reverse | src/des.cpp:99-101 | reversing the key list keeps its length, and reversing twice restores it (`ReverseReverse`) |
| DesSpec.LeftShiftIdentity | src/des.cpp:69-76 | rotating by 0 or by 28 changes nothing |
| DesSpec.LeftShiftCompose | src/des.cpp:69-76 | two rotations compose into one rotation by the sum of the amounts |
| DesSpec.KeyHalvesRotated | src/des.cpp:93-96 | after i rounds, C and D are the PC-1 halves rotated by the sum of the first i shift amounts |
| DesSpec.RoundKeyShape | src/des.cpp:87-98 | round key i is PC-2 of the rotated C and D, merged with C in the low 28 bits |
| DesSpec.ReverseReverse | src/des.cpp:99-101 | reversing the key list twice restores it |
| DesSpec.SBox | src/des.cpp:104-121 | the S-box stage turns 48 bits into 32, group by group as `SBoxGroup` states |
| DesSpec.SRow | src/des.cpp:112 | the row built from the two outer bits is in 0..3 |
| DesSpec.SCol | src/des.cpp:113 | the column built from the four inner bits is in 0..15 |
| DesSpec.SBoxGroup | src/des.cpp:104-121 | output bits 4g..4g+3, most significant first, spell S[g][row][col] mod 16 |
| DesSpec.NibbleSum | src/des.cpp:115-118 | the four bits of `bitset<4>(value)`, read from bit 3 down to bit 0, spell value mod 16 |
| DesSpec.XorBitsTwice | src/des.cpp:137 | `L0 ^ p_result` xored again with `p_result` gives L0 back |
| DesSpec.RoundFunction | src/des.cpp:134-137 | E, xor with the round key, the S-boxes and P yield 32 bits |
| DesSpec.Rounds | src/des.cpp:132-140 | the Feistel rounds keep both halves at 32 bits; one round is `RoundsFront`, their inverse `RoundsUndo` |
| DesSpec.Cipher | src/des.cpp:127-148 | IP, the rounds, the swap and FP yield eight bytes; run with the reversed keys it undoes itself (`CipherUndo`) |
| DesSpec.EncryptBlock | src/des.cpp:126-149 | `encrypt` yields eight bytes, the network run with the forward schedule |
| DesSpec.DecryptBlock | src/des.cpp:151-174 | `decrypt` yields eight bytes, the network run with the reversed schedule; it undoes `EncryptBlock` (`DecryptEncrypt`) |
| DesSpec.RoundsFront | src/des.cpp:132-140 | the first of a run of rounds can be split off the front |
| DesSpec.RoundsUndo | src/des.cpp:132-140 | the rounds run on the swapped output with the keys reversed give back the swapped input |
| DesSpec.CipherUndo | src/des.cpp:126-174 | the network run with the reversed key list undoes the network |
| DesSpec.DecryptEncrypt | src/des.cpp:126-174 | `decrypt(encrypt(b, k), k)` is the first eight bytes of b, for every key and every well-formed set of tables |
| DesSpec.EncryptDecrypt | src/des.cpp:126-174 | `encrypt(decrypt(c, k), k)` is the first eight bytes of c |
| Des.DES.constructor | src/des.cpp:124 | a new object has the given tables and no round keys |
| Des.DES.TextToBitset | src/des.cpp:15-24 | the loop computes the block `DesSpec.TextToBlock` of the first eight bytes |
| Des.DES.BitsetToText | src/des.cpp:26-37 | the loop computes the eight bytes `DesSpec.BlockToText`, so it inverts `TextToBitset` by `TextRoundTrip` |
| Des.DES.PBox | src/des.cpp:39-46 | the loop computes `DesSpec.PBox`: output bit N-1-i is input bit M - table[i] |
| Des.DES.BlockSplit | src/des.cpp:48-56 | L is bits 0..31 and R is bits 32..63, and L + R is the block |
| Des.DES.RoundKeyGenSplit | src/des.cpp:58-67 | C and D are the low and high 28 bits of PC-1 of the key block |
| Des.DES.LeftShift | src/des.cpp:69-76 | the loop computes the rotation by `shift` mod 28 |
| Des.DES.MergeHalves | src/des.cpp:78-85 | the result is C followed by D |
| Des.DES.RoundKeyStore | src/des.cpp:87-102 | `keys` becomes the sixteen round keys, reversed exactly when `rev` is set |
| Des.DES.ReverseKeys | src/des.cpp:99-101 | `keys` becomes its own reverse |
| Des.DES.SBox | src/des.cpp:104-121 | the loops compute `DesSpec.SBox`, whose groups `SBoxGroup` describes |
| Des.DES.SixBits | src/des.cpp:108-110 | `six_bits[q]` is input bit 6i + 5 - q |
| Des.DES.Network | src/des.cpp:128-148 | IP, the rounds, the swap and FP compute `DesSpec.Cipher` with the current keys |
| Des.DES.FeistelRounds | src/des.cpp:132-140 | the round loop computes `DesSpec.Rounds` over the sixteen keys in order |
| Des.DES.SwapHalves | src/des.cpp:141-144 | the block is R0 in bits 0..31 followed by L0 |
| Des.DES.Encrypt | src/des.cpp:126-149 | `keys` holds the forward schedule and the result is `DesSpec.EncryptBlock` |
| Des.DES.Decrypt | src/des.cpp:151-174 | `keys` holds the reversed schedule and the result is `DesSpec.DecryptBlock`, which undoes `EncryptBlock` |
| Des.DES.XorBlock | src/des.cpp:190 | the byte loop computes the bytewise xor of two blocks |
| Des.DES.EncryptAs | src/des.cpp:191 | `encrypt(x, key)` on a block is the block function that stands for it |
| Des.DES.DecryptAs | src/des.cpp:249 | `decrypt(x, key)` on a block is the block function that stands for it |
| Des.DES.EncryptBlocks | src/des.cpp:206-214 | the whole-block loop yields the CBC encryption of the first `upto` bytes and leaves `prev` at its last block, or at the IV |
| Des.DES.CbcCtsEncrypt | src/des.cpp:176-229 | the result is `CbcCts.CtsEncrypt` of the plaintext, and `keys` is the forward schedule unless the plaintext is empty |
| Des.DES.EncryptShort | src/des.cpp:197-205 | for 1..7 bytes, the zero-padded block xored with the IV and encrypted is `CtsEncrypt` |
| Des.DES.EncryptStealing | src/des.cpp:206-228 | the CBC head, C_{n-1} cut to d bytes, and C_n together are `CtsEncrypt` |
| Des.DES.EncryptTail | src/des.cpp:215-227 | C_{n-1} cut to d bytes followed by C_n is the stolen tail `CbcCts.StealTail` |
| Des.DES.DecryptBlocks | src/des.cpp:270-280 | the whole-block loop yields the CBC decryption of the first `upto` bytes and leaves `prev` at the last cipher block, or at the IV |
| Des.DES.CbcCtsDecrypt | src/des.cpp:232-306 | the result is `CbcCts.CtsDecrypt` of the ciphertext, and `keys` is the reversed schedule unless the ciphertext is empty |
| Des.DES.DecryptShort | src/des.cpp:260-268 | for 1..7 bytes, decrypting the zero-padded block, xoring with the IV and cutting to length is `CtsDecrypt` (the corrected branch) |
| Des.DES.DecryptStealing | src/des.cpp:270-305 | the CBC head, P_{n-1} and P_n*, trimmed to the ciphertext's length, are `CtsDecrypt` |
| Des.DES.DecryptTail | src/des.cpp:283-299 | Z = D(C_n), the rebuilt C_{n-1}, P_{n-1} and P_n* are `CbcCts.UnstealTail` |
| CbcCts.IVDigits | src/des.cpp:179 | the IV is the eight characters "12345678", the same on the decryption side (line 242) |
| CbcCts.Chain | src/des.cpp:242-279 | `prev` is always one 8-byte block: the IV before any block, then the last cipher block (lines 193, 213, 254, 279) |
| CbcCts.CbcEncrypt | src/des.cpp:186-195 | CBC encryption of whole blocks keeps the length |
| CbcCts.CbcDecrypt | src/des.cpp:247-256 | CBC decryption of whole blocks keeps the length |
| CbcCts.CbcBlock | src/des.cpp:186-195 | cipher block b is the encryption of plaintext block b xored with cipher block b-1, or with the IV for b = 0 |
| CbcCts.CbcEncryptExtend | src/des.cpp:207-213 | one iteration of the encryption loop appends the next CBC block |
| CbcCts.CbcDecryptExtend | src/des.cpp:272-279 | one iteration of the decryption loop appends the next CBC plaintext block |
| CbcCts.CbcRoundTrip | src/des.cpp:245-257 | CBC decryption undoes CBC encryption whenever `dec` undoes `enc` on blocks |
| CbcCts.CtsEncrypt | src/des.cpp:176-229 | empty gives empty; 8 bytes or more keep their length; 1..7 bytes give one 8-byte block |
| CbcCts.ShortEncrypt | src/des.cpp:197-204 | a short plaintext encrypts to exactly one block |
| CbcCts.StealEncrypt | src/des.cpp:206-228 | ciphertext stealing keeps the plaintext's length |
| CbcCts.StealTail | src/des.cpp:215-227 | the stolen tail is d bytes of C_{n-1} plus the 8 bytes of C_n |
| CbcCts.CtsWholeBlocks | src/des.cpp:185-196 | on whole blocks, CBC_CTS_encrypt is plain CBC with the IV: block b is the encryption of plaintext block b xored with the previous cipher block |
| CbcCts.CtsDecrypt | src/des.cpp:232-306 | the plaintext always has the ciphertext's length |
| CbcCts.ShortDecrypt | src/des.cpp:260-268 | the corrected short branch returns as many bytes as it was given |
| CbcCts.StealDecrypt | src/des.cpp:270-305 | undoing the stealing keeps the length |
| CbcCts.UnstealTail | src/des.cpp:283-299 | the last 8 + d bytes give 8 + d plaintext bytes |
| CbcCts.StealSplit | src/des.cpp:206-228 | a stolen ciphertext is the CBC head followed by the stolen tail, and keeps the plaintext's length mod 8 |
| CbcCts.StealTailRoundTrip | src/des.cpp:283-302 | un-stealing the stolen tail gives back P_{n-1} followed by P_n* |
| CbcCts.PaddingKeepsTail | src/des.cpp:217-224 | xoring the zero-padded P_n* into C_{n-1} leaves the stolen bytes of C_{n-1} past d unchanged, which is how decryption rebuilds C_{n-1} |
| CbcCts.StealingRoundTrip | src/des.cpp:206-305 | decrypting a stolen ciphertext gives back the plaintext |
| CbcCts.CtsRoundTrip | src/des.cpp:176-306 | CBC_CTS_decrypt undoes CBC_CTS_encrypt for every plaintext of at least eight bytes |
| CbcCts.CtsShortRoundTrip | src/des.cpp:197-204 | a plaintext of 1..7 bytes comes back zero-padded to eight bytes |
| CbcCts.ShortBlockAsWritten | src/des.cpp:262 | `ciphertext.substr(0, 8)` of a 1..7-byte ciphertext has fewer than the eight bytes `text_to_bitset` reads |
| CbcCts.ShortCiphertextOverread | src/des.cpp:260-263 | every 1..7-byte ciphertext, such as "ABC", reaches `decrypt` as a block too short for `text_to_bitset`, while its zero-padded block has the eight bytes it reads |
| CbcCts.ShortBlockPadded | src/des.cpp:262 | for a 7-byte ciphertext the zero-padded block equals what the code reads, the string plus its terminating '\0' |
| CbcCts.ShortDecryptPadded | src/des.cpp:260-268 | with the correction, a short ciphertext decrypts as its zero-padded block would, cut to its length |
| CbcCts.DesEnc | src/des.cpp:191 | `encrypt(_, key)` is a block function that agrees with `EncryptBlock` on every block |
| CbcCts.DesDec | src/des.cpp:249 | `decrypt(_, key)` is a block function that agrees with `DecryptBlock` on every block |
| CbcCts.DesInverts | src/des.cpp:126-174 | for every key, `decrypt` undoes `encrypt` on blocks and the other way round |
| CbcCts.DesCtsRoundTrip | src/des.cpp:176-306 | with DES under one key, CBC_CTS_decrypt undoes CBC_CTS_encrypt for every plaintext of at least eight bytes |
| CbcCts.DesCtsShortRoundTrip | src/des.cpp:197-204 | with DES, a 1..7-byte plaintext comes back zero-padded to eight bytes |
| ImageDrivers.NormalisedKey | src/enc_img.cpp:67-71 | the key has exactly eight bytes: the given ones first, then '0' up to eight |
| ImageDrivers.NormalisedKeyExact | src/enc_img.cpp:67-71 | an eight-byte key is used unchanged |
| ImageDrivers.NormalisedKeyIdempotent | src/dec_img.cpp:65-66 | normalising a normalised key changes nothing |
| ImageDrivers.EncNormaliseKey | src/enc_img.cpp:67-71 | the if/else-if pad-or-cut computes `NormalisedKey` |
| ImageDrivers.DecNormaliseKey | src/dec_img.cpp:65-66 | the two independent ifs compute the same `NormalisedKey` |
| ImageDrivers.EncryptImage | src/enc_img.cpp:77-89 | the buffer holds exactly the CTS ciphertext of the pixels; the size warning fires exactly when the image has 1..7 bytes |
| ImageDrivers.Fit | src/dec_img.cpp:90-96 | the output buffer has exactly the image's size |
| ImageDrivers.FitPads | src/dec_img.cpp:93-96 | a shorter plaintext is followed by zeros up to the buffer's size |
| ImageDrivers.FitExact | src/dec_img.cpp:90-96 | a plaintext of the buffer's size fills it unchanged |
| ImageDrivers.FitTruncates | src/dec_img.cpp:90-96 | a longer plaintext is cut to the buffer's size |
| ImageDrivers.FitOutput | src/dec_img.cpp:90-96 | `resize`, `copy` and `fill` leave the copied plaintext prefix followed by zeros, which is `Fit` |
| ImageDrivers.DecryptImage | src/dec_img.cpp:68-96 | the size warning never fires and the buffer holds the CTS plaintext of the pixels |
| ImageDrivers.ImageRoundTrip | src/dec_img.cpp:76-96 | an image of at least eight bytes, encrypted and decrypted with the same typed key, comes back unchanged |

## Left out

- The values in `tables.cpp` are not part of this model. The tables are a
  parameter satisfying `DesTables.WellFormed`, and every property holds
  for any such tables.
  - As a result, no claim is made about the standard DES test vectors.
  - The code's `block_split` puts the low-order bits into L. That is the
    opposite of FIPS PUB 46-3, so the cipher is DES-shaped but not
    standard DES.
- Image I/O is not modelled: the file picker, `stbi_load`,
  `stbi_write_png`, the console prompts and messages, and `std::cin`.
  - The pixel bytes and the typed key are parameters.
  - The size warnings are a returned `warned` flag.
  - The `try`/`catch` around decryption is omitted, because nothing in the
    modelled code throws.
- The web server and webhook code is not part of this model.
- `ImageDrivers.EncryptImage`: for a 1..7-byte image (one or two pixels),
  the PNG writer keeps only the first `size` bytes of the 8-byte
  ciphertext. Decrypting such a file cannot recover the image. The model
  stops at the buffer and does not describe the truncated file.
- `ImageDrivers.ImageRoundTrip` is stated for images of at least eight
  bytes, for the reason just given.
- `ImageDrivers.DecryptImage`: `int size = width * height * 3` can
  overflow for huge images. The model takes the size as the pixel count
  without a 32-bit bound.
- Lengths are unbounded integers. `unsigned long long` wrap-around cannot
  occur for strings that fit in memory.
- `Des.DES.LeftShift` requires a non-negative shift. C++ `%` of a negative
  amount would index the bitset out of range, and the shift schedule
  never holds one.
- `CbcCts.DesEnc` and `CbcCts.DesDec` are specified only on 8-byte blocks,
  because the modelled CBC methods, whose short branch is the corrected
  one, hand `encrypt` and `decrypt` nothing else.
  Inputs longer than 8 bytes read only their first eight, as `DesSpec`
  states.
- Security properties, such as key strength or the effect of a fixed IV,
  are not stated.

## Findings

| source | as written | input that shows it | evidently intended | confidence | as-written member | corrected member |
|---|---|---|---|---|---|---|
| src/des.cpp:260-268 | For a 1..7-byte ciphertext, `ciphertext.substr(0, bsz)` is the whole shorter string. `decrypt` then reads eight bytes of it in `text_to_bitset`, past its end. | the 3-byte ciphertext "ABC", which the decryption driver passes on for a one-pixel image | decrypt the block zero-padded to eight bytes, as the encryption side pads a short plaintext | not executed | CbcCts.ShortCiphertextOverread | CbcCts.ShortDecryptPadded |
