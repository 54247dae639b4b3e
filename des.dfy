/** class DES of src/des.cpp: the helpers build their results bit by bit in
    loops, `round_key_store` refills the `keys` member, and the CBC modes
    loop over blocks. Every method is proved to compute the function of
    DesSpec or CbcCts that specifies it. */
module Des {
  import opened Bytes
  import opened DesTables
  import Spec = DesSpec
  import Mode = CbcCts

  type Bits = Spec.Bits

  class DES {
    /** The tables of tables.cpp. */
    const tables: WfTables
    /** `vector<bitset<48>> keys`: the round keys of the last schedule. */
    var keys: seq<Bits>

    constructor (t: WfTables)
      ensures tables == t && keys == []
    {
      tables := t;
      keys := [];
    }

    /** text_to_bitset: bit j of byte i goes to block bit 63 - (8i + j). */
    method TextToBitset(text: seq<byte>) returns (block: Bits)
      requires |text| >= 8
      ensures block == Spec.TextToBlock(text)
    {
      block := seq(64, _ => false);
      for i := 0 to 8
        invariant |block| == 64
        invariant forall k :: 0 <= k < 64 ==> block[k] == (63 - k < 8 * i && Spec.BlockBit(text, k))
      {
        var c := text[i];
        for j := 0 to 8
          invariant |block| == 64
          invariant forall k :: 0 <= k < 64 ==> block[k] == (63 - k < 8 * i + j && Spec.BlockBit(text, k))
        {
          ShiftReadsBit(c, j);
          Spec.DivMod8(i, j);
          block := block[63 - (i * 8 + j) := (c >> (7 - j)) & 1 == 1];
        }
      }
    }

    /** bitset_to_text: byte i collects block bits 63 - 8i down to 56 - 8i. */
    method BitsetToText(block: Bits) returns (text: seq<byte>)
      requires |block| == 64
      ensures text == Spec.BlockToText(block)
    {
      text := [];
      for i := 0 to 8
        invariant |text| == i
        invariant forall ii :: 0 <= ii < i ==> text[ii] == Pack(Spec.ByteBits(block, ii))
      {
        var c: byte := 0;
        ghost var bs := Spec.ByteBits(block, i);
        for j := 0 to 8
          invariant c == Pack(bs[..j])
        {
          var bit: byte := if block[63 - (i * 8 + j)] then 1 else 0;
          PackStep(bs, j, c, bit);
          c := c | (bit << (7 - j));
        }
        assert bs[..8] == bs;
        text := text + [c];
      }
    }

    /** p_box: output bit N-1-i takes input bit M - table[i]. */
    method PBox(input: Bits, table: seq<int>) returns (output: Bits)
      requires Selects(table, |table|, |input|)
      ensures output == Spec.PBox(input, table)
    {
      var n, m := |table|, |input|;
      output := seq(n, _ => false);
      for i := 0 to n
        invariant |output| == n
        invariant forall k :: 0 <= k < n ==> output[k] == (n - 1 - k < i && Spec.PBoxBit(input, table, k))
      {
        output := output[n - 1 - i := input[m - table[i]]];
      }
    }

    /** block_split: bits 0..31 go to L, bits 32..63 to R. */
    method BlockSplit(x64: Bits) returns (L: Bits, R: Bits)
      requires |x64| == 64
      ensures L == x64[..32] && R == x64[32..]
      ensures L + R == x64
    {
      L, R := seq(32, _ => false), seq(32, _ => false);
      for i := 0 to 32
        invariant |L| == 32 && |R| == 32
        invariant forall k :: 0 <= k < 32 ==> L[k] == (k < i && x64[k])
        invariant forall k :: 0 <= k < 32 ==> R[k] == (k < i && x64[k + 32])
      {
        L := L[i := x64[i]];
        R := R[i := x64[i + 32]];
      }
    }

    /** round_key_gen_split: PC-1 of the key block, split into C (bits
        0..27) and D (bits 28..55). */
    method RoundKeyGenSplit(key: Bits) returns (C: Bits, D: Bits)
      requires |key| == 64
      ensures var k56 := Spec.PBox(key, tables.PC1); C == k56[..28] && D == k56[28..]
    {
      var rKey := PBox(key, tables.PC1);
      C, D := seq(28, _ => false), seq(28, _ => false);
      for i := 0 to 28
        invariant |C| == 28 && |D| == 28
        invariant forall k :: 0 <= k < 28 ==> C[k] == (k < i && rKey[k])
        invariant forall k :: 0 <= k < 28 ==> D[k] == (k < i && rKey[k + 28])
      {
        C := C[i := rKey[i]];
        D := D[i := rKey[i + 28]];
      }
    }

    /** left_shift: reduce the amount mod 28, then rotate. */
    method LeftShift(half: Bits, shift: int) returns (res: Bits)
      requires |half| == 28 && shift >= 0
      ensures res == Spec.LeftShift(half, shift)
    {
      var s := shift % 28;
      res := seq(28, _ => false);
      for i := 0 to 28
        invariant |res| == 28
        invariant forall k :: 0 <= k < 28 ==> res[k] == (k < i && Spec.RotatedBit(half, shift, k))
      {
        Spec.ModAdd28(shift, i);
        res := res[i := half[(i + s) % 28]];
      }
    }

    /** merge_halves: C in bits 0..27, D in bits 28..55. */
    method MergeHalves(C: Bits, D: Bits) returns (output: Bits)
      requires |C| == 28 && |D| == 28
      ensures |output| == 56 && output[..28] == C && output[28..] == D
      ensures output == C + D
    {
      output := seq(56, _ => false);
      for i := 0 to 28
        invariant |output| == 56
        invariant forall k :: 0 <= k < 28 ==> output[k] == (k < i && C[k])
        invariant forall k :: 28 <= k < 56 ==> output[k] == (k < 28 + i && D[k - 28])
      {
        output := output[i := C[i]];
        output := output[28 + i := D[i]];
      }
    }

    /** round_key_store: clear `keys`, push the sixteen round keys, and
        reverse them in place when `rev` is set. */
    method RoundKeyStore(key: seq<byte>, rev: bool)
      requires |key| >= 8
      modifies this
      ensures rev ==> keys == Spec.Reverse(Spec.RoundKeys(key, tables))
      ensures !rev ==> keys == Spec.RoundKeys(key, tables)
    {
      keys := [];
      var x64Key := TextToBitset(key);
      var C, D := RoundKeyGenSplit(x64Key);
      ghost var all := Spec.RoundKeys(key, tables);
      for i := 0 to 16
        invariant |keys| == i
        invariant (C, D) == Spec.KeyHalves(key, tables, i)
        invariant forall k :: 0 <= k < i ==> keys[k] == all[k]
      {
        C := LeftShift(C, tables.Shift[i]);
        D := LeftShift(D, tables.Shift[i]);
        var merged := MergeHalves(C, D);
        var k := PBox(merged, tables.PC2);
        keys := keys + [k];
      }
      assert keys == all;
      if rev {
        ReverseKeys();
      }
    }

    /** `reverse(keys.begin(), keys.end())`: swap the ends inwards. */
    method ReverseKeys()
      modifies this
      ensures keys == Spec.Reverse(old(keys))
    {
      ghost var all := keys;
      var n := |keys|;
      for i := 0 to n / 2
        invariant |keys| == n
        invariant forall k :: 0 <= k < i ==> keys[k] == all[n - 1 - k] && keys[n - 1 - k] == all[k]
        invariant forall k :: i <= k < n - i ==> keys[k] == all[k]
      {
        keys := keys[i := keys[n - 1 - i]][n - 1 - i := keys[i]];
      }
    }

    /** s_box: eight 6-bit groups, each looked up at the row of its outer
        bits and the column of its inner bits, giving 4 output bits each. */
    method SBox(input: Bits) returns (output: Bits)
      requires |input| == 48
      ensures output == Spec.SBox(input, tables.S)
    {
      output := seq(32, _ => false);
      var x := 0;
      for i := 0 to 8
        invariant x == 4 * i && |output| == 32
        invariant forall o :: 0 <= o < 32 ==> output[o] == (o < x && Spec.SBoxBit(input, tables.S, o))
      {
        var sixBits := SixBits(input, i);
        var row := 2 * Spec.BitValue(sixBits[5]) + Spec.BitValue(sixBits[0]);
        var col := 8 * Spec.BitValue(sixBits[4]) + 4 * Spec.BitValue(sixBits[3]) +
                   2 * Spec.BitValue(sixBits[2]) + Spec.BitValue(sixBits[1]);
        assert row == Spec.SRow(input, i) && col == Spec.SCol(input, i);
        var value := tables.S[i][row][col];
        var k := 3;
        while k >= 0
          invariant -1 <= k <= 3 && x == 4 * i + (3 - k) && |output| == 32
          invariant forall o :: 0 <= o < 32 ==> output[o] == (o < x && Spec.SBoxBit(input, tables.S, o))
        {
          Spec.DivMod4(i, 3 - k);
          output := output[x := Spec.NibbleBit(value, k)];
          k, x := k - 1, x + 1;
        }
      }
    }

    /** The inner loop of s_box: `six_bits[5 - j] = input[i * 6 + j]`. */
    method SixBits(input: Bits, i: int) returns (sixBits: Bits)
      requires |input| == 48 && 0 <= i < 8
      ensures |sixBits| == 6
      ensures forall q :: 0 <= q < 6 ==> sixBits[q] == input[i * 6 + 5 - q]
    {
      sixBits := seq(6, _ => false);
      for j := 0 to 6
        invariant |sixBits| == 6
        invariant forall q :: 0 <= q < 6 ==> sixBits[q] == (5 - q < j && input[i * 6 + 5 - q])
      {
        sixBits := sixBits[5 - j := input[i * 6 + j]];
      }
    }

    /** The network shared by encrypt and decrypt, run with the current
        `keys` on the block `input` read from `text`: IP, sixteen Feistel
        rounds, the swapped halves, FP, and the bytes of the result. */
    method Network(input: Bits, ghost text: seq<byte>) returns (out: seq<byte>)
      requires |text| >= 8 && input == Spec.TextToBlock(text)
      requires |keys| == 16 && Spec.KeyList(keys)
      ensures out == Spec.Cipher(text, keys, tables)
    {
      var msg := PBox(input, tables.IP);
      var L0, R0 := BlockSplit(msg);
      L0, R0 := FeistelRounds(L0, R0);
      var block := SwapHalves(L0, R0);
      block := PBox(block, tables.FP);
      out := BitsetToText(block);
    }

    /** The sixteen rounds of encrypt and decrypt, round i using `keys[i]`. */
    method FeistelRounds(L: Bits, R: Bits) returns (L0: Bits, R0: Bits)
      requires |L| == 32 && |R| == 32 && |keys| == 16 && Spec.KeyList(keys)
      ensures (L0, R0) == Spec.Rounds(L, R, keys, tables)
    {
      L0, R0 := L, R;
      for i := 0 to 16
        invariant |L0| == 32 && |R0| == 32
        invariant (L0, R0) == Spec.Rounds(L, R, keys[..i], tables)
      {
        assert keys[..i + 1][..i] == keys[..i] && keys[..i + 1][i] == keys[i];
        var temp := R0;
        var rExpanded := PBox(R0, tables.E);
        var xorResult := Spec.XorBits(rExpanded, keys[i]);
        var result := SBox(xorResult);
        var pResult := PBox(result, tables.P);
        R0 := Spec.XorBits(L0, pResult);
        L0 := temp;
      }
      assert keys[..16] == keys;
    }

    /** The loop after the rounds: block bits 0..31 from R0, 32..63 from L0. */
    method SwapHalves(L0: Bits, R0: Bits) returns (block: Bits)
      requires |L0| == 32 && |R0| == 32
      ensures block == R0 + L0
    {
      block := seq(64, _ => false);
      for i := 0 to 32
        invariant |block| == 64
        invariant forall k :: 0 <= k < 32 ==> block[k] == (k < i && R0[k])
        invariant forall k :: 32 <= k < 64 ==> block[k] == (k < 32 + i && L0[k - 32])
      {
        block := block[i := R0[i]];
        block := block[i + 32 := L0[i]];
      }
    }

    /** encrypt: schedule the round keys forwards, then run the network. */
    method Encrypt(plaintext: seq<byte>, key: seq<byte>) returns (ciphertext: seq<byte>)
      requires |plaintext| >= 8 && |key| >= 8
      modifies this
      ensures keys == Spec.RoundKeys(key, tables)
      ensures ciphertext == Spec.EncryptBlock(plaintext, key, tables)
    {
      var msg := TextToBitset(plaintext);
      RoundKeyStore(key, false);
      ciphertext := Network(msg, plaintext);
    }

    /** decrypt: schedule the round keys reversed, then run the network. */
    method Decrypt(ciphertext: seq<byte>, key: seq<byte>) returns (plaintext: seq<byte>)
      requires |ciphertext| >= 8 && |key| >= 8
      modifies this
      ensures keys == Spec.Reverse(Spec.RoundKeys(key, tables))
      ensures plaintext == Spec.DecryptBlock(ciphertext, key, tables)
    {
      var secretMsg := TextToBitset(ciphertext);
      RoundKeyStore(key, true);
      plaintext := Network(secretMsg, ciphertext);
    }

    /** The byte loop `x.push_back(a[j] ^ b[j])` over one block. */
    method XorBlock(a: seq<byte>, b: seq<byte>) returns (x: seq<byte>)
      requires |a| == 8 && |b| == 8
      ensures x == XorBytes(a, b)
    {
      x := [];
      for j := 0 to 8
        invariant |x| == j
        invariant forall k :: 0 <= k < j ==> x[k] == a[k] ^ b[k]
      {
        x := x + [a[j] ^ b[j]];
      }
    }

    /** `encrypt(x, key)` on one block, seen through the block function
        `enc` that stands for it. */
    method EncryptAs(x: seq<byte>, key: seq<byte>, ghost enc: Mode.BlockFn) returns (c: seq<byte>)
      requires |x| == 8 && |key| >= 8 && Mode.Encrypts(enc, key, tables)
      modifies this
      ensures c == enc(x)
      ensures keys == Spec.RoundKeys(key, tables)
    {
      c := Encrypt(x, key);
      assert Mode.EncryptsOn(enc, key, tables, x);
    }

    /** `decrypt(x, key)` on one block, seen through the block function
        `dec` that stands for it. */
    method DecryptAs(x: seq<byte>, key: seq<byte>, ghost dec: Mode.BlockFn) returns (p: seq<byte>)
      requires |x| == 8 && |key| >= 8 && Mode.Decrypts(dec, key, tables)
      modifies this
      ensures p == dec(x)
      ensures keys == Spec.Reverse(Spec.RoundKeys(key, tables))
    {
      p := Decrypt(x, key);
      assert Mode.DecryptsOn(dec, key, tables, x);
    }

    /** The whole-block CBC loop of CBC_CTS_encrypt over the first `upto`
        bytes, returning the ciphertext and the final `prev`; `enc` stands
        for `encrypt(_, key)`. */
    method EncryptBlocks(plaintext: seq<byte>, upto: int, key: seq<byte>, ghost enc: Mode.BlockFn)
      returns (ciphertext: seq<byte>, prev: seq<byte>)
      requires 0 <= upto <= |plaintext| && upto % 8 == 0 && |key| >= 8
      requires Mode.Encrypts(enc, key, tables)
      modifies this
      ensures ciphertext == Mode.CbcEncrypt(plaintext[..upto], enc)
      ensures prev == Mode.Chain(ciphertext)
      ensures upto == 0 ==> keys == old(keys)
      ensures upto != 0 ==> keys == Spec.RoundKeys(key, tables)
    {
      ciphertext, prev := [], Mode.IV;
      var i := 0;
      while i < upto
        invariant 0 <= i <= upto && i % 8 == 0
        invariant ciphertext == Mode.CbcEncrypt(plaintext[..i], enc)
        invariant prev == Mode.Chain(ciphertext)
        invariant i == 0 ==> keys == old(keys)
        invariant i != 0 ==> keys == Spec.RoundKeys(key, tables)
      {
        NextBlock(i, upto);
        var block := plaintext[i..i + 8];
        var x := XorBlock(block, prev);
        var c := EncryptAs(x, key, enc);
        Mode.CbcEncryptExtend(plaintext, i, enc);
        ciphertext := ciphertext + c;
        prev := c;
        i := i + 8;
      }
    }

    /** CBC_CTS_encrypt, with `enc` standing for `encrypt(_, key)`. */
    method CbcCtsEncrypt(plaintext: seq<byte>, key: seq<byte>, ghost enc: Mode.BlockFn)
      returns (ciphertext: seq<byte>)
      requires |key| >= 8 && Mode.Encrypts(enc, key, tables)
      modifies this
      ensures ciphertext == Mode.CtsEncrypt(plaintext, enc)
      ensures plaintext == [] ==> keys == old(keys)
      ensures plaintext != [] ==> keys == Spec.RoundKeys(key, tables)
    {
      var bsz := 8;
      ciphertext := [];
      if |plaintext| == 0 {
        return;
      }
      var fullLen := (|plaintext| / bsz) * bsz;
      var d := |plaintext| - fullLen;
      WholeBlocks(|plaintext|);
      if d == 0 {
        var prev;
        ciphertext, prev := EncryptBlocks(plaintext, |plaintext|, key, enc);
        Mode.WholeEncryptFrom(plaintext, enc, ciphertext);
      } else if fullLen == 0 {
        ciphertext := EncryptShort(plaintext, key, enc);
      } else {
        ciphertext := EncryptStealing(plaintext, key, enc);
      }
    }

    /** The branch of CBC_CTS_encrypt for fewer than eight bytes: the
        zero-padded block chained on the IV, encrypted. */
    method EncryptShort(plaintext: seq<byte>, key: seq<byte>, ghost enc: Mode.BlockFn)
      returns (ciphertext: seq<byte>)
      requires 0 < |plaintext| < 8 && |key| >= 8 && Mode.Encrypts(enc, key, tables)
      modifies this
      ensures ciphertext == Mode.CtsEncrypt(plaintext, enc)
      ensures keys == Spec.RoundKeys(key, tables)
    {
      var block := plaintext + Zeros(8 - |plaintext|);
      var x := XorBlock(block, Mode.IV);
      ciphertext := EncryptAs(x, key, enc);
      Mode.ShortEncryptFrom(plaintext, enc, ciphertext);
    }

    /** The stealing branch of CBC_CTS_encrypt: CBC up to the last whole
        block P_{n-1}, then C_{n-1} cut to d bytes and C_n. */
    method EncryptStealing(plaintext: seq<byte>, key: seq<byte>, ghost enc: Mode.BlockFn)
      returns (ciphertext: seq<byte>)
      requires |plaintext| > 8 && |plaintext| % 8 != 0
      requires |key| >= 8 && Mode.Encrypts(enc, key, tables)
      modifies this
      ensures ciphertext == Mode.CtsEncrypt(plaintext, enc)
      ensures keys == Spec.RoundKeys(key, tables)
    {
      var bsz := 8;
      var d := |plaintext| % bsz;
      var fullLen := |plaintext| - d;
      var upto := fullLen - bsz;
      var prev;
      ciphertext, prev := EncryptBlocks(plaintext, upto, key, enc);
      var pn1 := plaintext[fullLen - bsz..fullLen];
      var pnStar := plaintext[fullLen..];
      var cn1Star, cn := EncryptTail(pn1, pnStar, prev, key, enc);
      Mode.StealEncryptFrom(plaintext, enc, ciphertext, cn1Star, cn);
      ciphertext := ciphertext + cn1Star;
      ciphertext := ciphertext + cn;
    }

    /** The final two blocks of CBC_CTS_encrypt: C_{n-1} = E(P_{n-1} xor
        `prev`), C_n = E(P_n* zero-padded xor C_{n-1}); returns the first d
        bytes of C_{n-1} and C_n. */
    method EncryptTail(pn1: seq<byte>, pnStar: seq<byte>, prev: seq<byte>, key: seq<byte>,
                       ghost enc: Mode.BlockFn)
      returns (cn1Star: seq<byte>, cn: seq<byte>)
      requires |pn1| == 8 && 0 < |pnStar| < 8 && |prev| == 8
      requires |key| >= 8 && Mode.Encrypts(enc, key, tables)
      modifies this
      ensures cn1Star + cn == Mode.StealTail(pn1, pnStar, prev, enc)
      ensures keys == Spec.RoundKeys(key, tables)
    {
      var d := |pnStar|;
      var pn := pnStar + Zeros(8 - d);
      var x1 := XorBlock(pn1, prev);
      var cn1 := EncryptAs(x1, key, enc);
      var x2 := XorBlock(pn, cn1);
      cn := EncryptAs(x2, key, enc);
      Mode.StealTailFrom(pn1, pnStar, prev, enc, cn1, cn);
      cn1Star := cn1[..d];
    }

    /** The whole-block CBC loop of CBC_CTS_decrypt over the first `upto`
        bytes, returning the plaintext and the final `prev`; `dec` stands
        for `decrypt(_, key)`. */
    method DecryptBlocks(ciphertext: seq<byte>, upto: int, key: seq<byte>, ghost dec: Mode.BlockFn)
      returns (plaintext: seq<byte>, prev: seq<byte>)
      requires 0 <= upto <= |ciphertext| && upto % 8 == 0 && |key| >= 8
      requires Mode.Decrypts(dec, key, tables)
      modifies this
      ensures plaintext == Mode.CbcDecrypt(ciphertext[..upto], dec)
      ensures prev == Mode.Chain(ciphertext[..upto])
      ensures upto == 0 ==> keys == old(keys)
      ensures upto != 0 ==> keys == Spec.Reverse(Spec.RoundKeys(key, tables))
    {
      plaintext, prev := [], Mode.IV;
      var i := 0;
      while i < upto
        invariant 0 <= i <= upto && i % 8 == 0
        invariant plaintext == Mode.CbcDecrypt(ciphertext[..i], dec)
        invariant prev == Mode.Chain(ciphertext[..i])
        invariant i == 0 ==> keys == old(keys)
        invariant i != 0 ==> keys == Spec.Reverse(Spec.RoundKeys(key, tables))
      {
        NextBlock(i, upto);
        var C := ciphertext[i..i + 8];
        var D := DecryptAs(C, key, dec);
        var P := XorBlock(D, prev);
        Mode.CbcDecryptExtend(ciphertext, i, dec);
        plaintext := plaintext + P;
        prev := C;
        assert prev == ciphertext[..i + 8][i..];
        i := i + 8;
      }
    }

    /** CBC_CTS_decrypt, with `dec` standing for `decrypt(_, key)` and the
        short-ciphertext branch reading its block zero-padded to eight
        bytes. */
    method CbcCtsDecrypt(ciphertext: seq<byte>, key: seq<byte>, ghost dec: Mode.BlockFn)
      returns (plaintext: seq<byte>)
      requires |key| >= 8 && Mode.Decrypts(dec, key, tables)
      modifies this
      ensures plaintext == Mode.CtsDecrypt(ciphertext, dec)
      ensures ciphertext == [] ==> keys == old(keys)
      ensures ciphertext != [] ==> keys == Spec.Reverse(Spec.RoundKeys(key, tables))
    {
      var bsz := 8;
      if |ciphertext| == 0 {
        return [];
      }
      var d := |ciphertext| % bsz;
      if d == 0 {
        var prev;
        plaintext, prev := DecryptBlocks(ciphertext, |ciphertext|, key, dec);
        Mode.WholeDecryptFrom(ciphertext, dec, plaintext);
      } else if |ciphertext| < bsz + d {
        plaintext := DecryptShort(ciphertext, key, dec);
      } else {
        plaintext := DecryptStealing(ciphertext, key, dec);
      }
    }

    /** The branch of CBC_CTS_decrypt for fewer than eight bytes, reading
        the block zero-padded: decrypt, xor with the IV, keep the
        ciphertext's length. */
    method DecryptShort(ciphertext: seq<byte>, key: seq<byte>, ghost dec: Mode.BlockFn)
      returns (plaintext: seq<byte>)
      requires 0 < |ciphertext| < 8 && |key| >= 8 && Mode.Decrypts(dec, key, tables)
      modifies this
      ensures plaintext == Mode.CtsDecrypt(ciphertext, dec)
      ensures keys == Spec.Reverse(Spec.RoundKeys(key, tables))
    {
      var C := ciphertext + Zeros(8 - |ciphertext|);
      var D := DecryptAs(C, key, dec);
      var P := XorBlock(D, Mode.IV);
      Mode.ShortDecryptFrom(ciphertext, dec, P);
      plaintext := P[..|ciphertext|];
    }

    /** The stealing branch of CBC_CTS_decrypt: CBC over all but the last
        8 + d bytes, then the two-block tail, cut to the ciphertext's
        length. */
    method DecryptStealing(ciphertext: seq<byte>, key: seq<byte>, ghost dec: Mode.BlockFn)
      returns (plaintext: seq<byte>)
      requires |ciphertext| % 8 != 0 && |ciphertext| >= 8 + |ciphertext| % 8
      requires |key| >= 8 && Mode.Decrypts(dec, key, tables)
      modifies this
      ensures plaintext == Mode.CtsDecrypt(ciphertext, dec)
      ensures keys == Spec.Reverse(Spec.RoundKeys(key, tables))
    {
      var bsz := 8;
      var d := |ciphertext| % bsz;
      var preLen := |ciphertext| - (bsz + d);
      var prev;
      plaintext, prev := DecryptBlocks(ciphertext, preLen, key, dec);
      var pn1, pnStar := DecryptTail(ciphertext[preLen..], prev, key, dec);
      Mode.StealDecryptFrom(ciphertext, dec, plaintext, pn1, pnStar);
      plaintext := plaintext + pn1;
      plaintext := plaintext + pnStar;
      plaintext := plaintext[..|ciphertext|];
    }

    /** The final two-block construction of CBC_CTS_decrypt on the last
        8 + d ciphertext bytes: Z = D(C_n), C_{n-1} rebuilt from its d
        stored bytes and the tail of Z, P_{n-1} = D(C_{n-1}) xor `prev`,
        P_n* = (Z xor C_{n-1})[..d]. */
    method DecryptTail(tail: seq<byte>, prev: seq<byte>, key: seq<byte>, ghost dec: Mode.BlockFn)
      returns (pn1: seq<byte>, pnStar: seq<byte>)
      requires 8 < |tail| < 16 && |prev| == 8 && |key| >= 8 && Mode.Decrypts(dec, key, tables)
      modifies this
      ensures pn1 + pnStar == Mode.UnstealTail(tail, prev, dec)
      ensures keys == Spec.Reverse(Spec.RoundKeys(key, tables))
    {
      var bsz := 8;
      var d := |tail| - bsz;
      var cn1Star := tail[..d];
      var cn := tail[d..d + bsz];
      assert cn == tail[d..];
      var z := DecryptAs(cn, key, dec);
      var cn1 := cn1Star + z[d..];
      var dn1 := DecryptAs(cn1, key, dec);
      pn1 := XorBlock(dn1, prev);
      var zXorCn1 := XorBlock(z, cn1);
      pnStar := zXorCn1[..d];
      Mode.UnstealTailFrom(tail, prev, dec, z, cn1, pn1, pnStar);
    }
  }

  /** `(n / 8) * 8` is `n` less its remainder. */
  lemma WholeBlocks(n: int)
    requires n >= 0
    ensures (n / 8) * 8 == n - n % 8 && 0 <= n % 8 < 8
  {
  }

  /** The next whole block fits below a multiple of eight. */
  lemma NextBlock(i: int, n: int)
    requires i % 8 == 0 && n % 8 == 0 && i < n
    ensures i + 8 <= n && (i + 8) % 8 == 0
  {
  }
}
