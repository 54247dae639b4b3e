/** The pieces of the two image drivers around the cipher calls:
    src/enc_img.cpp normalises the key, runs CBC_CTS_encrypt over the pixel
    bytes and copies the ciphertext into the buffer written as a PNG;
    src/dec_img.cpp normalises the key the same way, runs CBC_CTS_decrypt
    and fits the plaintext into a pixel buffer of the image's size. The
    pixel bytes stand for what stb_image loads; the file picker, the
    console and the PNG codec are not modelled. */
module ImageDrivers {
  import opened Bytes
  import opened DesTables
  import Mode = CbcCts
  import opened Des

  /** The character '0' that pads a short key. */
  const Pad: byte := 0x30

  /** The key as both drivers leave it: exactly eight bytes, the given ones
      first, then '0' up to eight. */
  function NormalisedKey(key: seq<byte>): (k: seq<byte>)
    ensures |k| == 8
    ensures forall i :: 0 <= i < |key| && i < 8 ==> k[i] == key[i]
    ensures forall i :: |key| <= i < 8 ==> k[i] == Pad
  {
    if |key| < 8 then key + seq(8 - |key|, _ => Pad) else key[..8]
  }

  /** A key of exactly eight bytes is used as it is. */
  lemma NormalisedKeyExact(key: seq<byte>)
    requires |key| == 8
    ensures NormalisedKey(key) == key
  {
  }

  /** Normalisation is idempotent: a normalised key normalises to itself. */
  lemma NormalisedKeyIdempotent(key: seq<byte>)
    ensures NormalisedKey(NormalisedKey(key)) == NormalisedKey(key)
  {
  }

  /** src/enc_img.cpp: append '0's to a short key, else cut a long one. */
  method EncNormaliseKey(keyStr: seq<byte>) returns (k: seq<byte>)
    ensures k == NormalisedKey(keyStr)
  {
    k := keyStr;
    if |k| < 8 {
      k := k + seq(8 - |k|, _ => Pad);
    } else if |k| > 8 {
      k := k[..8];
    }
  }

  /** src/dec_img.cpp: the same two steps as two independent tests. */
  method DecNormaliseKey(keyStr: seq<byte>) returns (k: seq<byte>)
    ensures k == NormalisedKey(keyStr)
  {
    k := keyStr;
    if |k| < 8 {
      k := k + seq(8 - |k|, _ => Pad);
    }
    if |k| > 8 {
      k := k[..8];
    }
  }

  /** The encryption driver after the image is loaded: the `encrypted`
      buffer holds exactly the ciphertext, and the size warning fires
      exactly for images of one to seven bytes. */
  method EncryptImage(tables: WfTables, pixels: seq<byte>, keyStr: seq<byte>)
    returns (encrypted: array<byte>, warned: bool)
    ensures encrypted[..] == Mode.CtsEncrypt(pixels, Mode.DesEnc(NormalisedKey(keyStr), tables))
    ensures warned <==> encrypted.Length != |pixels|
    ensures warned <==> 0 < |pixels| < 8
  {
    var key := EncNormaliseKey(keyStr);
    var a := new DES(tables);
    var cipher := a.CbcCtsEncrypt(pixels, key, Mode.DesEnc(key, tables));
    warned := |cipher| != |pixels|;
    encrypted := new byte[|cipher|](i requires 0 <= i < |cipher| => cipher[i]);
  }

  /** The output buffer: `size` bytes, the plaintext's bytes first, zeros
      after it. */
  function Fit(plaintext: seq<byte>, size: nat): (out: seq<byte>)
    ensures |out| == size
  {
    seq(size, i requires 0 <= i < size => if i < |plaintext| then plaintext[i] else 0)
  }

  /** A plaintext of exactly the buffer's size fills it unchanged. */
  lemma FitExact(plaintext: seq<byte>)
    ensures Fit(plaintext, |plaintext|) == plaintext
  {
  }

  /** A longer plaintext is truncated to the buffer's size. */
  lemma FitTruncates(plaintext: seq<byte>, size: nat)
    requires size <= |plaintext|
    ensures Fit(plaintext, size) == plaintext[..size]
  {
  }

  /** A shorter plaintext is followed by zeros up to the buffer's size. */
  lemma FitPads(plaintext: seq<byte>, size: nat)
    requires |plaintext| < size
    ensures Fit(plaintext, size) == plaintext + Zeros(size - |plaintext|)
  {
  }

  /** `out.resize(size)`, `std::copy` of the first `copyLen` plaintext
      bytes, then `std::fill` of the rest with 0. */
  method FitOutput(plaintext: seq<byte>, size: nat) returns (out: array<byte>)
    ensures out.Length == size
    ensures var copyLen := if |plaintext| < size then |plaintext| else size;
      && (forall i :: 0 <= i < copyLen ==> out[i] == plaintext[i])
      && (forall i :: copyLen <= i < size ==> out[i] == 0)
    ensures out[..] == Fit(plaintext, size)
  {
    out := new byte[size](_ => 0);
    var copyLen := if |plaintext| < out.Length then |plaintext| else out.Length;
    for i := 0 to copyLen
      invariant forall k :: 0 <= k < i ==> out[k] == plaintext[k]
    {
      out[i] := plaintext[i];
    }
    if copyLen < out.Length {
      for i := copyLen to out.Length
        invariant forall k :: 0 <= k < copyLen ==> out[k] == plaintext[k]
        invariant forall k :: copyLen <= k < i ==> out[k] == 0
      {
        out[i] := 0;
      }
    }
  }

  /** The decryption driver after the image is loaded: the ciphertext is
      the `size` pixel bytes, the plaintext always has that size (so the
      warning never fires) and the buffer holds it. */
  method DecryptImage(tables: WfTables, pixels: seq<byte>, keyStr: seq<byte>)
    returns (out: array<byte>, warned: bool)
    ensures !warned
    ensures out[..] == Mode.CtsDecrypt(pixels, Mode.DesDec(NormalisedKey(keyStr), tables))
  {
    var size := |pixels|;
    var key := DecNormaliseKey(keyStr);
    var des := new DES(tables);
    var plaintext := des.CbcCtsDecrypt(pixels, key, Mode.DesDec(key, tables));
    warned := |plaintext| != size;
    out := FitOutput(plaintext, size);
    FitExact(plaintext);
  }

  /** An image of at least eight bytes, encrypted and then decrypted with
      the same key, comes back unchanged. */
  lemma ImageRoundTrip(tables: WfTables, pixels: seq<byte>, keyStr: seq<byte>)
    requires |pixels| >= 8
    ensures var k := NormalisedKey(keyStr);
      var enc, dec := Mode.DesEnc(k, tables), Mode.DesDec(k, tables);
      Fit(Mode.CtsDecrypt(Mode.CtsEncrypt(pixels, enc), dec), |pixels|) == pixels
  {
    var k := NormalisedKey(keyStr);
    Mode.DesCtsRoundTrip(pixels, k, tables, Mode.DesEnc(k, tables), Mode.DesDec(k, tables));
    FitExact(pixels);
  }
}
