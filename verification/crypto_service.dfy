/**
  `cryptoService`: the random-key alphabet mapping and the IV framing of
  `encrypt`/`decrypt`.  The random bytes and the IV are inputs; AES-256-CBC,
  SHA-256, UTF-8 and base64 are opaque functions bundled in `Primitives`.
*/
module CryptoService {
  import opened Wrappers

  type byte = b: int | 0 <= b < 256

  /** The 71-character key alphabet. */
  const CHARS: string := "abcdefghijklmnopqrstuvwxyzABCDEFGHIJKLMNOPQRSTUVWXYZ0123456789!@#$()-_."

  const KeyLengthError: string := "Key length must be greater than 0"

  /* ---------- generateRandomKey ---------- */

  /** Each byte picks the alphabet character at `byte % 71`. */
  function KeyChars(bytes: seq<byte>): (r: string)
    ensures |r| == |bytes|
    ensures forall i :: 0 <= i < |bytes| ==> r[i] == CHARS[bytes[i] % |CHARS|]
  {
    if |bytes| == 0 then "" else [CHARS[bytes[0] % |CHARS|]] + KeyChars(bytes[1..])
  }

  /** `generateRandomKey(length)` with `bytes` the result of
      `randomBytes(length)`: a non-positive length is an error, otherwise one
      alphabet character per byte. */
  function GenerateRandomKey(length: int, bytes: seq<byte>): (r: Result<string, string>)
    requires length > 0 ==> |bytes| == length
    ensures r.Failure? <==> length <= 0
    ensures r.Failure? ==> r.error == KeyLengthError
    ensures r.Success? ==> |r.value| == length && forall i :: 0 <= i < length ==> r.value[i] in CHARS
    ensures r.Success? ==> forall i :: 0 <= i < length ==> r.value[i] == CHARS[bytes[i] % |CHARS|]
  {
    if length <= 0 then Failure(KeyLengthError) else Success(KeyChars(bytes))
  }

  /** Alphabet positions spelling `key`, one byte per character. */
  ghost function KeyBytes(key: string): (r: seq<byte>)
    requires forall i :: 0 <= i < |key| ==> key[i] in CHARS
    ensures |r| == |key|
    ensures forall i :: 0 <= i < |key| ==> r[i] < |CHARS| && CHARS[r[i]] == key[i]
  {
    if |key| == 0 then []
    else
      var k: byte :| k < |CHARS| && CHARS[k] == key[0];
      [k] + KeyBytes(key[1..])
  }

  /** Every alphabet character can be produced, so every key over the
      alphabet is reachable from some byte string. */
  lemma EveryKeyReachable(key: string)
    requires |key| > 0
    requires forall i :: 0 <= i < |key| ==> key[i] in CHARS
    ensures exists bytes: seq<byte> :: |bytes| == |key| && GenerateRandomKey(|key|, bytes) == Success(key)
  {
    var bytes := KeyBytes(key);
    KeyCharsSpells(bytes, key);
  }

  /** Bytes below the alphabet size select their own positions. */
  lemma KeyCharsSpells(bytes: seq<byte>, key: string)
    requires |bytes| == |key|
    requires forall i :: 0 <= i < |key| ==> bytes[i] < |CHARS| && CHARS[bytes[i]] == key[i]
    ensures KeyChars(bytes) == key
  {
    var r := KeyChars(bytes);
    forall i | 0 <= i < |key| ensures r[i] == key[i] {
      SmallModulus(bytes[i], |CHARS|);
    }
  }

  lemma SmallModulus(b: nat, n: nat)
    requires b < n
    ensures b % n == b
  {
  }

  /** The byte values that select alphabet position `k`: four of them for the
      first 43 characters (256 = 3 * 71 + 43) and three for the others, so the
      mapping is not uniform. */
  lemma ModuloBias(k: nat)
    requires k < |CHARS|
    ensures (set b: byte | b % |CHARS| == k) ==
            (if k < 43 then {k, k + 71, k + 142, k + 213} else {k, k + 71, k + 142})
  {
    var lhs := set b: byte | b % |CHARS| == k;
    forall b: byte | b % |CHARS| == k
      ensures b == k || b == k + 71 || b == k + 142 || (k < 43 && b == k + 213)
    {
      assert b == (b / 71) * 71 + k;
      assert 0 <= b / 71 <= 3;
    }
  }

  /* ---------- encrypt / decrypt ---------- */

  datatype Primitives = Primitives(
    toBase64: seq<byte> -> string,
    fromBase64: string -> seq<byte>,
    sha256: string -> seq<byte>,
    utf8: string -> seq<byte>,
    fromUtf8: seq<byte> -> string,
    /** AES-256-CBC over (key, iv, input); `Failure` is a thrown error. */
    aesEncrypt: (seq<byte>, seq<byte>, seq<byte>) -> Result<seq<byte>, string>,
    aesDecrypt: (seq<byte>, seq<byte>, seq<byte>) -> Result<seq<byte>, string>)

  const IvLength: nat := 16

  /** `isBase64(str)`: decoding and re-encoding gives the string back. */
  predicate IsBase64(prims: Primitives, s: string) {
    prims.toBase64(prims.fromBase64(s)) == s
  }

  /** The key: the decoded string when it is base64, its SHA-256 otherwise. */
  function DeriveKey(prims: Primitives, keyString: string): (r: seq<byte>)
    ensures IsBase64(prims, keyString) ==> r == prims.fromBase64(keyString) && prims.toBase64(r) == keyString
    ensures !IsBase64(prims, keyString) ==> r == prims.sha256(keyString)
  {
    if IsBase64(prims, keyString) then prims.fromBase64(keyString) else prims.sha256(keyString)
  }

  /** A key handed over in base64, as `generateAes256Key` produces it, is used
      as the very bytes it encodes, provided decoding inverts encoding. */
  lemma EncodedKeyUsedAsBytes(prims: Primitives, key: seq<byte>)
    requires forall b :: prims.fromBase64(prims.toBase64(b)) == b
    ensures IsBase64(prims, prims.toBase64(key))
    ensures DeriveKey(prims, prims.toBase64(key)) == key
  {
  }

  /** `Buffer.concat([iv, encrypted])`. */
  function Frame(iv: seq<byte>, cipher: seq<byte>): (r: seq<byte>)
    requires |iv| == IvLength
    ensures |r| == IvLength + |cipher| && r[..IvLength] == iv && r[IvLength..] == cipher
  {
    iv + cipher
  }

  /** `subarray(0, 16)` and `subarray(16)`: both clamp to the data, so a short
      input gives a short IV and an empty cipher text. */
  function Unframe(data: seq<byte>): (r: (seq<byte>, seq<byte>))
    ensures r.0 + r.1 == data
    ensures |r.0| == if |data| < IvLength then |data| else IvLength
  {
    var cut := if |data| < IvLength then |data| else IvLength;
    (data[..cut], data[cut..])
  }

  /** Splitting inverts framing. */
  lemma UnframeFrame(iv: seq<byte>, cipher: seq<byte>)
    requires |iv| == IvLength
    ensures Unframe(Frame(iv, cipher)) == (iv, cipher)
  {
  }

  /** `encrypt(plainText, keyString)` with `iv` the fresh random IV: empty input
      comes back as is; otherwise the base64 of IV followed by cipher text. */
  function Encrypt(prims: Primitives, plainText: string, keyString: string, iv: seq<byte>): (r: Result<string, string>)
    requires |iv| == IvLength
    ensures plainText == "" ==> r == Success("")
    ensures plainText != "" ==>
              var enciphered := prims.aesEncrypt(DeriveKey(prims, keyString), iv, prims.utf8(plainText));
              && (enciphered.Success? ==> r == Success(prims.toBase64(Frame(iv, enciphered.value))))
              && (enciphered.Failure? ==> r == Failure(enciphered.error))
  {
    if plainText == "" then Success(plainText)
    else match prims.aesEncrypt(DeriveKey(prims, keyString), iv, prims.utf8(plainText))
      case Success(cipher) => Success(prims.toBase64(Frame(iv, cipher)))
      case Failure(e) => Failure(e)
  }

  /** `decrypt(cipherText, keyString)`: empty input comes back as is; otherwise
      the first 16 decoded bytes are the IV (anything shorter is refused, as
      `createDecipheriv` does) and the rest is deciphered. */
  function Decrypt(prims: Primitives, cipherText: string, keyString: string): (r: Result<string, string>)
    ensures cipherText == "" ==> r == Success("")
    ensures cipherText != "" && |prims.fromBase64(cipherText)| < IvLength ==> r.Failure?
    ensures cipherText != "" && |prims.fromBase64(cipherText)| >= IvLength ==>
              var data := prims.fromBase64(cipherText);
              var deciphered := prims.aesDecrypt(DeriveKey(prims, keyString), data[..IvLength], data[IvLength..]);
              && (deciphered.Success? ==> r == Success(prims.fromUtf8(deciphered.value)))
              && (deciphered.Failure? ==> r == Failure(deciphered.error))
  {
    if cipherText == "" then Success(cipherText)
    else
      var parts := Unframe(prims.fromBase64(cipherText));
      if |parts.0| != IvLength then Failure("Invalid initialization vector")
      else match prims.aesDecrypt(DeriveKey(prims, keyString), parts.0, parts.1)
        case Success(plain) => Success(prims.fromUtf8(plain))
        case Failure(e) => Failure(e)
  }

  /** Whenever base64 and UTF-8 decode what they encode and AES decryption
      inverts AES encryption under the same key and IV, decrypting what
      `encrypt` produced gives back the plain text. */
  lemma DecryptEncrypt(prims: Primitives, plainText: string, keyString: string, iv: seq<byte>)
    requires |iv| == IvLength
    requires prims.toBase64([]) == ""
    requires forall b :: prims.fromBase64(prims.toBase64(b)) == b
    requires forall s :: prims.fromUtf8(prims.utf8(s)) == s
    requires forall k, v, p :: prims.aesEncrypt(k, v, p).Success? ==>
               prims.aesDecrypt(k, v, prims.aesEncrypt(k, v, p).value) == Success(p)
    requires Encrypt(prims, plainText, keyString, iv).Success?
    ensures Decrypt(prims, Encrypt(prims, plainText, keyString, iv).value, keyString) == Success(plainText)
  {
    if plainText != "" {
      var key := DeriveKey(prims, keyString);
      var cipher := prims.aesEncrypt(key, iv, prims.utf8(plainText)).value;
      var framed := Frame(iv, cipher);
      var text := prims.toBase64(framed);
      assert prims.fromBase64(text) == framed;
      assert text != "";
      UnframeFrame(iv, cipher);
    }
  }
}
