/** The encrypted column codec (internal/app/gorm_encryption.go). Strings are byte strings. The block
    cipher and base64 are parameters: any cipher with 16-byte blocks, any text encoding. */
module Encryption {
  import opened Options

  type Bytes = seq<bv8>

  const BLOCK := 16
  const KEY_LENGTH := 32
  const ZERO_CHAR: bv8 := 0x30
  const PREFIX: Bytes := [0x57, 0x47, 0x5f, 0x45, 0x4e, 0x43, 0x5f]

  type Block = b: Bytes | |b| == BLOCK witness seq(16, _ => 0)

  /** One step of the cipher under a key, and base64. */
  datatype Env = Env(
    encrypt: (Bytes, Block) -> Block,
    decrypt: (Bytes, Block) -> Block,
    encode: Bytes -> Bytes,
    decode: Bytes -> Option<Bytes>)

  /** Under every 32-byte key the cipher is a permutation of the blocks; base64 is undone by decoding,
      grows what it encodes and decodes to nothing longer. */
  ghost predicate Sound(env: Env) {
    && (forall k: Bytes, b: Block :: |k| == KEY_LENGTH ==> env.decrypt(k, env.encrypt(k, b)) == b)
    && (forall x: Bytes :: env.decode(env.encode(x)) == Some(x) && |x| <= |env.encode(x)|)
    && (forall s: Bytes :: env.decode(s).Some? ==> |env.decode(s).value| <= |s|)
  }

  /** A call ends with a value, with an error, or by panicking on a bad slice. */
  datatype Outcome = Ok(text: Bytes) | Failed | Panics

  // ---------- key and padding ----------

  function TrimEncKey(key: Bytes): (k: Bytes)
    ensures forall i :: |key| <= i < |k| ==> k[i] == 0x30
    ensures |k| == KEY_LENGTH && k[..if |key| < KEY_LENGTH then |key| else KEY_LENGTH] <= key
  {
    if |key| > KEY_LENGTH then key[..KEY_LENGTH]
    else key + seq(KEY_LENGTH - |key|, _ => ZERO_CHAR)
  }

  function PaddingOf(n: nat): (p: nat)
    ensures 1 <= p <= BLOCK && (n + p) % BLOCK == 0
  {
    BLOCK - n % BLOCK
  }

  function Pad(plain: Bytes): Bytes {
    plain + seq(PaddingOf(|plain|), _ => PaddingOf(|plain|) as bv8)
  }

  /** Cuts off as many bytes as the last byte says; the cut bytes are not looked at. */
  function UnPad(src: Bytes): Outcome {
    if src == [] then Panics
    else if |src| < src[|src| - 1] as int then Panics
    else Ok(src[..|src| - src[|src| - 1] as int])
  }

  lemma PaddingByte(n: nat)
    requires n <= BLOCK
    ensures (n as bv8) as int == n
  {
  }

  lemma PadLength(plain: Bytes)
    ensures |plain| < |Pad(plain)| <= |plain| + BLOCK && |Pad(plain)| % BLOCK == 0
  {
  }

  /** Removing the padding gives the text back, for every length. */
  lemma UnPadPad(plain: Bytes)
    ensures UnPad(Pad(plain)) == Ok(plain)
  {
    PaddingByte(PaddingOf(|plain|));
  }

  predicate WellPadded(src: Bytes) {
    && src != [] && |src| % BLOCK == 0
    && 1 <= src[|src| - 1] as int <= BLOCK
    && forall i :: |src| - src[|src| - 1] as int <= i < |src| ==> src[i] == src[|src| - 1]
  }

  /** What removing accepts is padded back to itself exactly when it was well padded. */
  lemma PadUnPadExact(src: Bytes)
    requires UnPad(src).Ok?
    ensures Pad(UnPad(src).text) == src <==> WellPadded(src)
  {
    var n, p := |src|, src[|src| - 1] as int;
    var text := UnPad(src).text;
    PaddingByte(PaddingOf(|text|));
    if WellPadded(src) {
      assert PaddingOf(|text|) == p;
    }
  }

  // ---------- cipher block chaining ----------

  function Xor(a: Block, b: Block): Block {
    seq(BLOCK, i requires 0 <= i < BLOCK => a[i] ^ b[i])
  }

  lemma XorTwice(a: Block, b: Block)
    ensures Xor(Xor(a, b), b) == a
  {
    assert forall i :: 0 <= i < BLOCK ==> Xor(Xor(a, b), b)[i] == a[i];
  }

  function CbcEncrypt(env: Env, key: Bytes, iv: Block, plain: Bytes): (s: Bytes)
    requires |plain| % BLOCK == 0
    ensures |s| == |plain|
    decreases |plain|
  {
    if plain == [] then []
    else
      var block := env.encrypt(key, Xor(plain[..BLOCK], iv));
      block + CbcEncrypt(env, key, block, plain[BLOCK..])
  }

  function CbcDecrypt(env: Env, key: Bytes, iv: Block, s: Bytes): (plain: Bytes)
    requires |s| % BLOCK == 0
    ensures |plain| == |s|
    decreases |s|
  {
    if s == [] then []
    else Xor(env.decrypt(key, s[..BLOCK]), iv) + CbcDecrypt(env, key, s[..BLOCK], s[BLOCK..])
  }

  /** Decryption undoes encryption for any number of blocks, key, start value and permutation. */
  lemma {:induction false} CbcInverse(env: Env, key: Bytes, iv: Block, plain: Bytes)
    requires Sound(env) && |key| == KEY_LENGTH && |plain| % BLOCK == 0
    ensures CbcDecrypt(env, key, iv, CbcEncrypt(env, key, iv, plain)) == plain
    decreases |plain|
  {
    if plain != [] {
      assert env.decrypt(key, env.encrypt(key, Xor(plain[..BLOCK], iv))) == Xor(plain[..BLOCK], iv);
      hide Sound;
      var first: Block := plain[..BLOCK];
      var block: Block := env.encrypt(key, Xor(first, iv));
      var head: Bytes, rest: Bytes := block, CbcEncrypt(env, key, block, plain[BLOCK..]);
      var all: Bytes := head + rest;
      assert all[..BLOCK] == head && all[BLOCK..] == rest;
      XorTwice(first, iv);
      CbcInverse(env, key, block, plain[BLOCK..]);
      assert plain == plain[..BLOCK] + plain[BLOCK..];
    }
  }

  // ---------- one value ----------

  function EncryptAES256(env: Env, plaintext: Bytes, key: Bytes): Outcome {
    if plaintext == [] || key == [] then Failed
    else
      PadLength(plaintext);
      var k := TrimEncKey(key);
      Ok(env.encode(CbcEncrypt(env, k, k[..BLOCK], Pad(plaintext))))
  }

  function DecryptAES256(env: Env, encrypted: Bytes, key: Bytes): Outcome {
    if encrypted == [] || key == [] then Failed
    else
      var k := TrimEncKey(key);
      match env.decode(encrypted)
      case None => Failed
      case Some(ciphertext) =>
        if |ciphertext| % BLOCK != 0 then Failed else UnPad(CbcDecrypt(env, k, k[..BLOCK], ciphertext))
  }

  lemma DecryptEncrypt(env: Env, plaintext: Bytes, key: Bytes)
    requires Sound(env) && plaintext != [] && key != []
    ensures EncryptAES256(env, plaintext, key).Ok?
    ensures DecryptAES256(env, EncryptAES256(env, plaintext, key).text, key) == Ok(plaintext)
  {
    PadLength(plaintext);
    var k := TrimEncKey(key);
    CbcInverse(env, k, k[..BLOCK], Pad(plaintext));
    UnPadPad(plaintext);
    assert |EncryptAES256(env, plaintext, key).text| > 0;
  }

  /** The first block is chained with the first half of the key: with the passphrase, as far as it goes. */
  lemma FirstBlock(env: Env, plaintext: Bytes, key: Bytes)
    requires Sound(env) && plaintext != [] && key != []
    ensures var k := TrimEncKey(key);
            var cipher := env.decode(EncryptAES256(env, plaintext, key).text);
            && cipher.Some? && |cipher.value| == |Pad(plaintext)| >= 16
            && cipher.value[..16] == env.encrypt(k, Xor(Pad(plaintext)[..16], k[..16]))
    ensures |key| >= 16 ==> TrimEncKey(key)[..16] == key[..16]
  {
    PadLength(plaintext);
  }

  /** What each call ends with, for every input. */
  lemma OutcomesExactly(env: Env, text: Bytes, key: Bytes)
    ensures EncryptAES256(env, text, key).Ok? <==> text != [] && key != []
    ensures !EncryptAES256(env, text, key).Panics?
    ensures var k := TrimEncKey(key);
            var c := env.decode(text);
            && (DecryptAES256(env, text, key).Failed? <==> text == [] || key == [] || c.None? || |c.value| % 16 != 0)
            && (DecryptAES256(env, text, key).Panics? <==>
                  text != [] && key != [] && c.Some? && |c.value| % 16 == 0 &&
                  (c.value == [] ||
                   CbcDecrypt(env, k, k[..16], c.value)[|c.value| - 1] as int > |c.value|))
  {
  }

  // ---------- the column ----------

  /** What the database column holds: nothing, or a text. */
  function Value(env: Env, keyPhrase: Bytes, field: Option<Bytes>): Option<Outcome> {
    match field
    case None => None
    case Some(v) =>
      if v == [] || keyPhrase == [] then Some(Ok(v))
      else match EncryptAES256(env, v, keyPhrase)
           case Ok(text) => Some(Ok(PREFIX + text))
           case other => Some(other)
  }

  function Scanned(env: Env, keyPhrase: Bytes, dbValue: Option<Bytes>): Outcome {
    var text := if dbValue.Some? then dbValue.value else [];
    if keyPhrase == [] || !(PREFIX <= text) then Ok(text)
    else DecryptAES256(env, text[|PREFIX|..], keyPhrase)
  }

  class Field {
    var text: Bytes

    constructor ()
      ensures text == []
    {
      text := [];
    }

    /** Writes the field unless reading fails. */
    method Scan(env: Env, keyPhrase: Bytes, dbValue: Option<Bytes>) returns (r: Outcome)
      modifies this
      ensures r == Scanned(env, keyPhrase, dbValue)
      ensures text == if r.Ok? then r.text else old(text)
    {
      var dbText := if dbValue.Some? then dbValue.value else [];
      if keyPhrase == [] {
        text := dbText;
        return Ok(dbText);
      }
      if !(PREFIX <= dbText) {
        text := dbText;
        return Ok(dbText);
      }
      r := DecryptAES256(env, dbText[|PREFIX|..], keyPhrase);
      if r.Ok? {
        text := r.text;
      }
    }
  }

  /** Reading a written column gives the text back, for every text and passphrase, encrypted or not. */
  lemma RoundTrip(env: Env, keyPhrase: Bytes, v: Bytes)
    requires Sound(env)
    ensures Value(env, keyPhrase, Some(v)).Some? && Value(env, keyPhrase, Some(v)).value.Ok?
    ensures Scanned(env, keyPhrase, Some(Value(env, keyPhrase, Some(v)).value.text)) == Ok(v)
  {
    if v != [] && keyPhrase != [] {
      DecryptEncrypt(env, v, keyPhrase);
      var text := EncryptAES256(env, v, keyPhrase).text;
      assert (PREFIX + text)[|PREFIX|..] == text;
    }
  }

  /** Under a passphrase every non-empty text is stored behind the seven characters WG_ENC_, an empty one
      and a missing one as they are. */
  lemma StoredWithPrefix(env: Env, keyPhrase: Bytes, v: Bytes)
    requires Sound(env) && keyPhrase != []
    ensures v != [] ==>
              var stored := Value(env, keyPhrase, Some(v)).value.text;
              |stored| > 7 && stored[..7] == [0x57, 0x47, 0x5f, 0x45, 0x4e, 0x43, 0x5f]
    ensures Value(env, keyPhrase, Some([])) == Some(Ok([]))
    ensures Value(env, keyPhrase, None) == None && Scanned(env, keyPhrase, None) == Ok([])
  {
    if v != [] {
      PadLength(v);
      DecryptEncrypt(env, v, keyPhrase);
    }
  }

  /** Different texts are stored differently under one passphrase. */
  lemma StoredApart(env: Env, keyPhrase: Bytes, v: Bytes, w: Bytes)
    requires Sound(env) && v != w
    ensures Value(env, keyPhrase, Some(v)) != Value(env, keyPhrase, Some(w))
  {
    RoundTrip(env, keyPhrase, v);
    RoundTrip(env, keyPhrase, w);
  }

  /** A column written before encryption was switched on reads back exactly when it lacks the prefix. */
  lemma OldColumnsExact(env: Env, keyPhrase: Bytes, v: Bytes)
    requires Sound(env) && keyPhrase != []
    ensures Scanned(env, keyPhrase, Some(v)) == Ok(v) <==> !(PREFIX <= v)
  {
    if PREFIX <= v && DecryptAES256(env, v[|PREFIX|..], keyPhrase).Ok? {
      DecryptShrinks(env, v[|PREFIX|..], keyPhrase);
    }
  }

  lemma DecryptShrinks(env: Env, encrypted: Bytes, key: Bytes)
    requires Sound(env) && DecryptAES256(env, encrypted, key).Ok?
    ensures |DecryptAES256(env, encrypted, key).text| <= |encrypted|
  {
  }

  /** Once the passphrase is gone an encrypted column does not read back. */
  lemma LostPassphrase(env: Env, keyPhrase: Bytes, v: Bytes)
    requires Sound(env) && keyPhrase != [] && v != []
    ensures Scanned(env, [], Some(Value(env, keyPhrase, Some(v)).value.text)) != Ok(v)
  {
    RoundTrip(env, keyPhrase, v);
    PadLength(v);
  }
}
