/** The authenticated-encryption wrapper of the garbling scheme: `enc` prepends a
    12-byte nonce to an AES-GCM sealed body and `dec` splits it back off.

    AES-GCM itself is not modelled. It is an abstract `Cipher`: a pair of functions
    `seal(key, nonce, plaintext)` and `open(key, nonce, body)`, and all that the
    scheme relies on is the predicate `Authenticated`: opening under the sealing
    key recovers the plaintext, and opening under any other key fails. */
module AuthCipher {

  type Byte = bv8
  type Bytes = seq<Byte>

  /** Length of the GCM nonce that `enc` generates (96 bits). */
  const NonceSize: nat := 12

  datatype Option<T> = None | Some(value: T)

  /** Key lengths `aes.NewCipher` accepts; any other length makes `enc`/`dec` panic. */
  predicate AesKeySize(n: nat) {
    n == 16 || n == 24 || n == 32
  }

  /** An authenticated cipher, given by its sealing and opening functions
      (AES-GCM's `Seal` and `Open`, with no additional data). */
  datatype Cipher = Cipher(seal: (Bytes, Bytes, Bytes) -> Bytes,
                           open: (Bytes, Bytes, Bytes) -> Option<Bytes>)

  /** The two properties the scheme assumes of AES-GCM: a sealed body opens under
      its key and nonce to the plaintext, and does not open under another key. */
  ghost predicate Authenticated(c: Cipher) {
    && (forall k, n, p :: c.open(k, n, c.seal(k, n, p)) == Some(p))
    && (forall k, k', n, p :: k' != k ==> c.open(k', n, c.seal(k, n, p)) == None)
  }

  /** `enc` with the random nonce passed in: the nonce followed by the sealed body. */
  function Enc(c: Cipher, key: Bytes, nonce: Bytes, plaintext: Bytes): (r: Bytes)
    requires AesKeySize(|key|) && |nonce| == NonceSize
    ensures |r| >= NonceSize && r[..NonceSize] == nonce
  {
    nonce + c.seal(key, nonce, plaintext)
  }

  /** `dec`: the first 12 bytes are the nonce, the rest is opened under `key`;
      `None` stands for the error `Open` returns when authentication fails. */
  function Dec(c: Cipher, key: Bytes, ciphertext: Bytes): (r: Option<Bytes>)
    requires AesKeySize(|key|) && |ciphertext| >= NonceSize
    ensures forall nonce, body | |nonce| == NonceSize && ciphertext == nonce + body ::
      r == c.open(key, nonce, body)
  {
    c.open(key, ciphertext[..NonceSize], ciphertext[NonceSize..])
  }

  /** Framing round trip: `dec(k, enc(k, p)) == p`. */
  lemma DecEnc(c: Cipher, key: Bytes, nonce: Bytes, plaintext: Bytes)
    requires Authenticated(c)
    requires AesKeySize(|key|) && |nonce| == NonceSize
    ensures Dec(c, key, Enc(c, key, nonce, plaintext)) == Some(plaintext)
  {
    var ct := Enc(c, key, nonce, plaintext);
    assert ct[NonceSize..] == c.seal(key, nonce, plaintext);
  }

  /** A ciphertext made under one key fails to decrypt under any other key. */
  lemma DecEncWrongKey(c: Cipher, key: Bytes, key': Bytes, nonce: Bytes, plaintext: Bytes)
    requires Authenticated(c)
    requires AesKeySize(|key|) && AesKeySize(|key'|) && |nonce| == NonceSize
    requires key' != key
    ensures Dec(c, key', Enc(c, key, nonce, plaintext)) == None
  {
    var ct := Enc(c, key, nonce, plaintext);
    assert ct[NonceSize..] == c.seal(key, nonce, plaintext);
  }

  // A concrete cipher satisfying `Authenticated`, which shows that the two
  // assumed properties are consistent. It hides nothing: the sealed body is a
  // prefix-free encoding of the key followed by the plaintext.

  /** |k| ones, a zero, then the key: no tag is a proper prefix of another. */
  function KeyTag(k: Bytes): (t: Bytes)
    ensures |t| == 2 * |k| + 1
    ensures forall j :: 0 <= j < |k| ==> t[j] == 1
    ensures t[|k|] == 0 && t[|k| + 1..] == k
  {
    seq(|k|, _ => 1) + [0] + k
  }

  function ToySeal(k: Bytes, n: Bytes, p: Bytes): Bytes {
    KeyTag(k) + p
  }

  function ToyOpen(k: Bytes, n: Bytes, body: Bytes): Option<Bytes> {
    var t := KeyTag(k);
    if |t| <= |body| && body[..|t|] == t then Some(body[|t|..]) else None
  }

  function ToyCipher(): Cipher {
    Cipher(ToySeal, ToyOpen)
  }

  /** The tag of one key never begins the tag of another key followed by anything. */
  lemma KeyTagPrefixFree(k: Bytes, k': Bytes, p: Bytes)
    requires k' != k
    ensures var s := KeyTag(k) + p;
            !(|KeyTag(k')| <= |s| && s[..|KeyTag(k')|] == KeyTag(k'))
  {
    var s, t, t' := KeyTag(k) + p, KeyTag(k), KeyTag(k');
    // d: a position where the two tags differ
    var d: nat;
    if |k'| < |k| {
      d := |k'|;
    } else if |k| < |k'| {
      d := |k|;
    } else {
      var j :| 0 <= j < |k| && k[j] != k'[j];
      assert t[|k| + 1 + j] == k[j] && t'[|k| + 1 + j] == k'[j];
      d := |k| + 1 + j;
    }
    assert d < |t| && d < |t'| && s[d] == t[d] != t'[d];
  }

  lemma ToyCipherAuthenticated()
    ensures Authenticated(ToyCipher())
  {
    var c := ToyCipher();
    forall k, n, p ensures c.open(k, n, c.seal(k, n, p)) == Some(p) {
      var s := KeyTag(k) + p;
      assert s[..|KeyTag(k)|] == KeyTag(k);
      assert s[|KeyTag(k)|..] == p;
    }
    forall k, k', n, p | k' != k ensures c.open(k', n, c.seal(k, n, p)) == None {
      KeyTagPrefixFree(k, k', p);
    }
  }
}
