/**
 * The authenticated-encryption command-line tool of crypto-tool.js.
 *
 * A key is derived from a passphrase with scrypt and a fixed salt, the text
 * is sealed with an AEAD cipher (AES-GCM by default) under a fresh 16-byte
 * IV, and the result travels as the envelope `hex(iv):hex(ciphertext):hex(tag)`.
 *
 * Everything the tool asks of Node's runtime (scrypt, the cipher and
 * decipher objects, UTF-8 conversion) is a function value in a `Runtime`;
 * the properties those library calls are trusted to have are predicates on
 * it, assumed only by the lemmas that need them.  The random IV is a
 * parameter.
 */
module CryptoTool {
  import opened Wrappers
  import Strings
  import Hex

  type Bytes = seq<Hex.Byte>

  /** The cipher used when the command line names none. */
  const DefaultAlgorithm: string := "aes-256-gcm"

  /** The key length initializeKey uses when given none. */
  const DefaultKeyLength: nat := 32

  /** The fixed scrypt salt. */
  const Salt: string := "salt"

  /** Bytes of IV drawn for every encryption. */
  const IvLength: nat := 16

  /** Bytes of authentication tag that GCM produces by default. */
  const TagLength: nat := 16

  /** The errors the tool throws; the comments give their messages. */
  datatype Error =
    | PrivateKeyRequired        // "Private key is required."
    | TextRequired              // "Text to encrypt is required."
    | EncryptedTextRequired     // "Encrypted text is required."
    | InvalidFormat             // "Invalid encrypted text format. Expected format: iv:encrypted:tag"
    | CryptoFailure(message: string)  // thrown by Node's crypto module

  /** What a cipher run yields: the concatenated update/final output and getAuthTag(). */
  datatype Sealed = Sealed(ciphertext: Bytes, tag: Bytes)

  /** The runtime services the tool calls. */
  datatype Runtime = Runtime(
    // crypto.scryptSync(password, salt, keyLength)
    scrypt: (string, string, nat) -> Bytes,
    // createCipheriv(algorithm, key, iv), update(plaintext), final(), getAuthTag()
    seal: (string, Bytes, Bytes, Bytes) -> Result<Sealed, string>,
    // createDecipheriv(algorithm, key, iv), setAuthTag(tag), update(ciphertext), final()
    open: (string, Bytes, Bytes, Bytes, Bytes) -> Result<Bytes, string>,
    // Buffer.from(text, 'utf8') and buf.toString('utf8')
    encodeUtf8: string -> Bytes,
    decodeUtf8: Bytes -> string)

  /** scrypt returns as many bytes as it is asked for. */
  ghost predicate ScryptSized(rt: Runtime) {
    forall password, salt, n :: |rt.scrypt(password, salt, n)| == n
  }

  /** The AEAD correctness property: opening what was sealed, under the same
      algorithm, key and IV and with the tag it produced, gives back the
      plaintext. */
  ghost predicate OpensWhatItSeals(rt: Runtime) {
    forall algorithm, key, iv, plain :: rt.seal(algorithm, key, iv, plain).Ok? ==>
      rt.open(algorithm, key, iv, rt.seal(algorithm, key, iv, plain).value.ciphertext,
              rt.seal(algorithm, key, iv, plain).value.tag) == Ok(plain)
  }

  /** Sealing produces full-length (16-byte) tags. */
  ghost predicate SealsFullTags(rt: Runtime) {
    forall algorithm, key, iv, plain :: rt.seal(algorithm, key, iv, plain).Ok? ==>
      |rt.seal(algorithm, key, iv, plain).value.tag| == TagLength
  }

  /** Decoding UTF-8 undoes encoding it. */
  ghost predicate Utf8RoundTrip(rt: Runtime) {
    forall text :: rt.decodeUtf8(rt.encodeUtf8(text)) == text
  }

  // ---------------------------------------------------------------------
  // Key derivation

  /** The key length main picks for an algorithm name: the '192' test comes
      first, then '256', and anything else gets 16 bytes. */
  function KeyLength(algorithm: string): (n: nat)
    ensures n == 16 || n == 24 || n == 32
    ensures n == 24 <==> Strings.Contains(algorithm, "192")
    ensures n == 32 <==> !Strings.Contains(algorithm, "192") && Strings.Contains(algorithm, "256")
  {
    if Strings.Contains(algorithm, "192") then 24
    else if Strings.Contains(algorithm, "256") then 32
    else 16
  }

  /** initializeKey: refuse an empty passphrase, else derive the key with
      scrypt and the fixed salt (32 bytes when no length is given). */
  function InitializeKey(rt: Runtime, privateKey: string, keyLength: Option<nat>): (r: Result<Bytes, Error>)
    ensures r.Err? <==> privateKey == ""
    ensures r.Err? ==> r.error == PrivateKeyRequired
    ensures r.Ok? ==> r.value == rt.scrypt(privateKey, Salt, keyLength.GetOr(DefaultKeyLength))
    ensures ScryptSized(rt) && r.Ok? ==> |r.value| == keyLength.GetOr(DefaultKeyLength)
  {
    if privateKey == "" then Err(PrivateKeyRequired)
    else Ok(rt.scrypt(privateKey, Salt, keyLength.GetOr(DefaultKeyLength)))
  }

  // ---------------------------------------------------------------------
  // The envelope

  /** The envelope `hex(iv):hex(ciphertext):hex(tag)`; it splits on ':' into
      exactly the three hex fields, because hex never contains ':'. */
  function FormatEnvelope(iv: Bytes, ciphertext: Bytes, tag: Bytes): (s: string)
    ensures s != []
    ensures Strings.Split(s, ':') == [Hex.Encode(iv), Hex.Encode(ciphertext), Hex.Encode(tag)]
  {
    NoColonInHex(iv);
    NoColonInHex(ciphertext);
    NoColonInHex(tag);
    SplitThree(Hex.Encode(iv), Hex.Encode(ciphertext), Hex.Encode(tag));
    Hex.Encode(iv) + ":" + Hex.Encode(ciphertext) + ":" + Hex.Encode(tag)
  }

  /** Three colon-free fields joined with ':' split back into themselves. */
  lemma SplitThree(a: string, b: string, c: string)
    requires ':' !in a && ':' !in b && ':' !in c
    ensures Strings.Split(a + ":" + b + ":" + c, ':') == [a, b, c]
  {
    assert a + ":" + b + ":" + c == a + [':'] + (b + [':'] + c);
    Strings.SplitFirst(a, b + [':'] + c, ':');
    Strings.SplitFirst(b, c, ':');
    Strings.SplitNoSeparator(c, ':');
  }

  /** The parsing half of decrypt: refuse an empty input, refuse anything
      that does not split into three fields, and hex-decode the fields. */
  function ParseEnvelope(text: string): (r: Result<(Bytes, Bytes, Bytes), Error>)
    ensures text == "" ==> r == Err(EncryptedTextRequired)
    ensures text != "" ==> (r.Err? <==> Strings.Count(text, ':') != 2)
    ensures text != "" && r.Err? ==> r.error == InvalidFormat
    ensures r.Ok? ==>
      var parts := Strings.Split(text, ':');
      |parts| == 3 && r.value == (Hex.Decode(parts[0]), Hex.Decode(parts[1]), Hex.Decode(parts[2]))
  {
    if text == "" then Err(EncryptedTextRequired)
    else
      var parts := Strings.Split(text, ':');
      if |parts| != 3 then Err(InvalidFormat)
      else Ok((Hex.Decode(parts[0]), Hex.Decode(parts[1]), Hex.Decode(parts[2])))
  }

  lemma NoColonInHex(b: Bytes)
    ensures ':' !in Hex.Encode(b)
  {
    var s := Hex.Encode(b);
    Hex.EncodeLowerHex(b);
    forall i | 0 <= i < |s| ensures s[i] != ':' {
      assert Hex.IsLowerHexDigit(s[i]);
    }
  }

  /** Round trip: parsing a formatted envelope recovers its three fields. */
  lemma ParseFormat(iv: Bytes, ciphertext: Bytes, tag: Bytes)
    ensures ParseEnvelope(FormatEnvelope(iv, ciphertext, tag)) == Ok((iv, ciphertext, tag))
  {
    var s := FormatEnvelope(iv, ciphertext, tag);
    assert Strings.Count(s, ':') == 2;
    Hex.DecodeEncode(iv);
    Hex.DecodeEncode(ciphertext);
    Hex.DecodeEncode(tag);
  }

  // ---------------------------------------------------------------------
  // encrypt and decrypt

  /** encrypt: refuse empty text, seal its UTF-8 bytes under `iv`, and
      format the envelope.  `iv` stands for crypto.randomBytes(16). */
  function Encrypt(rt: Runtime, text: string, key: Bytes, iv: Bytes, algorithm: Option<string>)
    : (r: Result<string, Error>)
    requires |iv| == IvLength
    ensures text == "" ==> r == Err(TextRequired)
    ensures text != "" ==>
      (r.Ok? <==> rt.seal(algorithm.GetOr(DefaultAlgorithm), key, iv, rt.encodeUtf8(text)).Ok?)
    ensures r.Ok? ==>
      var sealed := rt.seal(algorithm.GetOr(DefaultAlgorithm), key, iv, rt.encodeUtf8(text)).value;
      ParseEnvelope(r.value) == Ok((iv, sealed.ciphertext, sealed.tag))
    ensures r.Ok? ==>
      var fields := Strings.Split(r.value, ':');
      |fields| == 3 && |fields[0]| == 2 * IvLength &&
      Hex.IsLowerHex(fields[0]) && Hex.IsLowerHex(fields[1]) && Hex.IsLowerHex(fields[2])
    ensures SealsFullTags(rt) && r.Ok? ==> |Strings.Split(r.value, ':')[2]| == 2 * TagLength
    ensures r.Ok? ==>
      var sealed := rt.seal(algorithm.GetOr(DefaultAlgorithm), key, iv, rt.encodeUtf8(text)).value;
      Strings.Split(r.value, ':') == [Hex.Encode(iv), Hex.Encode(sealed.ciphertext), Hex.Encode(sealed.tag)]
    ensures text != "" && rt.seal(algorithm.GetOr(DefaultAlgorithm), key, iv, rt.encodeUtf8(text)).Err? ==>
      r == Err(CryptoFailure(rt.seal(algorithm.GetOr(DefaultAlgorithm), key, iv, rt.encodeUtf8(text)).error))
  {
    if text == "" then Err(TextRequired)
    else
      match rt.seal(algorithm.GetOr(DefaultAlgorithm), key, iv, rt.encodeUtf8(text))
      case Err(message) => Err(CryptoFailure(message))
      case Ok(sealed) =>
        ParseFormat(iv, sealed.ciphertext, sealed.tag);
        Hex.EncodeLowerHex(iv);
        Hex.EncodeLowerHex(sealed.ciphertext);
        Hex.EncodeLowerHex(sealed.tag);
        Ok(FormatEnvelope(iv, sealed.ciphertext, sealed.tag))
  }

  /** decrypt: parse the envelope, open the ciphertext with the tag, and
      decode the plaintext bytes as UTF-8. */
  function Decrypt(rt: Runtime, encryptedText: string, key: Bytes, algorithm: Option<string>)
    : (r: Result<string, Error>)
    ensures encryptedText == "" ==> r == Err(EncryptedTextRequired)
    ensures encryptedText != "" && Strings.Count(encryptedText, ':') != 2 ==> r == Err(InvalidFormat)
    ensures r.Ok? <==>
      ParseEnvelope(encryptedText).Ok? &&
      var (iv, ciphertext, tag) := ParseEnvelope(encryptedText).value;
      rt.open(algorithm.GetOr(DefaultAlgorithm), key, iv, ciphertext, tag).Ok?
    ensures ParseEnvelope(encryptedText).Ok? ==>
      var (iv, ciphertext, tag) := ParseEnvelope(encryptedText).value;
      var unsealed := rt.open(algorithm.GetOr(DefaultAlgorithm), key, iv, ciphertext, tag);
      r == (if unsealed.Ok? then Ok(rt.decodeUtf8(unsealed.value)) else Err(CryptoFailure(unsealed.error)))
  {
    match ParseEnvelope(encryptedText)
    case Err(e) => Err(e)
    case Ok((iv, ciphertext, tag)) =>
      match rt.open(algorithm.GetOr(DefaultAlgorithm), key, iv, ciphertext, tag)
      case Err(message) => Err(CryptoFailure(message))
      case Ok(plain) => Ok(rt.decodeUtf8(plain))
  }

  /** Round trip: with a correct cipher and UTF-8 codec, decrypting what
      encrypt produced, with the same key and algorithm, gives the text back. */
  lemma EncryptDecrypt(rt: Runtime, text: string, key: Bytes, iv: Bytes, algorithm: Option<string>)
    requires |iv| == IvLength
    requires OpensWhatItSeals(rt) && Utf8RoundTrip(rt)
    ensures Encrypt(rt, text, key, iv, algorithm).Ok? ==>
      Decrypt(rt, Encrypt(rt, text, key, iv, algorithm).value, key, algorithm) == Ok(text)
  {
    var alg := algorithm.GetOr(DefaultAlgorithm);
    var plain := rt.encodeUtf8(text);
    if text != "" && rt.seal(alg, key, iv, plain).Ok? {
      var sealed := rt.seal(alg, key, iv, plain).value;
      var envelope := Encrypt(rt, text, key, iv, algorithm).value;
      assert ParseEnvelope(envelope) == Ok((iv, sealed.ciphertext, sealed.tag));
      assert rt.open(alg, key, iv, sealed.ciphertext, sealed.tag) == Ok(plain);
    }
  }

  /** An envelope with only two fields is refused as malformed. */
  lemma OnlyTwoFieldsRejected(rt: Runtime, key: Bytes, algorithm: Option<string>)
    ensures Decrypt(rt, "only:two", key, algorithm) == Err(InvalidFormat)
  {
    var s := "only:two";
    assert s == "only" + [':'] + "two";
    assert ':' !in "only" && ':' !in "two";
    Strings.SplitFirst("only", "two", ':');
    Strings.SplitNoSeparator("two", ':');
  }

  // ---------------------------------------------------------------------
  // main

  /** How a run of the tool ends. */
  datatype Outcome =
    | Usage                      // wrong argument count: usage text
    | InvalidOperation           // an operation other than encrypt/decrypt
    | Failed(error: Error)       // an error caught by main: "Error: <message>"
    | Encrypted(envelope: string)
    | Decrypted(text: string)

  /** The status the process exits with. */
  function ExitStatus(o: Outcome): (status: int)
    ensures status == 0 || status == 1
    ensures status == 0 <==> o.Encrypted? || o.Decrypted?
  {
    match o
    case Encrypted(_) => 0
    case Decrypted(_) => 0
    case _ => 1
  }

  /** The algorithm main uses: the fourth argument unless it is missing or empty. */
  function SelectedAlgorithm(args: seq<string>): (algorithm: string)
    ensures |args| >= 4 && args[3] != "" ==> algorithm == args[3]
    ensures |args| < 4 || args[3] == "" ==> algorithm == DefaultAlgorithm
  {
    if |args| >= 4 && args[3] != "" then args[3] else DefaultAlgorithm
  }

  /** main on the arguments after the script name: check the count, derive
      the key for the selected algorithm, then dispatch on the operation.
      `iv` stands for the random bytes encrypt would draw. */
  function Run(rt: Runtime, args: seq<string>, iv: Bytes): (o: Outcome)
    requires |iv| == IvLength
    ensures !(3 <= |args| <= 4) ==> o == Usage
    ensures 3 <= |args| <= 4 && args[1] == "" ==> o == Failed(PrivateKeyRequired)
    ensures 3 <= |args| <= 4 && args[0] != "encrypt" && args[0] != "decrypt" ==>
      ExitStatus(o) == 1 && (o == InvalidOperation || o == Failed(PrivateKeyRequired))
    ensures ExitStatus(o) == 0 ==>
      3 <= |args| <= 4 && args[1] != "" && (args[0] == "encrypt" || args[0] == "decrypt")
    ensures o.Encrypted? ==>
      var algorithm := SelectedAlgorithm(args);
      var key := rt.scrypt(args[1], Salt, KeyLength(algorithm));
      args[0] == "encrypt" && Encrypt(rt, args[2], key, iv, Some(algorithm)) == Ok(o.envelope)
    ensures o.Decrypted? ==>
      var algorithm := SelectedAlgorithm(args);
      var key := rt.scrypt(args[1], Salt, KeyLength(algorithm));
      args[0] == "decrypt" && Decrypt(rt, args[2], key, Some(algorithm)) == Ok(o.text)
    ensures 3 <= |args| <= 4 && args[1] != "" && args[0] == "encrypt" ==>
      var algorithm := SelectedAlgorithm(args);
      var key := rt.scrypt(args[1], Salt, KeyLength(algorithm));
      var r := Encrypt(rt, args[2], key, iv, Some(algorithm));
      o == (if r.Ok? then Encrypted(r.value) else Failed(r.error))
    ensures 3 <= |args| <= 4 && args[1] != "" && args[0] == "decrypt" ==>
      var algorithm := SelectedAlgorithm(args);
      var key := rt.scrypt(args[1], Salt, KeyLength(algorithm));
      var r := Decrypt(rt, args[2], key, Some(algorithm));
      o == (if r.Ok? then Decrypted(r.value) else Failed(r.error))
    ensures 3 <= |args| <= 4 && args[1] != "" && args[0] != "encrypt" && args[0] != "decrypt" ==>
      o == InvalidOperation
  {
    if |args| < 3 || |args| > 4 then Usage
    else
      var operation, privateKey, text := args[0], args[1], args[2];
      var algorithm := SelectedAlgorithm(args);
      match InitializeKey(rt, privateKey, Some(KeyLength(algorithm)))
      case Err(e) => Failed(e)
      case Ok(key) =>
        if operation == "encrypt" then
          match Encrypt(rt, text, key, iv, Some(algorithm))
          case Err(e) => Failed(e)
          case Ok(envelope) => Encrypted(envelope)
        else if operation == "decrypt" then
          match Decrypt(rt, text, key, Some(algorithm))
          case Err(e) => Failed(e)
          case Ok(plain) => Decrypted(plain)
        else
          InvalidOperation
  }

  /** End to end: whatever `encrypt <passphrase> <text> [algorithm]` prints,
      `decrypt <passphrase> <envelope> [algorithm]` turns back into the text,
      whatever IV the second run would have drawn. */
  lemma RunRoundTrip(rt: Runtime, passphrase: string, text: string, optAlgorithm: seq<string>,
                     iv: Bytes, otherIv: Bytes)
    requires |optAlgorithm| <= 1 && |iv| == IvLength && |otherIv| == IvLength
    requires OpensWhatItSeals(rt) && Utf8RoundTrip(rt)
    ensures Run(rt, ["encrypt", passphrase, text] + optAlgorithm, iv).Encrypted? ==>
      Run(rt, ["decrypt", passphrase, Run(rt, ["encrypt", passphrase, text] + optAlgorithm, iv).envelope]
              + optAlgorithm, otherIv)
      == Decrypted(text)
  {
    var encArgs := ["encrypt", passphrase, text] + optAlgorithm;
    var o := Run(rt, encArgs, iv);
    if o.Encrypted? {
      var decArgs := ["decrypt", passphrase, o.envelope] + optAlgorithm;
      assert encArgs[..3] == ["encrypt", passphrase, text];
      assert decArgs[..3] == ["decrypt", passphrase, o.envelope];
      var alg := SelectedAlgorithm(encArgs);
      assert SelectedAlgorithm(decArgs) == alg;
      var key := rt.scrypt(passphrase, Salt, KeyLength(alg));
      assert Encrypt(rt, text, key, iv, Some(alg)) == Ok(o.envelope);
      EncryptDecrypt(rt, text, key, iv, Some(alg));
      assert Decrypt(rt, o.envelope, key, Some(alg)) == Ok(text);
    }
  }

  /** An encrypt call with a passphrase and a text, whose sealing succeeds,
      prints an envelope and exits with status 0. */
  lemma RunEncryptSucceeds(rt: Runtime, passphrase: string, text: string, optAlgorithm: seq<string>,
                           iv: Bytes)
    requires |optAlgorithm| <= 1 && |iv| == IvLength
    requires passphrase != "" && text != ""
    requires
      var alg := SelectedAlgorithm(["encrypt", passphrase, text] + optAlgorithm);
      rt.seal(alg, rt.scrypt(passphrase, Salt, KeyLength(alg)), iv, rt.encodeUtf8(text)).Ok?
    ensures Run(rt, ["encrypt", passphrase, text] + optAlgorithm, iv).Encrypted?
    ensures ExitStatus(Run(rt, ["encrypt", passphrase, text] + optAlgorithm, iv)) == 0
  {
    var args := ["encrypt", passphrase, text] + optAlgorithm;
    assert args[..3] == ["encrypt", passphrase, text];
  }

  /** The key main derives has the length its algorithm needs: 32 bytes for
      the default aes-256-gcm, 24 for aes-192-gcm, 16 for aes-128-gcm. */
  lemma KeyLengthOfAlgorithms()
    ensures KeyLength(DefaultAlgorithm) == 32
    ensures KeyLength("aes-192-gcm") == 24
    ensures KeyLength("aes-128-gcm") == 16
  {
    var d, m, s := DefaultAlgorithm, "aes-192-gcm", "aes-128-gcm";
    assert Strings.OccursAt(d, "256", 4);
    assert Strings.OccursAt(m, "192", 4);
    NotContains(d, "192");
    NotContains(s, "192");
    NotContains(s, "256");
  }

  /** A name in which `t` starts nowhere does not contain it. */
  lemma NotContains(s: string, t: string)
    requires |t| == 3
    requires forall i :: 0 <= i <= |s| - 3 ==> s[i] != t[0] || s[i + 1] != t[1] || s[i + 2] != t[2]
    ensures !Strings.Contains(s, t)
  {
    forall i | 0 <= i <= |s| - |t| ensures !Strings.OccursAt(s, t, i) {
      var w := s[i..i + |t|];
      assert w[0] == s[i] && w[1] == s[i + 1] && w[2] == s[i + 2];
    }
  }
}
