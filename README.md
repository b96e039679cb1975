# Substitution cipher and AEAD command-line tool, modelled in Dafny

This project models two small programs from the utility-arsenal repository.

- **The monoalphabetic substitution cipher** (`substitution-cipher/index.js`).
  - `encryptText` looks every character up in `A-Z`, then in `a-z`. It replaces the character with the one at the same position of a custom alphabet, or of that alphabet's lower-case form. Anything else passes through.
  - `decryptText` looks the character up in the custom alphabet first, then in its lower-case form, and maps it back.
  - The program reads the custom alphabet from its environment, with the default `QWERTYUIOPASDFGHJKLZXCVBNM`. Here it is an explicit parameter.
  - The model keeps JavaScript's behaviour for custom alphabets that are not 26 distinct capitals. An index past the end yields `undefined`, and `join('')` renders that as nothing. So a character can vanish, and `indexOf` finds a repeated character's first occurrence.
  - The model proves:
    - length preservation;
    - pass-through of non-letters;
    - preservation of case;
    - distribution over concatenation;
    - the two round trips, for any custom alphabet that is a rearrangement of `A-Z`;
    - that the default alphabet is such a rearrangement.
- **The authenticated-encryption tool** (`crypto-tool.js`).
  - `initializeKey` refuses an empty passphrase and derives a key with scrypt and the fixed salt `"salt"`.
  - `encrypt` refuses empty text, seals its UTF-8 bytes under a 16-byte IV, and writes the envelope `hex(iv):hex(ciphertext):hex(tag)`.
  - `decrypt` refuses empty input and anything that does not split on `:` into exactly three fields. It then hex-decodes the fields the way Node's `Buffer.from(s, 'hex')` does: it stops silently at the first pair that is not two hex digits. Finally it opens the ciphertext.
  - `main` checks the argument count and picks the algorithm: the fourth argument or `aes-256-gcm`. It picks the key length: 24 if the name contains `192`, else 32 if it contains `256`, else 16. Then it dispatches on the operation.

The Node runtime services are fields of a `Runtime` value that every operation takes as a parameter:
- `crypto.scryptSync`;
- the cipher and decipher objects (`update`, `final`, `getAuthTag`, `setAuthTag`);
- UTF-8 conversion.

The properties those library calls are trusted to have are ghost predicates on the `Runtime`:
- opening what was sealed gives back the plaintext;
- UTF-8 decoding undoes encoding;
- scrypt returns the requested length;
- tags are 16 bytes.

Only the lemmas that rely on one of these take it as a precondition; nothing is assumed globally. The random IV is a parameter of `Encrypt` and `Run`.

Modules:
- `Wrappers`: `Option` and `Result`.
- `Strings`: JavaScript's `split`, `join` and `includes`.
- `Hex`: Node's hex codec.
- `SubstitutionCipher`.
- `CryptoTool`.

All code is pure functions with lemmas, as in the source: no loops and no mutable state.

Where the design description of the tool and the code differ, the model follows the code:
- The design names an `UnsupportedVariant` error that is raised before key derivation. The code has none. An unknown algorithm name gets a 16-byte key, and only the cipher constructor fails; the model reports that as `CryptoFailure`.
- The design says invalid hex in an envelope is refused as malformed. The code never refuses it: decoding truncates (`Hex.DecodeTruncates`).
- The design says a wrong argument count is an `InvalidInput` error. The code prints the usage text and exits with status 1 (`Outcome.Usage`).

## Model

| member | source | states |
|---|---|---|
| SubstitutionCipher.AlphabetsSpelledOut | substitution-cipher/index.js:6-7 | the standard alphabets are `A..Z` and `a..z`, and the lower-case one is the `toLowerCase` of the upper-case one |
| SubstitutionCipher.DefaultIsPermutation | substitution-cipher/index.js:10 | the default custom alphabet `QWERTYUIOPASDFGHJKLZXCVBNM` is a rearrangement (equal multiset) of `A-Z` |
| SubstitutionCipher.DefaultCovers | substitution-cipher/index.js:10 | the default alphabet has 26 characters and contains every capital letter |
| SubstitutionCipher.ToLower | substitution-cipher/index.js:7 | `toLowerCase` keeps the length and lowers each ASCII capital by 32, leaving every other character |
| SubstitutionCipher.IndexOf | substitution-cipher/index.js:22 | `indexOf` is -1 exactly when the character is absent; otherwise it is a position holding it, with no earlier occurrence |
| SubstitutionCipher.UpperIndex | substitution-cipher/index.js:22 | a character's index in `A-Z` is its distance from `A` for a capital, else -1 |
| SubstitutionCipher.LowerIndex | substitution-cipher/index.js:28 | a character's index in `a-z` is its distance from `a` for a small letter, else -1 |
| SubstitutionCipher.EncryptChar | substitution-cipher/index.js:21-34 | a capital at index i becomes `custom[i]`, a small letter at index i becomes `custom.toLowerCase()[i]` (nothing when past the end), and any other character stays; exactly one character when the alphabet has 26 or more |
| SubstitutionCipher.DecryptChar | substitution-cipher/index.js:46-59 | a character of the custom alphabet becomes the standard capital at its first index; otherwise one of the lowered alphabet becomes the standard small letter at its first index; anything else stays; exactly one character when the alphabet has at most 26 |
| SubstitutionCipher.EncryptText | substitution-cipher/index.js:18-36 | the result is never longer than the text, and has the same length for an alphabet of 26 or more characters |
| SubstitutionCipher.DecryptText | substitution-cipher/index.js:43-61 | the result is never longer than the text, and has the same length for an alphabet of at most 26 characters |
| SubstitutionCipher.EncryptTextAt | substitution-cipher/index.js:22-33 | position k of the ciphertext: `custom[i]` for a capital at alphabet index i, the lower-case of `custom[i]` for a small letter, the character itself otherwise |
| SubstitutionCipher.DecryptTextAt | substitution-cipher/index.js:47-58 | position k of the plaintext: the standard letter at the first position of text[k] in the custom alphabet (or its lower-case form), or text[k] itself when it is in neither |
| SubstitutionCipher.EncryptTextAppend | substitution-cipher/index.js:19-35 | `encryptText(a + b) == encryptText(a) + encryptText(b)` |
| SubstitutionCipher.DecryptTextAppend | substitution-cipher/index.js:44-60 | `decryptText(a + b) == decryptText(a) + decryptText(b)` |
| SubstitutionCipher.PermutationFacts | substitution-cipher/index.js:10 | a rearrangement of `A-Z` has 26 characters, all capitals, each capital once |
| SubstitutionCipher.LowerPermutationFacts | substitution-cipher/index.js:11 | the lower-case form of a rearrangement of `A-Z` holds only small letters, each small letter once |
| SubstitutionCipher.DecryptEncryptChar | substitution-cipher/index.js:21-34 | under a rearranged alphabet, each character encrypts to one character that decrypts back to it |
| SubstitutionCipher.EncryptDecryptChar | substitution-cipher/index.js:46-59 | under a rearranged alphabet, each character decrypts to one character that encrypts back to it |
| SubstitutionCipher.DecryptEncrypt | substitution-cipher/index.js:18-61 | `decryptText(encryptText(s)) == s` for every text when the custom alphabet is a rearrangement of `A-Z` |
| SubstitutionCipher.EncryptDecrypt | substitution-cipher/index.js:18-61 | `encryptText(decryptText(s)) == s` for every text when the custom alphabet is a rearrangement of `A-Z` |
| SubstitutionCipher.EncryptPreservesCase | substitution-cipher/index.js:22-33 | under a rearranged alphabet, encryption keeps the length, maps capitals to capitals and small letters to small letters (both directions), and leaves non-letters in place |
| SubstitutionCipher.DecryptPreservesCase | substitution-cipher/index.js:47-58 | under a rearranged alphabet, decryption keeps the length, maps capitals to capitals and small letters to small letters (both directions), and leaves non-letters in place |
| Strings.Split | crypto-tool.js:82 | `split(':')` yields one more piece than there are separators, no piece holds the separator, and joining the pieces gives the input back |
| Strings.SplitJoin | crypto-tool.js:82 | splitting the join of separator-free pieces gives the pieces back |
| Strings.SplitFirst | crypto-tool.js:82 | a separator-free prefix followed by the separator splits off as the first piece |
| Strings.SplitNoSeparator | crypto-tool.js:82 | a string without the separator splits into itself alone |
| Hex.Encode | crypto-tool.js:67 | `toString('hex')` writes two characters per byte |
| Hex.EncodeLowerHex | crypto-tool.js:67 | every character of an encoding is a lower-case hexadecimal digit |
| Hex.Decode | crypto-tool.js:88-90 | `Buffer.from(s, 'hex')` yields at most one byte per two characters |
| Hex.DecodeAfterEncode | crypto-tool.js:67-90 | decoding an encoding followed by anything yields exactly the encoded bytes, then whatever the rest decodes to |
| Hex.DecodeEncode | crypto-tool.js:67-90 | decoding an encoding gives the bytes back |
| Hex.DecodeTruncates | crypto-tool.js:88-90 | after an encoding, text that does not begin with two hex digits is silently dropped |
| Hex.EncodeDecode | crypto-tool.js:67-90 | a lower-case hex string of even length decodes to half as many bytes and encodes back to itself |
| CryptoTool.KeyLength | crypto-tool.js:119 | the key length is 16, 24 or 32; 24 exactly when the name contains `192`; 32 exactly when it does not contain `192` but contains `256` |
| CryptoTool.KeyLengthOfAlgorithms | crypto-tool.js:117-119 | `aes-256-gcm` (the default) gets 32 bytes, `aes-192-gcm` 24 and `aes-128-gcm` 16 |
| CryptoTool.InitializeKey | crypto-tool.js:36-43 | fails, with "Private key is required.", exactly on an empty passphrase; otherwise the key is scrypt of the passphrase with salt `"salt"` and the given length (default 32), and has that length when scrypt honours it |
| CryptoTool.FormatEnvelope | crypto-tool.js:67 | the envelope is non-empty and splits on `:` into exactly the hex of iv, ciphertext and tag |
| CryptoTool.NoColonInHex | crypto-tool.js:67 | hex output never contains `:` |
| CryptoTool.SplitThree | crypto-tool.js:67 | three colon-free fields joined by `:` split back into those three fields |
| CryptoTool.ParseEnvelope | crypto-tool.js:78-90 | an empty input gives "Encrypted text is required."; otherwise parsing fails exactly when the input does not hold exactly two colons, and then with the invalid-format error; on success the input splits into three fields and the result is `Buffer.from(field, 'hex')` of each |
| CryptoTool.ParseFormat | crypto-tool.js:67-90 | parsing `hex(iv):hex(ct):hex(tag)` gives back iv, ct and tag |
| CryptoTool.Encrypt | crypto-tool.js:52-68 | empty text gives "Text to encrypt is required."; otherwise it succeeds exactly when the cipher does, and a cipher error is passed on as `CryptoFailure`. On success the envelope splits on `:` into exactly the hex of the IV, the ciphertext and the tag, all lower-case, the first 32 characters long (the tag field too, for 16-byte tags), and parses back to those three |
| CryptoTool.Decrypt | crypto-tool.js:77-101 | empty input gives "Encrypted text is required."; a colon count other than two gives the invalid-format error; once the envelope parses, the result is the UTF-8 decoding of what the decipher returns for the decoded IV, ciphertext and tag, or `CryptoFailure` with the decipher's error; it succeeds exactly when the envelope parses and the decipher accepts it |
| CryptoTool.EncryptDecrypt | crypto-tool.js:52-101 | with a correct cipher and UTF-8 codec, decrypting what encrypt produced under the same key and algorithm gives the text back |
| CryptoTool.OnlyTwoFieldsRejected | crypto-tool.js:82-85 | `decrypt("only:two", …)` fails with the invalid-format error |
| CryptoTool.ExitStatus | crypto-tool.js:109-137 | the process exits with 0 or 1, and with 0 exactly after a successful encrypt or decrypt |
| CryptoTool.SelectedAlgorithm | crypto-tool.js:117-118 | the fourth argument when present and non-empty, else `aes-256-gcm` |
| CryptoTool.Run | crypto-tool.js:106-138 | a count outside 3..4 gives the usage path; with a valid count, an empty passphrase fails before dispatch; with a non-empty passphrase, `encrypt` gives exactly Encrypt's outcome (envelope or error) and `decrypt` exactly Decrypt's, for the third argument under the key scrypt derives for the selected algorithm's length, and any other operation gives the invalid-operation exit; exit 0 only for a valid count, non-empty passphrase and known operation |
| CryptoTool.RunEncryptSucceeds | crypto-tool.js:116-125 | an `encrypt` call with a non-empty passphrase and text, whose sealing succeeds, prints an envelope and exits with status 0 |
| CryptoTool.RunRoundTrip | crypto-tool.js:106-138 | whatever `encrypt <passphrase> <text> [algorithm]` outputs, `decrypt <passphrase> <envelope> [algorithm]` turns back into the text, whatever IV the second run draws |

## Left out

- Console output, the usage text and `process.exit` are not modelled. `main`'s result is an `Outcome` value, and `ExitStatus` gives its exit code.
- The readFile, encryptFile and decryptFile helpers, `main` of substitution-cipher/index.js, `path.resolve` and `dotenv` are left out. They are file and environment I/O. The custom alphabet is a parameter instead of `process.env.CUSTOM_ALPHABET_UPPER_CASE`.
- `crypto.randomBytes(16)` is left out because it is randomness. The IV is a 16-byte parameter.
- scryptSync, AES-GCM, and tag verification are abstract functions of a `Runtime`. Tamper detection is a cryptographic assumption, not a property of this code, so nothing is claimed about it.
- A key of the wrong length for the cipher is not reported as its own error. In the code that check happens inside Node's cipher constructor, so the model reports it as `CryptoFailure`.
- UTF-8 conversion of text to bytes goes through `Runtime.encodeUtf8` and `Runtime.decodeUtf8`. Their correctness is the `Utf8RoundTrip` predicate.
- `toLowerCase` is modelled for ASCII only (`LowerChar`). Non-ASCII capitals in a custom alphabet read from the environment would be lowered differently by JavaScript.
- Surrogate pairs are not modelled. `split('')` and the indexing of the custom alphabets work on UTF-16 code units, but a Dafny `char` is a Unicode scalar value. For a text, this only matters for characters outside the Basic Multilingual Plane, which are not letters and pass through either way. For a custom alphabet that holds such a character, JavaScript shifts every later index by one: with `"😀BCDEFGHIJKLMNOPQRSTUVWXYZ"`, `encryptText("AB")` yields the two halves of `😀`, while `EncryptText` yields `😀B`. The model does not capture this.
- Non-ASCII characters in hex input are treated simply as non-hex characters.
- base64.js is not part of this model. It adds only Buffer's base64 codec and console I/O.
- generate-api-key.js is not part of this model. It does only randomness and console output.
- CryptoTool.Encrypt: the 32-character tag field is proved only under `SealsFullTags` (16-byte GCM tags). The tag length is a property of Node's cipher, not of this code.
- CryptoTool.InitializeKey: the key length is proved only under `ScryptSized`, for the same reason.
- SubstitutionCipher.EncryptText: equal length is stated for custom alphabets of at least 26 characters. Shorter ones drop characters, as the JavaScript does.
- SubstitutionCipher.DecryptText: equal length is stated for custom alphabets of at most 26 characters. Longer ones drop characters, as the JavaScript does.
