/**
 * `CryptoUtils` of crypto_utils.py: the salted envelope around a Fernet token, the
 * PBKDF2 key derivation, the password generator, the hex-encoded password hash and the
 * pre-check of an encrypted file. The class only holds two constants, so it becomes a module.
 */
module CryptoUtils {
  import opened Common
  import opened Text
  import opened Primitives

  /** `self.salt_size`: bytes of random salt in front of every token. */
  const SaltSize: nat := 32
  /** `self.iterations`: PBKDF2 rounds. */
  const Iterations: nat := 100000
  /** Bytes of key material PBKDF2 yields (`length=32`, and SHA-256's digest size). */
  const KeyLength: nat := 32

  type Salt = s: seq<byte> | |s| == SaltSize witness seq(32, _ => 0)

  /** What one `encrypt_data` call draws at random: `os.urandom(32)` and Fernet's IV and clock. */
  datatype Entropy = Entropy(salt: Salt, nonce: seq<byte>)

  // ---------------------------------------------------------------------------
  // URL-safe base64, the form Fernet wants its key in

  /** The ASCII code of the `n`-th letter of the URL-safe base64 alphabet. */
  function Sextet(n: int): (r: byte)
    requires 0 <= n < 64
    ensures IsBase64Byte(r) && r != Pad
  {
    if n < 26 then 65 + n
    else if n < 52 then 97 + (n - 26)
    else if n < 62 then 48 + (n - 52)
    else if n == 62 then 45
    else 95
  }

  const Pad: byte := 61

  predicate IsBase64Byte(b: byte) {
    (65 <= b <= 90) || (97 <= b <= 122) || (48 <= b <= 57) || b == 45 || b == 95 || b == Pad
  }

  /** `base64.urlsafe_b64encode`: four output letters for every three input bytes, padded with `=`. */
  function Base64UrlEncode(b: seq<byte>): (r: seq<byte>)
    ensures |r| == 4 * ((|b| + 2) / 3)
    ensures forall i :: 0 <= i < |r| ==> IsBase64Byte(r[i])
    decreases |b|
  {
    if |b| == 0 then []
    else if |b| == 1 then [Sextet(b[0] / 4), Sextet((b[0] % 4) * 16), Pad, Pad]
    else if |b| == 2 then [Sextet(b[0] / 4), Sextet((b[0] % 4) * 16 + b[1] / 16), Sextet((b[1] % 16) * 4), Pad]
    else
      [Sextet(b[0] / 4), Sextet((b[0] % 4) * 16 + b[1] / 16), Sextet((b[1] % 16) * 4 + b[2] / 64), Sextet(b[2] % 64)]
      + Base64UrlEncode(b[3..])
  }

  // ---------------------------------------------------------------------------
  // Key derivation and the envelope

  /**
   * `_derive_key_from_password`: PBKDF2-HMAC-SHA256 over the UTF-8 password with 100000
   * rounds and 32 bytes of output, base64-encoded. Being a function of its arguments, it
   * gives the same key for the same password and salt.
   */
  function DeriveKey(suite: Suite, password: string, salt: seq<byte>): (key: seq<byte>)
    ensures suite.Lawful() ==> |key| == 44
    ensures forall i :: 0 <= i < |key| ==> IsBase64Byte(key[i])
  {
    Base64UrlEncode(suite.pbkdf2(suite.utf8Encode(password), salt, Iterations, KeyLength))
  }

  /** `encrypt_data`: the fresh salt followed by the Fernet token of the UTF-8 text. */
  function EncryptData(suite: Suite, data: string, password: string, entropy: Entropy): (envelope: seq<byte>)
    ensures |envelope| >= SaltSize && envelope[..SaltSize] == entropy.salt
  {
    var key := DeriveKey(suite, password, entropy.salt);
    entropy.salt + suite.fernetEncrypt(key, entropy.nonce, suite.utf8Encode(data))
  }

  /** The two ways `decrypt_data` fails. */
  datatype CryptoError =
    | InvalidToken                 // Fernet rejected the token: wrong password or altered bytes
    | NotUtf8(reason: string)      // the plaintext is not UTF-8

  /** `decrypt_data`: the first 32 bytes (fewer if the input is shorter) are the salt, the rest the token. */
  function DecryptData(suite: Suite, envelope: seq<byte>, password: string): (r: Result<string, CryptoError>)
    ensures var cut := Min(SaltSize, |envelope|);
            var plain := suite.fernetDecrypt(DeriveKey(suite, password, envelope[..cut]), envelope[cut..]);
            (r == Err(InvalidToken) <==> plain.None?) &&
            (r.Ok? ==> plain.Some? && suite.utf8Decode(plain.value) == Ok(r.value))
  {
    var cut := Min(SaltSize, |envelope|);
    var key := DeriveKey(suite, password, envelope[..cut]);
    match suite.fernetDecrypt(key, envelope[cut..])
    case None => Err(InvalidToken)
    case Some(plaintext) =>
      match suite.utf8Decode(plaintext)
      case Err(reason) => Err(NotUtf8(reason))
      case Ok(text) => Ok(text)
  }

  /** Splitting at 32 bytes undoes the concatenation, so a lawful Fernet gives the text back. */
  lemma DecryptInvertsEncrypt(suite: Suite, data: string, password: string, entropy: Entropy)
    requires suite.Lawful()
    ensures DecryptData(suite, EncryptData(suite, data, password, entropy), password) == Ok(data)
  {
    var key := DeriveKey(suite, password, entropy.salt);
    var token := suite.fernetEncrypt(key, entropy.nonce, suite.utf8Encode(data));
    var envelope := EncryptData(suite, data, password, entropy);
    assert envelope == entropy.salt + token;
    assert envelope[..SaltSize] == entropy.salt && envelope[SaltSize..] == token;
  }

  /**
   * The text `decrypt_data` gives its exception, classified by the exception's kind.
   * The source classifies by looking for "InvalidToken" in the exception's text instead;
   * see `DecryptFailureMessageAsWritten`.
   */
  function DecryptFailureMessage(e: CryptoError): (message: string)
    ensures StartsWith(message, "Decryption failed: ") <==> e.NotUtf8?
    ensures e.NotUtf8? ==> message[|"Decryption failed: "|..] == e.reason
    ensures e.InvalidToken? ==> message == "Invalid master password or corrupted data"
  {
    match e
    case InvalidToken =>
      assert "Invalid master password or corrupted data"[0] != "Decryption failed: "[0];
      "Invalid master password or corrupted data"
    case NotUtf8(reason) => "Decryption failed: " + reason
  }

  /** `str()` of cryptography's `InvalidToken`, which is raised without a message. */
  const InvalidTokenText: string := ""

  /** `str(e)` of the exception `decrypt_data` catches. */
  function ExceptionText(e: CryptoError): (text: string)
    ensures e.InvalidToken? ==> !Contains(text, "InvalidToken")
    ensures e.NotUtf8? ==> text == e.reason
  {
    match e
    case InvalidToken => InvalidTokenText
    case NotUtf8(reason) => reason
  }

  /**
   * crypto_utils.py:81-83 as written: the kind is guessed from the exception's text, and
   * the message is the one meant for the guessed kind.
   */
  function DecryptFailureMessageAsWritten(exceptionText: string): (message: string)
    ensures Contains(exceptionText, "InvalidToken") ==> message == DecryptFailureMessage(InvalidToken)
    ensures !Contains(exceptionText, "InvalidToken") ==> message == DecryptFailureMessage(NotUtf8(exceptionText))
  {
    if Contains(exceptionText, "InvalidToken") then "Invalid master password or corrupted data"
    else "Decryption failed: " + exceptionText
  }

  /** A wrong password or altered token is reported as "Decryption failed: " with nothing after it. */
  lemma InvalidTokenNotRecognised()
    ensures DecryptFailureMessageAsWritten(InvalidTokenText) == "Decryption failed: "
    ensures DecryptFailureMessageAsWritten(InvalidTokenText) != DecryptFailureMessage(InvalidToken)
  {
    assert !StartsWith(InvalidTokenText, "InvalidToken");
  }

  /**
   * For every failure, the message as written is the intended one exactly when the failure
   * is a decoding error whose text does not mention "InvalidToken": a rejected token is
   * always misreported.
   */
  lemma AsWrittenAgreesOnlyOnDecodingErrors(e: CryptoError)
    ensures DecryptFailureMessageAsWritten(ExceptionText(e)) == DecryptFailureMessage(e) <==>
            e.NotUtf8? && !Contains(e.reason, "InvalidToken")
  {
    var text := ExceptionText(e);
    if Contains(text, "InvalidToken") {
      assert e.NotUtf8?;
      assert !StartsWith(DecryptFailureMessageAsWritten(text), "Decryption failed: ");
    } else if e.InvalidToken? {
      assert StartsWith(DecryptFailureMessageAsWritten(text), "Decryption failed: ");
    }
  }

  // ---------------------------------------------------------------------------
  // Password generation

  /** `secrets.choice(pool)`, where `draw` is the random number the call consumes. */
  function Choice(pool: string, draw: nat): (c: char)
    requires pool != ""
    ensures c in pool
  {
    pool[draw % |pool|]
  }

  /** `all_chars`: every character the generator may emit. */
  function PasswordAlphabet(includeSymbols: bool): string {
    AsciiLowercase + AsciiUppercase + Digits + (if includeSymbols then Specials else "")
  }

  /**
   * `random.shuffle` (the Fisher-Yates walk of `SystemRandom().shuffle`): from the last
   * position down to the second, swap with a position drawn below it. It only permutes.
   */
  method Shuffle<T>(a: array<T>, draws: nat -> nat)
    modifies a
    ensures multiset(a[..]) == old(multiset(a[..]))
  {
    var i := a.Length - 1;
    var drawn := 0;
    while i >= 1
      invariant -1 <= i < a.Length || a.Length == 0
      invariant multiset(a[..]) == old(multiset(a[..]))
    {
      var j := draws(drawn) % (i + 1);
      a[i], a[j] := a[j], a[i];
      i, drawn := i - 1, drawn + 1;
    }
  }

  lemma PoolClasses(c: char)
    ensures c in AsciiLowercase ==> IsLowerChar(c)
    ensures c in AsciiUppercase ==> IsUpperChar(c)
    ensures c in Digits ==> IsDigitChar(c)
  {
  }

  /** An element of either part is an element of a concatenation. */
  lemma InConcat<T>(x: T, a: seq<T>, b: seq<T>)
    requires x in a || x in b
    ensures x in a + b
  {
    if x in a {
      var k :| 0 <= k < |a| && a[k] == x;
      assert (a + b)[k] == x;
    } else {
      var k :| 0 <= k < |b| && b[k] == x;
      assert (a + b)[|a| + k] == x;
    }
  }

  lemma InAlphabet(c: char, includeSymbols: bool)
    requires c in AsciiLowercase || c in AsciiUppercase || c in Digits || (includeSymbols && c in Specials)
    ensures c in PasswordAlphabet(includeSymbols)
  {
    var letters := AsciiLowercase + AsciiUppercase;
    var symbols := if includeSymbols then Specials else "";
    if c in AsciiLowercase || c in AsciiUppercase {
      InConcat(c, AsciiLowercase, AsciiUppercase);
    }
    if c in letters || c in Digits {
      InConcat(c, letters, Digits);
    }
    InConcat(c, letters + Digits, symbols);
  }

  /** The guaranteed characters: a lowercase letter, an uppercase letter, a digit, and a symbol if asked. */
  function RequiredCharacters(includeSymbols: bool, choices: nat -> nat): (r: seq<char>)
    ensures |r| == if includeSymbols then 4 else 3
    ensures IsLowerChar(r[0]) && IsUpperChar(r[1]) && IsDigitChar(r[2])
    ensures includeSymbols ==> IsSpecialChar(r[3])
    ensures forall k :: 0 <= k < |r| ==> r[k] in PasswordAlphabet(includeSymbols)
  {
    var r := [Choice(AsciiLowercase, choices(0)), Choice(AsciiUppercase, choices(1)), Choice(Digits, choices(2))]
      + (if includeSymbols then [Choice(Specials, choices(3))] else []);
    PoolClasses(r[0]);
    PoolClasses(r[1]);
    PoolClasses(r[2]);
    InAlphabet(r[0], includeSymbols);
    InAlphabet(r[1], includeSymbols);
    InAlphabet(r[2], includeSymbols);
    InAlphabet(r[|r| - 1], includeSymbols);
    r
  }

  /**
   * `generate_secure_password`: the required characters, then `length - len(password)`
   * characters from the whole alphabet (none when that is negative), then a shuffle.
   * `choices(k)` is the draw of the k-th `secrets.choice`, `swaps(k)` the k-th draw of the shuffle.
   */
  method GenerateSecurePassword(length: int, includeSymbols: bool, choices: nat -> nat, swaps: nat -> nat)
    returns (password: string)
    ensures |password| == Max(length, if includeSymbols then 4 else 3)
    ensures HasLower(password) && HasUpper(password) && HasDigit(password)
    ensures includeSymbols ==> HasSpecial(password)
    ensures forall i :: 0 <= i < |password| ==> password[i] in PasswordAlphabet(includeSymbols)
  {
    var allChars := PasswordAlphabet(includeSymbols);
    var chosen := RequiredCharacters(includeSymbols, choices);
    var required := |chosen|;
    var i := 0;
    while i < length - required
      invariant |chosen| == required + i
      invariant i <= Max(length - required, 0)
      invariant chosen[..required] == RequiredCharacters(includeSymbols, choices)
      invariant forall k :: 0 <= k < |chosen| ==> chosen[k] in allChars
    {
      chosen := chosen + [Choice(allChars, choices(required + i))];
      i := i + 1;
    }
    var buffer := new char[|chosen|](k requires 0 <= k < |chosen| => chosen[k]);
    assert buffer[..] == chosen;
    Shuffle(buffer, swaps);
    password := buffer[..];
    ContainsClasses(chosen, password, includeSymbols);
  }

  /** A permutation of the chosen characters keeps every character class they contain. */
  lemma ContainsClasses(chosen: seq<char>, password: string, includeSymbols: bool)
    requires |chosen| >= (if includeSymbols then 4 else 3)
    requires IsLowerChar(chosen[0]) && IsUpperChar(chosen[1]) && IsDigitChar(chosen[2])
    requires includeSymbols ==> IsSpecialChar(chosen[3])
    requires forall k :: 0 <= k < |chosen| ==> chosen[k] in PasswordAlphabet(includeSymbols)
    requires multiset(password) == multiset(chosen)
    ensures |password| == |chosen|
    ensures HasLower(password) && HasUpper(password) && HasDigit(password)
    ensures includeSymbols ==> HasSpecial(password)
    ensures forall i :: 0 <= i < |password| ==> password[i] in PasswordAlphabet(includeSymbols)
  {
    assert |password| == |multiset(password)| == |multiset(chosen)| == |chosen|;
    assert chosen[0] in multiset(password) && chosen[1] in multiset(password) && chosen[2] in multiset(password);
    if includeSymbols {
      assert chosen[3] in multiset(password);
    }
    forall i | 0 <= i < |password| ensures password[i] in PasswordAlphabet(includeSymbols) {
      assert password[i] in multiset(chosen);
    }
  }

  // ---------------------------------------------------------------------------
  // Hex-encoded password hashes

  function HexDigit(n: int): (c: char)
    requires 0 <= n < 16
    ensures HexValue(c) == Some(n)
  {
    if n < 10 then ('0' as int + n) as char else ('a' as int + n - 10) as char
  }

  /** The value of one hex digit, in either case. */
  function HexValue(c: char): Option<int> {
    if '0' <= c <= '9' then Some(c as int - '0' as int)
    else if 'a' <= c <= 'f' then Some(c as int - 'a' as int + 10)
    else if 'A' <= c <= 'F' then Some(c as int - 'A' as int + 10)
    else None
  }

  /** `bytes.hex()`: two lowercase digits per byte. */
  function ToHex(b: seq<byte>): (r: string)
    ensures |r| == 2 * |b|
    ensures forall i :: 0 <= i < |r| ==> HexValue(r[i]).Some? && !IsSpace(r[i])
  {
    if b == [] then "" else [HexDigit(b[0] / 16), HexDigit(b[0] % 16)] + ToHex(b[1..])
  }

  /** The white space `bytes.fromhex` skips before each pair of digits. */
  predicate IsAsciiSpace(c: char) {
    c == ' ' || ('\t' <= c <= '\r')
  }

  /** `bytes.fromhex`: pairs of digits of either case, optionally preceded by white space; `None` is `ValueError`. */
  function FromHex(s: string): (r: Option<seq<byte>>)
    ensures r.Some? ==> 2 * |r.value| <= |s|
    ensures s != [] && !IsAsciiSpace(s[0]) && HexValue(s[0]).None? ==> r.None?
    decreases |s|
  {
    if s == [] then Some([])
    else if IsAsciiSpace(s[0]) then FromHex(s[1..])
    else if |s| >= 2 && HexValue(s[0]).Some? && HexValue(s[1]).Some? then
      match FromHex(s[2..])
      case None => None
      case Some(rest) => Some([HexValue(s[0]).value * 16 + HexValue(s[1]).value] + rest)
    else None
  }

  /** `bytes.fromhex(b.hex()) == b`. */
  lemma {:induction false} FromHexToHex(b: seq<byte>)
    ensures FromHex(ToHex(b)) == Some(b)
  {
    if b != [] {
      var s := ToHex(b);
      assert s == [HexDigit(b[0] / 16), HexDigit(b[0] % 16)] + ToHex(b[1..]);
      assert s[2..] == ToHex(b[1..]);
      FromHexToHex(b[1..]);
      assert [b[0] / 16 * 16 + b[0] % 16] + b[1..] == b;
    }
  }

  /** The dictionary `hash_password` returns. */
  datatype HashRecord = HashRecord(hash: string, salt: string)

  /** PBKDF2 of the password under `salt`, both rendered in hex. */
  function HashWithSalt(suite: Suite, password: string, salt: seq<byte>): (h: HashRecord)
    ensures h.salt == ToHex(salt)
    ensures forall i :: 0 <= i < |h.hash| ==> HexValue(h.hash[i]).Some?
    ensures suite.Lawful() ==> |h.hash| == 2 * KeyLength
  {
    HashRecord(ToHex(suite.pbkdf2(suite.utf8Encode(password), salt, Iterations, KeyLength)), ToHex(salt))
  }

  /** `hash_password`: the given salt, or `drawn` (the `os.urandom(32)` draw) when none is given. */
  function HashPassword(suite: Suite, password: string, salt: Option<seq<byte>>, drawn: Salt): (h: HashRecord)
    ensures salt.None? ==> h.salt == ToHex(drawn)
    ensures salt.Some? ==> h.salt == ToHex(salt.value)
  {
    HashWithSalt(suite, password, if salt.Some? then salt.value else drawn)
  }

  /** `verify_password_hash` raises when the stored salt is not hex. */
  datatype HashError = MalformedSalt

  /** `verify_password_hash`: recompute the hash under the decoded salt and compare. */
  function VerifyPasswordHash(suite: Suite, password: string, storedHash: string, storedSalt: string)
    : (r: Result<bool, HashError>)
    ensures r.Ok? <==> FromHex(storedSalt).Some?
    ensures r == Ok(true) ==> storedHash == HashWithSalt(suite, password, FromHex(storedSalt).value).hash
    ensures r == Ok(true) && suite.Lawful() ==> |storedHash| == 2 * KeyLength
  {
    match FromHex(storedSalt)
    case None => Err(MalformedSalt)
    case Some(salt) => Ok(HashWithSalt(suite, password, salt).hash == storedHash)
  }

  /** A hash record always verifies for the password it was made from. */
  lemma HashThenVerify(suite: Suite, password: string, salt: Option<seq<byte>>, drawn: Salt)
    ensures var h := HashPassword(suite, password, salt, drawn);
            VerifyPasswordHash(suite, password, h.hash, h.salt) == Ok(true)
  {
    FromHexToHex(if salt.Some? then salt.value else drawn);
  }

  // ---------------------------------------------------------------------------
  // Checking a file before decrypting it

  /** What `validate_encrypted_file` reports for a token Fernet rejects. */
  lemma RejectedTokenMessage()
    ensures "Validation failed: " + DecryptFailureMessageAsWritten(ExceptionText(InvalidToken)) ==
            "Validation failed: Decryption failed: "
  {
    InvalidTokenNotRecognised();
  }

  /**
   * `validate_encrypted_file` against a snapshot `files` of the disk. A decryption error
   * is reported with the text `decrypt_data` raises as written, so a rejected token reads
   * "Validation failed: Decryption failed: ".
   */
  function ValidateEncryptedFile(suite: Suite, files: map<string, seq<byte>>, path: string, password: string): (r: (bool, string))
    ensures path !in files ==> r == (false, "File does not exist")
    ensures path in files && |files[path]| < SaltSize ==> r == (false, "File is too small to contain valid encrypted data")
    ensures r.0 <==> path in files && |files[path]| >= SaltSize && DecryptData(suite, files[path], password).Ok?
    ensures r.0 ==> r.1 == "File is valid and decryptable"
    ensures path in files && |files[path]| >= SaltSize && DecryptData(suite, files[path], password).Err? ==>
              r.1 == "Validation failed: " +
                     DecryptFailureMessageAsWritten(ExceptionText(DecryptData(suite, files[path], password).error))
    ensures path in files && |files[path]| >= SaltSize && DecryptData(suite, files[path], password) == Err(InvalidToken) ==>
              r == (false, "Validation failed: Decryption failed: ")
  {
    RejectedTokenMessage();
    if path !in files then (false, "File does not exist")
    else if |files[path]| < SaltSize then (false, "File is too small to contain valid encrypted data")
    else match DecryptData(suite, files[path], password)
      case Ok(_) => (true, "File is valid and decryptable")
      case Err(e) => (false, "Validation failed: " + DecryptFailureMessageAsWritten(ExceptionText(e)))
  }

  /** A file last written by `encrypt_data` under a password validates under that password. */
  lemma EncryptedFileValidates(suite: Suite, files: map<string, seq<byte>>, path: string, data: string, password: string, entropy: Entropy)
    requires suite.Lawful()
    ensures ValidateEncryptedFile(suite, files[path := EncryptData(suite, data, password, entropy)], path, password).0
  {
    DecryptInvertsEncrypt(suite, data, password, entropy);
  }
}
