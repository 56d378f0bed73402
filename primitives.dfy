/**
 * The library functions the vault calls but that are not part of this model:
 * PBKDF2-HMAC-SHA256, Fernet, UTF-8 and JSON. Each is an arbitrary function value;
 * `Lawful` states the only facts the model relies on.
 */
module Primitives {
  import opened Common
  import opened Records

  datatype Suite = Suite(
    /** `pbkdf2_hmac('sha256', password, salt, iterations, length)` */
    pbkdf2: (seq<byte>, seq<byte>, nat, nat) -> seq<byte>,
    /** `Fernet(key).encrypt(plaintext)`; `nonce` stands for the IV and clock Fernet draws */
    fernetEncrypt: (seq<byte>, seq<byte>, seq<byte>) -> seq<byte>,
    /** `Fernet(key).decrypt(token)`; `None` is `InvalidToken` */
    fernetDecrypt: (seq<byte>, seq<byte>) -> Option<seq<byte>>,
    /** `str.encode('utf-8')` */
    utf8Encode: string -> seq<byte>,
    /** `bytes.decode('utf-8')`; `Err` carries the text of the `UnicodeDecodeError` */
    utf8Decode: seq<byte> -> Result<string, string>,
    /** `json.dumps(document, indent=2)` */
    jsonDumps: Document -> string,
    /** `json.loads(text)`; `None` is `JSONDecodeError` or an object of another shape */
    jsonLoads: string -> Option<Document>)
  {
    /** PBKDF2 yields the requested length; decryption, decoding and parsing undo their inverses. */
    ghost predicate Lawful() {
      && (forall password, salt, iterations, length :: |pbkdf2(password, salt, iterations, length)| == length)
      && (forall key, nonce, plaintext :: fernetDecrypt(key, fernetEncrypt(key, nonce, plaintext)) == Some(plaintext))
      && (forall text :: utf8Decode(utf8Encode(text)) == Ok(text))
      && (forall document :: jsonLoads(jsonDumps(document)) == Some(document))
    }
  }
}
