/**
 * The library primitives the login system calls but does not implement: SHA-256 (`hashlib`),
 * HMAC-SHA1 (`hmac`) and base32 (`base64.b32encode` / `b32decode`). Each is an
 * uninterpreted function handed to the model, constrained only by what the code relies on.
 */
module Crypto {
  import opened Wrappers

  /** A byte, as Python yields it when a `bytes` object is indexed. */
  type Byte = b: int | 0 <= b < 256

  /**
   * `hashlib.sha256(x.encode()).hexdigest()` as a function of the text `x`. UTF-8 encoding
   * commutes with concatenation, so hashing `salt.encode() + password.encode()` is hashing
   * the text `salt + password`.
   */
  type Sha256Hex = string -> string

  /** `hmac.new(key, msg, hashlib.sha1).digest()`: an arbitrary keyed function with 20-byte output. */
  type HmacSha1 = f: (seq<Byte>, seq<Byte>) -> seq<Byte> | forall key, msg :: |f(key, msg)| == 20
    witness (key: seq<Byte>, msg: seq<Byte>) => seq(20, _ => 0)

  /**
   * `base64.b32encode(b).decode('utf-8')` and `base64.b32decode(s, True)`; decoding yields
   * `None` where Python raises (`binascii.Error` for text that is not base32, `ValueError`
   * for non-ASCII text).
   */
  datatype Base32Codec = Base32Codec(encode: seq<Byte> -> string, decode: string -> Option<seq<Byte>>)

  /** Decoding undoes encoding (RFC 4648 section 6). */
  ghost predicate DecodesEncoded(codec: Base32Codec) {
    forall bytes :: codec.decode(codec.encode(bytes)) == Some(bytes)
  }

  datatype Primitives = Primitives(sha256: Sha256Hex, hmacSha1: HmacSha1, base32: Base32Codec)
}
