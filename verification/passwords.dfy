/** Password hashing of BookRecomendationApp.py: a stored hash is the Base64
    text of a random salt followed by the PBKDF2-HMAC-SHA256 key derived from
    the password and that salt. PBKDF2 itself (section 5.2 of RFC 8018) is not
    modelled: it is the `kdf` parameter, and the random salt is a parameter. */
module PasswordUtils {
  import opened Wrappers
  import opened Base64

  const ITERATIONS: nat := 100_000
  const SALT_SIZE: nat := 16

  /** PBKDF2 with HMAC-SHA256 over the UTF-8 bytes of a password, a salt and an
      iteration count. Being a function, it is deterministic. */
  type Kdf = (string, seq<Byte>, nat) -> seq<Byte>

  /** Python's `d[:n]` and `d[n:]`: a cut past the end takes everything. */
  function SplitAt(d: seq<Byte>, n: nat): (parts: (seq<Byte>, seq<Byte>))
    ensures parts.0 + parts.1 == d
    ensures |d| >= n ==> |parts.0| == n
    ensures |d| < n ==> parts.1 == []
  {
    var cut := if |d| < n then |d| else n;
    (d[..cut], d[cut..])
  }

  /** The stored form of `password`, salted with `salt`. */
  function HashPassword(kdf: Kdf, password: string, salt: seq<Byte>): (stored: string)
    requires |salt| == SALT_SIZE
    ensures Decode(stored) == Some(salt + kdf(password, salt, ITERATIONS))
  {
    DecodeEncode(salt + kdf(password, salt, ITERATIONS));
    Encode(salt + kdf(password, salt, ITERATIONS))
  }

  /** Whether `password` derives the key kept in `stored` under the salt kept
      there. Text that is not Base64 is rejected here (the Python code raises). */
  function VerifyPassword(kdf: Kdf, password: string, stored: string): (ok: bool)
    ensures ok ==> Decode(stored).Some?
  {
    match Decode(stored)
    case None => false
    case Some(decoded) =>
      var (salt, key) := SplitAt(decoded, SALT_SIZE);
      kdf(password, salt, ITERATIONS) == key
  }

  /** Splitting the decoded hash at SALT_SIZE gives back exactly the salt and
      the key that HashPassword put together. */
  lemma SplitRecoversSaltAndKey(kdf: Kdf, password: string, salt: seq<Byte>)
    requires |salt| == SALT_SIZE
    ensures Decode(HashPassword(kdf, password, salt)).Some?
    ensures SplitAt(Decode(HashPassword(kdf, password, salt)).value, SALT_SIZE)
         == (salt, kdf(password, salt, ITERATIONS))
  {
    var key := kdf(password, salt, ITERATIONS);
    assert (salt + key)[..SALT_SIZE] == salt;
    assert (salt + key)[SALT_SIZE..] == key;
  }

  /** A password is accepted against a hash made from another exactly when the
      two derive the same key under the stored salt; in particular a password
      always verifies against its own hash. */
  lemma {:induction false} VerifyAgainstHash(kdf: Kdf, attempt: string, password: string, salt: seq<Byte>)
    requires |salt| == SALT_SIZE
    ensures VerifyPassword(kdf, attempt, HashPassword(kdf, password, salt))
        <==> kdf(attempt, salt, ITERATIONS) == kdf(password, salt, ITERATIONS)
  {
    SplitRecoversSaltAndKey(kdf, password, salt);
  }

  lemma VerifyOwnHash(kdf: Kdf, password: string, salt: seq<Byte>)
    requires |salt| == SALT_SIZE
    ensures VerifyPassword(kdf, password, HashPassword(kdf, password, salt))
  {
    VerifyAgainstHash(kdf, password, password, salt);
  }
}
