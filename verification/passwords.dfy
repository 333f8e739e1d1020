/**
 Password storage as the blog uses it: registration stores a salted,
 derived digest of the submitted password, and login checks a candidate
 password against that stored credential.

 The key-derivation function itself (PBKDF2-SHA256 in the application) is
 not modelled: it is a parameter `kdf`, and nothing is assumed about it.
 The salt is random in the application; here it is supplied by the caller.
 */
module Passwords {

  /** A key-derivation function: (scheme, salt, password) to digest. */
  type Kdf = (string, string, string) -> string

  /** The method the application asks the hasher to use. The hasher's stored
      text also carries its default iteration count; `scheme` stands for the
      requested method, not for that text. */
  const HashMethod: string := "pbkdf2:sha256"

  /** What the user table stores in its password column: the method, the salt
      and the digest, which the hasher joins into one string. */
  datatype Credential = Credential(scheme: string, salt: string, digest: string)

  /** Derives a credential for `password` with the given salt. A credential
      made from a password always verifies against that same password. */
  function Hash(kdf: Kdf, password: string, salt: string): (c: Credential)
    ensures c.scheme == HashMethod && c.salt == salt
    ensures Check(kdf, c, password)
  {
    Credential(HashMethod, salt, kdf(HashMethod, salt, password))
  }

  /** Recomputes the digest of `password` with the stored scheme and salt and
      compares it with the stored digest. */
  predicate Check(kdf: Kdf, c: Credential, password: string)
  {
    kdf(c.scheme, c.salt, password) == c.digest
  }

  /** A different password is accepted exactly when the derivation function
      maps it to the same digest under the stored salt: with a collision-free
      derivation, a fresh credential accepts only its own password. */
  lemma CheckAcceptsOnlyCollisions(kdf: Kdf, password: string, other: string, salt: string)
    ensures Check(kdf, Hash(kdf, password, salt), other)
            <==> kdf(HashMethod, salt, other) == kdf(HashMethod, salt, password)
  {
  }
}
