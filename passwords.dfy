/** The password-hashing capability, kept opaque: the rest of the model relies
    only on the one property proved here, that a hash verifies against the
    password it was made from. The bodies are a stand-in for pbkdf2-sha256. */
module Passwords {

  const Scheme := "$pbkdf2-sha256$"

  function Hash(password: string): string
  {
    Scheme + password
  }

  predicate Verify(password: string, hash: string)
  {
    hash == Hash(password)
  }

  lemma VerifyHash(password: string)
    ensures Verify(password, Hash(password))
  {
  }
}
