/**
 * The password hashing the controllers delegate to bcrypt. Salting and the
 * digest format are not modelled: `Hash` is an injective stand-in that never
 * returns its input, and `Compare` accepts a password exactly against the
 * digest of that password, as `bcrypt.compare(p, bcrypt.hash(p, salt))` does
 * for every salt.
 */
module Credential {

  /** Marks a stored value as a digest rather than a plaintext password. */
  const DigestTag: string := "bcrypt:"

  /** `bcrypt.hash(password, salt)`, salt left out. */
  function Hash(password: string): (digest: string)
    ensures digest != password
  {
    DigestTag + password
  }

  /** `bcrypt.compare(password, digest)`. */
  predicate Compare(password: string, digest: string) {
    digest == Hash(password)
  }

  /** A digest accepts the password it was made from and no other one. */
  lemma CompareOwnDigest(password: string, other: string)
    ensures Compare(password, Hash(password))
    ensures Compare(other, Hash(password)) <==> other == password
  {
    if Compare(other, Hash(password)) {
      assert other == Hash(other)[|DigestTag|..] == Hash(password)[|DigestTag|..] == password;
    }
  }

  /** The empty string is no digest: `bcrypt.compare(p, "")` is false. */
  lemma CompareRejectsEmpty(password: string)
    ensures !Compare(password, "")
  {
    assert |Hash(password)| >= |DigestTag|;
  }
}
