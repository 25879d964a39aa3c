/**
 * The cryptographic collaborators of the authentication service, kept abstract.
 * Argon2id hashing and verification are a pair of functions whose only assumed
 * properties are those `Sound` lists.
 */
module Crypto {
  import Hex

  /** The random salt Argon2 draws for every hash it computes. */
  type Salt = seq<Hex.byte>

  /** `argon2.hash` (with its salt made explicit) and `argon2.verify`. */
  datatype Hasher = Hasher(hash: (Salt, string) -> string, verify: (string, string) -> bool)

  /**
   * What the service relies on: a hash verifies the secret it was computed from,
   * verifies no other secret (no collisions), and is never the secret itself.
   */
  ghost predicate Sound(h: Hasher)
  {
    && (forall s, t :: h.verify(h.hash(s, t), t))
    && (forall s, t, t' :: h.verify(h.hash(s, t), t') ==> t' == t)
    && (forall s, t :: h.hash(s, t) != t)
  }

  /** The assumptions of `Sound` are consistent: some hasher meets all three. */
  lemma SoundIsSatisfiable()
    ensures exists h :: Sound(h)
  {
    var h := Hasher((s: Salt, t: string) => "#" + t, (d: string, t: string) => d == "#" + t);
    forall s, t, t' | h.verify(h.hash(s, t), t') ensures t' == t {
      assert "#" + t == "#" + t';
      assert t == ("#" + t)[1..] && t' == ("#" + t')[1..];
    }
    forall s, t ensures h.hash(s, t) != t {
      assert |h.hash(s, t)| == |t| + 1;
    }
    assert Sound(h);
  }
}
