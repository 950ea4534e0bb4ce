/**
 * `generate_hash`: the deduplication key of a scraped entry. The source hashes
 * the UTF-8 bytes of `title + link + additional_info` with SHA-256 and keeps the
 * hex digest; here the digest is a parameter `digest` that stands for
 * "hex SHA-256 of the UTF-8 encoding", about which nothing else is assumed.
 */
module Fingerprint {

  /** The key of an entry: the digest of the plain concatenation, no separators. */
  function GenerateHash(digest: string -> string, title: string, link: string, info: string): string {
    digest(title + link + info)
  }

  /** A digest function that never maps two different texts to one key. */
  ghost predicate Injective(digest: string -> string) {
    forall x, y :: digest(x) == digest(y) ==> x == y
  }

  /** Only the concatenation matters: triples that concatenate to the same text
      get the same key, whatever the digest. */
  lemma SameConcatenationSameHash(digest: string -> string,
                                  t1: string, l1: string, a1: string,
                                  t2: string, l2: string, a2: string)
    requires t1 + l1 + a1 == t2 + l2 + a2
    ensures GenerateHash(digest, t1, l1, a1) == GenerateHash(digest, t2, l2, a2)
  {
  }

  /** Because no separator is hashed, moving text across a field boundary keeps
      the key: title "ab" with link "c" collides with title "a" with link "bc". */
  lemma FieldBoundaryCollision(digest: string -> string, info: string)
    ensures GenerateHash(digest, "ab", "c", info) == GenerateHash(digest, "a", "bc", info)
  {
    assert "ab" + "c" == "a" + "bc";
  }

  lemma CancelRight(x: string, y: string, m: string)
    requires x + m == y + m
    ensures x == y
  {
    assert |x| == |y|;
    assert x == (x + m)[..|x|];
    assert y == (y + m)[..|y|];
  }

  lemma CancelLeft(m: string, x: string, y: string)
    requires m + x == m + y
    ensures x == y
  {
    assert x == (m + x)[|m|..];
    assert y == (m + y)[|m|..];
  }

  /** With an injective digest, changing any single field changes the key. */
  lemma OneFieldChangeChangesHash(digest: string -> string, t: string, l: string, a: string,
                                  t': string, l': string, a': string)
    requires Injective(digest)
    ensures t != t' ==> GenerateHash(digest, t, l, a) != GenerateHash(digest, t', l, a)
    ensures l != l' ==> GenerateHash(digest, t, l, a) != GenerateHash(digest, t, l', a)
    ensures a != a' ==> GenerateHash(digest, t, l, a) != GenerateHash(digest, t, l, a')
  {
    if GenerateHash(digest, t, l, a) == GenerateHash(digest, t', l, a) {
      assert digest(t + l + a) == digest(t' + l + a);
      CancelRight(t + l, t' + l, a);
      CancelRight(t, t', l);
    }
    if GenerateHash(digest, t, l, a) == GenerateHash(digest, t, l', a) {
      assert digest(t + l + a) == digest(t + l' + a);
      CancelRight(t + l, t + l', a);
      CancelLeft(t, l, l');
    }
    if GenerateHash(digest, t, l, a) == GenerateHash(digest, t, l, a') {
      assert digest(t + l + a) == digest(t + l + a');
      CancelLeft(t + l, a, a');
    }
  }
}
