/** The check `_download_file` applies to a fetched payload before it
    writes anything: the declared size first, then one hash, SHA-512 in
    preference to SHA-1. */
module Verification {
  import opened Types
  import opened Fs

  /** `hashlib.sha512(data).hexdigest()` and `hashlib.sha1(data).hexdigest()`,
      taken as given functions. */
  datatype Hashers = Hashers(sha512: Content -> string, sha1: Content -> string)

  datatype Verdict = Accepted | SizeMismatch | Sha512Mismatch | Sha1Mismatch

  /** `if expected_size and len(data) != expected_size`: an absent or zero
      size is not checked. */
  predicate SizeMatches(data: Content, expectedSize: Option<int>) {
    expectedSize.None? || expectedSize.value == 0 || |data| == expectedSize.value
  }

  function Check(data: Content, expectedSize: Option<int>, expectedHashes: map<string, string>, h: Hashers): (v: Verdict)
    ensures v == Accepted <==>
      && SizeMatches(data, expectedSize)
      && ("sha512" in expectedHashes ==> h.sha512(data) == expectedHashes["sha512"])
      && ("sha512" !in expectedHashes && "sha1" in expectedHashes ==> h.sha1(data) == expectedHashes["sha1"])
    ensures v == SizeMismatch <==> !SizeMatches(data, expectedSize)
    ensures v == Sha1Mismatch ==> "sha512" !in expectedHashes
  {
    if !SizeMatches(data, expectedSize) then SizeMismatch
    else if expectedHashes == map[] then Accepted
    else if "sha512" in expectedHashes then
      if h.sha512(data) != expectedHashes["sha512"] then Sha512Mismatch else Accepted
    else if "sha1" in expectedHashes then
      if h.sha1(data) != expectedHashes["sha1"] then Sha1Mismatch else Accepted
    else Accepted
  }

  /** When a SHA-512 digest is declared, the SHA-1 digest plays no part. */
  lemma Sha512TakesPrecedence(data: Content, size: Option<int>, hashes: map<string, string>, h: Hashers)
    requires "sha512" in hashes
    ensures Check(data, size, hashes, h) == Check(data, size, hashes - {"sha1"}, h)
  {
  }

  /** Without declared hashes and size, every payload is accepted: this is
      how the `.mrpack` archive itself is fetched. */
  lemma UncheckedAcceptsAll(data: Content, h: Hashers)
    ensures Check(data, None, map[], h) == Accepted
  {
  }
}
