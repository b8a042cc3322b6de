/** The perceptual fingerprint of an image and the distance between two of
    them. The decoder and the hash itself (`imagehash.dhash` over a 16x16
    grid) are an oracle `decode`; what the model fixes is the fingerprint's
    size, the Hamming distance that `ImageHash.__sub__` computes, and that a
    failure to open or decode a file yields no fingerprint. */
module Hashing {
  import opened Paths
  import opened Storage

  const HashSize: nat := 16
  const HashBits: nat := HashSize * HashSize

  type Fingerprint = s: seq<bool> | |s| == HashBits witness seq(HashBits, _ => false)

  /** The number of positions at which two equally long bit strings differ. */
  function Hamming(a: seq<bool>, b: seq<bool>): (d: nat)
    requires |a| == |b|
    ensures d <= |a|
    ensures d == 0 <==> a == b
  {
    if |a| == 0 then 0
    else Hamming(a[..|a| - 1], b[..|b| - 1]) + (if a[|a| - 1] == b[|b| - 1] then 0 else 1)
  }

  /** `raw_hash - jpg_hash` */
  function Distance(a: Fingerprint, b: Fingerprint): (d: nat)
    ensures d <= HashBits
  {
    Hamming(a, b)
  }

  lemma {:induction false} HammingSymmetric(a: seq<bool>, b: seq<bool>)
    requires |a| == |b|
    ensures Hamming(a, b) == Hamming(b, a)
  {
    if |a| > 0 {
      HammingSymmetric(a[..|a| - 1], b[..|b| - 1]);
    }
  }

  /** `calculate_image_hash(p)`: the decoder's fingerprint of the regular file
      at `p`, and none when there is no regular file there to open. */
  function HashOf(fs: Fs, decode: Content -> Option<Fingerprint>, p: Path): (h: Option<Fingerprint>)
    ensures p !in fs.files ==> h == None
    ensures p in fs.files ==> h == decode(fs.files[p])
  {
    if p in fs.files then decode(fs.files[p]) else None
  }
}
