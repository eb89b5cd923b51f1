module Seqs {
  /** All elements but the k-th, if there is one. */
  function Without<T>(s: seq<T>, k: nat): seq<T> {
    if k < |s| then s[..k] + s[k + 1..] else s
  }

  lemma WithoutPrefix<T>(s: seq<T>, tail: seq<T>, k: nat)
    requires k < |s|
    ensures Without(s + tail, k) == Without(s, k) + tail
  {
    var front, back := s[..k], s[k + 1..];
    assert (s + tail)[..k] == front && (s + tail)[k + 1..] == back + tail;
    assert front + (back + tail) == (front + back) + tail;
  }

  lemma WithoutInit<T>(s: seq<T>, i: nat)
    requires i < |s| - 1
    ensures Without(s, i) == Without(s[..|s| - 1], i) + [s[|s| - 1]]
  {
  }
}
