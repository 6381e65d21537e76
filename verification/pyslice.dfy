/** Python's slicing of lists with non-negative bounds, which never fails. */
module PySlice {

  function Min(a: int, b: int): int {
    if a <= b then a else b
  }

  /** `s[:n]`: the first `n` elements, or all of `s` when it is shorter. */
  function Take<T>(s: seq<T>, n: nat): (r: seq<T>)
    ensures |r| == Min(n, |s|)
    ensures r <= s
  {
    s[..Min(n, |s|)]
  }

  /** `s[lo:hi]`: the elements at positions `lo <= i < hi` that exist. */
  function Slice<T>(s: seq<T>, lo: nat, hi: nat): (r: seq<T>)
    ensures |r| == if Min(hi, |s|) <= lo then 0 else Min(hi, |s|) - lo
    ensures forall i :: 0 <= i < |r| ==> lo + i < |s| && r[i] == s[lo + i]
  {
    var end := Min(hi, |s|);
    if end <= lo then [] else s[lo..end]
  }

  /** `s[lo:]`: everything from position `lo` on. */
  function Drop<T>(s: seq<T>, lo: nat): (r: seq<T>)
    ensures |r| == if |s| <= lo then 0 else |s| - lo
    ensures forall i :: 0 <= i < |r| ==> r[i] == s[lo + i]
  {
    if |s| <= lo then [] else s[lo..]
  }

  /** Splitting after `Take(s, n)` and continuing up to `hi` covers `s[:hi]`. */
  lemma TakeSliceCover<T>(s: seq<T>, n: nat, hi: nat)
    requires n <= hi
    ensures Take(s, n) + Slice(s, n, hi) == Take(s, hi)
  {
  }

  lemma TakeDropCover<T>(s: seq<T>, n: nat)
    ensures Take(s, n) + Drop(s, n) == s
  {
  }
}
