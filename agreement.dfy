/** The two tools count the same thing: a base-frequency count is the k-mer
    count of that base with k = 1. */
module Agreement {
  import opened Text
  import Kmers

  lemma {:induction false} OneMerCountIsCount(s: string, b: char, n: nat)
    requires n <= |s|
    ensures Kmers.Occurrences(s, 1, n, [b]) == Count(s[..n], b)
  {
    if n == 0 {
      assert s[..0] == [];
    } else {
      OneMerCountIsCount(s, b, n - 1);
      assert s[..n] == s[..n - 1] + [s[n - 1]];
      CountAppend(s[..n - 1], [s[n - 1]], b);
      assert Kmers.Window(s, 1, n - 1) == [s[n - 1]];
    }
  }

  /** The count of base b over the whole sequence equals the count of the
      1-mer [b] over all |s| windows. */
  lemma BaseCountIsOneMerCount(s: string, b: char)
    ensures Count(s, b) == Kmers.Occurrences(s, 1, |s|, [b])
  {
    OneMerCountIsCount(s, b, |s|);
    assert s[..|s|] == s;
  }
}
