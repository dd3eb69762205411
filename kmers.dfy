/** The k-mer counter: validation of a DNA sequence and counting of every
    overlapping window of width k. */
module Kmers {
  import opened Results
  import opened Text
  import opened Nucleotides

  /** The three ways the k-mer tool stops with exit status 1. */
  datatype KmerError =
    | InvalidBase(c: char)   // a character outside A/T/C/G, after upper-casing
    | NonPositiveK           // k <= 0
    | KTooLarge              // k > length of the sequence

  /** i is the position of the first character of u that is not a base. */
  predicate FirstInvalidAt(u: string, i: int)
  {
    0 <= i < |u| && u[i] !in Bases && AllBases(u[..i])
  }

  /** `validate_sequence`: upper-case the input, then scan it and stop at the
      first character that is not a base. */
  method ValidateSequence(s: string) returns (r: Result<string, KmerError>)
    ensures r.Ok? <==> AllBases(Upper(s))
    ensures r.Ok? ==> r.value == Upper(s)
    ensures r.Err? ==> exists i :: FirstInvalidAt(Upper(s), i) && r.error == InvalidBase(Upper(s)[i])
    ensures AllBases(s) ==> r == Ok(s)
  {
    var u := Upper(s);
    var i := 0;
    while i < |u|
      invariant 0 <= i <= |u|
      invariant AllBases(u[..i])
    {
      if u[i] !in Bases {
        return Err(InvalidBase(u[i]));
      }
      i := i + 1;
    }
    assert u[..i] == u;
    if AllBases(s) {
      UpperKeepsBases(s);
    }
    return Ok(u);
  }

  /** The width-k window of s that starts at position i. */
  function Window(s: string, k: nat, i: nat): (w: string)
    requires i + k <= |s|
    ensures |w| == k
  {
    s[i..i + k]
  }

  /** The number of start positions i < n whose width-k window s[i..i+k]
      equals w. */
  function Occurrences(s: string, k: nat, n: nat, w: string): nat
    requires n + k <= |s| + 1
  {
    if n == 0 then 0
    else Occurrences(s, k, n - 1, w) + (if Window(s, k, n - 1) == w then 1 else 0)
  }

  /** The start positions i < n whose window equals w. */
  ghost function Positions(s: string, k: nat, n: nat, w: string): set<nat>
    requires n + k <= |s| + 1
  {
    set i: nat | i < n && Window(s, k, i) == w
  }

  /** Occurrences counts exactly the matching start positions, overlapping
      windows included. */
  lemma {:induction false} OccurrencesCountsPositions(s: string, k: nat, n: nat, w: string)
    requires n + k <= |s| + 1
    ensures Occurrences(s, k, n, w) == |Positions(s, k, n, w)|
  {
    if n == 0 {
      assert Positions(s, k, n, w) == {};
    } else {
      OccurrencesCountsPositions(s, k, n - 1, w);
      if Window(s, k, n - 1) == w {
        assert Positions(s, k, n, w) == Positions(s, k, n - 1, w) + {n - 1};
      } else {
        assert Positions(s, k, n, w) == Positions(s, k, n - 1, w);
      }
    }
  }

  /** w has a non-zero count exactly when some window before n equals it. */
  lemma {:induction false} OccurrencesPositive(s: string, k: nat, n: nat, w: string)
    requires n + k <= |s| + 1
    ensures Occurrences(s, k, n, w) > 0 <==> exists i :: 0 <= i < n && Window(s, k, i) == w
  {
    if n > 0 {
      OccurrencesPositive(s, k, n - 1, w);
      if Window(s, k, n - 1) == w {
        assert 0 <= n - 1 < n && Window(s, k, n - 1) == w;
      } else if exists i :: 0 <= i < n && Window(s, k, i) == w {
        var i :| 0 <= i < n && Window(s, k, i) == w;
        assert 0 <= i < n - 1 && Window(s, k, i) == w;
      }
    }
  }

  /** The sum of the values of a map. */
  ghost function SumValues(m: map<string, nat>): nat
    decreases |m|
  {
    if m == map[] then 0
    else
      var w :| w in m;
      m[w] + SumValues(m - {w})
  }

  lemma {:induction false} SumValuesRemove(m: map<string, nat>, w: string)
    requires w in m
    ensures SumValues(m) == m[w] + SumValues(m - {w})
    decreases |m|
  {
    var v :| v in m && SumValues(m) == m[v] + SumValues(m - {v});
    if v != w {
      SumValuesRemove(m - {v}, w);
      SumValuesRemove(m - {w}, v);
      assert m - {v} - {w} == m - {w} - {v};
    }
  }

  /** Raising the count of one key by one raises the sum by one. */
  lemma SumValuesIncrement(m: map<string, nat>, w: string)
    ensures SumValues(m[w := (if w in m then m[w] else 0) + 1]) == SumValues(m) + 1
  {
    var m' := m[w := (if w in m then m[w] else 0) + 1];
    SumValuesRemove(m', w);
    assert m' - {w} == m - {w};
    if w in m {
      SumValuesRemove(m, w);
    } else {
      assert m - {w} == m;
    }
  }

  /** `count_kmers`: check k, then slide a width-k window one position at a
      time and count every window in a dictionary. */
  method CountKmers(s: string, k: int) returns (r: Result<map<string, nat>, KmerError>)
    ensures k <= 0 <==> r == Err(NonPositiveK)
    ensures 0 < k && k > |s| <==> r == Err(KTooLarge)
    ensures r.Ok? <==> 0 < k <= |s|
    ensures r.Ok? ==> forall w :: w in r.value <==> exists i :: 0 <= i <= |s| - k && Window(s, k, i) == w
    ensures r.Ok? ==> forall w :: w in r.value ==> |w| == k && r.value[w] == Occurrences(s, k, |s| - k + 1, w)
    ensures r.Ok? ==> SumValues(r.value) == |s| - k + 1
  {
    if k <= 0 {
      return Err(NonPositiveK);
    }
    if k > |s| {
      return Err(KTooLarge);
    }
    var counts: map<string, nat> := map[];
    var n := |s| - k + 1;
    for i := 0 to n
      invariant forall w :: w in counts <==> Occurrences(s, k, i, w) > 0
      invariant forall w :: w in counts ==> counts[w] == Occurrences(s, k, i, w)
      invariant SumValues(counts) == i
    {
      var kmer := Window(s, k, i);
      SumValuesIncrement(counts, kmer);
      counts := counts[kmer := (if kmer in counts then counts[kmer] else 0) + 1];
    }
    forall w
      ensures w in counts <==> exists i :: 0 <= i <= |s| - k && Window(s, k, i) == w
    {
      OccurrencesPositive(s, k, n, w);
    }
    return Ok(counts);
  }

  /** Overlapping occurrences are counted: "AAA" with k = 2 gives {"AA": 2}. */
  method CountKmersOverlapExample()
  {
    var r := CountKmers("AAA", 2);
    assert Window("AAA", 2, 0) == "AA" && Window("AAA", 2, 1) == "AA";
    assert Occurrences("AAA", 2, 2, "AA") == 2;
    assert r.Ok? && r.value["AA"] == 2;
  }
}
