/** The base-frequency tool: extraction of the first FASTA record, cleaning
    of the sequence to A/T/G/C, counting of the four bases and the report of
    their shares. */
module BaseFreq {
  import opened Results
  import opened Text
  import opened Nucleotides

  /** The ways the base-frequency tool stops with exit status 1 once the file
      has been read. */
  datatype FastaError =
    | NotFasta        // the content has no '>'
    | NoRecord        // fewer than two '>'-separated parts (never happens)
    | EmptySequence   // the first record has no sequence text
    | NoValidBases    // cleaning left no A/T/G/C

  // ---------------------------------------------------------------------
  // Extraction of header and sequence

  /** `extraer_secuencia`: split on '>', take the second part, strip it and
      split it into lines; the first line is the header and the others,
      joined, stripped and upper-cased, are the sequence. */
  function ExtractSequence(content: string): (r: Result<(string, string), FastaError>)
    ensures r == Err(NotFasta) <==> '>' !in content
    ensures r.Ok? ==> |r.value.1| > 0
  {
    if '>' !in content then Err(NotFasta)
    else
      var parts := Split(content, '>');
      if |parts| < 2 then Err(NoRecord)
      else
        var block := Split(Strip(parts[1]), '\n');
        var header := block[0];
        var sec := Upper(Strip(Concat(block[1..])));
        if |sec| == 0 then Err(EmptySequence) else Ok((header, sec))
  }

  /** The text between the first '>' and the next '>' (or the end). */
  function FirstRecord(content: string): string
    requires '>' in content
  {
    var t := content[IndexOf(content, '>') + 1..];
    if '>' in t then t[..IndexOf(t, '>')] else t
  }

  /** The text before the first line break. */
  function FirstLine(t: string): string
  {
    if '\n' in t then t[..IndexOf(t, '\n')] else t
  }

  /** The text after the first line break (empty when there is none). */
  function AfterFirstLine(t: string): string
  {
    if '\n' in t then t[IndexOf(t, '\n') + 1..] else []
  }

  /** The sequence text of a stripped record: the lines after the header
      with the line breaks removed, stripped and upper-cased. */
  function RecordSequence(rec: string): string
  {
    Upper(Strip(Without(AfterFirstLine(rec), '\n')))
  }

  /** The branch for fewer than two parts is dead: a content with a '>' always
      splits into at least two parts. */
  lemma NoRecordNeverHappens(content: string)
    ensures ExtractSequence(content) != Err(NoRecord)
  {
    if '>' in content {
      var i := IndexOf(content, '>');
      assert content == content[..i] + [content[i]] + content[i + 1..];
      CountAppend(content[..i] + [content[i]], content[i + 1..], '>');
      CountAppend(content[..i], [content[i]], '>');
    }
  }

  /** The second '>'-separated part is the first record. */
  lemma SecondPartIsFirstRecord(content: string)
    requires '>' in content
    ensures |Split(content, '>')| >= 2 && Split(content, '>')[1] == FirstRecord(content)
  {
    var t := content[IndexOf(content, '>') + 1..];
    SplitHead(content, '>');
    SplitHead(t, '>');
    assert Split(content, '>')[1..] == Split(t, '>');
    assert Split(content, '>')[1] == Split(t, '>')[0];
  }

  /** The first line of a record is its header, and the other lines joined
      together are its body without line breaks. */
  lemma LinesOfRecord(rec: string)
    ensures Split(rec, '\n')[0] == FirstLine(rec)
    ensures Concat(Split(rec, '\n')[1..]) == Without(AfterFirstLine(rec), '\n')
  {
    SplitHead(rec, '\n');
    if '\n' in rec {
      var i := IndexOf(rec, '\n');
      ConcatSplit(rec[i + 1..], '\n');
    } else {
      assert Split(rec, '\n')[1..] == [];
    }
  }

  /** Extraction read without the split: it fails exactly when there is no
      '>' or the first record's sequence text is empty, and otherwise returns
      the first line of the stripped first record and that record's
      sequence text. */
  lemma ExtractSequenceReadsFirstRecord(content: string)
    ensures '>' in content ==>
      var rec := Strip(FirstRecord(content));
      ExtractSequence(content) ==
        if |RecordSequence(rec)| == 0 then Err(EmptySequence)
        else Ok((FirstLine(rec), RecordSequence(rec)))
  {
    if '>' in content {
      SecondPartIsFirstRecord(content);
      LinesOfRecord(Strip(FirstRecord(content)));
    }
  }

  /** Neither the header nor the sequence can hold a '>' or a line break:
      both come from inside one record, and the sequence has its line breaks
      removed. */
  lemma ExtractedTextIsOneLine(content: string)
    ensures ExtractSequence(content).Ok? ==>
      var (header, sec) := ExtractSequence(content).value;
      '>' !in header && '\n' !in header && '>' !in sec && '\n' !in sec
  {
    if ExtractSequence(content).Ok? {
      ExtractSequenceReadsFirstRecord(content);
      var t := content[IndexOf(content, '>') + 1..];
      var first := FirstRecord(content);
      assert '>' !in first;
      var rec := Strip(first);
      var body := Without(AfterFirstLine(rec), '\n');
      WithoutRemoves(AfterFirstLine(rec), '\n');
      UpperKeepsNonLetters(Strip(body), '>');
      UpperKeepsNonLetters(Strip(body), '\n');
    }
  }

  // ---------------------------------------------------------------------
  // Cleaning

  /** The characters of s that are bases, in their original order. */
  function ValidBases(s: string): (r: string)
    ensures |r| <= |s|
    ensures AllBases(r)
  {
    if s == [] then []
    else ValidBases(s[..|s| - 1]) + (if s[|s| - 1] in Bases then [s[|s| - 1]] else [])
  }

  /** The characters of s that are not bases, in their original order: one
      warning each. */
  function Rejected(s: string): (r: string)
    ensures |r| <= |s|
    ensures forall i :: 0 <= i < |r| ==> r[i] !in Bases
  {
    if s == [] then []
    else Rejected(s[..|s| - 1]) + (if s[|s| - 1] in Bases then [] else [s[|s| - 1]])
  }

  /** `limpiar_secuencia`: keep the bases, report one warning per other
      character, and fail when nothing is kept. The warnings are printed
      before the check, so they are returned on both paths. */
  method CleanSequence(sec: string) returns (warnings: string, r: Result<string, FastaError>)
    ensures warnings == Rejected(sec)
    ensures r.Ok? <==> |ValidBases(sec)| > 0
    ensures r.Ok? ==> r.value == ValidBases(sec)
    ensures r.Err? ==> r.error == NoValidBases
  {
    var clean := "";
    warnings := "";
    for i := 0 to |sec|
      invariant clean == ValidBases(sec[..i])
      invariant warnings == Rejected(sec[..i])
    {
      assert sec[..i + 1][..i] == sec[..i];
      var base := sec[i];
      if base in Bases {
        clean := clean + [base];
      } else {
        warnings := warnings + [base];
      }
    }
    assert sec[..|sec|] == sec;
    if |clean| == 0 {
      return warnings, Err(NoValidBases);
    }
    return warnings, Ok(clean);
  }

  /** One more input character is either kept or reported. */
  lemma CleanStep(p: string, x: char)
    ensures ValidBases(p + [x]) == ValidBases(p) + (if x in Bases then [x] else [])
    ensures Rejected(p + [x]) == Rejected(p) + (if x in Bases then [] else [x])
  {
    assert (p + [x])[..|p|] == p;
  }

  /** Every character that is not a base is reported as often as it occurs,
      and no base is reported; with CleanKeepsEveryBase, the kept and the
      reported characters together are exactly the input. */
  lemma {:induction false} CleanReportsEveryOther(s: string, c: char)
    ensures multiset(Rejected(s))[c] == if c in Bases then 0 else multiset(s)[c]
  {
    if s != [] {
      var p := s[..|s| - 1];
      CleanReportsEveryOther(p, c);
      assert s == p + [s[|s| - 1]];
      CleanStep(p, s[|s| - 1]);
    }
  }

  /** One warning per rejected character: the number of warnings is the
      input length minus the cleaned length. */
  lemma {:induction false} WarningCount(s: string)
    ensures |Rejected(s)| == |s| - |ValidBases(s)|
  {
    if s != [] {
      var p, x := s[..|s| - 1], s[|s| - 1];
      WarningCount(p);
      assert s == p + [x];
      CleanStep(p, x);
    }
  }

  /** The cleaned sequence holds every base of the input as often as the
      input does, and nothing else. */
  lemma {:induction false} CleanKeepsEveryBase(s: string, c: char)
    ensures multiset(ValidBases(s))[c] == if c in Bases then multiset(s)[c] else 0
  {
    if s != [] {
      var p := s[..|s| - 1];
      CleanKeepsEveryBase(p, c);
      assert s == p + [s[|s| - 1]];
      CleanStep(p, s[|s| - 1]);
    }
  }

  /** The cleaned sequence is a subsequence of the input: idx gives, in
      increasing order, the input position of each kept character. */
  lemma {:induction false} CleanKeepsOrder(s: string) returns (idx: seq<nat>)
    ensures |idx| == |ValidBases(s)|
    ensures forall j :: 0 <= j < |idx| ==> idx[j] < |s| && s[idx[j]] == ValidBases(s)[j]
    ensures forall j, l :: 0 <= j < l < |idx| ==> idx[j] < idx[l]
  {
    if s == [] {
      idx := [];
    } else {
      var p := s[..|s| - 1];
      var x := s[|s| - 1];
      var prev := CleanKeepsOrder(p);
      if x in Bases {
        assert ValidBases(s) == ValidBases(p) + [x];
        idx := prev + [|s| - 1];
        forall j | 0 <= j < |idx|
          ensures idx[j] < |s| && s[idx[j]] == ValidBases(s)[j]
        {
          if j < |prev| {
            assert s[idx[j]] == p[prev[j]];
          }
        }
      } else {
        assert ValidBases(s) == ValidBases(p);
        idx := prev;
        forall j | 0 <= j < |idx|
          ensures idx[j] < |s| && s[idx[j]] == ValidBases(s)[j]
        {
          assert s[idx[j]] == p[prev[j]];
        }
      }
    }
  }

  /** Cleaning an A/T/G/C string changes nothing and warns about nothing. */
  lemma {:induction false} CleanIsIdentityOnBases(s: string)
    requires AllBases(s)
    ensures ValidBases(s) == s && Rejected(s) == []
  {
    if s != [] {
      var p := s[..|s| - 1];
      CleanIsIdentityOnBases(p);
      assert s == p + [s[|s| - 1]];
    }
  }

  /** Cleaning is idempotent. */
  lemma CleanIsIdempotent(s: string)
    ensures ValidBases(ValidBases(s)) == ValidBases(s)
    ensures Rejected(ValidBases(s)) == []
  {
    CleanIsIdentityOnBases(ValidBases(s));
  }

  // ---------------------------------------------------------------------
  // Counting and report

  /** `contar_frecuencias`: the count of each of the four bases. */
  function BaseCounts(s: string): (freq: map<char, nat>)
    ensures freq.Keys == Bases
  {
    map['A' := Count(s, 'A'), 'T' := Count(s, 'T'), 'G' := Count(s, 'G'), 'C' := Count(s, 'C')]
  }

  /** Each count is the number of occurrences of its base. */
  lemma BaseCountsAreMultiplicities(s: string)
    ensures forall b :: b in Bases ==> BaseCounts(s)[b] == multiset(s)[b]
  {
    CountIsMultiplicity(s, 'A');
    CountIsMultiplicity(s, 'T');
    CountIsMultiplicity(s, 'G');
    CountIsMultiplicity(s, 'C');
  }

  /** On an A/T/G/C string the four counts add up to its length. */
  lemma {:induction false} BaseCountsSumToLength(s: string)
    requires AllBases(s)
    ensures var f := BaseCounts(s); f['A'] + f['T'] + f['G'] + f['C'] == |s|
  {
    if s != [] {
      BaseCountsSumToLength(s[1..]);
    }
  }

  /** The order in which the report lists the bases. */
  const ReportOrder: string := "ATGC"

  /** One line of the report: a base, its count and its share in percent
      (exact; the rounding to two decimals is not modelled). */
  datatype Row = Row(base: char, count: nat, percent: real)

  /** What `imprimir_resultados` prints: the header, the valid length and one
      row per base. */
  datatype Report = Report(header: string, total: nat, rows: seq<Row>)

  /** The rows of `imprimir_resultados`: frec[base] must exist and the total
      must be positive, since it divides. */
  function Percentages(s: string, freq: map<char, nat>): (rows: seq<Row>)
    requires |s| > 0
    requires Bases <= freq.Keys
    ensures |rows| == 4
    ensures forall i :: 0 <= i < 4 ==> rows[i].base == ReportOrder[i] && rows[i].count == freq[ReportOrder[i]]
  {
    seq(4, i requires 0 <= i < 4 =>
      var b := ReportOrder[i];
      Row(b, freq[b], freq[b] as real / |s| as real * 100.0))
  }

  /** On a cleaned sequence the four shares add up to exactly 100 percent. */
  lemma PercentagesSumTo100(s: string)
    requires |s| > 0 && AllBases(s)
    ensures var rows := Percentages(s, BaseCounts(s));
      rows[0].percent + rows[1].percent + rows[2].percent + rows[3].percent == 100.0
  {
    var f := BaseCounts(s);
    BaseCountsSumToLength(s);
    SharesAddUp(f['A'] as real, f['T'] as real, f['G'] as real, f['C'] as real, |s| as real);
  }

  /** Four shares of a positive whole that add up to it are 100 percent. */
  lemma SharesAddUp(a: real, t: real, g: real, c: real, n: real)
    requires n > 0.0 && a + t + g + c == n
    ensures a / n * 100.0 + t / n * 100.0 + g / n * 100.0 + c / n * 100.0 == 100.0
  {
    assert a / n + t / n + g / n + c / n == (a + t + g + c) / n;
  }

  /** The base-frequency pipeline after the file has been read: extract,
      clean, count and build the report. The total that divides in the
      report is the cleaned length, which is positive on every path that
      reaches it. */
  method FrequencyReport(content: string) returns (warnings: string, r: Result<Report, FastaError>)
    ensures ExtractSequence(content).Err? ==> warnings == [] && r == Err(ExtractSequence(content).error)
    ensures ExtractSequence(content).Ok? ==>
      var (header, sec) := ExtractSequence(content).value;
      var clean := ValidBases(sec);
      && warnings == Rejected(sec)
      && (r.Ok? <==> |clean| > 0)
      && (r.Err? ==> r.error == NoValidBases)
      && (r.Ok? ==> r.value.header == header && r.value.total == |clean| > 0
                    && r.value.rows == Percentages(clean, BaseCounts(clean)))
    ensures r.Ok? ==> var rows := r.value.rows;
      |rows| == 4 && rows[0].percent + rows[1].percent + rows[2].percent + rows[3].percent == 100.0
  {
    var extracted := ExtractSequence(content);
    if extracted.Err? {
      return [], Err(extracted.error);
    }
    var (header, sec) := extracted.value;
    var cleaned;
    warnings, cleaned := CleanSequence(sec);
    if cleaned.Err? {
      return warnings, Err(cleaned.error);
    }
    var clean := cleaned.value;
    var freq := BaseCounts(clean);
    PercentagesSumTo100(clean);
    r := Ok(Report(header, |clean|, Percentages(clean, freq)));
  }
}
