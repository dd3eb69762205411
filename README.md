# DNA sequence tools and rock-paper-scissors rule, modelled in Dafny

This project models the computational core of three small command-line
scripts:

- **k-mer counter** (`src/k-mers.py`). `validate_sequence` upper-cases a DNA
  string and rejects it at the first character outside A/T/C/G.
  `count_kmers` checks the window width `k`, then counts every overlapping
  width-`k` window in a dictionary.
- **base-frequency tool** (`src/base_freq.py`). `extraer_secuencia` takes the
  header and sequence of the first FASTA record. `limpiar_secuencia` drops
  every character that is not A/T/G/C, with one warning each.
  `contar_frecuencias` counts the four bases. `imprimir_resultados` reports
  each base's share of the total, and the model shows that this total is
  never zero.
- **rock-paper-scissors** (`src/rps.py`). `determine_result` is the
  win/lose/draw rule. `play` validates the player's choice and scores it
  against the CPU's.

Modules:

- `Results` (results.dfy) is the `Result` type. It stands for every
  `sys.exit(1)` and `raise ValueError`.
- `Text` (text.dfy) models the Python string built-ins the scripts call:
  `upper`, `strip`, `split`, `join` and `count`.
- `Nucleotides` (nucleotides.dfy) holds the A/T/C/G set.
- `Kmers` (kmers.dfy), `BaseFreq` (base_freq.dfy) and
  `Rps` (rps.dfy) model one script each.
- `Agreement` (agreement.dfy) links the two DNA tools: a base count is the
  k-mer count of that base with k = 1.

The scripts' loops are methods with loop invariants, each proved against a
specification function:

- `ValidateSequence` is proved against `AllBases` and `Upper`.
- `CountKmers` is proved against `Occurrences` and `SumValues`.
- `CleanSequence` is proved against `ValidBases` and `Rejected`.

The scripts' expressions are functions, and the lemmas state their
properties. Printed error messages become distinct error values:

- `KmerError`: `InvalidBase`, `NonPositiveK` and `KTooLarge`.
- `FastaError`: `NotFasta`, `NoRecord`, `EmptySequence` and `NoValidBases`.
- `RpsError`: `InvalidChoice`.

Each printed warning becomes one character of the returned `warnings`
string. No positions are recorded: the code prints only the
character. The two DNA tools validate differently, and the model keeps both
behaviours:

- `validate_sequence` in the k-mer tool stops at the first invalid
  character.
- `limpiar_secuencia` in the base-frequency tool reports every invalid
  character and does not upper-case. Upper-casing happens earlier, in
  `extraer_secuencia`.

The k-mer result is specified as a key→count map with no order.

## Model

| member | source | states |
|---|---|---|
| `Kmers.ValidateSequence` | src/k-mers.py:13-23 | succeeds exactly when the upper-cased input is all A/T/C/G, and then returns that upper-cased input; on failure the error carries the first invalid character, everything before it being valid; an upper-case A/T/C/G input (the empty one included) is returned unchanged |
| `Nucleotides.UpperKeepsBases` | src/k-mers.py:15-16 | upper-casing an A/T/C/G string leaves it unchanged |
| `Text.Upper` | src/k-mers.py:15 | `upper` keeps the length and leaves no lower-case letter; a character that is not a lower-case letter stays unchanged in its place, and a lower-case letter becomes the capital at the same position in the alphabet |
| `Text.UpperNormalises` | src/k-mers.py:15 | after `upper` no lower-case letter is left; `upper` is the identity exactly on strings with no lower-case letter, and is idempotent |
| `Kmers.CountKmers` | src/k-mers.py:26-42 | fails with NonPositiveK exactly when k <= 0, and with KTooLarge exactly when k > 0 and k > len(seq), so any positive k fails on an empty sequence; otherwise the keys are exactly the width-k windows of the sequence, every key has length k, each count is the number of start positions whose window equals the key, and the counts sum to len(seq) - k + 1 |
| `Kmers.OccurrencesCountsPositions` | src/k-mers.py:38-40 | the per-key count equals the size of the set of matching start positions, overlapping windows included |
| `Kmers.OccurrencesPositive` | src/k-mers.py:38-40 | a key has a non-zero count exactly when some window equals it |
| `Text.Split` | src/base_freq.py:29 | `split` on one character gives one part more than there are separators, and no part contains the separator |
| `Text.SplitJoin` | src/base_freq.py:29 | joining the split parts with the separator gives back the original text |
| `Text.JoinSplit` | src/base_freq.py:29 | splitting a join of separator-free parts gives back the parts |
| `Text.SplitHead` | src/base_freq.py:29 | the first part is the text before the first separator, and the remaining parts are the split of the text after it |
| `Text.StripLeftRemovesLeadingSpace` | src/base_freq.py:35 | `lstrip` leaves a suffix (stated by `StripLeft`'s own contract) that does not start with whitespace, and every dropped character is whitespace |
| `Text.StripRightRemovesTrailingSpace` | src/base_freq.py:35 | `rstrip` leaves a prefix (stated by `StripRight`'s own contract) that does not end with whitespace, and every dropped character is whitespace |
| `Text.Strip` | src/base_freq.py:35 | `strip` keeps no more characters than the input has and adds none, and what it leaves neither starts nor ends with whitespace |
| `Text.Concat` | src/base_freq.py:37 | `"".join` contains a character exactly when one of the parts does |
| `Text.ConcatSplit` | src/base_freq.py:37 | joining the split lines with nothing between them removes the line breaks |
| `BaseFreq.ExtractSequence` | src/base_freq.py:23-43 | fails with NotFasta exactly when there is no '>', and a successful sequence is never empty |
| `BaseFreq.NoRecordNeverHappens` | src/base_freq.py:29-33 | the check for fewer than two parts never fires, because text with a '>' always splits into at least two parts |
| `BaseFreq.ExtractSequenceReadsFirstRecord` | src/base_freq.py:29-41 | given a '>', the result is EmptySequence when the record's body is empty; otherwise the header is the first line of the stripped text between the first '>' and the next, and the sequence is the following lines with the line breaks removed, stripped and upper-cased |
| `BaseFreq.ExtractedTextIsOneLine` | src/base_freq.py:35-37 | the header and the sequence contain no '>' and no line break |
| `BaseFreq.ValidBases` | src/base_freq.py:48-53 | the kept characters are all bases and are no more than the input |
| `BaseFreq.Rejected` | src/base_freq.py:51-55 | the rejected characters are none of them bases |
| `BaseFreq.CleanSequence` | src/base_freq.py:46-61 | the warnings are the rejected characters in input order, on both paths; the result fails with NoValidBases exactly when no base remains, and is otherwise the input's bases in order |
| `BaseFreq.CleanKeepsEveryBase` | src/base_freq.py:51-53 | every base occurs in the cleaned sequence as often as in the input, and no other character occurs |
| `BaseFreq.CleanReportsEveryOther` | src/base_freq.py:51-55 | every non-base character is reported as often as it occurs in the input, and no base is reported; with the row above, kept plus reported characters are exactly the input |
| `BaseFreq.WarningCount` | src/base_freq.py:51-55 | the number of warnings is len(sec) - len(result) |
| `BaseFreq.CleanKeepsOrder` | src/base_freq.py:49-53 | the cleaned sequence is a subsequence of the input: strictly increasing input positions carry its characters |
| `BaseFreq.CleanIsIdentityOnBases` | src/base_freq.py:51-53 | an A/T/G/C string is returned unchanged with no warnings |
| `BaseFreq.CleanIsIdempotent` | src/base_freq.py:51-53 | cleaning a cleaned sequence changes nothing and gives no warnings |
| `BaseFreq.BaseCounts` | src/base_freq.py:64-71 | the frequency table has exactly the keys A, T, G and C |
| `Text.Count` | src/base_freq.py:67-70 | `str.count` of one character never exceeds the length of the string |
| `Text.CountPositiveIffPresent` | src/base_freq.py:67-70 | the count of a character is non-zero exactly when the character occurs |
| `Text.CountIsMultiplicity` | src/base_freq.py:67-70 | `str.count` of a character is its multiplicity in the string |
| `BaseFreq.BaseCountsAreMultiplicities` | src/base_freq.py:66-71 | each value is the number of occurrences of its base |
| `BaseFreq.BaseCountsSumToLength` | src/base_freq.py:66-71 | on an A/T/G/C string the four counts add up to its length |
| `Agreement.BaseCountIsOneMerCount` | src/base_freq.py:64-71 | a base's count equals the k-mer count of that one-letter string with k = 1 |
| `BaseFreq.Percentages` | src/base_freq.py:74-84 | there is one row per base, in the order A, T, G, C, each holding that base's count; the division needs a positive total and all four keys |
| `BaseFreq.PercentagesSumTo100` | src/base_freq.py:81-84 | on a cleaned sequence the four exact shares add up to 100 percent |
| `BaseFreq.FrequencyReport` | src/base_freq.py:96-99 | an extraction error passes through with no warnings; otherwise the warnings are the rejected characters; the report exists exactly when a base remains, and its total is then the positive cleaned length, the divisor at line 83; its header is the extracted one and its four shares sum to 100 |
| `Rps.DetermineResult` | src/rps.py:11-27 | the result is one of draw, win or lose, and it is draw exactly when the choices are equal |
| `Rps.ResultFollowsCycle` | src/rps.py:20-27 | on valid choices the result is a win exactly when the player's choice comes next after the CPU's in the cycle rock, paper, scissors, and a loss exactly when the CPU's comes next after the player's |
| `Rps.WinLoseSwap` | src/rps.py:20-27 | for two different valid choices, a win for (a, b) is a loss for (b, a), and the reverse |
| `Rps.InvalidUnequalLoses` | src/rps.py:26-27 | unequal arguments of which one is not a valid choice always lose, since the function does not validate |
| `Rps.EachOutcomeOnce` | src/rps.py:20-27 | for each valid player choice, each outcome is produced by exactly one valid CPU choice |
| `Rps.Play` | src/rps.py:29-44 | fails with InvalidChoice exactly when the player's choice is not one of the three; otherwise the CPU choice is one of the three and the result is `determine_result(user_choice, cpu_choice)` |
| `Rps.PlayReachesEveryOutcome` | src/rps.py:42-44 | every outcome happens for some CPU draw |

## Left out

- `src/gene-expression.py` is not part of this model. It is a thin wrapper
  over pandas table reading, filtering and sorting, and it compares floats.
- File access is not modelled: `validar_archivo` and `leer_fasta` are left
  out. `FrequencyReport` starts from the file's text.
- Each script's `main` is left out: argument parsing, printing and the game's
  `input()` loop. `FrequencyReport` keeps the pure steps of base_freq's
  `main` (lines 96-99). The messages become error values and returned
  warning characters.
- `BaseFreq.Percentages` computes exact real shares. It does not model
  Python's float division or the rounding to two decimals.
- `Text.Upper` maps only ASCII a-z to A-Z. Python's `str.upper` also maps
  non-ASCII letters, and some of them to more than one character:
  - 'ẗ' becomes "T" followed by a combining diaeresis;
  - 'ẚ' becomes "A" followed by a modifier letter;
  - 'ß' becomes "SS".
- `Kmers.ValidateSequence` still accepts exactly the inputs Python accepts.
  Every such expansion also contains a character that is not a base, so the
  input is rejected either way. Only the reported character can differ.
- `BaseFreq.FrequencyReport` can differ from Python on non-ASCII letters.
  `extraer_secuencia` upper-cases before `limpiar_secuencia` filters, so in
  Python such a letter can add an A or a T base that the model drops. The
  model then reports fewer bases, and can fail with `NoValidBases` where
  Python succeeds. For example, ">h\nẗ" gives "T: 1" in Python. An expansion
  can also change the number of warnings: 'ß' gives two in Python and one in
  the model.
- `Text.IsSpace` fixes the whitespace set that `str.strip` removes, assumed
  to be CPython's `str.isspace` set:
  - TAB to CR and U+001C to U+0020;
  - U+0085, U+00A0 and U+1680;
  - U+2000 to U+200A, U+2028, U+2029, U+202F, U+205F and U+3000.
- `Rps.Play` does not model `random.choice`. The CPU's choice is the
  parameter `draw`, the index the call picks, which must be below 3.
- The order in which `count_kmers`' dictionary is printed is not modelled.
  The model specifies only the key→count map.
