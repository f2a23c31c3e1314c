# Frequency-analysis decoder of a substitution cipher

This project models the core of `VPL-Criptoanalise_Freq/main.py`, a script that breaks a
monoalphabetic substitution cipher by frequency analysis and proves properties of that model.
The script ranks the symbols of the ciphertext by how often they occur. It then replaces each
symbol by the letter that has the same rank in a table of letter frequencies of the target
language (Portuguese).

- `CaseMap.dfy` models Python's `upper`, `lower` and `islower` on single characters.
- `Ranking.dfy` models the cipher ranking. Ignored characters are dropped. The rest are grouped
  and counted case-sensitively, upper-cased, and sorted by non-increasing count, and the symbol
  column is kept. The pandas sort used is not stable, so rows of equal count may come in any
  order. `IsRankingOf` therefore admits every non-increasing reordering of the counted rows.
  `SortByFreq`, an insertion sort, computes one of them.
- `Decoder.dfy` holds the per-character substitution `DecodeChar`, the whole-text
  specification `Decode`, and `DecryptText`. `DecryptText` is the script's accumulating loop,
  proved equal to `Decode`. The two lookups that raise an exception in the script are error
  results here: a symbol missing from the ranking, and a rank beyond the end of the language
  table. Decoding stops at the first such character.
- `Results.dfy` holds the Option and Result types.

Counting happens before upper-casing. So when a letter occurs in both cases, it gets two rows
in the ranking. The lookup takes the first of them, which is at least as frequent as the other
(`CaseVariantsTakeTwoRanks`, `LookupFindsMostFrequentVariant`). The model keeps this
behaviour as written.

## Model

| member | source | states |
|---|---|---|
| `CaseMap.Upper` | VPL-Criptoanalise_Freq/main.py:59 | the result is never a lower-case letter that has a capital; it differs from the input exactly when the input is such a letter, and then it is a capital; the ordinal indicators `ª` and `º` stay as they are |
| `CaseMap.Lower` | VPL-Criptoanalise_Freq/main.py:66-67 | the result is never a capital; it differs from the input exactly when the input is a capital, and then it is a lower-case letter; lower-case characters are kept |
| `CaseMap.CaseRoundTrip` | VPL-Criptoanalise_Freq/main.py:59-67 | upper- and lower-casing undo each other on the letters they change; upper-casing is idempotent |
| `Ranking.IgnoredAreUncased` | VPL-Criptoanalise_Freq/main.py:3 | no ignored character is a letter, so upper-casing neither creates nor removes an ignored character |
| `Ranking.Kept` | VPL-Criptoanalise_Freq/main.py:27-29 | the kept characters are exactly the characters of the text that are not in the ignored set, each kept as many times as it occurs in the text; ignored characters occur zero times |
| `Ranking.GroupBySize` | VPL-Criptoanalise_Freq/main.py:31 | one row per distinct kept symbol (no symbol twice), each row's count is that symbol's number of occurrences and positive, and every symbol of the input has its row |
| `Ranking.UpperSymbols` | VPL-Criptoanalise_Freq/main.py:35 | a column map and nothing more: row i of the result has the upper-cased symbol and the unchanged count of row i of the input |
| `Ranking.SortByFreq` | VPL-Criptoanalise_Freq/main.py:38 | the result is a permutation of the rows in non-increasing order of count |
| `Ranking.Symbols` | VPL-Criptoanalise_Freq/main.py:41 | a column projection and nothing more: position i of the result is the symbol of row i, with the count column dropped |
| `Ranking.CipherRows` | VPL-Criptoanalise_Freq/main.py:27-41 | the computed table is a ranking of the text: the counted, upper-cased rows in non-increasing order of count |
| `Ranking.RankingRows` | VPL-Criptoanalise_Freq/main.py:29-35 | in any ranking of the text, a row is present exactly when it is an upper-cased kept character paired with that character's own case-sensitive count |
| `Ranking.RankingCoversText` | VPL-Criptoanalise_Freq/main.py:27-35 | a ranking holds no ignored character, and every character of the text that is not ignored occurs in it upper-cased |
| `Ranking.CaseVariantsTakeTwoRanks` | VPL-Criptoanalise_Freq/main.py:31-38 | when two distinct characters with the same upper-case form both occur, that symbol stands at two distinct ranks |
| `Ranking.CipherRanking` | VPL-Criptoanalise_Freq/main.py:27-41 | the computed symbol list holds no ignored character and contains the upper-case form of every character of the text that is not ignored |
| `Decoder.FirstIndex` | VPL-Criptoanalise_Freq/main.py:61 | nothing is found exactly when the symbol is absent; otherwise the result is the smallest position holding the symbol |
| `Decoder.MatchCase` | VPL-Criptoanalise_Freq/main.py:66-67 | after a lower-case cipher character the output is the table letter with no capital left, otherwise the table letter as it is |
| `Decoder.DecodeChar` | VPL-Criptoanalise_Freq/main.py:56-67 | ignored characters come back unchanged; another character fails as not ranked exactly when its upper-case form is absent from the ranking; a lower-case one never decodes to a capital; any other successful result is a letter of the table |
| `Decoder.DecodeCharAtRank` | VPL-Criptoanalise_Freq/main.py:59-62 | a character whose upper-case form first stands at rank i decodes to the table letter at i, in the character's case, or fails with "outside the table" when i is not below the table's length |
| `Decoder.Decode` | VPL-Criptoanalise_Freq/main.py:54-69 | a decoded text is as long as the ciphertext; a failure names a position inside it |
| `Decoder.DecodePointwise` | VPL-Criptoanalise_Freq/main.py:55-69 | decoding succeeds exactly when every character decodes, and then output position k is the decoding of input position k |
| `Decoder.DecodeFailsAtFirst` | VPL-Criptoanalise_Freq/main.py:55-62 | a failure reports the first character that cannot be decoded, with its reason; every earlier character decodes |
| `Decoder.IgnoredPreserved` | VPL-Criptoanalise_Freq/main.py:56-57 | every ignored character appears unchanged at its own position of the output |
| `Decoder.SubstitutedByRank` | VPL-Criptoanalise_Freq/main.py:59-67 | every other character is replaced by the table letter at the smallest rank of its upper-case form, in its own case, and that rank lies inside the table |
| `Decoder.SameCipherSamePlain` | VPL-Criptoanalise_Freq/main.py:55-69 | equal ciphertext characters decode to equal characters wherever they occur |
| `Decoder.FreshRankingDecodes` | VPL-Criptoanalise_Freq/main.py:27-62 | with a ranking computed from the ciphertext, no lookup misses its symbol; if the table has at least as many rows as the ranking, the whole text decodes |
| `Decoder.LookupFindsMostFrequentVariant` | VPL-Criptoanalise_Freq/main.py:31-61 | the lookup finds a row whose count is at least the number of times the looked-up character occurs in the ciphertext, so of two case variants it lands on a row at least as frequent as the other |
| `Decoder.DecryptText` | VPL-Criptoanalise_Freq/main.py:54-69 | the loop's result equals the specification `Decode`: the decoded text, or the error at the first character that cannot be decoded |
| `Decoder.StopsAtFailure` | VPL-Criptoanalise_Freq/main.py:55-62 | once a prefix of the text fails to decode, the whole text fails with the same error |

## Left out

- File input and output are not modelled: reading `original.txt` and the two CSV files, and writing `freqs.csv`, `freq_cipher.csv` and `decodificado.txt` (lines 7-8, 11, 17, 24, 43, 72-73). The ciphertext, the cipher ranking and the language table are inputs, and the decoded text is a result.
- The caching around the CSV files is not modelled (lines 12-19, 23-25). `Decode` and `DecryptText` accept any ranking, which covers a ranking loaded from a cached file. The lemmas about a ranking computed from the text (`FreshRankingDecodes`) cover the case where no cached file exists.
- The sort of the language table by its frequency column (line 13) is not modelled. The table is an input, already in rank order, with one single character per row.
- The percentage at line 32 is floating point and is not modelled. The model ranks by integer counts, which are a positive multiple of the percentages and give the same order.
- The order of rows with equal counts is not fixed. The pandas sort is not stable, so `IsRankingOf` admits any non-increasing order.
- Python's full Unicode case mapping is not modelled. `CaseMap` knows ASCII letters, the one-to-one Latin-1 letter pairs, the pair `ÿ`/`Ÿ`, and the ordinal indicators `ª` and `º` (lower-case, with no capital). `ß` (whose capital is the two characters `SS`) and `µ` (whose capital is the Greek `Μ`) are treated as uncased, and so is every character outside Latin-1 except `Ÿ`.
- The diagnostic `print` calls (lines 47-51, 60, 63) are not modelled.
- The lookup on the pandas table (line 61) is modelled by `FirstIndex` as a function on the symbol column, not as pandas' boolean indexing.
- The repository's other programs (the on-disk filesystem exercises and the process, thread and socket demos) are not part of this model.
