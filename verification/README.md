# K4 cipher toolkit, modelled in Dafny

The repository is a set of classical-cipher tools built around the unsolved
fourth part (K4) of the Kryptos sculpture. This project models its logic:

- **Gromark brute forcer** (`Gromark_transposition.py`):
  - the keyed mixed alphabet, built by a columnar transposition of a keyword;
  - the running key grown from a five-digit primer by a lagged recurrence mod 10;
  - Gromark decryption;
  - the cheap keyword prefilter against known cipher/plain anchors;
  - the subsequence test for required words;
  - one primer batch for one keyword, and the partition of the primer range into batches.
- **Vigenère cracker** (`vigenere.py`): a decryption whose key pointer advances only on alphabet symbols and whose output is lower-cased; the all-phrases test; word batches; per-batch filtering; the order of the search.
- **Fixed-alphabet Vigenère brute forcer** (`VigenereBruteForcer.py`): the alphabet `DYAHRBCEFGIJKLMNOPQSTUVWXZ`, a per-position key, the dictionary word filter, and a first-match search.
- **The two GUI toolkits**, `K4Tools.py` (PyQt5) and `K4tools.py` (tkinter). Each callback is a function whose parameters are the widget contents:
  - Vigenère decryption with an absolute key position;
  - phrase highlighting;
  - the integer part of the index of coincidence;
  - ASCII XOR and modular subtraction;
  - Morse dot/dash inversion;
  - the letter matrix (fill, four read-out modes, column rearrangement);
  - 5-bit boolean operations and base-5 addition.
- **The older tkinter scripts** `main.py` and `test.py`: the same letter arithmetic with their own tables (periodic shift, rotation by five in the KRYPTOS alphabet, Morse inversion, boolean operations, base-5 addition), and the column-wise read-out of the matrix tool in `test.py`.

Conventions used throughout:

- **Exceptions.** A Python exception becomes `Wrappers.Result.Err` carrying its kind (`ValueError`, `KeyError`, `IndexError`, `ZeroDivisionError`, `StopIteration`). A GUI callback that shows an error dialog and returns without output becomes `Err(Rejected)`.
- **Text.** Strings are `seq<char>`. Case mapping, `isalpha` and `isupper` are modelled for ASCII, so a non-ASCII capital such as 'É' counts as no letter; `strip` removes every character Python's `isspace` accepts.
- **Dictionaries.** A Python dictionary built from `enumerate` keeps the last index of a repeated symbol (`Seqs.LastIndexOf`); `str.index` finds the first (`Seqs.IndexOf`).
- **Parallelism.** Process-pool fan-out is modelled sequentially, in submission order. Lemmas show that batching does not change what is found, and that any completion order finds the same multiset of records.

Modules:

| module | file | models |
|---|---|---|
| `Wrappers`, `Seqs`, `Text`, `Modular` | wrappers, seqs, text, modular | results and failures, sequence and string helpers, modular-arithmetic facts |
| `Alphabets` | alphabets.dfy | a symbol's place in a dictionary-built alphabet, and the forward shift both dictionary-based Vigenère decryptions undo |
| `Columnar` | columnar.dfy | reading a row-major text column by column |
| `Gromark` | gromark.dfy | `create_keyed_alphabet` |
| `GromarkCipher` | gromark_cipher.dfy | `generate_running_key`, `decrypt_gromark`, `validate_keyword` |
| `Batching` | batching.dfy | `batch_primers`, `batch_words` |
| `GromarkSearch` | gromark_search.dfy | `can_form_word`, `try_decrypt_batch`, `parallel_process_keywords` |
| `VigenereCracker` | vigenere.dfy | `vigenere.py` |
| `BruteForcer` | brute_forcer.dfy | `VigenereBruteForcer.py` |
| `GuiVigenere` | gui_vigenere.dfy | `decrypt_vigenere` and `highlight_match` of both GUI toolkits |
| `Coincidence` | coincidence.dfy | `calculate_ioc` |
| `LetterArithmetic` | letter_arithmetic.dfy | `modular_subtraction`, `xor_operation`, `shift_string` |
| `Morse` | morse.dfy | the three `convert_to_opposite_morse` |
| `Rotation` | rotation.dfy | `main.py` `transposition` |
| `FiveBit` | five_bit.dfy | `boolean_operations` (`K4tools.py`, `main.py`) |
| `Base5` | base5.dfy | `base5_addition` (`K4tools.py` table `Computed`, `main.py` table `Written`) |
| `Grids`, `MatrixTool` | grid.dfy, matrix_tool.dfy | the `K4Tools.py` letter matrix |
| `LetterMatrix` | letter_matrix.dfy | the `test.py` letter matrix |

## Model

| member | source | states |
|---|---|---|
| `Columnar.ReadColumnsPerm` | Gromark_transposition.py:42-47 | reading a row-major layout column by column, in any order that names every column once and skipping empty cells, is a permutation of the laid-out text |
| `Columnar.AllColumnsPerm` | Gromark_transposition.py:42-47 | reading all columns left to right is a permutation of the text, however ragged the last row |
| `Gromark.KeyLetters` | Gromark_transposition.py:19 | the deduplicated keyword has no repeated symbol, is empty only for an empty keyword, and holds exactly the symbols of the upper-cased keyword |
| `Gromark.RemainingCount` | Gromark_transposition.py:20 | the remaining alphabet holds each symbol as often as the alphabet does, except that keyword symbols are removed entirely |
| `Gromark.ColumnOrder` | Gromark_transposition.py:34-40 | the column order is a list of column indices whose keyword letters, taken in that order, are the keyword's letters sorted |
| `Gromark.ColumnOrderRanks` | Gromark_transposition.py:34-40 | for a keyword without repeats, the column read r-th is the one whose rank (1-based position among the sorted letters) is r+1 |
| `Gromark.ColumnOrderPerm` | Gromark_transposition.py:34-40 | for a keyword without repeats, the column order names every column exactly once |
| `Gromark.KeyedAlphabet` | Gromark_transposition.py:17-47 | an empty keyword gives zero columns and a division-by-zero failure; any other keyword gives a rearrangement of keyword-then-remaining whose first symbol is the smallest keyword letter |
| `Gromark.KeyedAlphabetPerm` | Gromark_transposition.py:17-47 | when the alphabet has no repeats and holds every upper-cased keyword letter, the keyed alphabet is a permutation of the alphabet: same length, same symbols, no repeats |
| `Gromark.RemainingAppend` | Gromark_transposition.py:20 | filtering out the keyword symbols distributes over concatenation of alphabets |
| `Gromark.GronsfeldAlphabet` | Gromark_transposition.py:17-47 | the test-case keyword GRONSFELD over the straight alphabet gives the mixed alphabet DPEKYFJXGAQLMZNHVOCURBTSIW |
| `GromarkCipher.GenerateRunningKey` | Gromark_transposition.py:55-64 | the key fails exactly when its digit array does, with the same failure; otherwise it is `length` decimal characters spelling that array |
| `GromarkCipher.RunningKeyRecurrence` | Gromark_transposition.py:55-64 | for a primer of at least five digits and a length at least the primer's, the key has that length, starts with the primer, and each later digit is the sum mod 10 of the digits five and four places back |
| `GromarkCipher.RunningKeyDigits` | Gromark_transposition.py:57-62 | a non-digit primer, or one longer than the key that numpy cannot broadcast into it, fails with ValueError, while a one-digit primer for a zero-length key gives the empty key; a primer shorter than the key whose length plus the key length is below five fails with IndexError; otherwise the array has the requested length, digits below 10, and the primer's digits first |
| `GromarkCipher.TestPrimerKey` | Gromark_transposition.py:291-297 | the test case's primer 32941 grown to 13 digits is 3294151356648 |
| `GromarkCipher.DecryptChar` | Gromark_transposition.py:69-77 | a character outside the mixed alphabet, or past the end of the running key, is only lower-cased; any failure comes from a character that is in the mixed alphabet and within the key |
| `GromarkCipher.DecryptGromark` | Gromark_transposition.py:66-79 | decryption succeeds exactly when every character does, preserves length, yields each character's own decryption at its position, and otherwise fails as the first failing character |
| `GromarkCipher.GromarkRoundTrip` | Gromark_transposition.py:66-79 | with a mixed alphabet and an alphabet without repeats and of equal length, decryption undoes the Gromark encryption of a text over the alphabet, giving it lower-cased |
| `GromarkCipher.KeyedRoundTrip` | Gromark_transposition.py:17-79 | a keyed alphabet and a running key from a valid primer together decrypt what they encrypt |
| `GromarkCipher.CheckAnchors` | Gromark_transposition.py:109-119 | every aligned pair of every anchor is checked, up to the shorter of its cipher and plain segments, and the anchor's position is ignored |
| `GromarkCipher.ValidateKeyword` | Gromark_transposition.py:105-122 | a keyword is accepted exactly when it is non-empty and every aligned anchor pair has its lookups succeed with an implied shift of at most 9 |
| `GromarkCipher.PairFitsIff` | Gromark_transposition.py:105-122 | for an alphabet of distinct capitals, a pair passes the prefilter exactly when some digit 0-9 makes the decryption formula turn the cipher symbol into the lower-cased plain symbol |
| `GromarkCipher.ValidateReproduces` | Gromark_transposition.py:105-122 | a non-empty keyword is accepted exactly when every anchor pair is reproduced by decryption under some single digit |
| `GromarkSearch.ScanSubsequence` | Gromark_transposition.py:154-158 | the greedy single pass reaches the end of the word exactly when the remaining word is a subsequence of the text |
| `GromarkSearch.CanFormWordIff` | Gromark_transposition.py:150-158 | a word can be formed exactly when the upper-cased word occurs in the upper-cased text at increasing positions; the empty word always can |
| `GromarkSearch.FormableExamples` | Gromark_transposition.py:150-158 | CAT can be formed from CONCATENATE; DOG cannot |
| `GromarkSearch.TryDecryptBatch` | Gromark_transposition.py:81-103 | the batch fails (outside the per-primer guard) only for an empty keyword; otherwise it is the list of per-primer hits in primer order |
| `GromarkSearch.AttemptsMembers` | Gromark_transposition.py:86-101 | a record is returned exactly when some primer of the batch yields it as a hit |
| `GromarkSearch.BatchingInvariant` | Gromark_transposition.py:124-148 | with a positive batch size, the jobs' results in submission order are the unbatched search of every keyword over every primer 10000..99999 |
| `GromarkSearch.CompletionOrder` | Gromark_transposition.py:139-146 | whatever order the jobs complete in, the collected records are the same multiset |
| `GromarkSearch.SearchSound` | Gromark_transposition.py:81-148 | every record found names a listed keyword and primer, and its running key and decryption are the ones computed for them, with every required word formable |
| `Batching.IntRange` | Gromark_transposition.py:52 | the primer list holds start, start+1, ..., end and is empty when end < start |
| `Batching.BatchPrimers` | Gromark_transposition.py:50-53 | a zero batch size fails with ValueError; a positive one gives non-empty batches of at most that size, all but the last full, which concatenate back to start..end |
| `Batching.Chunks` | vigenere.py:107-109 | batching a word list fails only for size 0, is empty for a negative size, and otherwise splits into non-empty batches of at most the size, all full but the last |
| `Batching.ChunksFlatten` | vigenere.py:107-109 | concatenating the batches gives the word list back |
| `Batching.DefaultPrimerBatches` | Gromark_transposition.py:50-53 | the default primer range in batches of 1000 gives 90 batches |
| `VigenereCracker.KeyShiftsEmpty` | vigenere.py:28-30 | the key leaves no shift exactly when no upper-cased key character is an alphabet symbol |
| `VigenereCracker.DecryptVigenere` | vigenere.py:23-45 | output length equals the ciphertext's, and with no shift the ciphertext is returned as is, not lower-cased |
| `VigenereCracker.DecryptVigenereAt` | vigenere.py:33-45 | with a usable key, every output character is not upper-case; a non-alphabet character comes out lower-cased; an alphabet symbol at position i uses the shift indexed by the number of alphabet symbols before it |
| `VigenereCracker.VigenereRoundTrip` | vigenere.py:23-45 | with an alphabet without repeats, decryption undoes the matching encryption (key pointer advancing on alphabet symbols only), giving the plaintext lower-cased |
| `VigenereCracker.ContainsAllPhrases` | vigenere.py:65-70 | true exactly when every upper-cased phrase occurs in the upper-cased, space-free text (so an empty phrase list is accepted) |
| `VigenereCracker.SpacedPhraseNeverFound` | vigenere.py:70 | a phrase containing a space is never found |
| `VigenereCracker.ProcessBatchMembers` | vigenere.py:89-105 | a record is returned exactly when its key is in the batch, its plaintext is that key's decryption, its phrases are the targets and the plaintext contains them all |
| `VigenereCracker.ProcessBatchesFlatten` | vigenere.py:137-157 | processing the batches one after another finds what processing the whole word list finds |
| `VigenereCracker.CrackOrder` | vigenere.py:111-157 | the matches from specific keys come before any dictionary match, and every returned record contains all the target phrases |
| `BruteForcer.Places` | VigenereBruteForcer.py:4 | the alphabet has 26 symbols, and each symbol's index is its position |
| `BruteForcer.AlphabetDistinct` | VigenereBruteForcer.py:4 | the alphabet has 26 distinct symbols with D first and no question mark |
| `BruteForcer.DecryptChar` | VigenereBruteForcer.py:10-23 | fails (division by zero) exactly for an alphabet symbol other than '?' under an empty key; '?' and other non-alphabet characters pass through; alphabet symbols stay in the alphabet |
| `BruteForcer.DecryptErr` | VigenereBruteForcer.py:8-23 | decryption fails exactly when the key is empty and some ciphertext character is in the alphabet, and otherwise leaves every non-alphabet character where it was |
| `BruteForcer.DecryptFrom` | VigenereBruteForcer.py:10-23 | decryption succeeds exactly when every position does, and then preserves length and decrypts each character with the key character at its absolute position |
| `BruteForcer.RoundTrip` | VigenereBruteForcer.py:6-25 | with a non-empty key, decrypting the encryption of any text under the fixed alphabet gives the text back |
| `BruteForcer.IdentityKey` | VigenereBruteForcer.py:4-25 | a key made only of D decrypts every text to itself |
| `BruteForcer.LineWordIff` | VigenereBruteForcer.py:29 | a line contributes a word exactly when its stripped, upper-cased form has only alphabet symbols, and the word is that form |
| `BruteForcer.LoadDictionaryMembers` | VigenereBruteForcer.py:27-29 | the loaded words are exactly those contributed by some line |
| `BruteForcer.Crack` | VigenereBruteForcer.py:31-52 | reports the first dictionary key, in order, whose decryption contains BERLINCLOCK or EASTNORTH, with every earlier key missing; "not cracked" exactly when every key misses; a failing decryption ends the search with its failure |
| `GuiVigenere.KeyShiftsAll` | K4Tools.py:655 | a key of alphabet symbols gives one shift per key character, its last place in the alphabet (key not upper-cased) |
| `GuiVigenere.Decrypt` | K4Tools.py:651-669 | with no shift the ciphertext is returned; otherwise each character at absolute position i is decrypted with shift i mod m, alphabet symbols staying in the alphabet and others passing through; length is preserved |
| `GuiVigenere.RoundTrip` | K4tools.py:98-117 | with an alphabet without repeats and a usable key, decryption undoes encryption exactly, case included |
| `GuiVigenere.Highlight` | K4Tools.py:765-768 | an absent phrase raises ValueError; otherwise the result is two marks longer than the text |
| `GuiVigenere.HighlightShape` | K4tools.py:170-173 | the result is the text with the mark (`*` in K4Tools.py, `**` in K4tools.py) inserted before and after the first occurrence of the phrase |
| `GuiVigenere.HighlightRestores` | K4Tools.py:765-768 | removing the two marks from the highlighted text gives the text back |
| `Coincidence.Letters` | K4Tools.py:1191-1193 | only letters are counted, never more characters than the text has, and every letter of the text is among them |
| `Coincidence.CalculateIoc` | K4Tools.py:1189-1201 | the result is 0 exactly when at most one letter is counted, and otherwise a quotient with a positive denominator |
| `Coincidence.IocCountsPairs` | K4Tools.py:1195-1200 | with n >= 2 letters, the dictionary sums give the quotient (ordered pairs of distinct positions holding the same letter) / (n(n-1)) |
| `Coincidence.IocAtMostOne` | K4Tools.py:1189-1201 | the numerator never exceeds the denominator |
| `Coincidence.SamePairsConstant` | K4Tools.py:1199 | a text of one repeated letter matches on every pair |
| `Coincidence.SamePairsDistinct` | K4Tools.py:1199 | a text of distinct letters matches on no pair |
| `LetterArithmetic.Fold` | K4Tools.py:1158-1162 | a letter folds to its capital; any other character folds to the capital congruent to it mod 26 |
| `LetterArithmetic.ModularSubtraction` | K4Tools.py:1143-1182 | an empty stripped key is rejected; otherwise the repeated key and the difference both have the stripped input's length, the key is cycled and folded, and every difference letter is a capital |
| `LetterArithmetic.SubtractionUndo` | K4Tools.py:1168-1174 | adding the repeated key back to the difference gives the folded input |
| `LetterArithmetic.SubtractNothing` | K4Tools.py:1143-1182 | a key of A's leaves the folded input unchanged |
| `LetterArithmetic.XorOperation` | K4Tools.py:1203-1222 | unequal lengths raise ValueError; otherwise the result has the same length, every character a capital, each the folded XOR of the two characters |
| `LetterArithmetic.XorChar` | K4Tools.py:1212-1216 | an XOR code in 65..90 is kept; any other becomes the capital 65 + code mod 26 |
| `LetterArithmetic.XorSymmetric` | K4Tools.py:1203-1222 | the operation is symmetric in its two texts |
| `LetterArithmetic.XorSelf` | K4Tools.py:1203-1222 | a text XORed with itself gives all A's |
| `LetterArithmetic.XorUndo` | K4Tools.py:1212-1216 | when the XOR code is already a capital, XORing with the same key again restores the character |
| `LetterArithmetic.ShiftChar` | main.py:67-74 | a capital moves to a different capital; any other character is kept |
| `LetterArithmetic.ShiftString` | main.py:62-75 | length is preserved and the character at position i is shifted by the amount for i mod 9 |
| `LetterArithmetic.ShiftRoundTrip` | main.py:62-75 | shifting back by the same periodic amounts restores the input |
| `Morse.CodeInjective` | K4Tools.py:865-870 | no two letters share a Morse code |
| `Morse.InvertInvolution` | K4Tools.py:872-873 | swapping dots and dashes twice restores the code |
| `Morse.Opposite` | K4Tools.py:877-884 | the opposite letter, when found, is a capital whose code is the swapped code; when none is found, no letter has that code |
| `Morse.OppositeInvolution` | K4Tools.py:877-884 | the opposite of the opposite letter is the letter itself |
| `Morse.ConvertToOppositeMorse` | K4Tools.py:863-888 | length is preserved and each character of the upper-cased input is swapped on its own: a letter becomes its opposite or stays, anything else stays |
| `Morse.ConvertTwice` | K4tools.py:207-232 | converting twice gives the upper-cased input |
| `Morse.MainAgrees` | main.py:13-33 | the older script produces, per letter of the upper-cased input, that letter's opposite, or a space when there is none |
| `Morse.ConvertToOppositeMorseMain` | main.py:3-36 | the stripped result begins and ends with a capital, holds only capitals and spaces, and is no longer than the letters of the input |
| `Rotation.MakeTrans` | main.py:109-113 | the translation table's keys are the source symbols, each mapped to the target symbol at its last position |
| `Rotation.RotateTextTable` | main.py:102-115 | translating by the rotated table moves each alphabet symbol k places on, cyclically, and leaves every other character alone |
| `Rotation.TranspositionAt` | main.py:102-115 | each symbol of the 25-symbol KRYPTOS alphabet moves five places on, cyclically; every other character is kept |
| `Rotation.KryptosOutside` | main.py:105 | M and lower-case letters are not in the table and pass through |
| `Rotation.RotateCompose` | main.py:102-115 | two rotations compose into one rotation by the sum of their steps |
| `Rotation.RotateUndo` | main.py:102-115 | rotating by n - k undoes rotating by k |
| `Rotation.TranspositionFiveTimes` | main.py:102-115 | five applications of the transposition give the input back |
| `FiveBit.CodeValue` | K4tools.py:296-303 | each letter's 5-bit code is the binary form of its alphabet position 1..26 |
| `FiveBit.CodeInjective` | K4tools.py:296-303 | no two letters share a code |
| `FiveBit.InValuesRange` | K4tools.py:296-304 | a 5-bit chunk is a letter's code exactly when its value is 1..26, so 00000 and 11111 never are |
| `FiveBit.ParseOperation` | K4tools.py:311-324 | exactly the six operation names are recognised |
| `FiveBit.Encode` | K4tools.py:307-308 | encoding fails with KeyError exactly when some character is not a capital; otherwise it concatenates each letter's code |
| `FiveBit.Combine` | K4tools.py:311-324 | NOT gives as many bits as the first input; the others give the shorter length, bit by bit |
| `FiveBit.BooleanMatchesReference` | K4tools.py:291-336 | on capital inputs, the result is the letter-by-letter reference: each letter the one whose code is the operation applied to the two codes, or the first input's letter when the result is 00000, 11111 or no code; an unknown operation gives nothing |
| `FiveBit.BooleanFails` | main.py:117-163 | the operation fails, with KeyError, exactly when an input has a character outside the table |
| `FiveBit.PairwiseValue` | K4tools.py:311-322 | bitwise combination of two w-bit codes has the value of the arithmetic bit operation |
| `FiveBit.XorSelfText` | K4tools.py:311-312 | XOR of a text with itself returns the text |
| `FiveBit.AndSelfText` | K4tools.py:313-314 | AND of a text with itself returns the text |
| `FiveBit.OrSelfText` | K4tools.py:315-316 | OR of a text with itself returns the text |
| `FiveBit.NotLetter` | K4tools.py:317-318 | NOT maps the letter at position v to the one at 31 - v when v >= 5, and keeps A-D |
| `FiveBit.NotTwice` | K4tools.py:317-334 | NOT applied twice gives the letter back |
| `FiveBit.NorSelfText` | K4tools.py:319-320 | NOR of a text with itself is NOT of that text |
| `FiveBit.NandSelfText` | K4tools.py:321-322 | NAND of a text with itself is NOT of that text |
| `FiveBit.XorTwice` | K4tools.py:311-312 | XORing twice with the same value restores the first |
| `FiveBit.UnknownOperation` | K4tools.py:323-324 | an unknown operation on valid inputs returns the empty text |
| `Base5.CodeNum` | K4tools.py:342-343 | a letter's code is the two base-5 digits of its number |
| `Base5.WrittenTable` | main.py:169-176 | A is 00 and W is 42 in the written table; Y is 44 and Z is 50 in the computed one |
| `Base5.Read` | K4tools.py:345-346 | the computed table upper-cases the text and skips any non-letter; the written table raises KeyError on a non-capital and otherwise keeps the text |
| `Base5.FromNum` | K4tools.py:350-351 | the computed inverse gives ? exactly for 43 (X's own code) and never A or Z; the written first-match lookup gives a capital other than X |
| `Base5.LastKeyFinds` | K4tools.py:350 | the inverted table keeps the last letter with a given code |
| `Base5.FirstKeyFinds` | main.py:192 | the written decode picks the first letter with a given code |
| `Base5.AddDigits` | K4tools.py:348 | digits are added mod 5 pairwise over the shorter digit string |
| `Base5.SumMatchesReference` | K4tools.py:345-351 | encoding, digit addition and decoding together equal the letter-by-letter reference sum of the two letters' numbers |
| `Base5.Base5MatchesReference` | main.py:165-195 | when both inputs read, the result is the reference sum of the read texts |
| `Base5.Base5Fails` | main.py:179-180 | the computed table never fails; the written one fails with KeyError exactly when an input has a non-capital |
| `Base5.Base5Output` | main.py:184-193 | the output has as many letters as the shorter input; the written table never outputs X, and the computed one never A or Z |
| `Base5.Base5Commutes` | K4tools.py:338-353 | the two inputs can be swapped without changing the result |
| `Base5.ComputedNeutral` | K4tools.py:342-351 | adding A (00) maps A, X and Z to X and keeps every other letter |
| `Base5.WrittenNeutral` | main.py:169-193 | adding A maps X to A and keeps every other letter |
| `Base5.SumNegNum` | main.py:184-186 | adding a number's digit-wise negation undoes adding the number |
| `Base5.WrittenUndo` | main.py:165-195 | with the written table, adding the negated key undoes adding the key, up to writing X as A |
| `Grids.Fill` | K4Tools.py:559-563 | the filled grid has `rows` rows, each `cols` wide |
| `Grids.FillRowMajor` | K4Tools.py:603-606 | reading the filled grid row by row, skipping blanks, gives the kept prefix without blanks |
| `Grids.FillColumnMajor` | K4Tools.py:608-620 | for text without blanks, reading the filled grid by any list of columns gives the column reading of the kept prefix |
| `Grids.FillColumnsDown` | K4Tools.py:609-614 | reading right to left gives the descending column reading of the kept prefix |
| `Grids.GridColumnsPerm` | K4Tools.py:608-620 | reading a grid by any order that names each column once is a permutation of its cells |
| `Grids.SelectColumns` | K4Tools.py:540 | selecting columns keeps every row and puts column `cols[k]` at place k |
| `Grids.SelectColumnsPerm` | K4Tools.py:540 | selecting a permutation of the columns keeps the multiset of cells |
| `MatrixTool.ReadingFor` | K4Tools.py:593-615 | the radio buttons pick one of the four readings, row-wise exactly when chosen, bottom-to-top and right-to-left only in their own direction |
| `MatrixTool.OutputMatrixPerm` | K4Tools.py:584-622 | every reading is a permutation of the grid's non-blank cells |
| `MatrixTool.UpdateMatrix` | K4Tools.py:496-518 | rejects a missing row or column count, a non-letter text and a non-positive size; otherwise shows a rows-by-cols grid |
| `MatrixTool.UpdateMatrixOutput` | K4Tools.py:496-518 | the output is the kept prefix read row-wise down, rows up, columns left to right or columns right to left, and always a permutation of the kept prefix |
| `MatrixTool.CurrentMatrix` | K4Tools.py:550-564 | rejects unreadable sizes, fails on negative ones, and otherwise holds the upper-cased text's kept prefix row-major |
| `MatrixTool.ResolveIndices` | K4Tools.py:540 | a column index is usable exactly when it lies in -cols..cols-1, a negative one counting from the right |
| `MatrixTool.RearrangeColumns` | K4Tools.py:520-548 | succeeds exactly when an order is given, the matrix is readable, the order has cols entries and every index is usable; the shown grid is the selected columns and the output their reading |
| `MatrixTool.RearrangePerm` | K4Tools.py:520-548 | an order naming every column once gives a permutation of the grid's non-blank cells |
| `MatrixTool.RearrangeTransposition` | K4Tools.py:608-620 | read left to right, the rearranged grid is the columnar transposition of the kept prefix in the given order |
| `MatrixTool.RearrangeIdentity` | K4Tools.py:520-548 | the order 0..cols-1 shows exactly what updating the matrix shows |
| `LetterMatrix.SubmitString` | test.py:107-115 | accepts exactly alphabetic upper-cased input, storing it in a one-row grid as wide as the input |
| `LetterMatrix.UpdateMatrix` | test.py:117-128 | accepts exactly positive rows and columns, and only changes the grid size |
| `LetterMatrix.UpdateMatrixOutput` | test.py:149-167 | the column-wise output reads the columns right to left, top to bottom, and is a permutation of the input |
| `LetterMatrix.MatrixRowsCover` | test.py:150 | the grid always has room for every character |
| `LetterMatrix.RearrangeColumns` | test.py:169-208 | accepts exactly an order of `cols` indices each in 0..cols-1, duplicates allowed |
| `LetterMatrix.RearrangeIs` | test.py:178-208 | the rearranged output reads the chosen columns right to left |
| `LetterMatrix.RearrangePerm` | test.py:178-208 | when the order is a permutation of the columns, the output is a permutation of the input |
| `LetterMatrix.RearrangeIdentity` | test.py:169-208 | the order 0..cols-1 gives the column-wise output |
| `LetterMatrix.UpdateValid` | test.py:117-128 | the stored state stays well formed across updates |

## Left out

- Widget construction, dialogs, signals and display callbacks are user interface, and the model has none of them. This covers the QThread and threading workers and the progress bars. The inputs they read become parameters, and a dialog that returns early becomes `Err(Rejected)`.
- Concurrency: `ProcessPoolExecutor` fan-out and `tqdm` are modelled as sequential work in submission order. `GromarkSearch.CompletionOrder` covers any completion order up to the multiset of records.
- File and console I/O are outside the model:
  - reading the dictionary file (`vigenere.py` `load_dictionary`, the GUI `load_dictionary`);
  - `save_results_to_file`, `load_stylesheet`;
  - the interactive prompts and printing in `run()`.

  Of the dictionary filters, only the one in `VigenereBruteForcer.py` is modelled, as a function of the file's lines.
- Floating point is left out: the frequency analysis, IoC thresholds, `main.py` `ioc`, and the final division in `calculate_ioc`. `Coincidence.CalculateIoc` returns the integer numerator and denominator instead.
- The `lru_cache` on `get_alphabet` in both GUI toolkits freezes the first alphabet as hidden state. The model takes the alphabet as an explicit parameter on each call.
- `vigenere.py` `highlight_match` is ANSI colouring that indexes the text with offsets taken from a space-stripped copy, so it is presentation only.
- The `numpy` int8 array in `generate_running_key` is left out. Digits are modelled as naturals below 10, which cannot overflow int8.
- The test case of `run()` is proved in two of its parts: `GromarkCipher.TestPrimerKey` grows its primer, and `Gromark.GronsfeldAlphabet` builds its keyed alphabet. Its 77-character Gromark decryption and the 63-character PALIMPSEST Vigenère test of `vigenere.py` are concrete computations over long strings, which the verifier does not evaluate in reasonable time. The general lemmas above state the behaviour they exercise.
- The other `K4Tools.py` callbacks are not part of this model: `process_string`, `get_morse_code`, `transposition`, `reverse`, the two `base5_addition` methods, `xor`, and the XOR brute forcers. The same applies to `K4tools.py` `transposition`, `ioc` and `reverse`, and to `main.py` `get_morse_code` and `reverse`.
- `Base5.WrittenUndo`: only the written table's undo is stated. With the computed table, a sum of 43 decodes to `?`, which cannot be added again.
- `LetterArithmetic.XorUndo`: it holds only when the XOR code is already a capital. A folded code loses the information needed to undo it.
- `VigenereCracker.CrackOrder`: the dictionary matches are stated in submission order. The process pool yields them in completion order, which permutes only the dictionary part; the specific-key matches still come first.
- `LetterArithmetic.ShiftChar`: only ASCII capitals are shifted. `shift_string` also enters its branch for a non-ASCII capital such as 'É', which `isupper` accepts, and there `alphabet.index` raises ValueError; the model passes that character through, because Unicode case tables are outside the model.
- `GromarkCipher.RunningKeyDigits`: only ASCII digits count as primer digits. Python's `int` also accepts other Unicode decimal digits, which the model rejects with ValueError.

## Behaviour of the code worth knowing

- Keyed alphabet: the deduplicated, upper-cased keyword followed by the unused alphabet symbols is written row by row under as many columns as the keyword has letters, and the columns are then read top to bottom in the keyword's sorted order, so the unused symbols are interleaved with the keyword letters (GRONSFELD gives DPEKYFJXGAQLMZNHVOCURBTSIW, `Gromark.GronsfeldAlphabet`). It is a permutation of the alphabet only when the alphabet has no repeats and holds every upper-cased keyword letter (`Gromark.KeyedAlphabetPerm`); a keyword letter outside the alphabet is added to it.
- Primer: any digit string is taken, not only five digits. A non-digit primer raises ValueError, and so does one longer than the key, except a one-digit primer for a zero-length key, which numpy broadcasts into the empty array and which gives the empty key. A short primer with a short key raises IndexError (`GromarkCipher.RunningKeyDigits`).
- Gromark output: every output character is lower-cased, including characters passed through unchanged (`GromarkCipher.DecryptChar`).
- Per-candidate errors: `create_keyed_alphabet` runs outside the per-primer `try`, so an empty keyword fails its whole batch, and the pool drops that batch's results (`GromarkSearch.TryDecryptBatch`).
- Phrase containment: the spaces are removed from the text before the test, so a phrase with a space is never found (`VigenereCracker.SpacedPhraseNeverFound`).
