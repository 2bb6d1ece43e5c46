# Cipher engine of the lab1_security page, in Dafny

`app.js` is a single-page tool for classical ciphers. Its engine has these parts:

- the two alphabets (`appData`);
- the Caesar cipher with its key validator;
- a brute-force attack on Caesar that ranks all keys by a common-word score;
- the Trithemius cipher, whose shift follows a linear, quadratic or motto key schedule;
- the book (poem) cipher, which encodes each letter as the "row/col" coordinate of a cell in a square grid built from a poem.

This project models that engine as pure functions and proves what each part promises. Every cipher takes the user's output preferences as a `Settings` value: letter case, and whether non-letters are kept, removed or replaced by a space. The page itself keeps these in a global variable.

Modules, in dependency order:

| module | file | models |
|---|---|---|
| `Results` | results.dfy | `Option` and `Result`, for JavaScript's `null`/NaN and thrown errors |
| `JsText` | js_text.dfy | the JavaScript string and number primitives the engine uses: `parseInt`, decimal rendering, `%`, `\| 0`, `includes`, `split` and `join` |
| `Letters` | letters.dfy | the letter class `[а-яіїєґА-ЯІЇЄҐA-Za-z]` and its case mapping |
| `Alphabets` | alphabets.dfy | `appData`: the Ukrainian (33) and English (26) alphabets and their case pairing |
| `Preferences` | preferences.dfy | the `settings` record |
| `Caesar` | caesar.dfy | `KeyValidator`, `CaesarCipher` |
| `Ranking` | ranking.dfy | the sort of brute-force results by descending score |
| `BruteForce` | brute_force.dfy | `BruteForceAttacker` |
| `TrithemiusKeys` | trithemius_keys.dfy | `TrithemiusKey`, `TrithemiusKeyValidator` |
| `Trithemius` | trithemius.dfy | `TrithemiusCipher` |
| `BookKeys` | book_key.dfy | `BookCipherKey` |
| `BookCipher` | book_cipher.dfy | `BookCipher` |

Behaviour of the code that the model keeps:

- **Book cipher decryption throws on some codes.** A code whose row does not parse as a number throws a `TypeError`, unless its column is outside the grid. Examples are the `--/--` that encryption writes for a letter missing from the grid, and the empty ciphertext. The cause is that `NaN` fails both range comparisons, so `charAtCoordinate` indexes the grid with `NaN`. The model returns `Failure(RowNotANumber)` for these codes, not `'?'` (`BookCipher.NotFoundFails`, `BookCipher.EmptyFails`).
- **Which Trithemius schedule equals Caesar.** The linear schedule with A = 0 and B = k is the Caesar cipher with key k (`Trithemius.ConstantScheduleIsCaesar`). With A = 1 and B = 0 the shift grows with the position, so that schedule is not Caesar.
- **The brute-force key is a number.** The attack passes each key to `decrypt` as a number, and the validator reads it back through `parseInt` of its decimal string. `Caesar.KeyArg.Number` stands for such a key, and `Caesar.NumberReadsAsText` proves it is validated exactly like its decimal text.

## Model

| member | source | states |
|---|---|---|
| Letters.CaseFacts | app.js:333-335 | upper-casing maps each small letter of the class to a capital of the class, and leaves capitals and every character outside the class unchanged; a character is in the class exactly when its upper-case form is a capital of the class; the same holds the other way for lower-casing |
| Letters.CaseRoundTrip | app.js:333-335 | lower-casing a capital of the class and upper-casing the result gives the capital back, and the other way round for small letters |
| Letters.LowerCasedLetters | app.js:163 | `toLowerCase` of a string leaves no capital of the class, keeps each character's letter (the same capital form) and every character outside the class, and lower-casing twice is lower-casing once |
| Alphabets.IndexOf | app.js:93-94 | `indexOf` returns the first position holding the character, or -1 exactly when the character is absent |
| Alphabets.LetterIndex | app.js:93-99 | a character has a position exactly when it is a letter of the alphabet in either case; the entry at that position is the character, in its own case |
| Alphabets.PairCaseMapping | app.js:93-94 | upper- and lower-casing through the alphabet pair send a letter to the letter at the same position in the other case, and fix every other character |
| Alphabets.ShippedAlphabets | app.js:4-17 | both shipped alphabets are valid: 33 and 26 distinct capitals, the lowercase strings are their small forms, position by position, and no small form is a capital |
| Alphabets.ShippedCased | app.js:4-17 | each lowercase string is the `toLowerCase` of its capital string, which is what `TrithemiusCipher` computes from the capitals alone |
| JsText.Decimal | app.js:356 | the template-literal rendering of a natural number is a non-empty run of digits with no leading zero, whose value is the number |
| JsText.ParseDecimal | app.js:48 | `parseInt` reads the decimal rendering of a natural number back as that number |
| JsText.ParseIntText | app.js:48 | `parseInt` reads an integer typed with an optional minus sign back as that integer |
| JsText.SplitChar | app.js:425 | `split` on one character gives at least one piece, no piece holds the separator, and joining the pieces with it restores the string |
| JsText.SplitCharFirst | app.js:425 | the first piece of a split runs up to the first separator |
| JsText.SplitList | app.js:416 | splitting on a comma or semicolon plus the whitespace after it gives at least one piece, none holding a comma or semicolon |
| JsText.SplitListJoin | app.js:410-416 | splitting the `", "`-join of pieces gives back the pieces, when no piece holds a comma or semicolon and no piece after the first starts with whitespace |
| JsText.SplitWhitespaceFree | app.js:163 | the pieces of a split on runs of whitespace hold no whitespace |
| JsText.SplitWhitespaceConcat | app.js:163 | the pieces of a split on runs of whitespace, put together, are exactly the non-whitespace characters of the text, in order |
| Caesar.Validate | app.js:44-59 | a key is refused as empty exactly when it is absent or the empty string; as not a number exactly when it is otherwise not read by `parseInt`; as not positive exactly when the value read is below 1; as above the maximum N-1 exactly when the value read is at least 1 and above N-1; it is accepted exactly when the value read lies in 1..N-1, and the accepted key is that value |
| Caesar.ValidateInteger | app.js:44-59 | an integer typed as text is refused as below 1, refused as above N-1, or accepted as itself |
| Caesar.NumberReadsAsText | app.js:44-59 | a key passed as a number reads, and is validated, exactly like its decimal text |
| Caesar.RangeMatchesValidator | app.js:61-63 | the advertised range "1-(N-1)" names the smallest and largest keys the validator accepts |
| Caesar.ProcessChar | app.js:93-130 | a letter of the alphabet becomes the letter `shift` places further, cyclically, in the case the preference asks for; any other character is kept, removed or replaced by a space, as the preference asks |
| Caesar.Encrypt | app.js:76-81 | encryption fails exactly when the validator refuses the key, with the validator's error |
| Caesar.Decrypt | app.js:83-88 | decryption fails exactly when the validator refuses the key, with the validator's error |
| Caesar.ProcessTextAppend | app.js:90-132 | transforming a concatenation transforms each part separately |
| Caesar.OutputLength | app.js:90-132 | every character yields one character, except non-letters under the remove preference, which yield none |
| Caesar.ShiftedLetter | app.js:93-110 | a letter's image is one letter whose position is the shifted position modulo N and whose case follows the preference |
| Caesar.RoundTrip | app.js:90-132 | transforming with a key in one direction and then the other, with non-letters kept, restores the text up to the case preference |
| Caesar.EncryptDecrypt | app.js:76-88 | under the default preferences, decryption undoes a successful encryption with the same key, and encryption undoes a successful decryption |
| Ranking.InsertPermutes | app.js:156 | placing a result in the sorted list adds exactly that result |
| Ranking.InsertRanked | app.js:156 | placing a result with a larger key than all placed ones after every result of at least its score keeps the list ordered by descending score, then ascending key |
| Ranking.SortByScoreFacts | app.js:156 | the stable sort by descending score of results whose keys ascend is a permutation of them, ordered by descending score and, on ties, ascending key |
| Ranking.RankedUnique | app.js:156 | two lists so ordered with the same elements are equal, so the sorted order is fully determined |
| BruteForce.CommonAmongNonEmpty | app.js:164-166 | no more words contain a common word than there are non-empty words |
| BruteForce.Ratio | app.js:165-167 | the score is 0 without words or matches, lies in 0..1, and is 1 exactly when every word matches |
| BruteForce.ScoreExtremes | app.js:159-168 | a text with no words, or with no word containing a common word, scores 0; a text scores 1 exactly when it has words and every one contains a common word |
| BruteForce.ScoreText | app.js:159-168 | every score lies between 0 and 1 |
| BruteForce.ScoreIgnoresCase | app.js:163 | lower-casing a text first does not change its score |
| BruteForce.Scored | app.js:150-151 | a result carries its key and text, a score in 0..1, and is flagged likely exactly when the score exceeds 0.6 |
| BruteForce.Tries | app.js:146-155 | every result recorded by the key loop has a key within the loop's range |
| BruteForce.TriesEveryKey | app.js:146-155 | when no decryption throws, the loop records one result per key, in key order, each holding that key's decryption and its score |
| BruteForce.ResultsDecrypt | app.js:145-155 | the attack decrypts with every key 1..N-1, each once, in order, and each result holds the Caesar decryption with its key |
| BruteForce.TriesDecrypting | app.js:146-153 | a decryption that succeeds on every key in the range yields one result per key, in key order, scored from that key's text |
| BruteForce.AttackTriesEveryKey | app.js:145-157 | for both languages the attack records, for each key 1..N-1, the Caesar decryption with that key, its score and its likely flag, and calls the callback once per key, in key order, with the key, N-1 and that key's result |
| BruteForce.AttackRecoversPlaintext | app.js:145-157 | whatever the key used to encrypt a text, the ranked results contain that key with the original text |
| BruteForce.AllResultsRanked | app.js:156 | the sorted results are a permutation of the recorded ones, ordered by descending score and then ascending key |
| BruteForce.AttackRanks | app.js:145-157 | the attack returns the recorded results sorted by descending score, ties kept in key order, and this is the only such ordering |
| TrithemiusKeys.BaseWraps | app.js:208 | the base is read with `\| 0`, which wraps modulo 2^32: a base congruent to 1 evaluates the arithmetic schedules one position later than base 0, and any other base exactly as base 0 |
| TrithemiusKeys.MottoIndex | app.js:224-225 | a motto character is looked up among the capitals, then among their small forms; -1 exactly when it is in neither |
| TrithemiusKeys.KAt | app.js:207-229 | every shift lies in 0..n-1; an empty motto and an unknown mode give 0 |
| TrithemiusKeys.KAtFormula | app.js:209-227 | the linear shift is (A·p + B) mod n, the quadratic (A·p² + B·p + C) mod n, and the motto shift is the position in the alphabet of the motto character at the position, or 0, all with a non-negative remainder |
| TrithemiusKeys.MottoShift | app.js:221-227 | for a cased alphabet, a motto shift is the alphabet position of the motto character, whichever its case, and 0 for a character outside the alphabet |
| TrithemiusKeys.MottoPeriodic | app.js:221-227 | the motto schedule repeats with the motto's length and ignores the position base |
| TrithemiusKeys.BaseOne | app.js:208-220 | a position base of 1 evaluates the arithmetic schedules one position further on |
| TrithemiusKeys.FirstForeign | app.js:248-252 | the first motto character outside the alphabet is found, every earlier one being inside; -1 exactly when all are inside |
| TrithemiusKeys.ValidateParams | app.js:233-257 | linear and quadratic parameters are accepted exactly when all are finite; a motto is accepted exactly when it is non-empty and every character is in the alphabet in some case, an empty one is refused as empty, and any other refusal names the first foreign character; any other mode is refused |
| TrithemiusKeys.KeyOf | app.js:650-687 | from parameters that passed validation the page builds a schedule whose shift at every position and alphabet size is the family's formula at that position reduced modulo the size; a motto schedule's motto is non-empty and every character of it is in the alphabet |
| TrithemiusKeys.ValidMottoShift | app.js:221-257 | with a validated motto every shift is the position of a genuine alphabet letter |
| Trithemius.IndexOfChar | app.js:267-272 | the position found is -1 or within the alphabet |
| Trithemius.IndexOfCharIsLetterIndex | app.js:267-272 | for a cased alphabet, `indexOfChar` finds exactly the alphabet's letters, at their position, and tells whether they are capitals |
| Trithemius.MapIdxInverse | app.js:267-277 | `mapIdx` and `indexOfChar` are inverse: a position and case read back unchanged, and a letter is the letter at its own position and case |
| Trithemius.Shifted | app.js:295-296 | the shifted position lies in 0..n-1 and is the old position plus or minus the shift, modulo n |
| Trithemius.LetterOut | app.js:295-299 | the emitted letter sits at the shifted position, as a capital exactly when the case preference asks for one |
| Trithemius.Step | app.js:282-304 | a letter yields one character; any other character yields what the non-letter preference asks |
| Trithemius.TransformFrom | app.js:279-307 | the output is as long as the input, or as long as its letter count under the remove preference |
| Trithemius.Encrypt | app.js:309-311 | unless non-letters are removed, the ciphertext is as long as the text |
| Trithemius.Decrypt | app.js:313-315 | unless non-letters are removed, the plaintext is as long as the ciphertext |
| Trithemius.AfterCountsLetters | app.js:303 | the position counter moves on by exactly the number of letters passed |
| Trithemius.TransformAppend | app.js:279-307 | transforming a concatenation transforms the second part from where the counter stood after the first |
| Trithemius.ShiftOfCharAfter | app.js:279-307 | a character after some prefix is transformed with the counter at the start plus the number of letters in the prefix |
| Trithemius.StepOfLetter | app.js:292-299 | a letter is replaced by the letter at its position shifted by the schedule's value, in the case the preference asks for |
| Trithemius.StepRoundTrip | app.js:279-307 | one character encrypted and decrypted at the same position under the default preferences is restored, and it is a letter exactly when its encryption is |
| Trithemius.RoundTrip | app.js:279-307 | decryption undoes encryption for every schedule, from any starting position, under the default preferences |
| Trithemius.EncryptDecrypt | app.js:309-315 | `decrypt` undoes `encrypt` for every schedule under the default preferences |
| Trithemius.ConstantScheduleIsCaesar | app.js:207-213 | the linear schedule A = 0, B = k, for a key Caesar accepts, produces exactly the Caesar transformation with key k, in both directions and under every preference |
| Trithemius.CaesarStep | app.js:292-299 | one character under the constant schedule is transformed exactly as Caesar transforms it |
| BookKeys.CleanTextAppend | app.js:333-335 | cleaning keeps exactly the letters of the class, in order and upper-cased: one character yields its capital when it is in the class and nothing otherwise, and cleaning a concatenation cleans each part |
| BookKeys.CleanTwice | app.js:333-335 | cleaning an already cleaned text changes nothing |
| BookKeys.BuildGrid | app.js:331-347 | the grid is `size` rows of `size` cells, each a capital of the class or the padding '_' |
| BookKeys.GridReadsText | app.js:338-345 | read row by row, the grid is the cleaned poem padded with '_' to size² cells, or its first size² letters when the poem is longer |
| BookKeys.VisitOrdered | app.js:350-351 | the map-building loops visit cells in reading order |
| BookKeys.VisitCovers | app.js:350-351 | the map-building loops visit every cell of the grid |
| BookKeys.MapEntry | app.js:349-361 | the map has no entry for the padding; a letter has an entry exactly when some visited cell holds it, and the entry lists the coordinates of those cells in visiting order |
| BookKeys.CoordsHead | app.js:363-368 | the first coordinate listed for a letter is that of the first cell holding it |
| BookKeys.Find | app.js:363-368 | the index found holds the letter and no earlier cell does; -1 exactly when no cell holds it |
| BookKeys.NewKey | app.js:325-329 | the key built from a poem and a size has that size, a square grid of capitals and padding that read row by row is the cleaned poem padded with '_' or cut to size² cells, and the coordinate map of that grid |
| BookKeys.CharAtCoordinate | app.js:370-375 | a coordinate outside 1..size reads `null`, as does a numeric row with a NaN column; a NaN row with the column in range or NaN throws |
| BookKeys.GetCoordinateOccurs | app.js:363-368 | `getCoordinate` finds a character exactly when its upper-case form is a letter of the grid |
| BookKeys.GetCoordinateFirst | app.js:363-375 | the coordinate found is that of the first cell, in reading order, holding the upper-case form, and `charAtCoordinate` there gives that letter back |
| BookCipher.Tokens | app.js:390-409 | there is at most one token per character, and exactly one unless non-letters are removed |
| BookCipher.Encrypt | app.js:387-411 | encryption fails exactly when no key is set |
| BookCipher.DecodeAll | app.js:417-433 | the codes decode exactly when each does, to at least one character per code that is not a bracketed literal |
| BookCipher.Decrypt | app.js:413-435 | decryption without a key fails as unset; with a key it succeeds exactly when every code of the split decodes |
| BookCipher.BracketDecodes | app.js:419-423 | a bracketed code decodes to what is inside the brackets |
| BookCipher.OutOfRangeDecodes | app.js:424-432 | a code of two integers, either outside 1..size, decodes to '?' |
| BookCipher.BlankDecodes | app.js:424-432 | the coordinate of a padding cell decodes to '?' |
| BookCipher.LetterDecodes | app.js:424-432 | the coordinate of a letter cell decodes to that letter |
| BookCipher.CoordinatePieces | app.js:425 | a "row/col" code splits into its row and column text and is not a bracketed literal |
| BookCipher.NotFoundFails | app.js:424-427 | the `--/--` written for a missing letter does not decode: its row is NaN and the lookup throws |
| BookCipher.EmptyFails | app.js:416-427 | an empty ciphertext does not decrypt: it splits into one empty code, whose row is NaN |
| BookCipher.MissingLetterBreaks | app.js:392-396 | a letter of the class that the grid lacks encrypts to `--/--`, which does not decrypt |
| BookCipher.TokenRoundTrip | app.js:390-432 | with non-letters kept, each character without a comma or semicolon, whose letter the grid holds, yields one token; the token survives the list split and decodes to the character's upper-case form |
| BookCipher.TokensRoundTrip | app.js:390-433 | such a text yields one token per character, and the tokens decode together to the text in upper case |
| BookCipher.RoundTrip | app.js:387-435 | decrypting the encryption of a non-empty text with non-letters kept gives the text in upper case, when it has no comma or semicolon and the grid holds all its letters |

## Left out

- The page is not modelled: DOM, alerts, `FileHandler`, the clipboard, timing (`Date.now`), `generateRandomKey` and the brute-force dialog. The global `settings` and the chosen language are parameters instead.
- The progress callback of `attack` is modelled as the list of its calls (`BruteForce.Trace`), not as a call.
- Scores are exact rationals, not IEEE doubles. The threshold 0.6 and the sort comparator `b.score - a.score` are evaluated exactly, so a rounding tie between two floating-point scores is not modelled. The sort is modelled as the stable insertion sort that ES2019 `Array.prototype.sort` is required to match.
- Trithemius parameters are integers or "not finite". Fractional values, and arithmetic on doubles too large to be exact, are left out. The position base is converted with `| 0` exactly (`JsText.ToInt32`).
- Caesar.ProcessChar: the letter test goes through the alphabet pair, so only the alphabet's own letters are shifted. JavaScript looks up `char.toUpperCase()` in the capitals with `indexOf`, which also finds characters outside the letter class; the model treats all of these as non-letters. In the English alphabet they are the dotless `ı` (upper-cased to `I`), the long `ſ` (to `S`), and the ligatures `ﬅ` and `ﬆ`, whose upper-case form is the two-letter string "ST", found at the position of `S`. In the Ukrainian alphabet they are U+1C80 to U+1C85, the historic Cyrillic letter forms upper-cased to В, Д, О, С, Т and Т.
- Letters.UpperOf covers only the letter class and leaves every other character unchanged. The full Unicode case mapping is left out. The Trithemius letter test gives the same position (-1) for letters outside the class either way, because it looks the character itself up.
- BookKeys.GetCoordinate: JavaScript looks up `char.toUpperCase()` in the coordinate map, so a character outside the class whose upper-case form is one class letter finds that letter's cell: `ı` finds `I`, `ſ` finds `S`, and U+1C80 to U+1C86 find В, Д, О, С, Т, Т and Ъ. The source encrypts such a character to the letter's "row/col"; the model gives it the non-letter token (`[ch]`, nothing, or `[_]`, as the preference asks). Characters whose upper-case form has two letters, such as `ﬅ`, find no entry either way.
- The page builds the book key with size 10 and requires a poem of at least 100 characters; the model takes any size and any poem.
- BookCipher.RoundTrip: holds only for non-empty texts without ',' or ';' whose letters all occur in the grid, with non-letters kept. Any other text does not round-trip: `MissingLetterBreaks` and `EmptyFails` show two such cases, and under the remove and space preferences the non-letters are lost.
- Strings are sequences of Unicode scalar values, like `for...of`. Indexing by UTF-16 code unit (`cleanText[idx]`, `motto[i]`) differs only for characters outside the Basic Multilingual Plane, and none of those is a letter of either alphabet.
