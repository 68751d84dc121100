# wordlers in Dafny

A model of the game logic of `wordlers`, a terminal Wordle clone written in Rust, with proofs
about it. The model is in three modules, one per part of `src/main.rs`:

- `Words` (`words.dfy`) covers `sanitize_word` and `words_list`.
  - `sanitize_word` trims the input, uppercases it and keeps only the ASCII letters.
  - `words_list` splits the embedded word list on newlines, skips the first two lines,
    sanitises each remaining line and keeps those of five bytes.
  - Rust's `len()` counts UTF-8 bytes, so the model has `Utf8Len`. It is proved equal to the
    number of characters on sanitised words.
- `Feedback` (`feedback.dfy`) covers the colour of each letter in `display_guesses`:
  - EXACT (green) when the letter matches the secret at that position;
  - otherwise PRESENT (yellow) when the letter occurs anywhere in the secret, with no counting
    of repeated letters;
  - otherwise ABSENT (red).

  It also defines the absent-letter sets that `guessed_letters` collects.
- `Wordler` (`game.dfy`) covers the game.
  - The session `WordlerGame` is the class `Game`. `dictionary` and `word` are constants;
    `guessedLetters` and `guesses` are updated in place.
  - `display_guesses` and `ask_for_guess` are methods with loops. `is_game_over` is a function
    of the state.
  - `main` is the method `Play`.
  - `Play` is proved against a reference definition, `Referee`, of how a game on a given list
    of accepted guesses ends.

The model takes as parameters what the program gets from outside:

- the embedded word list is a string `allWords`;
- the random pick of the secret is an index `choice` into the dictionary;
- standard input is a sequence of lines `input`.

Scoring TRACE against CRANE marks the A EXACT, not PRESENT, because both words have their A at
the same position; `Feedback.ScoreExamples` proves this row.

## Model

| member | source | states |
|---|---|---|
| Words.UpperChar | src/main.rs:151 | uppercasing keeps a character alphabetic exactly when it was, turns every ASCII letter into 'A'..'Z', and leaves capitals alone |
| Words.Uppercase | src/main.rs:151 | uppercasing keeps the length and leaves no lower-case ASCII letter |
| Words.KeepAsciiAlpha | src/main.rs:152-154 | the filter keeps only ASCII letters and never lengthens; when the input has no lower-case letter it gives 'A'..'Z' only |
| Words.Sanitize | src/main.rs:149-155 | `sanitize_word` returns only letters 'A'..'Z' and is never longer than its input |
| Words.Utf8Len | src/main.rs:142 | reference definition of `String::len`, the UTF-8 byte count; `Words.UpperWordUtf8Len` proves it is the character count on 'A'..'Z' strings |
| Words.UpperWordUtf8Len | src/main.rs:142 | a string of 'A'..'Z' has as many UTF-8 bytes as characters |
| Words.SanitizedByteLength | src/main.rs:142 | the byte length that `len()` returns on a sanitised word is its character count |
| Words.KeepAsciiAlphaConcat | src/main.rs:152-154 | filtering a concatenation filters each part |
| Words.KeepAsciiAlphaOfLetters | src/main.rs:152-154 | filtering a string of ASCII letters changes nothing |
| Words.KeepAsciiAlphaOfSpaces | src/main.rs:152-154 | filtering a string without ASCII letters gives the empty string |
| Words.UppercaseConcat | src/main.rs:151 | uppercasing a concatenation uppercases each part |
| Words.IsAsciiAlpha | src/main.rs:153 | reference definition of `is_ascii_alphabetic`; `Words.KeepAsciiAlpha` and `Words.KeepAsciiAlphaOfLetters` give its role in the filter |
| Words.IsWhitespace | src/main.rs:150 | reference definition of `char::is_whitespace` (the Unicode White_Space list); `Words.WhitespaceNotAlpha` proves no such character survives the filter |
| Words.TrimStart | src/main.rs:150 | reference definition of `trim_start`; `Words.TrimStartRemovesWhitespace` gives its meaning |
| Words.TrimEnd | src/main.rs:150 | reference definition of `trim_end`; `Words.TrimEndRemovesWhitespace` gives its meaning |
| Words.Trim | src/main.rs:150 | reference definition of `trim`, the trailing trim of the leading trim; `Words.TrimEnds` and `Words.SanitizeIgnoresTrim` give its meaning |
| Words.TrimStartRemovesWhitespace | src/main.rs:150 | the leading trim drops a prefix made only of whitespace and stops at the first other character |
| Words.TrimEndRemovesWhitespace | src/main.rs:150 | the trailing trim drops a suffix made only of whitespace and stops at the last other character |
| Words.TrimEnds | src/main.rs:150 | a trimmed string neither starts nor ends with whitespace |
| Words.WhitespaceNotAlpha | src/main.rs:150-154 | no whitespace character becomes an ASCII letter when uppercased |
| Words.SanitizeWhitespace | src/main.rs:151-154 | uppercasing and filtering a string of whitespace leaves nothing |
| Words.DropWhitespace | src/main.rs:150-154 | whitespace around a string adds nothing to its sanitised letters |
| Words.TrimStartSplit | src/main.rs:150 | a string is the whitespace the leading trim removes followed by what it keeps |
| Words.TrimEndSplit | src/main.rs:150 | a string is what the trailing trim keeps followed by the whitespace it removes |
| Words.SanitizeIgnoresTrim | src/main.rs:149-155 | trimming never changes what `sanitize_word` returns |
| Words.SanitizeFixedPoint | src/main.rs:149-155 | the words `sanitize_word` leaves unchanged are exactly the strings of 'A'..'Z' (both directions) |
| Words.SanitizeIdempotent | src/main.rs:149-155 | sanitising a sanitised word returns it unchanged |
| Words.Split | src/main.rs:139 | `split('\n')` yields at least one piece, and no piece holds the separator |
| Words.JoinSplit | src/main.rs:139 | joining the pieces of a split with the separator gives the text back |
| Words.SplitNoSeparator | src/main.rs:139 | a text without the separator splits into itself alone |
| Words.SplitAfterPiece | src/main.rs:139 | a piece, a separator and a rest split into the piece followed by the pieces of the rest |
| Words.SplitJoin | src/main.rs:139 | pieces without the separator come back unchanged from splitting their join |
| Words.KeepWords | src/main.rs:141-142 | the sanitise-and-filter step yields only five-letter words of 'A'..'Z', at most one per line |
| Words.Body | src/main.rs:139-140 | reference definition of `skip(2)` over the split pieces; its contract gives how many lines are left (all but two, or none), and `Words.WordsListSound`/`Words.WordsListComplete` relate the dictionary to the pieces with index 2 and up |
| Words.WordsList | src/main.rs:137-144 | every dictionary entry has five letters, all 'A'..'Z' |
| Words.KeepWordsSound | src/main.rs:141-142 | every kept word is the sanitised form of some line |
| Words.KeepWordsComplete | src/main.rs:141-142 | every line whose sanitised form has five letters is kept |
| Words.WordsListSound | src/main.rs:137-144 | every dictionary entry has length 5, is a fixed point of `sanitize_word`, and comes from a line after the first two |
| Words.WordsListComplete | src/main.rs:137-144 | every line after the first two whose sanitised form has five letters is in the dictionary |
| Feedback.Classify | src/main.rs:39-46 | a letter is EXACT exactly when it equals the secret's letter at its position, and ABSENT exactly when the secret lacks it |
| Feedback.Score | src/main.rs:38-48 | a guess gets one mark per letter |
| Feedback.AbsentLetters | src/main.rs:43-44 | reference definition of the letters `display_guesses` records for one guess; `Feedback.AbsentMarksAreAbsentLetters` proves it equals the set of letters marked ABSENT |
| Feedback.AbsentIn | src/main.rs:33-50 | reference definition of what `guessed_letters` gains from `display_guesses` over a list of guesses; `Feedback.AbsentInMeaning` gives its meaning in both directions |
| Feedback.PresentMeaning | src/main.rs:41-42 | a letter is PRESENT exactly when it is misplaced and occurs elsewhere in the secret |
| Feedback.ScoreOfSecret | src/main.rs:39-40 | guessing the secret marks every letter EXACT |
| Feedback.AllExactIffSecret | src/main.rs:39-46 | for a guess as long as the secret, all marks are EXACT exactly when the guess is the secret |
| Feedback.AbsentMarksAreAbsentLetters | src/main.rs:43-45 | the letters marked ABSENT in a row are exactly the guess's letters that the secret lacks |
| Feedback.AbsentInMeaning | src/main.rs:33-50 | a letter is collected from a list of guesses exactly when some guess has it and the secret does not |
| Feedback.AbsentInDisjoint | src/main.rs:41-45 | no collected absent letter occurs in the secret |
| Feedback.AbsentLettersStep | src/main.rs:38-46 | one more letter adds itself to the absent letters exactly when the secret lacks it |
| Feedback.AbsentInGrows | src/main.rs:33-50 | one more guess only adds its own absent letters |
| Feedback.ScoreExamples | src/main.rs:39-46 | the rows for CRANE against CRANE, TRACE and EERIE; in EERIE the misplaced E's are each PRESENT and the last E is EXACT |
| Wordler.Validate | src/main.rs:84-95 | a line is accepted exactly when its sanitised form has length 5 and is in the dictionary; the accepted guess is that sanitised form; the length error is reported exactly when the length is wrong |
| Wordler.Yield | src/main.rs:84-95 | one line yields at most one guess |
| Wordler.AcceptedGuesses | src/main.rs:81-97 | a stream of lines yields at most one guess per line |
| Wordler.AcceptedGuessesAreWords | src/main.rs:84-95 | every guess a stream of lines yields is a five-letter dictionary word |
| Wordler.AcceptedGuessesConcat | src/main.rs:81-97 | two stretches of input yield the guesses of the first followed by those of the second |
| Wordler.AcceptedGuessesSnoc | src/main.rs:81-97 | one more line adds its guess, if any, at the end |
| Wordler.ReadOneMore | src/main.rs:81-95 | reading the next line adds the guess it is accepted as, if any |
| Wordler.NoneAccepted | src/main.rs:81-97 | a stretch of input yields no guess exactly when every line of it is rejected |
| Wordler.AcceptedGuessesSplit | src/main.rs:81-97 | the guesses of an input are those of its first lines followed by those of the rest |
| Wordler.Referee | src/main.rs:103-131 | reference definition of how `main`'s loop ends on a list of accepted guesses; `Wordler.RefereeMeaning` and `Wordler.RefereeWon` give its meaning |
| Wordler.RefereeMeaning | src/main.rs:103-131 | the reference outcome of a game: a win comes at the first guess equal to the secret within the tries left; a loss reveals the secret after the tries left all missed; an unfinished game ran out of guesses before the tries, all of them misses |
| Wordler.RefereeStep | src/main.rs:125-131 | one turn: the next guess wins, loses on the sixth try, or leaves the game to the rest |
| Wordler.RefereeWon | src/main.rs:103-117 | the game is won exactly when the secret is among the guesses made before the tries run out |
| Wordler.Game.constructor | src/main.rs:17-27 | the dictionary is the loaded word list, the secret is the chosen entry, and nothing has been guessed |
| Wordler.Game.GuessedLettersNotInWord | src/main.rs:41-45 | the letters recorded as absent never occur in the secret |
| Wordler.Game.DisplayGuesses | src/main.rs:32-51 | the rows are the marks of each recorded guess in order; the recorded absent letters gain exactly the absent letters of all guesses and lose none |
| Wordler.Game.DisplayGuess | src/main.rs:38-48 | the row is the marks of the guess; the recorded absent letters gain exactly those of the guess |
| Wordler.Game.AskForGuess | src/main.rs:69-98 | `guesses` grows by exactly the returned guess, a five-letter dictionary word accepted from the last line read, while every earlier line was rejected and changed nothing; when the lines run out nothing is recorded |
| Wordler.Game.Round | src/main.rs:125-131 | one pass of the main loop records exactly the guesses of the lines it read and ends the game exactly as the reference does |
| Wordler.Game.IsGameOver | src/main.rs:103-117 | the game is over exactly when the guess is the secret (won in as many tries as guesses recorded) or six guesses are recorded (lost, revealing the secret); the state is not changed |
| Wordler.Play | src/main.rs:123-132 | `main` ends as the reference says on the guesses the input yields, after at most six recorded guesses, all dictionary words, listing as absent the letters of the guesses shown |
| Wordler.PreviousOfSnoc | src/main.rs:125-127 | the guesses shown before the last one was asked for are the ones recorded before it |
| Wordler.AbsentInPrevious | src/main.rs:125-127 | the absent letters of the guesses before the last are among those of all guesses |
| Wordler.WinExample | src/main.rs:103-107 | a miss followed by the secret wins in two tries |
| Wordler.LossExample | src/main.rs:108-113 | six misses lose the game and reveal the secret |

## Left out

- Reading standard input (src/main.rs:83) is a sequence of lines. At end of input the program reads an empty line over and over and never stops. The model returns `InputEnded` instead, and the I/O `unwrap` is not modelled.
- All printing and colouring is output only and is not modelled. This includes the line numbers of `display_guesses`, the "Letters not in the word" listing and its `HashSet` iteration order (src/main.rs:56-64), and the message whose `{guess}` is never interpolated (src/main.rs:91).
- The random choice of the secret (src/main.rs:18-20) is the index `choice`. The requirement that it lies within the dictionary stands for the `unwrap` that panics on an empty dictionary.
- The contents of `words.txt` (src/main.rs:7) are not part of this model; `ALL_WORDS` is any string.
- Words.UpperChar: uppercases ASCII only. Rust's `to_uppercase` also maps characters outside ASCII, some of them to ASCII letters ('ſ' to 'S', 'ı' to 'I', 'ß' to "SS", ligatures such as 'ﬀ' to "FF"), which `sanitize_word` would then keep.
- Words.Uppercase: its same-length guarantee holds of the ASCII-only model, not of Rust's `to_uppercase`, which turns 'ß' into "SS".
- Words.Sanitize: its never-longer guarantee holds of the ASCII-only model, not of Rust's `sanitize_word`, which returns "SS" for "ß".
- Words.Trim: follows the Unicode White_Space list of `char::is_whitespace` without any other Unicode processing.
