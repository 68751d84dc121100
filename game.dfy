/** The game session (`WordlerGame`) and the main loop. */
module Wordler {
  import opened Words
  import opened Feedback

  /** Number of accepted guesses after which the game is lost (MAX_TRIES). */
  const MaxTries: nat := 6

  datatype Option<T> = None | Some(value: T)

  /** Why an input line is refused: the two messages of `ask_for_guess`. */
  datatype GuessError = WrongLength | NotInDictionary

  /** What `ask_for_guess` makes of one input line. */
  datatype Verdict = Accept(guess: string) | Reject(error: GuessError)

  /** How a game ends: the two messages of `is_game_over`, or the input running out first. */
  datatype Outcome = Won(tries: nat) | Lost(secret: string) | InputEnded(tries: nat)

  /**
   * One pass of the validation loop: sanitise the line, refuse it when its byte length is
   * not five, refuse it when it is not a dictionary word, otherwise accept it.
   */
  function Validate(dictionary: seq<string>, line: string): (v: Verdict)
    ensures v.Accept? <==> |Sanitize(line)| == WordLength && Sanitize(line) in dictionary
    ensures v.Accept? ==> v.guess == Sanitize(line) && IsUpperWord(v.guess)
    ensures v == Reject(WrongLength) <==> |Sanitize(line)| != WordLength
  {
    var guess := Sanitize(line);
    SanitizedByteLength(line);
    if Utf8Len(guess) != WordLength then Reject(WrongLength)
    else if guess !in dictionary then Reject(NotInDictionary)
    else Accept(guess)
  }

  /** The guess one input line contributes: its sanitised form when accepted, nothing otherwise. */
  function Yield(dictionary: seq<string>, line: string): (guesses: seq<string>)
    ensures |guesses| <= 1
  {
    match Validate(dictionary, line)
    case Accept(g) => [g]
    case Reject(_) => []
  }

  /** The guesses a stream of input lines yields, in order: the lines that pass validation, sanitised. */
  function AcceptedGuesses(dictionary: seq<string>, input: seq<string>): (guesses: seq<string>)
    ensures |guesses| <= |input|
  {
    if input == [] then [] else Yield(dictionary, input[0]) + AcceptedGuesses(dictionary, input[1..])
  }

  /** Every guess a stream of input yields is a five-letter dictionary word. */
  lemma {:induction false} AcceptedGuessesAreWords(dictionary: seq<string>, input: seq<string>)
    ensures forall k :: 0 <= k < |AcceptedGuesses(dictionary, input)| ==>
      AcceptedGuesses(dictionary, input)[k] in dictionary && |AcceptedGuesses(dictionary, input)[k]| == WordLength
    decreases |input|
  {
    if input != [] {
      AcceptedGuessesAreWords(dictionary, input[1..]);
    }
  }

  /** The guesses of two stretches of input are those of the first followed by those of the second. */
  lemma {:induction false} AcceptedGuessesConcat(dictionary: seq<string>, a: seq<string>, b: seq<string>)
    ensures AcceptedGuesses(dictionary, a + b) == AcceptedGuesses(dictionary, a) + AcceptedGuesses(dictionary, b)
    decreases |a|
  {
    if a == [] {
      assert a + b == b;
    } else {
      assert (a + b)[0] == a[0] && (a + b)[1..] == a[1..] + b;
      AcceptedGuessesConcat(dictionary, a[1..], b);
      var y := Yield(dictionary, a[0]);
      var p, q := AcceptedGuesses(dictionary, a[1..]), AcceptedGuesses(dictionary, b);
      calc {
        AcceptedGuesses(dictionary, a + b);
        y + AcceptedGuesses(dictionary, a[1..] + b);
        y + (p + q);
        (y + p) + q;
        AcceptedGuesses(dictionary, a) + q;
      }
    }
  }

  /** Reading one more line adds that line's guess, if any, at the end. */
  lemma AcceptedGuessesSnoc(dictionary: seq<string>, a: seq<string>, line: string)
    ensures AcceptedGuesses(dictionary, a + [line]) == AcceptedGuesses(dictionary, a) + Yield(dictionary, line)
  {
    AcceptedGuessesConcat(dictionary, a, [line]);
    assert [line][1..] == [];
  }

  /** Reading the line after the first `used` adds the guess it is accepted as, if any. */
  lemma ReadOneMore(dictionary: seq<string>, input: seq<string>, used: nat, verdict: Verdict)
    requires used < |input| && verdict == Validate(dictionary, input[used])
    ensures AcceptedGuesses(dictionary, input[..used + 1])
      == AcceptedGuesses(dictionary, input[..used]) + if verdict.Accept? then [verdict.guess] else []
  {
    AcceptedGuessesSnoc(dictionary, input[..used], input[used]);
    assert input[..used + 1] == input[..used] + [input[used]];
  }

  /** A stretch of input yields no guess exactly when every one of its lines is rejected. */
  lemma {:induction false} NoneAccepted(dictionary: seq<string>, lines: seq<string>)
    ensures AcceptedGuesses(dictionary, lines) == [] <==> forall k :: 0 <= k < |lines| ==> Validate(dictionary, lines[k]).Reject?
    decreases |lines|
  {
    if lines != [] {
      NoneAccepted(dictionary, lines[1..]);
      assert forall k :: 1 <= k < |lines| ==> lines[k] == lines[1..][k - 1];
    }
  }

  /** One turn of the referee, on a guess followed by the rest. */
  lemma RefereeStep(secret: string, guess: string, later: seq<string>, tries: nat)
    requires tries < MaxTries
    ensures Referee(secret, [guess] + later, tries)
      == if guess == secret then Won(tries + 1)
         else if tries + 1 >= MaxTries then Lost(secret)
         else Referee(secret, later, tries + 1)
  {
    assert ([guess] + later)[0] == guess && ([guess] + later)[1..] == later;
  }

  /**
   * Reference definition of how a game ends, given the guesses still to come and the number
   * `tries` already made: a guess equal to the secret wins, the guess that makes MaxTries
   * tries loses, and running out of guesses leaves the game unfinished.
   */
  function Referee(secret: string, guesses: seq<string>, tries: nat): Outcome
    requires tries < MaxTries
    decreases |guesses|
  {
    if guesses == [] then InputEnded(tries)
    else if guesses[0] == secret then Won(tries + 1)
    else if tries + 1 >= MaxTries then Lost(secret)
    else Referee(secret, guesses[1..], tries + 1)
  }

  /**
   * What each outcome of the referee means: a win comes at the first guess equal to the
   * secret, within the tries left; a loss reveals the secret after the tries left all
   * missed; an unfinished game had fewer guesses than the tries left, all of them misses.
   */
  lemma {:induction false} RefereeMeaning(secret: string, guesses: seq<string>, tries: nat)
    requires tries < MaxTries
    ensures Referee(secret, guesses, tries).Won? ==>
      var t := Referee(secret, guesses, tries).tries;
      tries < t <= MaxTries && t - tries <= |guesses|
      && guesses[t - tries - 1] == secret
      && forall k :: 0 <= k < t - tries - 1 ==> guesses[k] != secret
    ensures Referee(secret, guesses, tries).Lost? ==>
      Referee(secret, guesses, tries).secret == secret && |guesses| >= MaxTries - tries
      && forall k :: 0 <= k < MaxTries - tries ==> guesses[k] != secret
    ensures Referee(secret, guesses, tries).InputEnded? ==>
      Referee(secret, guesses, tries).tries == tries + |guesses| < MaxTries
      && forall k :: 0 <= k < |guesses| ==> guesses[k] != secret
    decreases |guesses|
  {
    if guesses != [] && guesses[0] != secret && tries + 1 < MaxTries {
      var later := guesses[1..];
      RefereeMeaning(secret, later, tries + 1);
      assert forall k :: 0 <= k < |later| ==> later[k] == guesses[k + 1];
    }
  }

  /** The game is won exactly when the secret is among the guesses made before the tries run out. */
  lemma {:induction false} RefereeWon(secret: string, guesses: seq<string>, tries: nat)
    requires tries < MaxTries
    ensures Referee(secret, guesses, tries).Won?
      <==> exists k :: 0 <= k < |guesses| && k < MaxTries - tries && guesses[k] == secret
    decreases |guesses|
  {
    if guesses == [] {
    } else if guesses[0] == secret {
      assert guesses[0] == secret;
    } else if tries + 1 < MaxTries {
      var later := guesses[1..];
      RefereeWon(secret, later, tries + 1);
      if exists k :: 0 <= k < |guesses| && k < MaxTries - tries && guesses[k] == secret {
        var k :| 0 <= k < |guesses| && k < MaxTries - tries && guesses[k] == secret;
        assert later[k - 1] == secret;
      }
      if exists j :: 0 <= j < |later| && j < MaxTries - (tries + 1) && later[j] == secret {
        var j :| 0 <= j < |later| && j < MaxTries - (tries + 1) && later[j] == secret;
        assert guesses[j + 1] == secret;
      }
    }
  }

  /** The state of one game session (`WordlerGame`). */
  class Game {
    const dictionary: seq<string>
    const word: string
    var guessedLetters: set<char>
    var guesses: seq<string>

    /**
     * What the session fixes when it starts: the dictionary holds five-letter words of
     * 'A'..'Z' and the secret is one of them.
     */
    ghost predicate WellFormed()
    {
      (forall k :: 0 <= k < |dictionary| ==> |dictionary[k]| == WordLength && IsUpperWord(dictionary[k]))
      && word in dictionary
    }

    /**
     * The session invariant: every recorded guess is a dictionary word, and every letter
     * recorded as absent is an absent letter of some recorded guess (hence never a letter
     * of the secret).
     */
    ghost predicate Valid()
      reads this
    {
      (forall k :: 0 <= k < |guesses| ==> guesses[k] in dictionary)
      && guessedLetters <= AbsentIn(word, guesses)
    }

    /**
     * `WordlerGame::new`: loads the dictionary from `allWords` and takes the entry at
     * `choice` as the secret; `choice` stands for the random pick, which needs a non-empty
     * dictionary.
     */
    constructor (allWords: string, choice: nat)
      requires choice < |WordsList(allWords)|
      ensures WellFormed() && Valid()
      ensures dictionary == WordsList(allWords) && word == dictionary[choice]
      ensures guessedLetters == {} && guesses == []
    {
      dictionary := WordsList(allWords);
      word := WordsList(allWords)[choice];
      guessedLetters := {};
      guesses := [];
    }

    /** The letters recorded as absent never occur in the secret. */
    lemma GuessedLettersNotInWord()
      requires Valid()
      ensures forall c :: c in guessedLetters ==> c !in word
    {
      AbsentInDisjoint(word, guesses);
    }

    /**
     * `display_guesses`: the row of marks of every guess, in order; each letter marked
     * ABSENT is added to `guessedLetters`.
     */
    method DisplayGuesses() returns (rows: seq<seq<Mark>>)
      requires WellFormed() && Valid()
      modifies this`guessedLetters
      ensures Valid()
      ensures guessedLetters == old(guessedLetters) + AbsentIn(word, guesses)
      ensures |rows| == |guesses|
      ensures forall k {:trigger rows[k]} :: 0 <= k < |guesses| ==> |guesses[k]| <= |word| && rows[k] == Score(word, guesses[k])
    {
      rows := [];
      var n := 0;
      while n < |guesses|
        invariant 0 <= n <= |guesses|
        invariant guessedLetters == old(guessedLetters) + AbsentIn(word, guesses[..n])
        invariant |rows| == n
        invariant forall k :: 0 <= k < n ==> |guesses[k]| <= |word| && rows[k] == Score(word, guesses[k])
      {
        var guess := guesses[n];
        assert guess in dictionary;
        var row := DisplayGuess(guess);
        rows := rows + [row];
        AbsentInGrows(word, guesses[..n], guess);
        assert guesses[..n] + [guess] == guesses[..n + 1];
        n := n + 1;
      }
      assert guesses[..n] == guesses;
    }

    /** The inner loop of `display_guesses`: the marks of one guess, recording its ABSENT letters. */
    method DisplayGuess(guess: string) returns (row: seq<Mark>)
      requires |guess| <= |word|
      modifies this`guessedLetters
      ensures row == Score(word, guess)
      ensures guessedLetters == old(guessedLetters) + AbsentLetters(word, guess)
    {
      row := [];
      var pos := 0;
      while pos < |guess|
        invariant 0 <= pos <= |guess|
        invariant |row| == pos
        invariant forall i :: 0 <= i < pos ==> row[i] == Classify(word, guess, i)
        invariant guessedLetters == old(guessedLetters) + AbsentLetters(word, guess[..pos])
      {
        var mark := Classify(word, guess, pos);
        if mark == Absent {
          guessedLetters := guessedLetters + {guess[pos]};
        }
        row := row + [mark];
        AbsentLettersStep(word, guess, pos);
        pos := pos + 1;
      }
      assert guess[..pos] == guess;
    }

    /**
     * `ask_for_guess` over the input lines `input`: reads lines until one passes
     * validation, records it in `guesses` and returns it with the number of lines read.
     * The lines read before it were all rejected and changed nothing. When the lines run
     * out first, nothing is recorded.
     */
    method AskForGuess(input: seq<string>) returns (guess: Option<string>, used: nat)
      requires Valid()
      modifies this`guesses
      ensures Valid()
      ensures used <= |input|
      ensures guess.Some? ==>
        0 < used && Validate(dictionary, input[used - 1]) == Accept(guess.value)
        && |guess.value| == WordLength && guess.value in dictionary
        && guesses == old(guesses) + [guess.value]
      ensures guess.None? ==> used == |input| && guesses == old(guesses)
      ensures AcceptedGuesses(dictionary, input[..used]) == if guess.Some? then [guess.value] else []
    {
      guess := None;
      used := 0;
      var validGuess := false;
      while !validGuess && used < |input|
        invariant used <= |input|
        invariant validGuess <==> guess.Some?
        invariant !validGuess ==> guesses == old(guesses)
        invariant validGuess ==>
          0 < used && Validate(dictionary, input[used - 1]) == Accept(guess.value)
          && guesses == old(guesses) + [guess.value]
        invariant AcceptedGuesses(dictionary, input[..used]) == if validGuess then [guess.value] else []
        decreases |input| - used, !validGuess
      {
        var verdict := Validate(dictionary, input[used]);
        ReadOneMore(dictionary, input, used, verdict);
        used := used + 1;
        if verdict.Accept? {
          guesses := guesses + [verdict.guess];
          guess := Some(verdict.guess);
          validGuess := true;
        }
      }
      if validGuess {
        AbsentInGrows(word, old(guesses), guess.value);
      }
    }

    /**
     * One pass of the loop of `main` on the input lines `input`: display the rows, ask for a
     * guess, and test for the end of the game. Returns the outcome when the game ends (or the
     * input runs out) and the number of lines read. The guesses recorded gain exactly the
     * guesses those lines yield, the absent letters become those of the guesses shown, and
     * the outcome is the referee's verdict on the guesses the input yields.
     */
    method Round(input: seq<string>) returns (over: Option<Outcome>, used: nat)
      requires WellFormed() && Valid()
      requires |guesses| < MaxTries
      requires guessedLetters == AbsentIn(word, Previous(guesses))
      modifies this
      ensures Valid()
      ensures used <= |input|
      ensures guesses == old(guesses) + AcceptedGuesses(dictionary, input[..used])
      ensures guessedLetters == AbsentIn(word, old(guesses))
      ensures over.None? ==> 0 < used && |guesses| < MaxTries && Previous(guesses) == old(guesses)
      ensures over.Some? ==> |guesses| == match over.value
                                          case Won(t) => t
                                          case Lost(_) => MaxTries
                                          case InputEnded(t) => t
      ensures over.Some? ==> old(guesses) == if over.value.InputEnded? then guesses else Previous(guesses)
      ensures Referee(word, AcceptedGuesses(dictionary, input), |old(guesses)|)
        == if over.Some? then over.value else Referee(word, AcceptedGuesses(dictionary, input[used..]), |guesses|)
    {
      var rows := DisplayGuesses();
      AbsentInPrevious(word, old(guesses));
      var guess;
      guess, used := AskForGuess(input);
      AcceptedGuessesSplit(dictionary, input, used);
      if guess.None? {
        assert input[used..] == [];
        over := Some(InputEnded(|guesses|));
        return;
      }
      var g := guess.value;
      RefereeStep(word, g, AcceptedGuesses(dictionary, input[used..]), |old(guesses)|);
      PreviousOfSnoc(old(guesses), g);
      over := IsGameOver(g);
    }

    /**
     * `is_game_over` for the guess just made: won when it is the secret, otherwise lost once
     * `guesses` holds MaxTries guesses, otherwise the game goes on (None).
     */
    function IsGameOver(guess: string): (over: Option<Outcome>)
      reads this
      ensures over.Some? <==> guess == word || |guesses| >= MaxTries
      ensures over == Some(Won(|guesses|)) <==> guess == word
      ensures over.Some? && guess != word ==> over == Some(Lost(word))
    {
      if guess == word then Some(Won(|guesses|))
      else if |guesses| >= MaxTries then Some(Lost(word))
      else None
    }
  }

  /**
   * `main`: creates the game from the word list `allWords` and the random pick `choice`,
   * then repeats display, ask and the end-of-game test on the input lines `input`. Returns
   * how the game ended, the guesses it recorded and the letters it last listed as absent.
   */
  method Play(allWords: string, choice: nat, input: seq<string>)
    returns (outcome: Outcome, played: seq<string>, absent: set<char>)
    requires choice < |WordsList(allWords)|
    ensures outcome == Referee(WordsList(allWords)[choice], AcceptedGuesses(WordsList(allWords), input), 0)
    ensures played <= AcceptedGuesses(WordsList(allWords), input)
    ensures |played| <= MaxTries
    ensures |played| == match outcome
                        case Won(t) => t
                        case Lost(_) => MaxTries
                        case InputEnded(t) => t
    ensures forall k :: 0 <= k < |played| ==> played[k] in WordsList(allWords)
    ensures absent == AbsentIn(WordsList(allWords)[choice], if outcome.InputEnded? then played else Previous(played))
  {
    var game := new Game(allWords, choice);
    ghost var dictionary := WordsList(allWords);
    ghost var secret := dictionary[choice];
    ghost var all := AcceptedGuesses(dictionary, input);
    var rest := input;
    while true
      invariant game.Valid() && game.dictionary == dictionary && game.word == secret
      invariant |game.guesses| < MaxTries
      invariant all == game.guesses + AcceptedGuesses(dictionary, rest)
      invariant Referee(secret, all, 0) == Referee(secret, AcceptedGuesses(dictionary, rest), |game.guesses|)
      invariant game.guessedLetters == AbsentIn(secret, Previous(game.guesses))
      decreases |rest|
    {
      ghost var before := game.guesses;
      var over, used := game.Round(rest);
      AcceptedGuessesSplit(dictionary, rest, used);
      ghost var now, later := AcceptedGuesses(dictionary, rest[..used]), AcceptedGuesses(dictionary, rest[used..]);
      ConcatAssociative(before, now, later);
      if over.Some? {
        outcome, played, absent := over.value, game.guesses, game.guessedLetters;
        return;
      }
      rest := rest[used..];
    }
  }

  /** Concatenation of guess lists is associative. */
  lemma ConcatAssociative(a: seq<string>, b: seq<string>, c: seq<string>)
    ensures a + (b + c) == (a + b) + c
  {
  }

  /** The guesses of an input are those of its first `used` lines followed by those of the rest. */
  lemma AcceptedGuessesSplit(dictionary: seq<string>, input: seq<string>, used: nat)
    requires used <= |input|
    ensures AcceptedGuesses(dictionary, input) == AcceptedGuesses(dictionary, input[..used]) + AcceptedGuesses(dictionary, input[used..])
  {
    var front, back := input[..used], input[used..];
    assert input == front + back;
    AcceptedGuessesConcat(dictionary, front, back);
  }

  /** All the guesses but the last: those shown before the last one was asked for. */
  function Previous(guesses: seq<string>): seq<string> {
    if guesses == [] then [] else guesses[..|guesses| - 1]
  }

  /** The guesses before the last of `guesses + [g]` are `guesses`. */
  lemma PreviousOfSnoc(guesses: seq<string>, g: string)
    ensures Previous(guesses + [g]) == guesses
  {
    assert (guesses + [g])[..|guesses|] == guesses;
  }

  /** The absent letters of the guesses before the last are among those of all the guesses. */
  lemma AbsentInPrevious(word: string, guesses: seq<string>)
    ensures AbsentIn(word, Previous(guesses)) + AbsentIn(word, guesses) == AbsentIn(word, guesses)
  {
  }

  /** The game won on the second try: a miss, then the secret. */
  lemma WinExample()
    ensures Referee("APPLE", ["GRAPE", "APPLE"], 0) == Won(2)
  {
    RefereeStep("APPLE", "GRAPE", ["APPLE"], 0);
    RefereeStep("APPLE", "APPLE", [], 1);
  }

  /** Six accepted guesses that all miss lose the game, revealing the secret. */
  lemma LossExample(guesses: seq<string>)
    requires |guesses| >= MaxTries
    requires forall k :: 0 <= k < MaxTries ==> guesses[k] != "APPLE"
    ensures Referee("APPLE", guesses, 0) == Lost("APPLE")
  {
    var k := 0;
    while k < MaxTries - 1
      invariant 0 <= k <= MaxTries - 1
      invariant Referee("APPLE", guesses, 0) == Referee("APPLE", guesses[k..], k)
    {
      assert guesses[k..][1..] == guesses[k + 1..];
      k := k + 1;
    }
  }
}
