/** The helpers and the guess-handling loop of PS2/hangman.py. Guesses are
    whatever the player typed, so they are strings; the guessed letters are
    the list of those strings. The hidden word and the typed guesses are
    inputs of the model. */
module Hangman {
  import opened PyStr

  /** `c in letters_guessed` for a one-character string `c`. */
  predicate Guessed(c: char, guessed: seq<string>) {
    [c] in guessed
  }

  /** The `i`-th letter of `string.ascii_lowercase`. */
  function LowerLetter(i: nat): (c: char)
    requires i < 26
    ensures IsLowerLetter(c) && c as int - 'a' as int == i
  {
    ('a' as int + i) as char
  }

  /** The letters from the `i`-th on that have not been guessed. */
  function LettersLeftFrom(guessed: seq<string>, i: nat): (r: string)
    requires i <= 26
    ensures forall k :: 0 <= k < |r| ==> IsLowerLetter(r[k]) && !Guessed(r[k], guessed) && r[k] as int - 'a' as int >= i
    ensures forall k, l :: 0 <= k < l < |r| ==> r[k] < r[l]
    ensures forall j :: i <= j < 26 && !Guessed(LowerLetter(j), guessed) ==> LowerLetter(j) in r
    decreases 26 - i
  {
    if i == 26 then []
    else
      var rest := LettersLeftFrom(guessed, i + 1);
      if Guessed(LowerLetter(i), guessed) then rest else [LowerLetter(i)] + rest
  }

  /** `letters_left(letters_guessed)`: the lower-case letters not yet
      guessed, in alphabetical order. */
  function LettersLeft(guessed: seq<string>): (r: string)
    ensures forall c :: c in r <==> IsLowerLetter(c) && !Guessed(c, guessed)
    ensures forall k, l :: 0 <= k < l < |r| ==> r[k] < r[l]
  {
    var r := LettersLeftFrom(guessed, 0);
    assert forall c :: IsLowerLetter(c) ==> c == LowerLetter(c as int - 'a' as int);
    r
  }

  /** `check_guess(word, g)`: the flag loop over the word's characters. */
  function CheckGuess(word: string, g: string): (r: bool)
    ensures r <==> |g| == 1 && g[0] in word
  {
    if word == [] then false
    else [word[0]] == g || CheckGuess(word[1..], g)
  }

  /** `check_word(word, letters)`: the word with every character not yet
      guessed shown as `_`. */
  function CheckWord(word: string, guessed: seq<string>): (r: string)
    ensures |r| == |word|
    ensures forall i :: 0 <= i < |word| ==> r[i] == if Guessed(word[i], guessed) then word[i] else '_'
  {
    if word == [] then []
    else
      var init := CheckWord(word[..|word| - 1], guessed);
      init + [if Guessed(word[|word| - 1], guessed) then word[|word| - 1] else '_']
  }

  /** The loop's win test: for a word without `_`, the shown word is the
      word exactly when each of its characters has been guessed. */
  lemma WinTest(word: string, guessed: seq<string>)
    requires forall i :: 0 <= i < |word| ==> word[i] != '_'
    ensures CheckWord(word, guessed) == word <==> forall i :: 0 <= i < |word| ==> Guessed(word[i], guessed)
  {
    if forall i :: 0 <= i < |word| ==> Guessed(word[i], guessed) {
      assert CheckWord(word, guessed) == word;
    } else {
      var i :| 0 <= i < |word| && !Guessed(word[i], guessed);
      assert CheckWord(word, guessed)[i] != word[i];
    }
  }

  /** Guessing more letters only reveals more of the word. */
  lemma RevealMonotone(word: string, guessed: seq<string>, g: string)
    ensures forall i :: 0 <= i < |word| && CheckWord(word, guessed)[i] != '_' ==>
              CheckWord(word, guessed + [g])[i] == CheckWord(word, guessed)[i]
  {
  }

  // ---------------------------------------------------------------------
  // The game loop

  /** The loop's variables: the guessed list, the guesses left and the word
      as currently shown. */
  datatype State = State(guessed: seq<string>, guesses: int, current: string)

  /** The loop runs while the word is hidden and guesses remain. */
  predicate Over(word: string, st: State) {
    st.current == word || st.guesses <= 0
  }

  function Start(guesses: int): State {
    State([], guesses, "")
  }

  /** One pass of the loop body with the typed guess `g`. */
  function Step(word: string, st: State, g: string): (r: State)
    ensures r.current == CheckWord(word, r.guessed)
  {
    if g in st.guessed then st.(current := CheckWord(word, st.guessed))
    else
      var guessed := st.guessed + [g];
      var guesses := if CheckGuess(word, g) then st.guesses else st.guesses - 1;
      State(guessed, guesses, CheckWord(word, guessed))
  }

  /** A repeated guess changes neither the guessed list nor the guesses left. */
  lemma RepeatedGuess(word: string, st: State, g: string)
    requires g in st.guessed
    ensures Step(word, st, g).guessed == st.guessed && Step(word, st, g).guesses == st.guesses
  {
  }

  /** A new guess is recorded; it costs one guess exactly when its letter is
      not in the word. */
  lemma NewGuess(word: string, st: State, g: string)
    requires g !in st.guessed
    ensures Step(word, st, g).guessed == st.guessed + [g]
    ensures |g| == 1 && g[0] in word ==> Step(word, st, g).guesses == st.guesses
    ensures !(|g| == 1 && g[0] in word) ==> Step(word, st, g).guesses == st.guesses - 1
  {
  }

  /** The states the loop goes through on the typed guesses, while it runs.
      Each typed guess adds at most one entry to the guessed list, and once a
      pass has run the shown word is `check_word` of the guessed list. */
  function Play(word: string, st: State, inputs: seq<string>): (r: State)
    ensures |r.guessed| <= |st.guessed| + |inputs|
    ensures inputs != [] && !Over(word, st) ==> r.current == CheckWord(word, r.guessed)
    decreases |inputs|
  {
    if inputs == [] || Over(word, st) then st
    else Play(word, Step(word, st, inputs[0]), inputs[1..])
  }

  /** Over the whole game the guesses left never go up and the guessed
      list only grows. */
  lemma {:induction false} GuessesOnlyFall(word: string, st: State, inputs: seq<string>)
    ensures Play(word, st, inputs).guesses <= st.guesses
    ensures st.guessed <= Play(word, st, inputs).guessed
    decreases |inputs|
  {
    if inputs != [] && !Over(word, st) {
      GuessesOnlyFall(word, Step(word, st, inputs[0]), inputs[1..]);
    }
  }

  /** The game is over once every character of the word has been typed:
      the word is then revealed, unless the guesses ran out first. */
  lemma {:induction false} AllTypedEndsGame(word: string, st: State, inputs: seq<string>)
    requires forall i :: 0 <= i < |word| ==> word[i] != '_'
    requires inputs != [] || st.current == CheckWord(word, st.guessed)
    requires forall i :: 0 <= i < |word| ==> [word[i]] in st.guessed + inputs
    ensures Over(word, Play(word, st, inputs))
    decreases |inputs|
  {
    if inputs == [] {
      assert st.guessed + inputs == st.guessed;
      WinTest(word, st.guessed);
    } else if !Over(word, st) {
      var next := Step(word, st, inputs[0]);
      assert inputs[0] in next.guessed;
      forall i | 0 <= i < |word| ensures [word[i]] in next.guessed + inputs[1..] {
        assert [word[i]] in st.guessed + inputs;
        if [word[i]] in st.guessed {
          assert [word[i]] in next.guessed;
        } else {
          assert [word[i]] in inputs;
          assert inputs == [inputs[0]] + inputs[1..];
        }
      }
      AllTypedEndsGame(word, next, inputs[1..]);
    }
  }

  /** The loop of `hangman(wordlist, guesses)` for the hidden word, reading
      the typed guesses from `inputs`; `used` counts the guesses read. */
  method PlayGame(word: string, guesses: int, inputs: seq<string>) returns (st: State, used: nat)
    ensures used <= |inputs|
    ensures st == Play(word, Start(guesses), inputs)
    ensures used < |inputs| ==> Over(word, st)
  {
    st := Start(guesses);
    used := 0;
    while !(st.current == word) && st.guesses > 0 && used < |inputs|
      invariant used <= |inputs|
      invariant Play(word, st, inputs[used..]) == Play(word, Start(guesses), inputs)
    {
      var g := inputs[used];
      var double := false;
      var guessed := st.guessed;
      if g in guessed {
        double := true;
      } else {
        guessed := guessed + [g];
      }
      var current := CheckWord(word, guessed);
      var left := st.guesses;
      if double {
      } else if CheckGuess(word, g) {
      } else {
        left := left - 1;
      }
      assert inputs[used..][1..] == inputs[used + 1..];
      assert State(guessed, left, current) == Step(word, st, g);
      st := State(guessed, left, current);
      used := used + 1;
    }
  }
}
