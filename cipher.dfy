/** The Caesar cipher of PS4/cipher.py over a 27-symbol alphabet: the 26
    letters followed by the space. A coder is a dictionary from characters to
    characters; characters it does not hold pass through unchanged. */
module Cipher {
  import opened PyStr

  /** Symbol `i` of `string.ascii_uppercase + ' '` (when `upper`) or of
      `string.ascii_lowercase + ' '`: a letter for `i < 26`, the space at 26. */
  function Letter(upper: bool, i: int): (c: char)
    requires 0 <= i < 27
    ensures i < 26 && upper ==> IsUpper(c)
    ensures i < 26 && !upper ==> IsLowerLetter(c)
    ensures i == 26 <==> c == ' '
  {
    if i == 26 then ' '
    else if upper then ('A' as int + i) as char
    else ('a' as int + i) as char
  }

  /** The two 27-symbol alphabets the coder is built from. */
  function Alphabet(upper: bool): (a: string)
    ensures |a| == 27 && forall i :: 0 <= i < 27 ==> a[i] == Letter(upper, i)
  {
    seq(27, i requires 0 <= i < 27 => Letter(upper, i))
  }

  type Coder = map<char, char>

  predicate InAlphabet(c: char) {
    IsUpper(c) || IsLowerLetter(c) || c == ' '
  }

  /** Position of a character in its alphabet: letters by their rank, space last. */
  function Pos(c: char): (p: int)
    ensures 0 <= p < 27
    ensures InAlphabet(c) ==> Letter(IsUpper(c), p) == c
    ensures IsUpper(c) ==> p < 26
  {
    if IsLowerLetter(c) then c as int - 'a' as int
    else if IsUpper(c) then c as int - 'A' as int
    else 26
  }

  lemma PosOfLetter(upper: bool, i: int)
    requires 0 <= i < 27
    ensures Pos(Letter(upper, i)) == i
    ensures InAlphabet(Letter(upper, i))
  {
  }

  /** What `build_coder(shift)` stores for a character of either alphabet:
      the symbol `shift` places further round the same alphabet. The space is
      a key of both alphabets; its lower-case entry is written last. */
  function Image(shift: int, c: char): char {
    Letter(IsUpper(c), (Pos(c) + shift) % 27)
  }

  function CoderSpec(shift: int): Coder {
    map c | c in Alphabet(true) + Alphabet(false) :: Image(shift, c)
  }

  /** The keys of a coder are exactly the letters of both cases and the space. */
  lemma CoderKeys(shift: int, c: char)
    ensures c in CoderSpec(shift) <==> InAlphabet(c)
  {
    var both := Alphabet(true) + Alphabet(false);
    if InAlphabet(c) {
      if IsUpper(c) {
        assert both[Pos(c)] == c;
      } else {
        assert both[27 + Pos(c)] == c;
      }
    } else if c in both {
      var i :| 0 <= i < 54 && both[i] == c;
      if i < 27 {
        PosOfLetter(true, i);
      } else {
        PosOfLetter(false, i - 27);
      }
    }
  }

  /** The entries of the coder for the first `i` positions of both alphabets. */
  predicate CoderUpTo(shift: int, code: Coder, i: int) {
    (forall c :: c in code <==> InAlphabet(c) && Pos(c) < i) &&
    (forall c :: c in code ==> code[c] == Image(shift, c))
  }

  /** The symbol the loop reads for position `i`: Python's `alphabet[i + shift]`
      while that index is below 27, and `alphabet[i - 27 + shift]` after. */
  lemma ShiftedSymbol(upper: bool, shift: int, i: int)
    requires -27 <= shift <= 27 && 0 <= i < 27
    ensures i < 27 - shift ==> -27 <= i + shift < 27 && PyIndex(Alphabet(upper), i + shift) == Letter(upper, (i + shift) % 27)
    ensures i >= 27 - shift ==> 0 <= i - 27 + shift < 27 && Alphabet(upper)[i - 27 + shift] == Letter(upper, (i + shift) % 27)
  {
  }

  /** One turn of the loop: the upper-case entry, then the lower-case one
      (which wins for the space, a symbol of both alphabets). */
  lemma CoderStep(shift: int, code: Coder, i: int)
    requires 0 <= i < 27 && CoderUpTo(shift, code, i)
    ensures CoderUpTo(shift, code[Letter(true, i) := Image(shift, Letter(true, i))][Letter(false, i) := Image(shift, Letter(false, i))], i + 1)
  {
    PosOfLetter(true, i);
    PosOfLetter(false, i);
    var code' := code[Letter(true, i) := Image(shift, Letter(true, i))][Letter(false, i) := Image(shift, Letter(false, i))];
    forall c ensures c in code' <==> InAlphabet(c) && Pos(c) < i + 1 {
      if InAlphabet(c) && Pos(c) == i {
        assert c == Letter(IsUpper(c), i);
      }
    }
  }

  /** `build_coder(shift)`: fills the dictionary in one pass over both
      alphabets, using Python's negative indexing for negative shifts. */
  method BuildCoder(shift: int) returns (code: Coder)
    requires -27 <= shift <= 27
    ensures code == CoderSpec(shift)
  {
    var upper := Alphabet(true);
    var lower := Alphabet(false);
    code := map[];
    for i := 0 to 27
      invariant CoderUpTo(shift, code, i)
    {
      var newUpper, newLower;
      ShiftedSymbol(true, shift, i);
      ShiftedSymbol(false, shift, i);
      if i < 27 - shift {
        newUpper := PyIndex(upper, i + shift);
        newLower := PyIndex(lower, i + shift);
      } else {
        newUpper := upper[i - 27 + shift];
        newLower := lower[i - 27 + shift];
      }
      PosOfLetter(true, i);
      PosOfLetter(false, i);
      CoderStep(shift, code, i);
      code := code[upper[i] := newUpper];
      code := code[lower[i] := newLower];
    }
    CoderComplete(shift, code);
  }

  lemma CoderComplete(shift: int, code: Coder)
    requires CoderUpTo(shift, code, 27)
    ensures code == CoderSpec(shift)
  {
    forall c | c in CoderSpec(shift) ensures c in code {
      CoderKeys(shift, c);
    }
    forall c | c in code ensures c in CoderSpec(shift) {
      CoderKeys(shift, c);
    }
  }

  /** `build_encoder(shift)`. */
  method BuildEncoder(shift: int) returns (code: Coder)
    requires -27 <= shift <= 27
    ensures code == CoderSpec(shift)
  {
    code := BuildCoder(shift);
  }

  /** `build_decoder(shift)`: the coder of the opposite shift. */
  method BuildDecoder(shift: int) returns (code: Coder)
    requires -27 <= shift <= 27
    ensures code == CoderSpec(-shift)
  {
    var inverse := -1 * shift;
    assert inverse == -shift;
    code := BuildCoder(inverse);
  }

  /** The text with every character the coder holds replaced by its image. */
  function Recode(text: string, coder: Coder): (r: string)
    ensures |r| == |text|
  {
    seq(|text|, i requires 0 <= i < |text| => if text[i] in coder then coder[text[i]] else text[i])
  }

  /** `apply_coder(text, coder)`. */
  method ApplyCoder(text: string, coder: Coder) returns (out: string)
    ensures |out| == |text|
    ensures forall i :: 0 <= i < |text| && text[i] in coder ==> out[i] == coder[text[i]]
    ensures forall i :: 0 <= i < |text| && text[i] !in coder ==> out[i] == text[i]
    ensures out == Recode(text, coder)
  {
    out := "";
    for i := 0 to |text|
      invariant out == Recode(text[..i], coder)
    {
      var c := text[i];
      if c in coder {
        out := out + [coder[c]];
      } else {
        out := out + [c];
      }
      assert text[..i + 1][..i] == text[..i];
    }
    assert text[..|text|] == text;
  }

  /** One character under the cipher of `shift`. */
  function ShiftChar(c: char, shift: int): char {
    if InAlphabet(c) then Image(shift, c) else c
  }

  /** `apply_shift(text, shift)`: encode with `build_encoder(shift)`. Letters
      keep their case except an upper-case letter sent to the space; the space
      becomes a lower-case letter; everything else is left alone. */
  method ApplyShift(text: string, shift: int) returns (out: string)
    requires -27 <= shift <= 27
    ensures out == Recode(text, CoderSpec(shift))
    ensures |out| == |text| && forall i :: 0 <= i < |text| ==> out[i] == ShiftChar(text[i], shift)
  {
    var coder := BuildEncoder(shift);
    out := ApplyCoder(text, coder);
    forall i | 0 <= i < |text| ensures out[i] == ShiftChar(text[i], shift) {
      CoderKeys(shift, text[i]);
    }
  }

  lemma {:induction false} ShiftBack(p: int, s: int)
    requires 0 <= p < 27 && -27 <= s <= 27
    ensures ((p + s) % 27 - s) % 27 == p
  {
  }

  /** Decoding one encoded character: every character comes back, except that
      an upper-case letter encoded as the space comes back in lower case. */
  lemma DecodeEncodeChar(c: char, s: int)
    requires -27 <= s <= 27
    ensures ShiftChar(ShiftChar(c, s), -s) ==
              if IsUpper(c) && (Pos(c) + s) % 27 == 26 then LowerChar(c) else c
  {
    if InAlphabet(c) {
      var idx := (Pos(c) + s) % 27;
      ShiftBack(Pos(c), s);
      PosOfLetter(IsUpper(c), idx);
      if IsUpper(c) && idx == 26 {
        assert Letter(false, Pos(c)) == LowerChar(c);
      }
    }
  }

  /** `apply_coder(apply_coder(t, build_encoder(s)), build_decoder(s))`:
      position by position, the text comes back up to the case of upper-case
      letters that were encoded as the space. */
  lemma DecodeEncode(text: string, s: int)
    requires -27 <= s <= 27
    ensures var back := Recode(Recode(text, CoderSpec(s)), CoderSpec(-s));
            |back| == |text| &&
            forall i :: 0 <= i < |text| ==>
              back[i] == if IsUpper(text[i]) && (Pos(text[i]) + s) % 27 == 26 then LowerChar(text[i]) else text[i]
  {
    var enc := Recode(text, CoderSpec(s));
    forall i | 0 <= i < |text|
      ensures Recode(enc, CoderSpec(-s))[i] ==
                if IsUpper(text[i]) && (Pos(text[i]) + s) % 27 == 26 then LowerChar(text[i]) else text[i]
    {
      CoderKeys(s, text[i]);
      CoderKeys(-s, enc[i]);
      DecodeEncodeChar(text[i], s);
    }
  }

  /** Text of lower-case letters, spaces and other non-letters (and upper-case
      letters not encoded as the space) decodes to itself. */
  lemma DecodeEncodeRestores(text: string, s: int)
    requires -27 <= s <= 27
    requires forall i :: 0 <= i < |text| ==> !(IsUpper(text[i]) && (Pos(text[i]) + s) % 27 == 26)
    ensures Recode(Recode(text, CoderSpec(s)), CoderSpec(-s)) == text
  {
    DecodeEncode(text, s);
  }

  /** As the docstring example shows, an upper-case letter can be sent to the
      space, while the space key keeps its lower-case image. */
  lemma UpperToSpace()
    ensures 'X' in CoderSpec(3) && CoderSpec(3)['X'] == ' '
    ensures ' ' in CoderSpec(3) && CoderSpec(3)[' '] == 'c'
  {
    CoderKeys(3, 'X');
    CoderKeys(3, ' ');
  }

  // ---------------------------------------------------------------------
  // Layered shifts

  /** One layer of `apply_shifts`: `text[:loc] + apply_shift(text[loc:], shift)`. */
  function ShiftFrom(text: string, loc: int, shift: int): (r: string)
    requires -27 <= shift <= 27
    ensures |r| == |text|
  {
    var k := SliceBound(loc, |text|);
    text[..k] + Recode(text[k..], CoderSpec(shift))
  }

  predicate ShiftsInRange(shifts: seq<(int, int)>) {
    forall j :: 0 <= j < |shifts| ==> -27 <= shifts[j].1 <= 27
  }

  /** The shifts applied in list order, each from its location to the end. */
  function Layered(text: string, shifts: seq<(int, int)>): (r: string)
    requires ShiftsInRange(shifts)
    ensures |r| == |text|
    decreases |shifts|
  {
    if shifts == [] then text
    else
      var last := shifts[|shifts| - 1];
      ShiftFrom(Layered(text, shifts[..|shifts| - 1]), last.0, last.1)
  }

  /** `apply_shifts(text, shifts)`. */
  method ApplyShifts(text: string, shifts: seq<(int, int)>) returns (out: string)
    requires ShiftsInRange(shifts)
    ensures out == Layered(text, shifts)
  {
    out := text;
    for j := 0 to |shifts|
      invariant out == Layered(text, shifts[..j])
    {
      var loc := shifts[j].0;
      var k := SliceBound(loc, |out|);
      var shifted := ApplyShift(out[k..], shifts[j].1);
      assert shifts[..j + 1][..j] == shifts[..j];
      out := out[..k] + shifted;
    }
    assert shifts[..|shifts|] == shifts;
  }

  /** What a character at position `i` of a text of length `n` becomes: each
      shift whose start falls at or before `i` applies, in list order. */
  function CharAfterShifts(c: char, i: int, n: nat, shifts: seq<(int, int)>): char
    requires ShiftsInRange(shifts)
    decreases |shifts|
  {
    if shifts == [] then c
    else
      var last := shifts[|shifts| - 1];
      var before := CharAfterShifts(c, i, n, shifts[..|shifts| - 1]);
      if SliceBound(last.0, n) <= i then ShiftChar(before, last.1) else before
  }

  /** `apply_shifts` keeps the length and transforms each position independently. */
  lemma {:induction false} LayeredPointwise(text: string, shifts: seq<(int, int)>)
    requires ShiftsInRange(shifts)
    ensures |Layered(text, shifts)| == |text|
    ensures forall i :: 0 <= i < |text| ==> Layered(text, shifts)[i] == CharAfterShifts(text[i], i, |text|, shifts)
    decreases |shifts|
  {
    if shifts != [] {
      var init := shifts[..|shifts| - 1];
      var last := shifts[|shifts| - 1];
      LayeredPointwise(text, init);
      forall i | 0 <= i < |text|
        ensures Layered(text, shifts)[i] == CharAfterShifts(text[i], i, |text|, shifts)
      {
        LayeredAt(text, shifts, i);
      }
    }
  }

  /** One position, one more shift: the last shift recodes the character the
      earlier shifts left there, when the position is at or after its start. */
  lemma LayeredAt(text: string, shifts: seq<(int, int)>, i: int)
    requires ShiftsInRange(shifts) && shifts != [] && 0 <= i < |text|
    requires Layered(text, shifts[..|shifts| - 1])[i] == CharAfterShifts(text[i], i, |text|, shifts[..|shifts| - 1])
    ensures Layered(text, shifts)[i] == CharAfterShifts(text[i], i, |text|, shifts)
  {
    var init, last := shifts[..|shifts| - 1], shifts[|shifts| - 1];
    var mid := Layered(text, init);
    var k := SliceBound(last.0, |text|);
    var before := CharAfterShifts(text[i], i, |text|, init);
    assert Layered(text, shifts) == mid[..k] + Recode(mid[k..], CoderSpec(last.1));
    assert CharAfterShifts(text[i], i, |text|, shifts) == if k <= i then ShiftChar(before, last.1) else before;
    if k <= i {
      assert mid[k..][i - k] == mid[i];
      CoderKeys(last.1, mid[i]);
      if InAlphabet(mid[i]) {
        assert CoderSpec(last.1)[mid[i]] == Image(last.1, mid[i]);
      }
      assert Recode(mid[k..], CoderSpec(last.1))[i - k] == ShiftChar(before, last.1);
      assert Layered(text, shifts)[i] == Recode(mid[k..], CoderSpec(last.1))[i - k];
    } else {
      assert Layered(text, shifts)[i] == mid[i];
    }
  }

  /** Text in front of every shift's start position is left untouched. */
  lemma {:induction false} LayeredKeepsPrefix(text: string, shifts: seq<(int, int)>, k: nat)
    requires ShiftsInRange(shifts) && k <= |text|
    requires forall j :: 0 <= j < |shifts| ==> k <= SliceBound(shifts[j].0, |text|)
    ensures Layered(text, shifts)[..k] == text[..k]
    decreases |shifts|
  {
    if shifts != [] {
      var init := shifts[..|shifts| - 1];
      LayeredKeepsPrefix(text, init, k);
      var mid := Layered(text, init);
      LayeredPointwise(text, init);
      var b := SliceBound(shifts[|shifts| - 1].0, |text|);
      assert Layered(text, shifts)[..k] == mid[..b][..k];
    }
  }

  // ---------------------------------------------------------------------
  // Recognising words

  /** The characters `is_word` strips from both ends of a word. */
  predicate IsPunct(c: char) {
    c == ' ' || c == '!' || c == '@' || c == '#' || c == '$' || c == '%' || c == '^' || c == '&' ||
    c == '*' || c == '(' || c == ')' || c == '-' || c == '_' || c == '+' || c == '=' || c == '{' ||
    c == '}' || c == '[' || c == ']' || c == '|' || c == '\\' || c == ':' || c == ';' || c == '\'' ||
    c == '<' || c == '>' || c == '?' || c == ',' || c == '.' || c == '/' || c == '"'
  }

  /** `s.lstrip(punctuation)`: drops punctuation from the front. */
  function StripLeft(s: string): (r: string)
    ensures |r| <= |s|
    ensures r == [] || !IsPunct(r[0])
  {
    if s != [] && IsPunct(s[0]) then StripLeft(s[1..]) else s
  }

  /** `s.rstrip(punctuation)`: drops punctuation from the back. */
  function StripRight(s: string): (r: string)
    ensures |r| <= |s|
    ensures r == [] || !IsPunct(r[|r| - 1])
  {
    if s != [] && IsPunct(s[|s| - 1]) then StripRight(s[..|s| - 1]) else s
  }

  /** `s.strip(punctuation)`. */
  function Strip(s: string): string {
    StripRight(StripLeft(s))
  }

  /** Only punctuation is dropped: what `strip` removes from either end is
      punctuation, and what it keeps starts and ends with something else. */
  lemma {:induction false} StripDropsOnlyPunctuation(s: string)
    ensures var r := Strip(s);
            exists a, b :: 0 <= a <= b <= |s| && r == s[a..b] &&
              (forall i :: 0 <= i < a ==> IsPunct(s[i])) &&
              (forall i :: b <= i < |s| ==> IsPunct(s[i]))
    ensures Strip(s) == [] || (!IsPunct(Strip(s)[0]) && !IsPunct(Strip(s)[|Strip(s)| - 1]))
  {
    var l := StripLeft(s);
    StripLeftDrops(s);
    StripRightDrops(l);
    var a := |s| - |l|;
    var b := a + |StripRight(l)|;
    assert Strip(s) == s[a..b];
    forall i | b <= i < |s| ensures IsPunct(s[i]) {
      assert s[i] == l[i - a];
    }
    if Strip(s) != [] {
      assert StripRight(l)[0] == l[0];
    }
  }

  lemma {:induction false} StripLeftDrops(s: string)
    ensures StripLeft(s) == s[|s| - |StripLeft(s)|..]
    ensures forall i :: 0 <= i < |s| - |StripLeft(s)| ==> IsPunct(s[i])
    decreases |s|
  {
    if s != [] && IsPunct(s[0]) {
      StripLeftDrops(s[1..]);
    }
  }

  lemma {:induction false} StripRightDrops(s: string)
    ensures StripRight(s) == s[..|StripRight(s)|]
    ensures forall i :: |StripRight(s)| <= i < |s| ==> IsPunct(s[i])
    decreases |s|
  {
    if s != [] && IsPunct(s[|s| - 1]) {
      StripRightDrops(s[..|s| - 1]);
    }
  }

  /** No capital letter. */
  predicate NoCapitals(w: string) {
    forall i :: 0 <= i < |w| ==> !IsUpper(w[i])
  }

  /** No punctuation at either end. */
  predicate NoOuterPunct(w: string) {
    w == [] || (!IsPunct(w[0]) && !IsPunct(w[|w| - 1]))
  }

  /** `is_word(wordlist, word)`: lower-case, strip punctuation, look up. A
      word passes only through an entry with no capital letter and no
      punctuation at either end. */
  predicate IsWord(wordlist: seq<string>, word: string)
    ensures IsWord(wordlist, word) ==>
              var w := Strip(Lower(word));
              w in wordlist && NoCapitals(w) && NoOuterPunct(w)
  {
    StripDropsOnlyPunctuation(Lower(word));
    Strip(Lower(word)) in wordlist
  }

  lemma {:induction false} StripLeftSkips(p: string, s: string)
    requires forall i :: 0 <= i < |p| ==> IsPunct(p[i])
    ensures StripLeft(p + s) == StripLeft(s)
    decreases |p|
  {
    if p != [] {
      assert (p + s)[0] == p[0] && (p + s)[1..] == p[1..] + s;
      StripLeftSkips(p[1..], s);
    } else {
      assert p + s == s;
    }
  }

  lemma {:induction false} StripRightSkips(s: string, q: string)
    requires forall i :: 0 <= i < |q| ==> IsPunct(q[i])
    ensures StripRight(s + q) == StripRight(s)
    decreases |q|
  {
    if q != [] {
      var n := |s + q|;
      assert (s + q)[n - 1] == q[|q| - 1] && (s + q)[..n - 1] == s + q[..|q| - 1];
      StripRightSkips(s, q[..|q| - 1]);
    } else {
      assert s + q == s;
    }
  }

  lemma {:induction false} StripLeftKeepsTail(s: string, q: string)
    requires StripLeft(s) != []
    ensures StripLeft(s + q) == StripLeft(s) + q
    decreases |s|
  {
    assert (s + q)[0] == s[0];
    if IsPunct(s[0]) {
      assert (s + q)[1..] == s[1..] + q;
      StripLeftKeepsTail(s[1..], q);
    }
  }

  lemma PunctuationHasNoCapitals(p: string)
    requires forall i :: 0 <= i < |p| ==> IsPunct(p[i])
    ensures Lower(p) == p
  {
  }

  /** `is_word` ignores letter case and any punctuation around the word. */
  lemma IsWordIgnoresCaseAndPunctuation(wordlist: seq<string>, pre: string, word: string, post: string)
    requires forall i :: 0 <= i < |pre| ==> IsPunct(pre[i])
    requires forall i :: 0 <= i < |post| ==> IsPunct(post[i])
    ensures IsWord(wordlist, pre + word + post) <==> IsWord(wordlist, Lower(word))
  {
    var w := Lower(word);
    PunctuationHasNoCapitals(pre);
    PunctuationHasNoCapitals(post);
    assert Lower(pre + word + post) == pre + (w + post);
    StripLeftSkips(pre, w + post);
    assert Lower(w) == w;
    if StripLeft(w) != [] {
      StripLeftKeepsTail(w, post);
      StripRightSkips(StripLeft(w), post);
    } else {
      StripLeftDrops(w);
      assert w + post == w + post + [];
      StripLeftSkips(w + post, []);
    }
  }

  /** Every token passes `is_word`. */
  ghost predicate AllWords(wordlist: seq<string>, ws: seq<string>) {
    forall k :: 0 <= k < |ws| ==> IsWord(wordlist, ws[k])
  }

  /** `is_decoded(wordlist, text)`: a flag cleared by the first invalid token. */
  method IsDecoded(wordlist: seq<string>, text: string) returns (decoded: bool)
    ensures decoded <==> AllWords(wordlist, Split(text))
  {
    var testText := Split(text);
    decoded := true;
    for k := 0 to |testText|
      invariant decoded <==> AllWords(wordlist, testText[..k])
    {
      AllWordsSnoc(wordlist, testText, k);
      if !IsWord(wordlist, testText[k]) {
        decoded := false;
      }
    }
    assert testText[..|testText|] == testText;
  }

  /** One more token passes exactly when the earlier ones and it do. */
  lemma AllWordsSnoc(wordlist: seq<string>, ws: seq<string>, k: nat)
    requires k < |ws|
    ensures AllWords(wordlist, ws[..k + 1]) <==> AllWords(wordlist, ws[..k]) && IsWord(wordlist, ws[k])
  {
    assert ws[..k + 1][k] == ws[k];
    assert forall j :: 0 <= j < k ==> ws[..k + 1][j] == ws[..k][j];
  }

  /** Text without tokens counts as decoded. */
  lemma BlankIsDecoded(wordlist: seq<string>, text: string)
    requires forall i :: 0 <= i < |text| ==> IsSpace(text[i])
    ensures AllWords(wordlist, Split(text))
  {
    SplitSkipsSpaces(text, []);
    assert text + [] == text;
  }

  /** The decoding with `build_decoder(shift)` passes `is_decoded`. */
  ghost predicate Decodes(wordlist: seq<string>, text: string, shift: int)
    requires -27 <= shift <= 27
  {
    AllWords(wordlist, Split(Recode(text, CoderSpec(-shift))))
  }

  /** One round of `find_best_shift`: decode with `build_decoder(shift)` and
      test the result with `is_decoded`. */
  method TryShift(wordlist: seq<string>, text: string, shift: int) returns (decoded: bool)
    requires -27 <= shift <= 27
    ensures decoded <==> Decodes(wordlist, text, shift)
  {
    var decoder := BuildDecoder(shift);
    var outText := ApplyCoder(text, decoder);
    decoded := IsDecoded(wordlist, outText);
  }

  /** The first position from `from` on that holds `true`, or `|bs|`. */
  function FirstTrue(bs: seq<bool>, from: nat): (r: nat)
    requires from <= |bs|
    ensures from <= r <= |bs|
    ensures r < |bs| ==> bs[r]
    ensures forall s :: from <= s < r ==> !bs[s]
    decreases |bs| - from
  {
    if from == |bs| then from
    else if bs[from] then from
    else FirstTrue(bs, from + 1)
  }

  /** Whether the decoding with shift `s` passes `is_decoded`, for `s` in 0..27. */
  ghost function DecodeOutcomes(wordlist: seq<string>, text: string): (r: seq<bool>)
    ensures |r| == 28
    ensures forall s :: 0 <= s < 28 ==> r[s] == Decodes(wordlist, text, s)
  {
    seq(28, s requires 0 <= s < 28 => Decodes(wordlist, text, s))
  }

  /** The least shift from `from` up to 27 that decodes the text, or 28. */
  ghost function FirstDecoding(wordlist: seq<string>, text: string, from: int): (r: int)
    requires 0 <= from <= 28
    ensures from <= r <= 28
    ensures r <= 27 ==> Decodes(wordlist, text, r)
    ensures forall s {:trigger Decodes(wordlist, text, s)} :: from <= s < r ==> !Decodes(wordlist, text, s)
  {
    var outcomes := DecodeOutcomes(wordlist, text);
    var r := FirstTrue(outcomes, from);
    assert forall s :: from <= s < r ==> !outcomes[s];
    r
  }

  /** `find_best_shift(wordlist, text)`: the least shift in 0..27 whose
      decoding consists of words only, or 28 when there is none. */
  method FindBestShift(wordlist: seq<string>, text: string) returns (shift: int)
    ensures shift == FirstDecoding(wordlist, text, 0)
    ensures 0 <= shift <= 28
    ensures shift <= 27 ==> Decodes(wordlist, text, shift)
    ensures forall s :: 0 <= s < shift ==> !Decodes(wordlist, text, s)
  {
    shift := 0;
    var decoded := false;
    while !decoded && shift <= 27
      invariant 0 <= shift <= 28
      invariant !decoded ==> FirstDecoding(wordlist, text, shift) == FirstDecoding(wordlist, text, 0)
      invariant decoded ==> shift == FirstDecoding(wordlist, text, 0)
      decreases (if decoded then 0 else 1), 28 - shift
    {
      decoded := TryShift(wordlist, text, shift);
      if !decoded {
        shift := shift + 1;
      }
    }
  }

  /** How many leading tokens are valid words. */
  function GoodPrefixLen(wordlist: seq<string>, ws: seq<string>): (k: nat)
    ensures k <= |ws|
    ensures forall j {:trigger IsWord(wordlist, ws[j])} :: 0 <= j < k ==> IsWord(wordlist, ws[j])
    ensures k < |ws| ==> !IsWord(wordlist, ws[k])
  {
    if ws == [] || !IsWord(wordlist, ws[0]) then 0
    else
      var k := GoodPrefixLen(wordlist, ws[1..]);
      assert forall j :: 0 <= j < |ws| - 1 ==> ws[1..][j] == ws[j + 1];
      1 + k
  }

  /** Inside the valid prefix, the next token decides whether it ends there. */
  lemma GoodPrefixAt(wordlist: seq<string>, ws: seq<string>, i: int)
    requires 0 <= i <= GoodPrefixLen(wordlist, ws) && i < |ws|
    ensures IsWord(wordlist, ws[i]) <==> i < GoodPrefixLen(wordlist, ws)
  {
  }

  lemma PrefixGrows(ws: seq<string>, i: int)
    requires 0 <= i < |ws|
    ensures ws[..i + 1] == ws[..i] + [ws[i]]
  {
  }

  /** `find_good_words(wordlist, text)`: the valid leading tokens, joined by
      single spaces. */
  method FindGoodWords(wordlist: seq<string>, text: string) returns (out: string)
    ensures out == Join(" ", Split(text)[..GoodPrefixLen(wordlist, Split(text))])
  {
    var words := Split(text);
    var goodWords := LeadingWords(wordlist, words);
    out := Join(" ", goodWords);
  }

  /** The loop of `find_good_words`: collects tokens until the first one that
      is not a word. */
  method LeadingWords(wordlist: seq<string>, words: seq<string>) returns (goodWords: seq<string>)
    ensures goodWords == words[..GoodPrefixLen(wordlist, words)]
  {
    goodWords := [];
    var i := 0;
    while i < |words|
      invariant 0 <= i <= GoodPrefixLen(wordlist, words)
      invariant goodWords == words[..i]
    {
      var word := words[i];
      GoodPrefixAt(wordlist, words, i);
      if IsWord(wordlist, word) {
        PrefixGrows(words, i);
        goodWords := goodWords + [word];
        i := i + 1;
      } else {
        break;
      }
    }
  }

  /** The result of `find_good_words` splits back into the valid leading tokens,
      and it is empty exactly when the first token is not a word (or there is none). */
  lemma GoodWordsRoundTrip(wordlist: seq<string>, text: string)
    ensures var ws := Split(text);
            var good := ws[..GoodPrefixLen(wordlist, ws)];
            Split(Join(" ", good)) == good &&
            (Join(" ", good) == [] <==> (ws == [] || !IsWord(wordlist, ws[0])))
  {
    var ws := Split(text);
    var good := ws[..GoodPrefixLen(wordlist, ws)];
    SplitJoin(good);
    if good != [] {
      assert IsToken(good[0]);
      JoinNonEmpty(good);
    }
  }

  lemma JoinNonEmpty(ws: seq<string>)
    requires ws != [] && ws[0] != []
    ensures Join(" ", ws) != []
  {
  }
}
