/** The news-story filter of PS5/rssfilter.py: stories, a boolean algebra of
    triggers over their fields, filtering a list of stories, and the parser
    of the trigger configuration file. */
module RssFilter {
  import opened Wrappers
  import opened PyStr

  // ---------------------------------------------------------------------
  // Stories

  /** A story's guid: the feed's own string, or a number handed out by the
      class-wide counter when the feed gave none. */
  datatype Guid = Given(id: string) | Numbered(n: nat)

  datatype NewsStory = NewsStory(guid: Guid, title: string, subject: string, summary: string, link: string)

  /** The class attribute `NewsStory.nextIDNum`, shared by all stories. */
  class IdCounter {
    var nextIdNum: nat

    constructor()
      ensures nextIdNum == 0
    {
      nextIdNum := 0;
    }
  }

  /** `NewsStory(guid, title, subject, summary, link)`: an empty guid is
      replaced by the counter's value, which then moves on by one. */
  method NewStory(counter: IdCounter, guid: string, title: string, subject: string, summary: string, link: string)
      returns (story: NewsStory)
    modifies counter
    ensures guid == "" ==> story.guid == Numbered(old(counter.nextIdNum)) &&
                           counter.nextIdNum == old(counter.nextIdNum) + 1
    ensures guid != "" ==> story.guid == Given(guid) && counter.nextIdNum == old(counter.nextIdNum)
    ensures story.title == title && story.subject == subject && story.summary == summary && story.link == link
  {
    if guid == "" {
      story := NewsStory(Numbered(counter.nextIdNum), title, subject, summary, link);
      counter.nextIdNum := counter.nextIdNum + 1;
    } else {
      story := NewsStory(Given(guid), title, subject, summary, link);
    }
  }

  // ---------------------------------------------------------------------
  // Whole words

  /** The characters of Python's `string.punctuation`. */
  predicate IsAsciiPunct(c: char) {
    c == '!' || c == '"' || c == '#' || c == '$' || c == '%' || c == '&' || c == '\'' || c == '(' ||
    c == ')' || c == '*' || c == '+' || c == ',' || c == '-' || c == '.' || c == '/' || c == ':' ||
    c == ';' || c == '<' || c == '=' || c == '>' || c == '?' || c == '@' || c == '[' || c == '\\' ||
    c == ']' || c == '^' || c == '_' || c == '`' || c == '{' || c == '|' || c == '}' || c == '~'
  }

  /** The text with every punctuation character replaced by a space. */
  function Blank(text: string): (r: string)
    ensures |r| == |text|
    ensures forall i :: 0 <= i < |text| ==> r[i] == if IsAsciiPunct(text[i]) then ' ' else text[i]
  {
    seq(|text|, i requires 0 <= i < |text| => if IsAsciiPunct(text[i]) then ' ' else text[i])
  }

  /** The words `is_word_in` compares against: blank out punctuation,
      lower-case, split at whitespace. */
  function Words(text: string): seq<string> {
    Split(Lower(Blank(text)))
  }

  /** `WordTrigger(word).is_word_in(text)`: only a non-empty word without
      whitespace can be found. */
  predicate IsWordIn(word: string, text: string)
    ensures IsWordIn(word, text) ==> word != [] && forall i :: 0 <= i < |word| ==> !IsSpace(word[i])
  {
    Lower(word) in Words(text)
  }

  /** A whole word of the text, delimited by whitespace, punctuation or the
      ends of the text, is found whatever its case. */
  lemma WholeWordFound(before: string, word: string, after: string)
    requires word != [] && forall i :: 0 <= i < |word| ==> !IsSpace(word[i]) && !IsAsciiPunct(word[i])
    requires before == [] || IsSpace(before[|before| - 1]) || IsAsciiPunct(before[|before| - 1])
    requires after == [] || IsSpace(after[0]) || IsAsciiPunct(after[0])
    ensures IsWordIn(word, before + word + after)
  {
    var a := Lower(Blank(before));
    var w := Lower(Blank(word));
    var b := Lower(Blank(after));
    CleanedConcat(before, word, after);
    CleanedWord(word);
    SplitConcat(a, w + b);
    SplitLeadingToken(w, b);
    assert (Split(a) + ([w] + Split(b)))[|Split(a)|] == w;
  }

  /** Blanking and lower-casing work character by character. */
  lemma CleanedConcat(x: string, y: string, z: string)
    ensures Lower(Blank(x + y + z)) == Lower(Blank(x)) + (Lower(Blank(y)) + Lower(Blank(z)))
  {
  }

  /** A word without whitespace or punctuation is its own cleaned form, a token. */
  lemma CleanedWord(word: string)
    requires word != [] && forall i :: 0 <= i < |word| ==> !IsSpace(word[i]) && !IsAsciiPunct(word[i])
    ensures Lower(Blank(word)) == Lower(word) && IsToken(Lower(word))
  {
  }

  /** Only whole words match: a word holding whitespace or punctuation, or
      the empty word, is never found. */
  lemma OnlyWholeWordsMatch(word: string, text: string)
    requires IsWordIn(word, text)
    ensures word != []
    ensures forall i :: 0 <= i < |word| ==> !IsSpace(word[i]) && !IsAsciiPunct(word[i])
  {
    var s := Lower(Blank(text));
    SplitKeeps(s, c => !IsAsciiPunct(c));
    var k :| 0 <= k < |Words(text)| && Words(text)[k] == Lower(word);
    assert IsToken(Split(s)[k]);
    forall i | 0 <= i < |word| ensures !IsSpace(word[i]) && !IsAsciiPunct(word[i]) {
      assert Lower(word)[i] == Split(s)[k][i];
    }
  }

  /** `is_word_in` does not depend on the case of the word. */
  lemma IsWordInIgnoresCase(word: string, text: string)
    ensures IsWordIn(word, text) <==> IsWordIn(Lower(word), text)
  {
    assert Lower(Lower(word)) == Lower(word);
  }

  /** `phrase in text`: the phrase occurs as a contiguous, case-sensitive
      piece of the text. */
  function Contains(text: string, phrase: string): (r: bool)
    ensures phrase == [] ==> r
    ensures r ==> |phrase| <= |text|
    decreases |text|
  {
    if phrase <= text then true
    else if text == [] then false
    else Contains(text[1..], phrase)
  }

  /** The phrase occurs in the text starting at position `i`. */
  predicate OccursAt(text: string, phrase: string, i: int) {
    0 <= i <= |text| - |phrase| && text[i..i + |phrase|] == phrase
  }

  lemma {:induction false} ContainsWitness(text: string, phrase: string) returns (i: int)
    requires Contains(text, phrase)
    ensures OccursAt(text, phrase, i)
    decreases |text|
  {
    if phrase <= text {
      i := 0;
      assert text[..|phrase|] == phrase;
    } else {
      var j := ContainsWitness(text[1..], phrase);
      i := j + 1;
      SliceOfTail(text, j, |phrase|);
    }
  }

  lemma SliceOfTail(text: string, j: int, n: int)
    requires 0 <= j && 0 <= n && j + n < |text|
    ensures text[1..][j..j + n] == text[j + 1..j + 1 + n]
  {
  }

  lemma {:induction false} OccursContained(text: string, phrase: string, i: int)
    requires OccursAt(text, phrase, i)
    ensures Contains(text, phrase)
    decreases |text|
  {
    if i == 0 {
      assert phrase <= text;
    } else if !(phrase <= text) {
      SliceOfTail(text, i - 1, |phrase|);
      OccursContained(text[1..], phrase, i - 1);
    }
  }

  /** `phrase in text` holds exactly when the phrase occurs somewhere. */
  lemma ContainsMeaning(text: string, phrase: string)
    ensures Contains(text, phrase) <==> exists i :: OccursAt(text, phrase, i)
  {
    if Contains(text, phrase) {
      var i := ContainsWitness(text, phrase);
    }
    if exists i :: OccursAt(text, phrase, i) {
      var i :| OccursAt(text, phrase, i);
      OccursContained(text, phrase, i);
    }
  }

  // ---------------------------------------------------------------------
  // Triggers

  datatype Trigger =
    | Title(word: string)
    | Subject(word: string)
    | Summary(word: string)
    | Not(t: Trigger)
    | And(t1: Trigger, t2: Trigger)
    | Or(t1: Trigger, t2: Trigger)
    | Phrase(phrase: string)

  /** `trigger.evaluate(story)`. A word trigger never fires for an empty
      word or on an empty field; an empty phrase fires on every story. */
  predicate Evaluate(t: Trigger, story: NewsStory)
    ensures (t.Title? || t.Subject? || t.Summary?) && Evaluate(t, story) ==> t.word != []
    ensures t.Title? && story.title == [] ==> !Evaluate(t, story)
    ensures t.Subject? && story.subject == [] ==> !Evaluate(t, story)
    ensures t.Summary? && story.summary == [] ==> !Evaluate(t, story)
    ensures t.Phrase? && t.phrase == [] ==> Evaluate(t, story)
  {
    match t
    case Title(w) => IsWordIn(w, story.title)
    case Subject(w) => IsWordIn(w, story.subject)
    case Summary(w) => IsWordIn(w, story.summary)
    case Not(u) => !Evaluate(u, story)
    case And(u, v) => Evaluate(u, story) && Evaluate(v, story)
    case Or(u, v) => Evaluate(u, story) || Evaluate(v, story)
    case Phrase(p) => Contains(story.subject, p) || Contains(story.title, p) || Contains(story.summary, p)
  }

  /** A word trigger looks at its own field only. */
  lemma WordTriggersReadOneField(w: string, s1: NewsStory, s2: NewsStory)
    ensures s1.title == s2.title ==> (Evaluate(Title(w), s1) <==> Evaluate(Title(w), s2))
    ensures s1.subject == s2.subject ==> (Evaluate(Subject(w), s1) <==> Evaluate(Subject(w), s2))
    ensures s1.summary == s2.summary ==> (Evaluate(Summary(w), s1) <==> Evaluate(Summary(w), s2))
  {
  }

  /** A phrase trigger fires exactly when the phrase occurs verbatim in the
      subject, the title or the summary. */
  lemma PhraseTriggerMeaning(p: string, story: NewsStory)
    ensures Evaluate(Phrase(p), story) <==>
              (exists i :: OccursAt(story.subject, p, i)) ||
              (exists i :: OccursAt(story.title, p, i)) ||
              (exists i :: OccursAt(story.summary, p, i))
  {
    ContainsMeaning(story.subject, p);
    ContainsMeaning(story.title, p);
    ContainsMeaning(story.summary, p);
  }

  // ---------------------------------------------------------------------
  // Filtering

  /** One copy of the story for each trigger in the list that fires on it. */
  function Copies(story: NewsStory, triggers: seq<Trigger>): (r: seq<NewsStory>)
    ensures forall k :: 0 <= k < |r| ==> r[k] == story
    ensures r != [] <==> exists j :: 0 <= j < |triggers| && Evaluate(triggers[j], story)
  {
    if triggers == [] then []
    else
      var init := triggers[..|triggers| - 1];
      var rest := Copies(story, init);
      assert forall j :: 0 <= j < |init| ==> init[j] == triggers[j];
      if Evaluate(triggers[|triggers| - 1], story) then rest + [story] else rest
  }

  /** What `filter_stories` returns: for each story in order, one copy per
      firing trigger. */
  function Filtered(stories: seq<NewsStory>, triggers: seq<Trigger>): seq<NewsStory> {
    if stories == [] then []
    else Filtered(stories[..|stories| - 1], triggers) + Copies(stories[|stories| - 1], triggers)
  }

  /** `filter_stories(stories, triggerlist)`. */
  method FilterStories(stories: seq<NewsStory>, triggers: seq<Trigger>) returns (filtered: seq<NewsStory>)
    ensures filtered == Filtered(stories, triggers)
  {
    filtered := [];
    for i := 0 to |stories|
      invariant filtered == Filtered(stories[..i], triggers)
    {
      var story := stories[i];
      ghost var before := filtered;
      for j := 0 to |triggers|
        invariant filtered == before + Copies(story, triggers[..j])
      {
        assert triggers[..j + 1][..j] == triggers[..j];
        if Evaluate(triggers[j], story) {
          filtered := filtered + [story];
        }
      }
      assert triggers[..|triggers|] == triggers;
      assert stories[..i + 1][..i] == stories[..i];
    }
    assert stories[..|stories|] == stories;
  }

  /** A story is in the filtered list exactly when it is one of the stories
      and some trigger fires on it. */
  lemma {:induction false} FilteredMembers(stories: seq<NewsStory>, triggers: seq<Trigger>, s: NewsStory)
    ensures s in Filtered(stories, triggers) <==>
              s in stories && exists j :: 0 <= j < |triggers| && Evaluate(triggers[j], s)
    decreases |stories|
  {
    if stories != [] {
      var init := stories[..|stories| - 1];
      var last := stories[|stories| - 1];
      FilteredMembers(init, triggers, s);
      assert stories == init + [last];
      var c := Copies(last, triggers);
      if s in c {
        assert c[0] == last;
      }
      if s == last && exists j :: 0 <= j < |triggers| && Evaluate(triggers[j], s) {
        assert c[0] in c;
      }
    }
  }

  /** The positions of the triggers that fire on the story. */
  function FiringAt(story: NewsStory, triggers: seq<Trigger>): set<int> {
    set j | 0 <= j < |triggers| && Evaluate(triggers[j], story)
  }

  lemma FiringAtSnoc(story: NewsStory, triggers: seq<Trigger>)
    requires triggers != []
    ensures var n := |triggers| - 1;
            FiringAt(story, triggers) ==
              FiringAt(story, triggers[..n]) + (if Evaluate(triggers[n], story) then {n} else {})
    ensures |triggers| - 1 !in FiringAt(story, triggers[..|triggers| - 1])
  {
  }

  /** A story gets one copy per trigger that fires on it. */
  lemma {:induction false} CopiesPerFiringTrigger(story: NewsStory, triggers: seq<Trigger>)
    ensures |Copies(story, triggers)| == |FiringAt(story, triggers)|
    decreases |triggers|
  {
    if triggers != [] {
      CopiesPerFiringTrigger(story, triggers[..|triggers| - 1]);
      FiringAtSnoc(story, triggers);
    }
  }

  lemma ConstantMultiset(r: seq<NewsStory>, story: NewsStory, s: NewsStory)
    requires forall k :: 0 <= k < |r| ==> r[k] == story
    ensures multiset(r)[s] == if s == story then |r| else 0
    decreases |r|
  {
    if r != [] {
      ConstantMultiset(r[1..], story, s);
      assert r == [r[0]] + r[1..];
    }
  }

  lemma FilteredSnoc(stories: seq<NewsStory>, triggers: seq<Trigger>, s: NewsStory)
    requires stories != []
    ensures var init, last := stories[..|stories| - 1], stories[|stories| - 1];
            multiset(Filtered(stories, triggers))[s] ==
              multiset(Filtered(init, triggers))[s] + (if s == last then |FiringAt(s, triggers)| else 0) &&
            multiset(stories)[s] == multiset(init)[s] + (if s == last then 1 else 0)
  {
    var init, last := stories[..|stories| - 1], stories[|stories| - 1];
    assert stories == init + [last];
    ConstantMultiset(Copies(last, triggers), last, s);
    CopiesPerFiringTrigger(s, triggers);
  }

  /** A story occurs in the filtered list as often as it occurs among the
      stories times the number of triggers that fire on it. */
  lemma {:induction false} FilteredMultiplicity(stories: seq<NewsStory>, triggers: seq<Trigger>, s: NewsStory)
    ensures multiset(Filtered(stories, triggers))[s] == multiset(stories)[s] * |FiringAt(s, triggers)|
    decreases |stories|
  {
    if stories != [] {
      FilteredMultiplicity(stories[..|stories| - 1], triggers, s);
      FilteredSnoc(stories, triggers, s);
      MultiplyOneMore(multiset(stories[..|stories| - 1])[s], |FiringAt(s, triggers)|);
    }
  }

  lemma MultiplyOneMore(a: int, f: int)
    ensures (a + 1) * f == a * f + f
  {
  }

  /** Filtering keeps the order of the stories: the result for a longer list
      extends the result for any prefix. */
  lemma {:induction false} FilteredKeepsOrder(stories: seq<NewsStory>, triggers: seq<Trigger>, k: nat)
    requires k <= |stories|
    ensures Filtered(stories[..k], triggers) <= Filtered(stories, triggers)
    decreases |stories|
  {
    if k < |stories| {
      var init := stories[..|stories| - 1];
      FilteredKeepsOrder(init, triggers, k);
      assert init[..k] == stories[..k];
    } else {
      assert stories[..k] == stories;
    }
  }

  // ---------------------------------------------------------------------
  // The trigger configuration file

  /** The exceptions `readTriggerConfig` can end in: a missing field
      (`IndexError`) or an operand variable never bound (`UnboundLocalError`). */
  datatype ConfigError = IndexError | UnboundLocalError

  type Def = (string, Trigger)

  /** The parser's variables: the named definitions so far, the triggers
      added so far, and the operand variables `t1`, `t2`, which keep their
      values from one line to the next. */
  datatype ConfigState = ConfigState(defs: seq<Def>, out: seq<Trigger>, t1: Option<Trigger>, t2: Option<Trigger>)

  /** The lines kept for parsing: each line right-stripped, blank lines and
      comment lines dropped. */
  function KeptLines(fileLines: seq<string>): (r: seq<string>)
    ensures forall i :: 0 <= i < |r| ==> r[i] != [] && !IsSpace(r[i][|r[i]| - 1]) && r[i][0] != '#'
  {
    if fileLines == [] then []
    else
      var line := RStrip(fileLines[|fileLines| - 1]);
      var rest := KeptLines(fileLines[..|fileLines| - 1]);
      if |line| == 0 || line[0] == '#' then rest else rest + [line]
  }

  /** The loop `for trigger in triggers: if trigger[0] == name: t1 = trigger[1]`:
      the last definition of the name, or the earlier binding when there is none. */
  function LastNamed(defs: seq<Def>, name: string, prev: Option<Trigger>): Option<Trigger> {
    if defs == [] then prev
    else if defs[|defs| - 1].0 == name then Some(defs[|defs| - 1].1)
    else LastNamed(defs[..|defs| - 1], name, prev)
  }

  /** The operand lookup of a NOT line; the first comparison reads `arg[0]`. */
  function NotOperand(defs: seq<Def>, arg: seq<string>, t1: Option<Trigger>): Result<Option<Trigger>, ConfigError> {
    if defs == [] then Ok(t1)
    else if |arg| < 1 then Err(IndexError)
    else Ok(LastNamed(defs, arg[0], t1))
  }

  /** One pass of the AND/OR lookup loop over a definition: `arg[1]` is read
      only when the name differs from `arg[0]`. */
  function PairStep(d: Def, arg: seq<string>, t1: Option<Trigger>, t2: Option<Trigger>)
    : Result<(Option<Trigger>, Option<Trigger>), ConfigError>
  {
    if |arg| < 1 then Err(IndexError)
    else if d.0 == arg[0] then Ok((Some(d.1), t2))
    else if |arg| < 2 then Err(IndexError)
    else if d.0 == arg[1] then Ok((t1, Some(d.1)))
    else Ok((t1, t2))
  }

  /** The AND/OR lookup loop over all definitions. */
  function PairScan(defs: seq<Def>, arg: seq<string>, t1: Option<Trigger>, t2: Option<Trigger>)
    : Result<(Option<Trigger>, Option<Trigger>), ConfigError>
  {
    if defs == [] then Ok((t1, t2))
    else
      match PairScan(defs[..|defs| - 1], arg, t1, t2)
      case Err(e) => Err(e)
      case Ok(p) => PairStep(defs[|defs| - 1], arg, p.0, p.1)
  }

  /** Every trigger defined under the name, in definition order. */
  function Named(defs: seq<Def>, name: string): seq<Trigger> {
    if defs == [] then []
    else Named(defs[..|defs| - 1], name) + (if defs[|defs| - 1].0 == name then [defs[|defs| - 1].1] else [])
  }

  /** What an ADD line appends: the definitions of each listed name in turn. */
  function AddAll(defs: seq<Def>, names: seq<string>): seq<Trigger> {
    if names == [] then []
    else AddAll(defs, names[..|names| - 1]) + Named(defs, names[|names| - 1])
  }

  /** A trigger definition line after its operands have been looked up. */
  function Define(st: ConfigState, name: string, t: Trigger): ConfigState {
    st.(defs := st.defs + [(name, t)])
  }

  /** One kept line of the configuration, given its words. */
  function Step(st: ConfigState, words: seq<string>): Result<ConfigState, ConfigError>
    requires words != []
  {
    if words[0] != "ADD" then
      if |words| < 2 then Err(IndexError)
      else
        var name, kind, arg := words[0], words[1], words[2..];
        if kind == "PHRASE" then Ok(Define(st, name, Phrase(Join(" ", arg))))
        else if kind == "SUBJECT" then (if |arg| < 1 then Err(IndexError) else Ok(Define(st, name, Subject(arg[0]))))
        else if kind == "TITLE" then (if |arg| < 1 then Err(IndexError) else Ok(Define(st, name, Title(arg[0]))))
        else if kind == "SUMMARY" then (if |arg| < 1 then Err(IndexError) else Ok(Define(st, name, Summary(arg[0]))))
        else if kind == "NOT" then
          match NotOperand(st.defs, arg, st.t1)
          case Err(e) => Err(e)
          case Ok(t1) =>
            if t1.None? then Err(UnboundLocalError)
            else Ok(Define(st.(t1 := t1), name, Not(t1.value)))
        else if kind == "AND" || kind == "OR" then
          match PairScan(st.defs, arg, st.t1, st.t2)
          case Err(e) => Err(e)
          case Ok(p) =>
            if p.0.None? || p.1.None? then Err(UnboundLocalError)
            else
              var t := if kind == "AND" then And(p.0.value, p.1.value) else Or(p.0.value, p.1.value);
              Ok(Define(st.(t1 := p.0, t2 := p.1), name, t))
        else Ok(st)
    else Ok(st.(out := st.out + AddAll(st.defs, words[1..])))
  }

  /** The parser's state after the given lines, or the exception it ends in. */
  function Run(lines: seq<string>): Result<ConfigState, ConfigError>
    requires forall i :: 0 <= i < |lines| ==> Split(lines[i]) != []
  {
    if lines == [] then Ok(ConfigState([], [], None, None))
    else
      match Run(lines[..|lines| - 1])
      case Err(e) => Err(e)
      case Ok(st) => Step(st, Split(lines[|lines| - 1]))
  }

  lemma KeptLinesHaveWords(fileLines: seq<string>)
    ensures forall i :: 0 <= i < |KeptLines(fileLines)| ==> Split(KeptLines(fileLines)[i]) != []
  {
    forall i | 0 <= i < |KeptLines(fileLines)| ensures Split(KeptLines(fileLines)[i]) != [] {
      SplitNonEmpty(KeptLines(fileLines)[i]);
    }
  }

  /** What `readTriggerConfig` returns for a file with the given lines. */
  function Config(fileLines: seq<string>): Result<seq<Trigger>, ConfigError> {
    KeptLinesHaveWords(fileLines);
    match Run(KeptLines(fileLines))
    case Err(e) => Err(e)
    case Ok(st) => Ok(st.out)
  }

  /** `readTriggerConfig(filename)`, given the file's lines. */
  method ReadTriggerConfig(fileLines: seq<string>) returns (r: Result<seq<Trigger>, ConfigError>)
    ensures r == Config(fileLines)
  {
    var lines := KeepLines(fileLines);
    KeptLinesHaveWords(fileLines);
    var st := ParseLines(lines);
    if st.Err? {
      return Err(st.error);
    }
    r := Ok(st.value.out);
  }

  /** The first loop of `readTriggerConfig`: strip each line and keep those
      that are neither blank nor comments. */
  method KeepLines(fileLines: seq<string>) returns (lines: seq<string>)
    ensures lines == KeptLines(fileLines)
  {
    var all := seq(|fileLines|, i requires 0 <= i < |fileLines| => RStrip(fileLines[i]));
    lines := [];
    for i := 0 to |all|
      invariant lines == KeptLines(fileLines[..i])
    {
      assert fileLines[..i + 1][..i] == fileLines[..i];
      var line := all[i];
      if !(|line| == 0 || line[0] == '#') {
        lines := lines + [line];
      }
    }
    assert fileLines[..|fileLines|] == fileLines;
  }

  /** The second loop of `readTriggerConfig`: apply each kept line in turn,
      stopping at the first exception. */
  method ParseLines(lines: seq<string>) returns (r: Result<ConfigState, ConfigError>)
    requires forall i :: 0 <= i < |lines| ==> Split(lines[i]) != []
    ensures r == Run(lines)
  {
    var st := ConfigState([], [], None, None);
    for i := 0 to |lines|
      invariant Run(lines[..i]) == Ok(st)
    {
      assert lines[..i + 1][..i] == lines[..i];
      var next := ApplyLine(st, lines[i]);
      if next.Err? {
        RunStopsAtError(lines, i + 1);
        return Err(next.error);
      }
      st := next.value;
    }
    assert lines[..|lines|] == lines;
    r := Ok(st);
  }

  /** An exception ends the parse: later lines are never looked at. */
  lemma {:induction false} RunStopsAtError(lines: seq<string>, k: nat)
    requires forall i :: 0 <= i < |lines| ==> Split(lines[i]) != []
    requires k <= |lines| && Run(lines[..k]).Err?
    ensures Run(lines) == Run(lines[..k])
    decreases |lines|
  {
    if k == |lines| {
      assert lines[..k] == lines;
    } else {
      var init := lines[..|lines| - 1];
      assert init[..k] == lines[..k];
      RunStopsAtError(init, k);
    }
  }

  /** The body of the parsing loop for one line. */
  method ApplyLine(st: ConfigState, line: string) returns (r: Result<ConfigState, ConfigError>)
    requires Split(line) != []
    ensures r == Step(st, Split(line))
  {
    var words := Split(line);
    if words[0] != "ADD" {
      if |words| < 2 {
        return Err(IndexError);
      }
      var name, kind, arg := words[0], words[1], words[2..];
      if kind == "PHRASE" {
        r := Ok(Define(st, name, Phrase(Join(" ", arg))));
      } else if kind == "SUBJECT" || kind == "TITLE" || kind == "SUMMARY" {
        if |arg| < 1 {
          return Err(IndexError);
        }
        var t := if kind == "SUBJECT" then Subject(arg[0]) else if kind == "TITLE" then Title(arg[0]) else Summary(arg[0]);
        r := Ok(Define(st, name, t));
      } else if kind == "NOT" {
        var t1 := FindNotOperand(st.defs, arg, st.t1);
        if t1.Err? {
          return Err(t1.error);
        }
        if t1.value.None? {
          return Err(UnboundLocalError);
        }
        r := Ok(Define(st.(t1 := t1.value), name, Not(t1.value.value)));
      } else if kind == "AND" || kind == "OR" {
        var p := FindPair(st.defs, arg, st.t1, st.t2);
        if p.Err? {
          return Err(p.error);
        }
        var (t1, t2) := p.value;
        if t1.None? || t2.None? {
          return Err(UnboundLocalError);
        }
        var t := if kind == "AND" then And(t1.value, t2.value) else Or(t1.value, t2.value);
        r := Ok(Define(st.(t1 := t1, t2 := t2), name, t));
      } else {
        r := Ok(st);
      }
    } else {
      var out := AppendNamed(st.defs, st.out, words[1..]);
      r := Ok(st.(out := out));
    }
  }

  /** The NOT lookup loop. */
  method FindNotOperand(defs: seq<Def>, arg: seq<string>, t1: Option<Trigger>)
      returns (r: Result<Option<Trigger>, ConfigError>)
    ensures r == NotOperand(defs, arg, t1)
  {
    var t := t1;
    for j := 0 to |defs|
      invariant |arg| >= 1 ==> t == LastNamed(defs[..j], arg[0], t1)
      invariant j > 0 ==> |arg| >= 1
      invariant j == 0 ==> t == t1
    {
      if |arg| < 1 {
        return Err(IndexError);
      }
      assert defs[..j + 1][..j] == defs[..j] && defs[..j + 1][j] == defs[j];
      if defs[j].0 == arg[0] {
        t := Some(defs[j].1);
      }
    }
    assert defs[..|defs|] == defs;
    r := Ok(t);
  }

  /** The AND/OR lookup loop. */
  method FindPair(defs: seq<Def>, arg: seq<string>, t1: Option<Trigger>, t2: Option<Trigger>)
      returns (r: Result<(Option<Trigger>, Option<Trigger>), ConfigError>)
    ensures r == PairScan(defs, arg, t1, t2)
  {
    var a, b := t1, t2;
    for j := 0 to |defs|
      invariant PairScan(defs[..j], arg, t1, t2) == Ok((a, b))
    {
      assert defs[..j + 1][..j] == defs[..j];
      if |arg| < 1 {
        PairScanStopsAtError(defs, arg, t1, t2, j + 1);
        return Err(IndexError);
      }
      if defs[j].0 == arg[0] {
        a := Some(defs[j].1);
      } else {
        if |arg| < 2 {
          PairScanStopsAtError(defs, arg, t1, t2, j + 1);
          return Err(IndexError);
        }
        if defs[j].0 == arg[1] {
          b := Some(defs[j].1);
        }
      }
    }
    assert defs[..|defs|] == defs;
    r := Ok((a, b));
  }

  lemma {:induction false} PairScanStopsAtError(defs: seq<Def>, arg: seq<string>, t1: Option<Trigger>, t2: Option<Trigger>, k: nat)
    requires k <= |defs| && PairScan(defs[..k], arg, t1, t2).Err?
    ensures PairScan(defs, arg, t1, t2) == PairScan(defs[..k], arg, t1, t2)
    decreases |defs|
  {
    if k == |defs| {
      assert defs[..k] == defs;
    } else {
      var init := defs[..|defs| - 1];
      assert init[..k] == defs[..k];
      PairScanStopsAtError(init, arg, t1, t2, k);
    }
  }

  /** The ADD loops: for each listed name, every definition of it. */
  method AppendNamed(defs: seq<Def>, out0: seq<Trigger>, names: seq<string>) returns (out: seq<Trigger>)
    ensures out == out0 + AddAll(defs, names)
  {
    out := out0;
    for k := 0 to |names|
      invariant out == out0 + AddAll(defs, names[..k])
    {
      assert names[..k + 1][..k] == names[..k];
      ghost var before := out;
      for j := 0 to |defs|
        invariant out == before + Named(defs[..j], names[k])
      {
        assert defs[..j + 1][..j] == defs[..j];
        if defs[j].0 == names[k] {
          out := out + [defs[j].1];
        }
      }
      assert defs[..|defs|] == defs;
    }
    assert names[..|names|] == names;
  }

  // ---------------------------------------------------------------------
  // Properties of the configuration parser

  /** The lookup finds the latest definition of the name; with none, the
      variable keeps its earlier binding. */
  lemma {:induction false} LastNamedMeaning(defs: seq<Def>, name: string, prev: Option<Trigger>, i: int)
    ensures (forall j :: 0 <= j < |defs| ==> defs[j].0 != name) ==> LastNamed(defs, name, prev) == prev
    ensures 0 <= i < |defs| && defs[i].0 == name && (forall j :: i < j < |defs| ==> defs[j].0 != name) ==>
              LastNamed(defs, name, prev) == Some(defs[i].1)
    decreases |defs|
  {
    if defs != [] {
      var init := defs[..|defs| - 1];
      LastNamedMeaning(init, name, prev, i);
      assert forall j :: 0 <= j < |init| ==> init[j] == defs[j];
    }
  }

  /** An AND or OR line with two distinct operand names binds the latest
      definition of each, or keeps the earlier binding of a name never defined. */
  lemma {:induction false} PairScanMeaning(defs: seq<Def>, arg: seq<string>, t1: Option<Trigger>, t2: Option<Trigger>)
    requires |arg| >= 2 && arg[0] != arg[1]
    ensures PairScan(defs, arg, t1, t2) == Ok((LastNamed(defs, arg[0], t1), LastNamed(defs, arg[1], t2)))
    decreases |defs|
  {
    if defs != [] {
      PairScanMeaning(defs[..|defs| - 1], arg, t1, t2);
    }
  }

  /** ADD lines silently skip names that were never defined. */
  lemma {:induction false} UndefinedNamesIgnored(defs: seq<Def>, names: seq<string>)
    requires forall k, j :: 0 <= k < |names| && 0 <= j < |defs| ==> defs[j].0 != names[k]
    ensures AddAll(defs, names) == []
    decreases |names|
  {
    if names != [] {
      UndefinedNamesIgnored(defs, names[..|names| - 1]);
      NamedAbsent(defs, names[|names| - 1]);
    }
  }

  lemma {:induction false} NamedAbsent(defs: seq<Def>, name: string)
    requires forall j :: 0 <= j < |defs| ==> defs[j].0 != name
    ensures Named(defs, name) == []
    decreases |defs|
  {
    if defs != [] {
      NamedAbsent(defs[..|defs| - 1], name);
    }
  }

  /** ADD appends the named triggers in the listed order: when each listed
      name has exactly one definition, exactly those triggers are appended. */
  lemma {:induction false} AddInListedOrder(defs: seq<Def>, names: seq<string>, ts: seq<Trigger>)
    requires |ts| == |names|
    requires forall k :: 0 <= k < |names| ==> Named(defs, names[k]) == [ts[k]]
    ensures AddAll(defs, names) == ts
    decreases |names|
  {
    if names != [] {
      var n := |names| - 1;
      AddInListedOrder(defs, names[..n], ts[..n]);
      assert ts == ts[..n] + [ts[n]];
    }
  }

  /** A NOT line whose operand name was never defined does not fail when an
      earlier line bound `t1`: it negates that stale trigger. Without any
      earlier binding it ends in `UnboundLocalError`. */
  lemma NotWithUndefinedOperand(st: ConfigState, name: string, operand: string)
    requires name != "ADD"
    requires forall j :: 0 <= j < |st.defs| ==> st.defs[j].0 != operand
    ensures st.t1.Some? ==> Step(st, [name, "NOT", operand]) == Ok(Define(st, name, Not(st.t1.value)))
    ensures st.t1.None? ==> Step(st, [name, "NOT", operand]) == Err(UnboundLocalError)
  {
    LastNamedMeaning(st.defs, operand, st.t1, -1);
    assert [name, "NOT", operand][2..] == [operand];
  }

  /** A NOT line whose operand is defined negates its latest definition. */
  lemma NotWithDefinedOperand(st: ConfigState, name: string, operand: string, i: int)
    requires name != "ADD"
    requires 0 <= i < |st.defs| && st.defs[i].0 == operand
    requires forall j :: i < j < |st.defs| ==> st.defs[j].0 != operand
    ensures Step(st, [name, "NOT", operand]) ==
              Ok(Define(st.(t1 := Some(st.defs[i].1)), name, Not(st.defs[i].1)))
  {
    LastNamedMeaning(st.defs, operand, st.t1, i);
    assert [name, "NOT", operand][2..] == [operand];
  }
}
