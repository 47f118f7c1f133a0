/** The few Python 2 byte-string operations the programs rely on, on ASCII
    text: `str.lower`, `str.split()` with no argument and `sep.join`. */
module PyStr {

  /** The characters `str.split()` treats as whitespace. */
  predicate IsSpace(c: char) {
    c == ' ' || c == '\t' || c == '\n' || c == '\r' || c == '\U{0B}' || c == '\U{0C}'
  }

  predicate IsUpper(c: char) { 'A' <= c <= 'Z' }

  predicate IsLowerLetter(c: char) { 'a' <= c <= 'z' }

  /** `c.lower()`: only ASCII capitals change. */
  function LowerChar(c: char): (r: char)
    ensures IsUpper(c) ==> IsLowerLetter(r) && r as int - c as int == 32
    ensures !IsUpper(c) ==> r == c
  {
    if IsUpper(c) then (c as int + 32) as char else c
  }

  /** `s.lower()`. */
  function Lower(s: string): (r: string)
    ensures |r| == |s|
    ensures forall i :: 0 <= i < |s| ==> r[i] == LowerChar(s[i])
  {
    seq(|s|, i requires 0 <= i < |s| => LowerChar(s[i]))
  }

  /** Length of the longest prefix of `s` free of whitespace. */
  function TokenLen(s: string): (n: nat)
    ensures n <= |s|
    ensures forall i :: 0 <= i < n ==> !IsSpace(s[i])
    ensures n < |s| ==> IsSpace(s[n])
  {
    if s == [] || IsSpace(s[0]) then 0 else 1 + TokenLen(s[1..])
  }

  /** `s.split()`: the maximal runs of non-whitespace characters, in order.
      Every piece is a token: non-empty and free of whitespace. */
  function Split(s: string): (r: seq<string>)
    ensures forall k :: 0 <= k < |r| ==> IsToken(r[k])
    decreases |s|
  {
    if s == [] then []
    else if IsSpace(s[0]) then Split(s[1..])
    else
      var n := TokenLen(s);
      assert n > 0;
      [s[..n]] + Split(s[n..])
  }

  /** `s[k]` for `-len(s) <= k < len(s)`: negative indices count from the end. */
  function PyIndex(s: string, k: int): (c: char)
    requires -|s| <= k < |s|
    ensures 0 <= k ==> c == s[k]
    ensures k < 0 ==> c == s[|s| + k]
  {
    if k < 0 then s[|s| + k] else s[k]
  }

  /** Where a slice bound `k` falls in a string of length `n` (`s[:k]`, `s[k:]`):
      negative bounds count from the end, and both are clamped to the string. */
  function SliceBound(k: int, n: nat): (b: nat)
    ensures b <= n
    ensures 0 <= k <= n ==> b == k
    ensures k < 0 && 0 <= n as int + k ==> b as int == n as int + k
    ensures n as int + k < 0 ==> b == 0
    ensures n < k ==> b == n
  {
    if k < 0 then (if n + k < 0 then 0 else n + k)
    else if k > n then n
    else k
  }

  /** A token as `split` produces it: non-empty and free of whitespace. */
  predicate IsToken(w: string) {
    w != [] && forall i :: 0 <= i < |w| ==> !IsSpace(w[i])
  }

  /** `sep.join(ws)`: empty for no words, otherwise it starts with the first
      word and ends with the last. */
  function Join(sep: string, ws: seq<string>): (r: string)
    ensures ws == [] ==> r == []
    ensures ws != [] ==> ws[0] <= r
    ensures ws != [] ==> |ws[|ws| - 1]| <= |r| && r[|r| - |ws[|ws| - 1]|..] == ws[|ws| - 1]
  {
    if ws == [] then []
    else if |ws| == 1 then ws[0]
    else
      var head := ws[0] + sep;
      var rest := Join(sep, ws[1..]);
      assert (head + rest)[|head + rest| - |ws[|ws| - 1]|..] == rest[|rest| - |ws[|ws| - 1]|..];
      head + rest
  }

  /** A run of whitespace in front of the text adds no token. */
  lemma {:induction false} SplitSkipsSpaces(a: string, b: string)
    requires forall i :: 0 <= i < |a| ==> IsSpace(a[i])
    ensures Split(a + b) == Split(b)
    decreases |a|
  {
    if a == [] {
      assert a + b == b;
    } else {
      assert IsSpace(a[0]);
      assert (a + b)[0] == a[0] && (a + b)[1..] == a[1..] + b;
      SplitSkipsSpaces(a[1..], b);
    }
  }

  /** A token followed by whitespace (or nothing) is split off whole. */
  lemma {:induction false} SplitLeadingToken(w: string, rest: string)
    requires IsToken(w)
    requires rest == [] || IsSpace(rest[0])
    ensures Split(w + rest) == [w] + Split(rest)
  {
    TokenLenOfToken(w, rest);
    var s := w + rest;
    assert s[..|w|] == w;
    assert s[|w|..] == rest;
  }

  lemma {:induction false} TokenLenOfToken(w: string, rest: string)
    requires forall i :: 0 <= i < |w| ==> !IsSpace(w[i])
    requires rest == [] || IsSpace(rest[0])
    ensures TokenLen(w + rest) == |w|
    decreases |w|
  {
    if w != [] {
      assert (w + rest)[1..] == w[1..] + rest;
      TokenLenOfToken(w[1..], rest);
    }
  }

  /** Round trip: splitting words joined by single spaces gives the words back. */
  lemma {:induction false} SplitJoin(ws: seq<string>)
    requires forall k :: 0 <= k < |ws| ==> IsToken(ws[k])
    ensures Split(Join(" ", ws)) == ws
    decreases |ws|
  {
    if ws == [] {
    } else if |ws| == 1 {
      SplitLeadingToken(ws[0], []);
      assert ws[0] + [] == ws[0];
    } else {
      var tail := Join(" ", ws[1..]);
      assert Join(" ", ws) == ws[0] + (" " + tail);
      SplitLeadingToken(ws[0], " " + tail);
      SplitSkipsSpaces(" ", tail);
      SplitJoin(ws[1..]);
      assert ws == [ws[0]] + ws[1..];
    }
  }

  /** Whitespace ends a token: a token starting inside `x` ends inside `x`
      when `x` ends with whitespace. */
  lemma {:induction false} TokenLenStopsAtSpace(x: string, y: string)
    requires x != [] && IsSpace(x[|x| - 1])
    ensures TokenLen(x + y) == TokenLen(x)
    decreases |x|
  {
    if !IsSpace(x[0]) {
      assert (x + y)[1..] == x[1..] + y;
      TokenLenStopsAtSpace(x[1..], y);
    }
  }

  /** Splitting distributes over a concatenation cut at whitespace. */
  lemma {:induction false} SplitConcat(x: string, y: string)
    requires x == [] || IsSpace(x[|x| - 1])
    ensures Split(x + y) == Split(x) + Split(y)
    decreases |x|
  {
    if x == [] {
      assert x + y == y;
    } else if IsSpace(x[0]) {
      assert (x + y)[1..] == x[1..] + y;
      SplitConcat(x[1..], y);
    } else {
      var n := TokenLen(x);
      TokenLenStopsAtSpace(x, y);
      assert (x + y)[..n] == x[..n];
      assert (x + y)[n..] == x[n..] + y;
      SplitConcat(x[n..], y);
    }
  }

  /** Every character of every token is a character of the text, so a
      property of all the text's characters holds of the tokens' too. */
  lemma {:induction false} SplitKeeps(s: string, P: char -> bool)
    requires forall i :: 0 <= i < |s| ==> P(s[i])
    ensures forall k, j :: 0 <= k < |Split(s)| && 0 <= j < |Split(s)[k]| ==> P(Split(s)[k][j])
    decreases |s|
  {
    if s != [] {
      if IsSpace(s[0]) {
        SplitKeeps(s[1..], P);
      } else {
        var n := TokenLen(s);
        SplitKeeps(s[n..], P);
        assert Split(s) == [s[..n]] + Split(s[n..]);
      }
    }
  }

  /** `s.rstrip()`: drops trailing whitespace, and only that. */
  function RStrip(s: string): (r: string)
    ensures r <= s
    ensures forall i :: |r| <= i < |s| ==> IsSpace(s[i])
    ensures r == [] || !IsSpace(r[|r| - 1])
  {
    if s != [] && IsSpace(s[|s| - 1]) then RStrip(s[..|s| - 1]) else s
  }

  /** Text ending in a non-space character has at least one token. */
  lemma {:induction false} SplitNonEmpty(s: string)
    requires s != [] && !IsSpace(s[|s| - 1])
    ensures Split(s) != []
    decreases |s|
  {
    if IsSpace(s[0]) {
      SplitNonEmpty(s[1..]);
    }
  }
}
