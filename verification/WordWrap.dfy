/** The greedy word wrap of the rule reports, and why no other layout does better.

    Text is a sequence of characters; `Split` is Python's `str.split()`. */
module WordWrap {
  predicate IsSpace(c: char) {
    c in {' ', '\t', '\n', '\r', '\U{0b}', '\U{0c}', '\U{1c}', '\U{1d}', '\U{1e}', '\U{1f}', '\U{85}', '\U{a0}',
          '\U{1680}', '\U{2028}', '\U{2029}', '\U{202f}', '\U{205f}', '\U{3000}'} || '\U{2000}' <= c <= '\U{200a}'
  }

  /** Those are the 29 characters Python calls whitespace, by their code points. */
  lemma WhitespaceExactly(c: char)
    ensures var n := c as int;
            IsSpace(c) <==> 9 <= n <= 13 || 28 <= n <= 32 || n == 133 || n == 160 || n == 5760 || 8192 <= n <= 8202 ||
                            n == 8232 || n == 8233 || n == 8239 || n == 8287 || n == 12288
  {
  }

  predicate IsWord(w: string) {
    w != "" && forall i :: 0 <= i < |w| ==> !IsSpace(w[i])
  }

  predicate AllWords(ws: seq<string>) {
    forall i :: 0 <= i < |ws| ==> IsWord(ws[i])
  }

  /** The length of the longest prefix without whitespace. */
  function WordEnd(text: string): (n: nat)
    ensures n <= |text|
    ensures forall i :: 0 <= i < n ==> !IsSpace(text[i])
    ensures n < |text| ==> IsSpace(text[n])
  {
    if text == "" || IsSpace(text[0]) then 0 else WordEnd(text[1..]) + 1
  }

  function Split(text: string): (ws: seq<string>)
    ensures AllWords(ws)
    decreases |text|
  {
    if text == "" then []
    else if IsSpace(text[0]) then Split(text[1..])
    else var n := WordEnd(text); [text[..n]] + Split(text[n..])
  }

  function LStrip(s: string): string {
    if s != "" && IsSpace(s[0]) then LStrip(s[1..]) else s
  }

  function RStrip(s: string): string {
    if s != "" && IsSpace(s[|s| - 1]) then RStrip(s[..|s| - 1]) else s
  }

  function Strip(s: string): string {
    RStrip(LStrip(s))
  }

  /** The words joined by single spaces. */
  function Join(ws: seq<string>): string {
    if ws == [] then "" else if |ws| == 1 then ws[0] else Join(ws[..|ws| - 1]) + " " + ws[|ws| - 1]
  }

  function Concat(lines: seq<seq<string>>): seq<string> {
    if lines == [] then [] else Concat(lines[..|lines| - 1]) + lines[|lines| - 1]
  }

  // ---------------------------------------------------------------- widths

  /** The joined length of a nonempty line, plus one. */
  function Extent(ws: seq<string>): nat {
    if ws == [] then 0 else Extent(ws[..|ws| - 1]) + |ws[|ws| - 1]| + 1
  }

  lemma {:induction false} JoinLength(ws: seq<string>)
    requires ws != []
    ensures |Join(ws)| + 1 == Extent(ws)
  {
    if |ws| > 1 { JoinLength(ws[..|ws| - 1]); }
  }

  lemma {:induction false} ExtentConcat(a: seq<string>, b: seq<string>)
    ensures Extent(a + b) == Extent(a) + Extent(b)
  {
    if b == [] {
      assert a + b == a;
    } else {
      assert (a + b)[..|a + b| - 1] == a + b[..|b| - 1];
      ExtentConcat(a, b[..|b| - 1]);
    }
  }

  // ---------------------------------------------------------------- layouts

  /** A line as a layout may have it: not empty, and not wider than `width` unless it is one word. */
  predicate LineOk(line: seq<string>, width: int) {
    line != [] && (|line| == 1 || |Join(line)| <= width)
  }

  /** A way to set `words` in lines. */
  predicate Layout(lines: seq<seq<string>>, words: seq<string>, width: int) {
    Concat(lines) == words && forall i :: 0 <= i < |lines| ==> LineOk(lines[i], width)
  }

  /** The first word of a line would not have fitted on the line before it. */
  predicate Broken(line: seq<string>, next: seq<string>, width: int) {
    next != [] && |Join(line)| + 1 + |next[0]| > width
  }

  predicate Greedy(lines: seq<seq<string>>, width: int) {
    forall i :: 0 < i < |lines| ==> Broken(lines[i - 1], lines[i], width)
  }

  // ---------------------------------------------------------------- the exchange argument

  /** How many words the first `k` lines hold. */
  function Placed(lines: seq<seq<string>>, k: nat): nat
    requires k <= |lines|
  {
    if k == 0 then 0 else Placed(lines, k - 1) + |lines[k - 1]|
  }

  lemma {:induction false} PlacedIs(lines: seq<seq<string>>, k: nat)
    requires k <= |lines|
    ensures Placed(lines, k) <= |Concat(lines)|
    ensures k < |lines| ==> Placed(lines, k + 1) <= |Concat(lines)|
    ensures k < |lines| ==> Concat(lines)[Placed(lines, k)..Placed(lines, k + 1)] == lines[k]
    ensures Placed(lines, |lines|) == |Concat(lines)|
  {
    if lines != [] {
      var n := |lines| - 1;
      var init := lines[..n];
      PlacedPrefix(lines, init, n);
      if k <= n { PlacedPrefix(lines, init, k); }
      if k < n { PlacedPrefix(lines, init, k + 1); PlacedIs(init, k); } else { PlacedIs(init, n); }
    }
  }

  lemma {:induction false} PlacedPrefix(lines: seq<seq<string>>, init: seq<seq<string>>, k: nat)
    requires k <= |init| <= |lines| && init == lines[..|init|]
    ensures Placed(lines, k) == Placed(init, k)
  {
    if k > 0 { PlacedPrefix(lines, init, k - 1); }
  }

  /** `line` holds the words from `a` to `b`. */
  ghost predicate Spans(line: seq<string>, words: seq<string>, a: nat, b: nat) {
    a < b <= |words| && words[a..b] == line
  }

  /** In a layout, line `k` holds the words between two of its placement counts. */
  lemma LineOf(lines: seq<seq<string>>, words: seq<string>, width: int, k: nat)
    requires Layout(lines, words, width) && k < |lines|
    ensures Spans(lines[k], words, Placed(lines, k), Placed(lines, k + 1)) && LineOk(lines[k], width)
  {
    PlacedIs(lines, k);
    assert LineOk(lines[k], width);
  }

  /** Greedy stays ahead: after any number of lines it has placed at least as many words as any layout. */
  lemma {:induction false} StaysAhead(greedy: seq<seq<string>>, other: seq<seq<string>>, words: seq<string>, width: int,
          k: nat)
    requires Layout(greedy, words, width) && Greedy(greedy, width) && Layout(other, words, width)
    requires k <= |greedy| && k <= |other|
    ensures Placed(other, k) <= Placed(greedy, k)
  {
    hide Layout, Spans, Join;
    if k > 0 {
      StaysAhead(greedy, other, words, width, k - 1);
      if k < |greedy| {
        NextStaysAhead(greedy, other, words, width, k);
      } else {
        AllPlaced(greedy, other, words, width, k);
      }
    }
  }

  lemma NextStaysAhead(greedy: seq<seq<string>>, other: seq<seq<string>>, words: seq<string>, width: int, k: nat)
    requires Layout(greedy, words, width) && Greedy(greedy, width) && Layout(other, words, width)
    requires 0 < k < |greedy| && k <= |other| && Placed(other, k - 1) <= Placed(greedy, k - 1)
    ensures Placed(other, k) <= Placed(greedy, k)
  {
    hide Layout, Spans, Broken, LineOk;
    LineOf(greedy, words, width, k - 1);
    LineOf(greedy, words, width, k);
    LineOf(other, words, width, k - 1);
    NoRoomForNext(words, greedy[k - 1], greedy[k], other[k - 1], Placed(greedy, k - 1), Placed(greedy, k),
          Placed(greedy, k + 1), Placed(other, k - 1), Placed(other, k), width);
  }

  lemma {:induction false} AllPlaced(greedy: seq<seq<string>>, other: seq<seq<string>>, words: seq<string>,
          width: int, k: nat)
    requires Layout(greedy, words, width) && Layout(other, words, width) && |greedy| == k <= |other|
    ensures Placed(other, k) <= Placed(greedy, k)
  {
    PlacedIs(greedy, k);
    PlacedIs(other, k);
  }

  /** A greedy line cannot stop short of a line of another layout that starts no later: the line and the word
      after it would both lie on that other line. */
  lemma NoRoomForNext(words: seq<string>, line: seq<string>, next: seq<string>, host: seq<string>, g0: nat, g1: nat,
          g2: nat, o0: nat, o1: nat, width: int)
    requires o0 <= g0 && Spans(line, words, g0, g1) && Spans(next, words, g1, g2) && Spans(host, words, o0, o1)
    requires Broken(line, next, width) && LineOk(host, width)
    ensures o1 <= g1
  {
    if g1 < o1 {
      assert words[g1] == next[0];
      HostsLineAndNext(words, line, host, o0, g0, g1, o1);
      TooWideFor(line, next, host, width);
    }
  }

  lemma {:induction false} HostsLineAndNext(words: seq<string>, line: seq<string>, host: seq<string>, o0: nat,
          g0: nat, g1: nat, o1: nat)
    requires o0 <= g0 < g1 < o1 <= |words| && words[g0..g1] == line && words[o0..o1] == host
    ensures |host| > 1 && Extent(line + [words[g1]]) <= Extent(host)
  {
    SubExtent(words, o0, g0, g1 + 1, o1);
    assert words[g0..g1 + 1] == line + [words[g1]];
  }

  lemma {:induction false} TooWideFor(line: seq<string>, next: seq<string>, host: seq<string>, width: int)
    requires line != [] && Broken(line, next, width) && LineOk(host, width) && |host| > 1
    ensures Extent(host) < Extent(line + [next[0]])
  {
    assert (line + [next[0]])[..|line|] == line;
    JoinLength(line);
    JoinLength(host);
  }

  lemma SubExtent(words: seq<string>, a: nat, b: nat, c: nat, d: nat)
    requires a <= b <= c <= d <= |words|
    ensures Extent(words[b..c]) <= Extent(words[a..d])
  {
    assert words[a..d] == words[a..b] + (words[b..c] + words[c..d]);
    ExtentConcat(words[a..b], words[b..c] + words[c..d]);
    ExtentConcat(words[b..c], words[c..d]);
  }

  /** The greedy layout is optimal: no layout of the same words, with over-long words alone on their lines,
      uses fewer lines. */
  lemma GreedyOptimal(greedy: seq<seq<string>>, other: seq<seq<string>>, words: seq<string>, width: int)
    requires Layout(greedy, words, width) && Greedy(greedy, width) && Layout(other, words, width)
    ensures |greedy| <= |other|
  {
    if |other| < |greedy| {
      StaysAhead(greedy, other, words, width, |other|);
      PlacedIs(other, |other|);
      PlacedIs(greedy, |other|);
    }
  }

  // ---------------------------------------------------------------- the loop

  lemma {:induction false} JoinIsWordy(ws: seq<string>)
    requires ws != [] && AllWords(ws)
    ensures var s := Join(ws); s != "" && !IsSpace(s[0]) && !IsSpace(s[|s| - 1])
  {
    if |ws| > 1 {
      JoinIsWordy(ws[..|ws| - 1]);
    }
  }

  lemma StripWordy(s: string)
    requires s != "" && !IsSpace(s[0]) && !IsSpace(s[|s| - 1])
    ensures Strip(s) == s && Strip(" " + s) == s
  {
    assert (" " + s)[1..] == s;
  }

  lemma {:induction false} SplitWordThen(w: string, rest: string)
    requires IsWord(w)
    ensures Split(w) == [w]
    ensures Split(w + " " + rest) == [w] + Split(rest)
  {
    WordEndIs(w, "");
    assert w + "" == w;
    WordEndIs(w, " " + rest);
    assert w + " " + rest == w + (" " + rest);
    assert (w + " " + rest)[|w|..] == " " + rest && (" " + rest)[1..] == rest;
    assert Split(" " + rest) == Split(rest);
  }

  lemma {:induction false} WordEndIs(w: string, rest: string)
    requires (forall i :: 0 <= i < |w| ==> !IsSpace(w[i])) && (rest == "" || IsSpace(rest[0]))
    ensures WordEnd(w + rest) == |w|
  {
    if w == "" {
      assert w + rest == rest;
    } else {
      assert (w + rest)[1..] == w[1..] + rest;
      WordEndIs(w[1..], rest);
    }
  }

  lemma {:induction false} JoinHead(w: string, ws: seq<string>)
    requires ws != []
    ensures Join([w] + ws) == w + " " + Join(ws)
  {
    var all, n := [w] + ws, |ws|;
    assert all[..n] == [w] + ws[..n - 1];
    if n > 1 {
      JoinHead(w, ws[..n - 1]);
    }
  }

  /** Splitting the joined words gives the words back. */
  lemma {:induction false} SplitJoin(ws: seq<string>)
    requires ws != [] && AllWords(ws)
    ensures Split(Join(ws)) == ws
  {
    if |ws| == 1 {
      SplitWordThen(ws[0], "");
    } else {
      assert ws == [ws[0]] + ws[1..];
      JoinHead(ws[0], ws[1..]);
      SplitJoin(ws[1..]);
      SplitWordThen(ws[0], Join(ws[1..]));
    }
  }

  /** What `Split` does with any text: whitespace separates, wherever and how much of it there is. Together with a
      word splitting into itself and the empty text into nothing, this fixes it. */
  lemma {:induction false} SplitAtSpace(a: string, c: char, b: string)
    requires IsSpace(c)
    ensures Split(a + [c] + b) == Split(a) + Split(b)
    decreases |a|
  {
    hide IsSpace;
    if a == "" {
      assert (a + [c] + b)[1..] == b;
    } else {
      var n := if IsSpace(a[0]) then 1 else WordEnd(a);
      var w, rest := a[..n], a[n..];
      assert a == w + rest && a + [c] + b == w + (rest + [c] + b);
      SplitFirst(w, rest + [c] + b);
      SplitFirst(w, rest);
      hide Split;
      SplitAtSpace(rest, c, b);
      if !IsSpace(a[0]) { assert [w] + Split(rest) + Split(b) == [w] + (Split(rest) + Split(b)); }
    }
  }

  lemma SplitFirst(w: string, rest: string)
    requires (IsWord(w) && (rest == "" || IsSpace(rest[0]))) || (|w| == 1 && IsSpace(w[0]))
    ensures Split(w + rest) == (if IsSpace(w[0]) then [] else [w]) + Split(rest)
  {
    hide IsSpace;
    assert (w + rest)[..|w|] == w && (w + rest)[|w|..] == rest;
    if !IsSpace(w[0]) { WordEndIs(w, rest); }
  }

  /** A text is no shorter than its words joined by single spaces. */
  lemma {:induction false} JoinIsShortest(text: string)
    ensures Extent(Split(text)) <= |text| + 1
    decreases |text|
  {
    if text != "" {
      if IsSpace(text[0]) {
        JoinIsShortest(text[1..]);
      } else {
        var n := WordEnd(text);
        ExtentConcat([text[..n]], Split(text[n..]));
        if n < |text| {
          assert text[n..][1..] == text[n + 1..];
          JoinIsShortest(text[n + 1..]);
        }
      }
    }
  }

  /** All the words on the lines, in order. */
  function Words(lines: seq<string>): seq<string> {
    if lines == [] then [] else Words(lines[..|lines| - 1]) + Split(lines[|lines| - 1])
  }

  /** `lines` show the layout: line by line, its words joined by spaces. */
  ghost predicate Shows(lines: seq<string>, layout: seq<seq<string>>) {
    |lines| == |layout| && forall i :: 0 <= i < |lines| ==> lines[i] == Join(layout[i])
  }

  lemma {:induction false} WordsOfLayout(lines: seq<string>, layout: seq<seq<string>>)
    requires Shows(lines, layout) && forall i :: 0 <= i < |layout| ==> layout[i] != [] && AllWords(layout[i])
    ensures Words(lines) == Concat(layout)
  {
    if layout != [] {
      var n := |layout| - 1;
      WordsOfLayout(lines[..n], layout[..n]);
      SplitJoin(layout[n]);
    }
  }

  lemma {:induction false} ConcatWords(layout: seq<seq<string>>)
    requires AllWords(Concat(layout))
    ensures forall i :: 0 <= i < |layout| ==> AllWords(layout[i])
  {
    if layout != [] {
      var n := |layout| - 1;
      var all, init, last := Concat(layout), Concat(layout[..n]), layout[n];
      assert AllWords(init) by { assert forall i :: 0 <= i < |init| ==> init[i] == all[i]; }
      assert AllWords(last) by { assert forall i :: 0 <= i < |last| ==> last[i] == all[|init| + i]; }
      ConcatWords(layout[..n]);
    }
  }

  /** Any lines of text that carry the words, none wider than `width` unless it has only one word on it. */
  ghost predicate Carry(lines: seq<string>, words: seq<string>, width: int) {
    Words(lines) == words && forall i :: 0 <= i < |lines| ==> |lines[i]| <= width || |Split(lines[i])| <= 1
  }

  /** However the lines space their words out and whatever blank lines are between them, their words are laid out
      in no more lines. */
  lemma {:induction false} LaidOut(lines: seq<string>, width: int) returns (layout: seq<seq<string>>)
    requires Carry(lines, Words(lines), width)
    ensures Layout(layout, Words(lines), width) && |layout| <= |lines|
  {
    layout := [];
    if lines != [] {
      var n := |lines| - 1;
      assert forall i :: 0 <= i < n ==> lines[..n][i] == lines[i];
      var init := LaidOut(lines[..n], width);
      var line := Split(lines[n]);
      if line == [] {
        layout := init;
      } else {
        JoinIsShortest(lines[n]);
        JoinLength(line);
        layout := init + [line];
        assert layout[..|init|] == init;
      }
    }
  }

  /** What the loop of `_wrap` has done after some words: closed lines, and the line it is filling. */
  ghost predicate Progress(lines: seq<string>, current: string, done: seq<seq<string>>, line: seq<string>,
          placed: seq<string>, width: int)
  {
    && Shows(lines, done) && current == Join(line)
    && (forall i :: 0 <= i < |done| ==> LineOk(done[i], width)) && Greedy(done, width)
    && Concat(done) + line == placed
    && (line == [] ==> placed == [])
    && (line != [] ==> LineOk(line, width) && (done != [] ==> Broken(done[|done| - 1], line, width)))
  }

  lemma CloseLine(lines: seq<string>, current: string, done: seq<seq<string>>, line: seq<string>, placed: seq<string>,
          word: string, width: int)
    requires Progress(lines, current, done, line, placed, width) && line != []
    requires |current| + 1 + |word| > width
    ensures Progress(lines + [current], word, done + [line], [word], placed + [word], width)
  {
    assert (done + [line])[..|done|] == done;
  }

  lemma ExtendLine(lines: seq<string>, current: string, done: seq<seq<string>>, line: seq<string>, placed: seq<string>,
          word: string, width: int)
    requires Progress(lines, current, done, line, placed, width) && AllWords(placed) && IsWord(word)
    requires line != [] ==> |current| + 1 + |word| <= width
    ensures Progress(lines, Strip(current + " " + word), done, line + [word], placed + [word], width)
  {
    assert (line + [word])[..|line|] == line;
    if line == [] {
      assert "" + " " + word == " " + word;
      StripWordy(word);
    } else {
      assert AllWords(line) by { assert forall i :: 0 <= i < |line| ==> line[i] == placed[|Concat(done)| + i]; }
      assert AllWords(line + [word]);
      JoinIsWordy(line + [word]);
      StripWordy(Join(line + [word]));
      assert Concat(done) + (line + [word]) == placed + [word];
    }
  }

  /** `_wrap`. The lines carry the text's words, in order and nothing else; a line wider than `width` is one
      word; and no layout of the words, nor any other lines of text that carry them, takes fewer lines. */
  method Wrap(text: string, width: int) returns (lines: seq<string>)
    ensures Words(lines) == Split(text)
    ensures forall i :: 0 <= i < |lines| ==> lines[i] != "" && (|lines[i]| <= width || IsWord(lines[i]))
    ensures forall other :: Layout(other, Split(text), width) ==> |lines| <= |other|
    ensures forall other: seq<string> :: Carry(other, Split(text), width) ==> |lines| <= |other|
  {
    ghost var layout;
    lines, layout := WrapWords(Split(text), width);
    Wrapped(lines, layout, Split(text), width);
    forall other: seq<string> | Carry(other, Split(text), width) ensures |lines| <= |other| {
      var laid := LaidOut(other, width);
    }
  }

  lemma NothingPlaced(words: seq<string>, width: int)
    ensures Progress([], "", [], [], words[..0], width)
  {
    assert words[..0] == [];
  }

  /** The loop of `_wrap`, and the layout it shows. */
  method WrapWords(words: seq<string>, width: int) returns (lines: seq<string>, ghost layout: seq<seq<string>>)
    requires AllWords(words)
    ensures Shows(lines, layout) && Layout(layout, words, width) && Greedy(layout, width)
  {
    hide Progress, Strip, Shows, Layout, Greedy, IsWord;
    lines := [];
    var current := "";
    ghost var done: seq<seq<string>> := [];
    ghost var line: seq<string> := [];
    NothingPlaced(words, width);
    for i := 0 to |words|
      invariant Progress(lines, current, done, line, words[..i], width)
    {
      var word := words[i];
      assert words[..i + 1] == words[..i] + [word];
      CurrentEmptyIff(lines, current, done, line, words[..i], width);
      if current != "" && |current| + 1 + |word| > width {
        CloseLine(lines, current, done, line, words[..i], word, width);
        lines := lines + [current];
        current := word;
        done, line := done + [line], [word];
      } else {
        ExtendLine(lines, current, done, line, words[..i], word, width);
        current := Strip(current + " " + word);
        line := line + [word];
      }
    }
    assert words[..|words|] == words;
    CurrentEmptyIff(lines, current, done, line, words, width);
    if current != "" {
      LastLine(lines, current, done, line, words, width);
      lines := lines + [current];
      layout := done + [line];
    } else {
      NoLastLine(lines, current, done, line, words, width);
      layout := done;
    }
  }

  lemma CurrentEmptyIff(lines: seq<string>, current: string, done: seq<seq<string>>, line: seq<string>,
          placed: seq<string>, width: int)
    requires AllWords(placed) && Progress(lines, current, done, line, placed, width)
    ensures current == "" <==> line == []
  {
    if line != [] {
      assert AllWords(line) by { assert forall i :: 0 <= i < |line| ==> line[i] == placed[|Concat(done)| + i]; }
      JoinIsWordy(line);
    }
  }

  lemma NoLastLine(lines: seq<string>, current: string, done: seq<seq<string>>, line: seq<string>, words: seq<string>,
          width: int)
    requires Progress(lines, current, done, line, words, width) && line == []
    ensures Shows(lines, done) && Layout(done, words, width) && Greedy(done, width)
  {
    assert Concat(done) + [] == Concat(done);
  }

  lemma LastLine(lines: seq<string>, current: string, done: seq<seq<string>>, line: seq<string>, words: seq<string>,
          width: int)
    requires Progress(lines, current, done, line, words, width) && line != []
    ensures Shows(lines + [current], done + [line]) && Layout(done + [line], words, width) &&
            Greedy(done + [line], width)
  {
    assert (done + [line])[..|done|] == done;
  }

  lemma {:induction false} Wrapped(lines: seq<string>, layout: seq<seq<string>>, words: seq<string>, width: int)
    requires Shows(lines, layout) && Layout(layout, words, width) && Greedy(layout, width) && AllWords(words)
    ensures Words(lines) == words
    ensures forall i :: 0 <= i < |lines| ==> lines[i] != "" && (|lines[i]| <= width || IsWord(lines[i]))
    ensures forall other :: Layout(other, words, width) ==> |lines| <= |other|
  {
    ConcatWords(layout);
    WordsOfLayout(lines, layout);
    forall i | 0 <= i < |lines| ensures lines[i] != "" && (|lines[i]| <= width || IsWord(lines[i])) {
      assert LineOk(layout[i], width) && AllWords(layout[i]);
      JoinIsWordy(layout[i]);
    }
    forall other | Layout(other, words, width) ensures |lines| <= |other| {
      GreedyOptimal(layout, other, words, width);
    }
  }
}
