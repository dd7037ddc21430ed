/**
 * UIHelpers.WrapText: a greedy word-wrapper.  Words are the pieces of the
 * text split at ' '.  A word that fits is appended to the current line; a line
 * that would overflow is flushed (trailing whitespace trimmed); a word longer
 * than the width is cut into width-sized chunks, one per line.
 */
module UIHelpers {
  import opened Text

  datatype WrapState = WrapState(lines: seq<string>, current: string)

  /** Substring(start, Min(w, len - start)) for start = 0, w, 2w, ... */
  function Chunks(word: string, w: nat): seq<string>
    requires w >= 1
    decreases |word|
  {
    if |word| == 0 then []
    else if |word| <= w then [word]
    else [word[..w]] + Chunks(word[w..], w)
  }

  /** `if (!string.IsNullOrEmpty(currentLine)) lines.Add(currentLine.TrimEnd())` */
  function Flush(lines: seq<string>, current: string): seq<string>
  {
    if current != "" then lines + [TrimEnd(current)] else lines
  }

  /** One iteration of the loop over words. */
  function Step(st: WrapState, word: string, w: nat): WrapState
    requires w >= 1
  {
    var st1 := if |st.current| + |word| + 1 > w then WrapState(Flush(st.lines, st.current), "") else st;
    if |word| > w then WrapState(Flush(st1.lines, st1.current) + Chunks(word, w), "")
    else WrapState(st1.lines, st1.current + word + " ")
  }

  function WrapWords(words: seq<string>, w: nat): WrapState
    requires w >= 1
  {
    if words == [] then WrapState([], "")
    else Step(WrapWords(words[..|words| - 1], w), words[|words| - 1], w)
  }

  /** The lines the wrapper emits, in order. */
  function WrapLines(text: string, w: nat): seq<string>
    requires w >= 1
  {
    var st := WrapWords(Split(text, ' '), w);
    Flush(st.lines, st.current)
  }

  /** The wrapped text: the lines joined with "\n"; the empty text is returned as is. */
  function Wrapped(text: string, w: nat): string
    requires w >= 1
  {
    if text == "" then text else Join("\n", WrapLines(text, w))
  }

  /**
   * The source method.  `wrapWidth >= 1` is needed for termination: with a
   * width of 0 the chunk loop never advances.  Every caller passes 40.
   */
  method WrapText(text: string, wrapWidth: int) returns (r: string)
    requires wrapWidth >= 1
    ensures text == "" ==> r == text
    ensures r == Wrapped(text, wrapWidth)
  {
    if text == "" { return text; }
    var words := Split(text, ' ');
    var lines: seq<string> := [];
    var currentLine := "";
    for i := 0 to |words|
      invariant WrapState(lines, currentLine) == WrapWords(words[..i], wrapWidth)
    {
      assert words[..i + 1][..i] == words[..i];
      lines, currentLine := StepWord(lines, currentLine, words[i], wrapWidth);
    }
    assert words[..|words|] == words;
    if currentLine != "" { lines := lines + [TrimEnd(currentLine)]; }
    r := Join("\n", lines);
  }

  /** The body of the loop over words: flush on overflow, then chunk a long word or append a short one. */
  method StepWord(lines0: seq<string>, current0: string, word: string, wrapWidth: int)
    returns (lines: seq<string>, currentLine: string)
    requires wrapWidth >= 1
    ensures WrapState(lines, currentLine) == Step(WrapState(lines0, current0), word, wrapWidth)
  {
    lines, currentLine := lines0, current0;
    if |currentLine| + |word| + 1 > wrapWidth {
      if currentLine != "" { lines := lines + [TrimEnd(currentLine)]; }
      currentLine := "";
    }
    if |word| > wrapWidth {
      if currentLine != "" {
        lines := lines + [TrimEnd(currentLine)];
        currentLine := "";
      }
      lines := AddChunks(lines, word, wrapWidth);
    } else {
      currentLine := currentLine + word + " ";
    }
  }

  /** The inner loop: `while (start < word.Length)` adding Substring(start, Min(w, len - start)). */
  method AddChunks(lines0: seq<string>, word: string, wrapWidth: int) returns (lines: seq<string>)
    requires wrapWidth >= 1
    ensures lines == lines0 + Chunks(word, wrapWidth)
  {
    lines := lines0;
    var start := 0;
    while start < |word|
      invariant 0 <= start <= |word|
      invariant lines + Chunks(word[start..], wrapWidth) == lines0 + Chunks(word, wrapWidth)
    {
      var length := if wrapWidth < |word| - start then wrapWidth else |word| - start;
      assert word[start..][length..] == word[start + length..];
      assert word[start..][..length] == word[start..start + length];
      if |word| - start <= wrapWidth {
        assert word[start + length..] == [];
        assert word[start..start + length] == word[start..];
      }
      assert Chunks(word[start..], wrapWidth) == [word[start..start + length]] + Chunks(word[start + length..], wrapWidth);
      lines := lines + [word[start..start + length]];
      start := start + length;
    }
    assert word[|word|..] == [];
  }

  // ---------------------------------------------------------------- line bounds

  lemma {:induction false} ChunksBounded(word: string, w: nat)
    requires w >= 1
    ensures forall i :: 0 <= i < |Chunks(word, w)| ==> 1 <= |Chunks(word, w)[i]| <= w
    decreases |word|
  {
    if |word| > w { ChunksBounded(word[w..], w); }
  }

  predicate LinesWithin(lines: seq<string>, w: nat) {
    forall i :: 0 <= i < |lines| ==> |lines[i]| <= w
  }

  /** The current line stays within the width plus its trailing space. */
  predicate CurrentOk(cur: string, w: nat) {
    cur == "" || (|cur| <= w + 1 && cur[|cur| - 1] == ' ')
  }

  lemma FlushBounded(lines: seq<string>, cur: string, w: nat)
    requires LinesWithin(lines, w) && CurrentOk(cur, w)
    ensures LinesWithin(Flush(lines, cur), w)
  {
    if cur != "" {
      var t := TrimEnd(cur);
      assert |t| < |cur|;
    }
  }

  lemma StepBounded(st: WrapState, word: string, w: nat)
    requires w >= 1
    requires LinesWithin(st.lines, w) && CurrentOk(st.current, w)
    ensures LinesWithin(Step(st, word, w).lines, w) && CurrentOk(Step(st, word, w).current, w)
  {
    FlushBounded(st.lines, st.current, w);
    var st1 := if |st.current| + |word| + 1 > w then WrapState(Flush(st.lines, st.current), "") else st;
    assert LinesWithin(st1.lines, w) && CurrentOk(st1.current, w);
    if |word| > w {
      FlushBounded(st1.lines, st1.current, w);
      ChunksBounded(word, w);
      var a := Flush(st1.lines, st1.current);
      var cs := Chunks(word, w);
      assert LinesWithin(a + cs, w) by {
        forall i | 0 <= i < |a + cs| ensures |(a + cs)[i]| <= w {
          if i >= |a| { assert (a + cs)[i] == cs[i - |a|]; }
        }
      }
    } else {
      var c := st1.current + word + " ";
      assert c[|c| - 1] == ' ';
    }
  }

  lemma {:induction false} WrapWordsBounded(words: seq<string>, w: nat)
    requires w >= 1
    ensures LinesWithin(WrapWords(words, w).lines, w)
    ensures CurrentOk(WrapWords(words, w).current, w)
  {
    if words != [] {
      WrapWordsBounded(words[..|words| - 1], w);
      StepBounded(WrapWords(words[..|words| - 1], w), words[|words| - 1], w);
    }
  }

  /** With a width of at least 1, every line the wrapper emits fits in the width. */
  lemma WrapLinesBounded(text: string, w: nat)
    requires w >= 1
    ensures forall i :: 0 <= i < |WrapLines(text, w)| ==> |WrapLines(text, w)[i]| <= w
  {
    var st := WrapWords(Split(text, ' '), w);
    WrapWordsBounded(Split(text, ' '), w);
    FlushBounded(st.lines, st.current, w);
  }

  // ---------------------------------------------------------------- chunk shape

  function Concat(parts: seq<string>): string
  {
    if parts == [] then "" else Concat(parts[..|parts| - 1]) + parts[|parts| - 1]
  }

  lemma {:induction false} ConcatCons(head: string, rest: seq<string>)
    ensures Concat([head] + rest) == head + Concat(rest)
    decreases |rest|
  {
    if rest != [] {
      assert ([head] + rest)[..|rest|] == [head] + rest[..|rest| - 1];
      ConcatCons(head, rest[..|rest| - 1]);
    }
  }

  lemma {:induction false} ConcatAppend(a: seq<string>, b: seq<string>)
    ensures Concat(a + b) == Concat(a) + Concat(b)
    decreases |b|
  {
    if b == [] {
      assert a + b == a;
    } else {
      var init, last := b[..|b| - 1], b[|b| - 1];
      assert (a + b)[..|a + b| - 1] == a + init;
      assert (a + b)[|a + b| - 1] == last;
      ConcatAppend(a, init);
      assert Concat(b) == Concat(init) + last;
      calc {
        Concat(a + b);
        Concat(a + init) + last;
        (Concat(a) + Concat(init)) + last;
        Concat(a) + (Concat(init) + last);
      }
    }
  }

  /**
   * A word longer than the width becomes consecutive chunks of exactly the
   * width, then a non-empty remainder of at most the width; together they
   * spell the word.
   */
  lemma {:induction false} ChunksShape(word: string, w: nat)
    requires w >= 1 && |word| > 0
    ensures var cs := Chunks(word, w);
      && |cs| >= 1
      && Concat(cs) == word
      && (forall i :: 0 <= i < |cs| - 1 ==> |cs[i]| == w)
      && 1 <= |cs[|cs| - 1]| <= w
    decreases |word|
  {
    var cs := Chunks(word, w);
    if |word| <= w {
      assert cs == [word];
      ConcatCons(word, []);
    } else {
      ChunksShape(word[w..], w);
      ConcatCons(word[..w], Chunks(word[w..], w));
      assert word[..w] + word[w..] == word;
    }
  }

  // ---------------------------------------------------------------- trimmed lines

  predicate NoTrailingSpace(l: string) { l == [] || l[|l| - 1] != ' ' }

  lemma {:induction false} ChunksNoSpace(word: string, w: nat)
    requires w >= 1 && ' ' !in word
    ensures forall i :: 0 <= i < |Chunks(word, w)| ==> ' ' !in Chunks(word, w)[i]
    decreases |word|
  {
    if |word| > w {
      assert forall c :: c in word[w..] ==> c in word;
      ChunksNoSpace(word[w..], w);
    }
  }

  predicate AllTrimmed(lines: seq<string>) {
    forall i :: 0 <= i < |lines| ==> NoTrailingSpace(lines[i])
  }

  lemma FlushTrimmed(lines: seq<string>, cur: string)
    requires AllTrimmed(lines)
    ensures AllTrimmed(Flush(lines, cur))
  {
  }

  lemma StepTrimmed(st: WrapState, word: string, w: nat)
    requires w >= 1 && ' ' !in word && AllTrimmed(st.lines)
    ensures AllTrimmed(Step(st, word, w).lines)
  {
    FlushTrimmed(st.lines, st.current);
    var st1 := if |st.current| + |word| + 1 > w then WrapState(Flush(st.lines, st.current), "") else st;
    if |word| > w {
      FlushTrimmed(st1.lines, st1.current);
      ChunksNoSpace(word, w);
      var a := Flush(st1.lines, st1.current);
      var cs := Chunks(word, w);
      forall i | 0 <= i < |a + cs| ensures NoTrailingSpace((a + cs)[i]) {
        if i >= |a| {
          var c := cs[i - |a|];
          assert (a + cs)[i] == c;
          if c != [] { assert c[|c| - 1] in c; }
        }
      }
    }
  }

  lemma {:induction false} WrapWordsTrimmed(words: seq<string>, w: nat)
    requires w >= 1
    requires forall i :: 0 <= i < |words| ==> ' ' !in words[i]
    ensures AllTrimmed(WrapWords(words, w).lines)
  {
    if words != [] {
      WrapWordsTrimmed(words[..|words| - 1], w);
      StepTrimmed(WrapWords(words[..|words| - 1], w), words[|words| - 1], w);
    }
  }

  /** No emitted line ends in a space: greedy lines are TrimEnd-ed and chunks hold no space. */
  lemma WrapLinesTrimmed(text: string, w: nat)
    requires w >= 1
    ensures forall i :: 0 <= i < |WrapLines(text, w)| ==> NoTrailingSpace(WrapLines(text, w)[i])
  {
    var st := WrapWords(Split(text, ' '), w);
    WrapWordsTrimmed(Split(text, ' '), w);
    FlushTrimmed(st.lines, st.current);
  }

  // ---------------------------------------------------------------- words kept in order

  /** The text with every ' ' and '\n' deleted. */
  function Squeeze(s: string): string
  {
    if s == [] then [] else Squeeze(s[..|s| - 1]) + (if s[|s| - 1] == ' ' || s[|s| - 1] == '\n' then [] else [s[|s| - 1]])
  }

  function SqueezeAll(parts: seq<string>): string
  {
    if parts == [] then [] else SqueezeAll(parts[..|parts| - 1]) + Squeeze(parts[|parts| - 1])
  }

  /** The only whitespace in s is ' ' or '\n'. */
  predicate PlainSpacing(s: string) {
    forall c :: c in s && IsWhiteSpace(c) ==> c == ' ' || c == '\n'
  }

  lemma {:induction false} SqueezeAppend(a: string, b: string)
    ensures Squeeze(a + b) == Squeeze(a) + Squeeze(b)
    decreases |b|
  {
    if b == [] {
      assert a + b == a;
    } else {
      assert (a + b)[..|a + b| - 1] == a + b[..|b| - 1];
      assert (a + b)[|a + b| - 1] == b[|b| - 1];
      SqueezeAppend(a, b[..|b| - 1]);
    }
  }

  lemma {:induction false} SqueezeBlank(s: string)
    requires PlainSpacing(s) && IsBlank(s)
    ensures Squeeze(s) == []
    decreases |s|
  {
    if s != [] {
      assert s[|s| - 1] in s;
      assert PlainSpacing(s[..|s| - 1]) by {
        forall c | c in s[..|s| - 1] ensures c in s { }
      }
      SqueezeBlank(s[..|s| - 1]);
    }
  }

  lemma SqueezeTrimEnd(s: string)
    requires PlainSpacing(s)
    ensures Squeeze(TrimEnd(s)) == Squeeze(s)
  {
    var t := TrimEnd(s);
    TrimEndPrefix(s);
    assert s == t + s[|t|..];
    SqueezeAppend(t, s[|t|..]);
    SqueezeBlank(s[|t|..]);
  }

  lemma {:induction false} SqueezeAllAppend(a: seq<string>, b: seq<string>)
    ensures SqueezeAll(a + b) == SqueezeAll(a) + SqueezeAll(b)
    decreases |b|
  {
    if b == [] {
      assert a + b == a;
    } else {
      assert (a + b)[..|a + b| - 1] == a + b[..|b| - 1];
      SqueezeAllAppend(a, b[..|b| - 1]);
    }
  }

  lemma {:induction false} SqueezeConcat(parts: seq<string>)
    ensures Squeeze(Concat(parts)) == SqueezeAll(parts)
    decreases |parts|
  {
    if parts != [] {
      SqueezeConcat(parts[..|parts| - 1]);
      SqueezeAppend(Concat(parts[..|parts| - 1]), parts[|parts| - 1]);
    }
  }

  lemma {:induction false} SqueezeJoin(sep: string, parts: seq<string>)
    requires Squeeze(sep) == []
    ensures Squeeze(Join(sep, parts)) == SqueezeAll(parts)
    decreases |parts|
  {
    if |parts| == 1 {
      assert parts[..0] == [];
    } else if |parts| > 1 {
      SqueezeJoin(sep, parts[..|parts| - 1]);
      var init := Join(sep, parts[..|parts| - 1]);
      SqueezeAppend(init + sep, parts[|parts| - 1]);
      SqueezeAppend(init, sep);
    }
  }

  lemma SqueezeFlush(lines: seq<string>, current: string)
    requires PlainSpacing(current)
    ensures SqueezeAll(Flush(lines, current)) == SqueezeAll(lines) + Squeeze(current)
  {
    if current != "" {
      SqueezeAllAppend(lines, [TrimEnd(current)]);
      assert [TrimEnd(current)][..0] == [];
      SqueezeTrimEnd(current);
    }
  }

  lemma SqueezeChunks(word: string, w: nat)
    requires w >= 1
    ensures SqueezeAll(Chunks(word, w)) == Squeeze(word)
  {
    if |word| > 0 {
      ChunksShape(word, w);
      SqueezeConcat(Chunks(word, w));
    }
  }

  lemma AppendWordKeeps(cur: string, word: string)
    requires PlainSpacing(cur) && PlainSpacing(word)
    ensures PlainSpacing(cur + word + " ")
    ensures Squeeze(cur + word + " ") == Squeeze(cur) + Squeeze(word)
  {
    SqueezeAppend(cur, word);
    SqueezeAppend(cur + word, " ");
    assert Squeeze(" ") == [] by { assert " "[..0] == []; }
    var c := cur + word + " ";
    forall x | x in c && IsWhiteSpace(x) ensures x == ' ' || x == '\n' {
      assert x in cur || x in word || x == ' ';
    }
  }

  /** The flush that opens a step keeps the words. */
  lemma OverflowKeeps(st: WrapState, word: string, w: nat)
    requires PlainSpacing(st.current)
    ensures var st1 := if |st.current| + |word| + 1 > w then WrapState(Flush(st.lines, st.current), "") else st;
      PlainSpacing(st1.current) &&
      SqueezeAll(st1.lines) + Squeeze(st1.current) == SqueezeAll(st.lines) + Squeeze(st.current)
  {
    SqueezeFlush(st.lines, st.current);
  }

  lemma LongWordKeeps(st1: WrapState, word: string, w: nat)
    requires w >= 1 && PlainSpacing(st1.current)
    ensures var a := Flush(st1.lines, st1.current);
      SqueezeAll(a + Chunks(word, w)) == SqueezeAll(st1.lines) + Squeeze(st1.current) + Squeeze(word)
  {
    var a := Flush(st1.lines, st1.current);
    SqueezeFlush(st1.lines, st1.current);
    SqueezeAllAppend(a, Chunks(word, w));
    SqueezeChunks(word, w);
  }

  /** The state after the overflow check of a step. */
  function Opened(st: WrapState, word: string, w: nat): WrapState
  {
    if |st.current| + |word| + 1 > w then WrapState(Flush(st.lines, st.current), "") else st
  }

  lemma StepKeepsLong(st1: WrapState, word: string, w: nat)
    requires w >= 1 && |word| > w && PlainSpacing(st1.current)
    ensures var st' := WrapState(Flush(st1.lines, st1.current) + Chunks(word, w), "");
      SqueezeAll(st'.lines) + Squeeze(st'.current) == SqueezeAll(st1.lines) + Squeeze(st1.current) + Squeeze(word)
  {
    var st' := WrapState(Flush(st1.lines, st1.current) + Chunks(word, w), "");
    LongWordKeeps(st1, word, w);
    assert Squeeze(st'.current) == [];
    assert SqueezeAll(st'.lines) + Squeeze(st'.current) == SqueezeAll(st'.lines);
  }

  lemma StepKeepsShort(st1: WrapState, word: string)
    requires PlainSpacing(st1.current) && PlainSpacing(word)
    ensures var st' := WrapState(st1.lines, st1.current + word + " ");
      PlainSpacing(st'.current) &&
      SqueezeAll(st'.lines) + Squeeze(st'.current) == SqueezeAll(st1.lines) + Squeeze(st1.current) + Squeeze(word)
  {
    var x, y, z := SqueezeAll(st1.lines), Squeeze(st1.current), Squeeze(word);
    AppendWordKeeps(st1.current, word);
    assert x + (y + z) == (x + y) + z;
  }

  lemma StepKeeps(st: WrapState, word: string, w: nat)
    requires w >= 1 && PlainSpacing(st.current) && PlainSpacing(word)
    ensures var st' := Step(st, word, w);
      PlainSpacing(st'.current) &&
      SqueezeAll(st'.lines) + Squeeze(st'.current) == SqueezeAll(st.lines) + Squeeze(st.current) + Squeeze(word)
  {
    var st1 := Opened(st, word, w);
    OverflowKeeps(st, word, w);
    var kept := SqueezeAll(st.lines) + Squeeze(st.current);
    assert SqueezeAll(st1.lines) + Squeeze(st1.current) == kept;
    if |word| > w {
      assert Step(st, word, w) == WrapState(Flush(st1.lines, st1.current) + Chunks(word, w), "");
      StepKeepsLong(st1, word, w);
    } else {
      assert Step(st, word, w) == WrapState(st1.lines, st1.current + word + " ");
      StepKeepsShort(st1, word);
    }
  }

  lemma {:induction false} WrapWordsKeeps(words: seq<string>, w: nat)
    requires w >= 1
    requires forall i :: 0 <= i < |words| ==> PlainSpacing(words[i])
    ensures var st := WrapWords(words, w);
      PlainSpacing(st.current) && SqueezeAll(st.lines) + Squeeze(st.current) == SqueezeAll(words)
  {
    if words != [] {
      var init := words[..|words| - 1];
      WrapWordsKeeps(init, w);
      StepKeeps(WrapWords(init, w), words[|words| - 1], w);
    }
  }

  lemma PlainSpacingSplit(text: string)
    requires PlainSpacing(text)
    ensures forall i :: 0 <= i < |Split(text, ' ')| ==> PlainSpacing(Split(text, ' ')[i])
  {
    var ws := Split(text, ' ');
    forall i | 0 <= i < |ws| ensures PlainSpacing(ws[i]) {
      JoinHasPart(ws, i);
      forall c | c in ws[i] && IsWhiteSpace(c) ensures c == ' ' || c == '\n' {
        assert c in text || c == ' ';
      }
    }
  }

  lemma {:induction false} JoinHasPart(ws: seq<string>, i: nat)
    requires i < |ws|
    ensures forall c :: c in ws[i] ==> c in Join([' '], ws) || c == ' '
    decreases |ws|
  {
    if |ws| > 1 && i < |ws| - 1 {
      JoinHasPart(ws[..|ws| - 1], i);
    }
  }

  /**
   * Words are kept in order: for text whose only whitespace is ' ' or '\n',
   * deleting the spaces and newlines from the wrapped text gives the input
   * with its spaces and newlines deleted.
   */
  lemma WrapKeepsWords(text: string, w: nat)
    requires w >= 1 && PlainSpacing(text)
    ensures Squeeze(Wrapped(text, w)) == Squeeze(text)
  {
    if text != "" {
      var words := Split(text, ' ');
      PlainSpacingSplit(text);
      WrapWordsKeeps(words, w);
      var st := WrapWords(words, w);
      SqueezeFlush(st.lines, st.current);
      assert Squeeze("\n") == [] by { assert "\n"[..0] == []; }
      SqueezeJoin("\n", WrapLines(text, w));
      assert Squeeze(" ") == [] by { assert " "[..0] == []; }
      SqueezeJoin(" ", words);
    }
  }
}
