/**
 * The text side of the Twine importer: comment removal, passage splitting,
 * header clean-up, body lines, `[[...]]` choice tokens, the bracket-aware
 * arrow search and quote stripping.  Every .NET regular expression the
 * importer applies is written out here as an explicit scanner.
 */
module TwineText {
  import opened Text
  import opened Wrappers

  /** tok occurs in s at position i (ordinal comparison). */
  predicate OccursAt(s: string, tok: string, i: nat) {
    i + |tok| <= |s| && s[i..i + |tok|] == tok
  }

  /** String.IndexOf(tok, from): the first occurrence at or after from, or -1. */
  function IndexOfFrom(s: string, tok: string, from: nat): (r: int)
    ensures r == -1 || (from <= r && OccursAt(s, tok, r))
    ensures forall i :: from <= i && (r == -1 || i < r) ==> !OccursAt(s, tok, i)
    decreases |s| - from
  {
    if from + |tok| > |s| then -1
    else if OccursAt(s, tok, from) then from
    else IndexOfFrom(s, tok, from + 1)
  }

  /** A mismatch at one position rules an occurrence out. */
  lemma NotOccursAt(s: string, tok: string, i: nat, m: nat)
    requires m < |tok| && (i + m >= |s| || s[i + m] != tok[m])
    ensures !OccursAt(s, tok, i)
  {
    if i + |tok| <= |s| {
      assert s[i..i + |tok|][m] == s[i + m];
    }
  }

  // ---------------------------------------------------------------------
  // Comments: Regex.Replace(text, "<!--[\s\S]*?-->", "")
  // ---------------------------------------------------------------------

  /**
   * Each comment, from an opening `<!--` to the first `-->` after it, is cut;
   * scanning resumes after the cut.  An opening with no closing stays.
   */
  function StripComments(s: string): (r: string)
    ensures |r| <= |s|
    decreases |s|
  {
    var i := IndexOfFrom(s, "<!--", 0);
    if i < 0 then s
    else
      var j := IndexOfFrom(s, "-->", i + 4);
      if j < 0 then s else s[..i] + StripComments(s[j + 3..])
  }

  /** A text with no `<!--` is left as it is. */
  lemma StripCommentsNoOpening(s: string)
    requires forall i :: !OccursAt(s, "<!--", i)
    ensures StripComments(s) == s
  {
    assert IndexOfFrom(s, "<!--", 0) == -1;
  }

  /**
   * The first comment of a text is cut and the rest is processed on its own:
   * a, the text before it, holds no opening and b, its inside, no closing.
   */
  lemma StripCommentsCut(a: string, b: string, c: string)
    requires forall i :: !OccursAt(a, "<!--", i)
    requires forall i :: !OccursAt(b, "-->", i)
    ensures StripComments(a + "<!--" + b + "-->" + c) == a + StripComments(c)
  {
    var s := a + "<!--" + b + "-->" + c;
    var i := |a|;
    var j := i + 4 + |b|;
    assert s == a + "<!--" + (b + "-->" + c);
    FirstOpening(a, b + "-->" + c);
    assert s == (a + "<!--") + b + "-->" + c;
    FirstClosing(a + "<!--", b, c);
    assert s[..i] == a;
    assert s[j + 3..] == c;
  }

  /** The first `<!--` of a text whose head a holds none is the one right after a. */
  lemma FirstOpening(a: string, rest: string)
    requires forall i :: !OccursAt(a, "<!--", i)
    ensures IndexOfFrom(a + "<!--" + rest, "<!--", 0) == |a|
  {
    var s := a + "<!--" + rest;
    var i := |a|;
    assert OccursAt(s, "<!--", i) by { assert s[i..i + 4] == "<!--"; }
    forall k | 0 <= k < i
      ensures !OccursAt(s, "<!--", k)
    {
      if k + 4 <= |a| {
        assert s[k..k + 4] == a[k..k + 4];
        assert !OccursAt(a, "<!--", k);
      } else {
        NotOccursAt(s, "<!--", k, i - k);
      }
    }
  }

  /** The first `-->` at or after the end of pre, when b holds none, is the one right after b. */
  lemma FirstClosing(pre: string, b: string, c: string)
    requires forall i :: !OccursAt(b, "-->", i)
    ensures IndexOfFrom(pre + b + "-->" + c, "-->", |pre|) == |pre| + |b|
  {
    var s := pre + b + "-->" + c;
    var i := |pre|;
    var j := i + |b|;
    assert OccursAt(s, "-->", j) by { assert s[j..j + 3] == "-->"; }
    forall k | i <= k < j
      ensures !OccursAt(s, "-->", k)
    {
      if k + 3 <= j {
        assert s[k..k + 3] == b[k - i..k - i + 3];
        assert !OccursAt(b, "-->", k - i);
      } else {
        NotOccursAt(s, "-->", k, 2);
      }
    }
  }

  /**
   * One pass only: cutting an inner comment can join an outer `<!`...`--`
   * into a new comment, which then stays in the text.
   */
  lemma StripCommentsSinglePass()
    ensures StripComments("<!<!--x-->-- -->") == "<!-- -->"
  {
    var s := "<!<!--x-->-- -->";
    NotOccursAt(s, "<!--", 0, 2);
    NotOccursAt(s, "<!--", 1, 0);
    assert OccursAt(s, "<!--", 2) by { assert s[2..6] == "<!--"; }
    assert IndexOfFrom(s, "<!--", 0) == 2;
    NotOccursAt(s, "-->", 6, 2);
    assert OccursAt(s, "-->", 7) by { assert s[7..10] == "-->"; }
    assert IndexOfFrom(s, "-->", 6) == 7;
    var rest := s[10..];
    assert rest == "-- -->";
    forall k | 0 <= k
      ensures !OccursAt(rest, "<!--", k)
    {
      NotOccursAt(rest, "<!--", k, 0);
    }
    StripCommentsNoOpening(rest);
    assert s[..2] == "<!";
  }

  // ---------------------------------------------------------------------
  // Passages: Regex.Split(text, "(?m)^\s*::\s*")
  // ---------------------------------------------------------------------

  /** Multiline `^`: p is the start of the text or follows a newline. */
  predicate LineStart(s: string, p: nat)
    requires p <= |s|
  {
    p == 0 || s[p - 1] == '\n'
  }

  /** The end of the whitespace run starting at p (`\s*`, greedy). */
  function SkipWhiteSpace(s: string, p: nat): (q: nat)
    requires p <= |s|
    ensures p <= q <= |s| && (q == |s| || !IsWhiteSpace(s[q]))
    ensures forall k :: p <= k < q ==> IsWhiteSpace(s[k])
    decreases |s| - p
  {
    if p < |s| && IsWhiteSpace(s[p]) then SkipWhiteSpace(s, p + 1) else p
  }

  /** The separator `^\s*::\s*` matches at p. */
  predicate SeparatorAt(s: string, p: nat) {
    p <= |s| && LineStart(s, p) && OccursAt(s, "::", SkipWhiteSpace(s, p))
  }

  /** Where a separator matched at p ends: after `::` and the whitespace following it. */
  function SeparatorEnd(s: string, p: nat): (e: nat)
    requires SeparatorAt(s, p)
    ensures p + 2 <= e <= |s|
  {
    SkipWhiteSpace(s, SkipWhiteSpace(s, p) + 2)
  }

  /** The leftmost separator at or after from, or -1. */
  function NextSeparator(s: string, from: nat): (r: int)
    ensures r == -1 || (from <= r && SeparatorAt(s, r))
    ensures forall p :: from <= p && (r == -1 || p < r) ==> !SeparatorAt(s, p)
    decreases |s| + 1 - from
  {
    if from > |s| then -1
    else if SeparatorAt(s, from) then from
    else NextSeparator(s, from + 1)
  }

  datatype Span = Span(start: nat, end: nat)

  /**
   * The pieces of Regex.Split from position from, as spans: they tile the
   * text in order, each consecutive pair separated by one separator match,
   * and no separator starts inside a piece.
   */
  function SplitSpans(s: string, from: nat): (r: seq<Span>)
    requires from <= |s|
    ensures |r| >= 1 && r[0].start == from && r[|r| - 1].end == |s|
    ensures Tiles(s, r)
    decreases |s| - from
  {
    var p := NextSeparator(s, from);
    if p < 0 then [Span(from, |s|)]
    else
      var rest := SplitSpans(s, SeparatorEnd(s, p));
      TilesCons(s, from, p, rest);
      [Span(from, p)] + rest
  }

  /**
   * The spans lie in the text in order, each consecutive pair separated by
   * one separator match, and no separator starts inside a span.
   */
  predicate Tiles(s: string, r: seq<Span>) {
    && (forall k :: 0 <= k < |r| ==> r[k].start <= r[k].end <= |s|)
    && (forall k :: 0 <= k < |r| - 1 ==>
         SeparatorAt(s, r[k].end) && SeparatorEnd(s, r[k].end) == r[k + 1].start)
    && (forall k, p :: 0 <= k < |r| && r[k].start <= p < r[k].end ==> !SeparatorAt(s, p))
  }

  /** A separator-free span ending at a separator, followed by a tiling from that separator's end. */
  lemma TilesCons(s: string, from: nat, p: nat, rest: seq<Span>)
    requires from <= p && SeparatorAt(s, p) && forall q :: from <= q < p ==> !SeparatorAt(s, q)
    requires |rest| >= 1 && rest[0].start == SeparatorEnd(s, p) && Tiles(s, rest)
    ensures Tiles(s, [Span(from, p)] + rest)
  {
    var r := [Span(from, p)] + rest;
    assert forall k :: 1 <= k < |r| ==> r[k] == rest[k - 1];
    forall k, q | 0 <= k < |r| && r[k].start <= q < r[k].end
      ensures !SeparatorAt(s, q)
    {
      if k > 0 {
        assert rest[k - 1].start <= q < rest[k - 1].end;
      }
    }
    forall k | 0 <= k < |r| - 1
      ensures SeparatorAt(s, r[k].end) && SeparatorEnd(s, r[k].end) == r[k + 1].start
    {
      if k > 0 {
        assert r[k] == rest[k - 1] && r[k + 1] == rest[k];
      }
    }
  }

  function Slices(s: string, spans: seq<Span>): (r: seq<string>)
    requires forall k :: 0 <= k < |spans| ==> spans[k].start <= spans[k].end <= |s|
    ensures |r| == |spans|
    ensures forall k :: 0 <= k < |r| ==> r[k] == s[spans[k].start..spans[k].end]
  {
    if spans == [] then []
    else [s[spans[0].start..spans[0].end]] + Slices(s, spans[1..])
  }

  /** The chunks Regex.Split returns, in text order; the first is the preamble. */
  function PassageTexts(s: string): (r: seq<string>)
    ensures |r| >= 1
  {
    Slices(s, SplitSpans(s, 0))
  }

  /** Without a line starting with optional whitespace then `::`, the whole text is one chunk. */
  lemma {:induction false} PassageTextsNoSeparator(s: string)
    requires forall p :: !SeparatorAt(s, p)
    ensures PassageTexts(s) == [s]
  {
    assert NextSeparator(s, 0) == -1;
    assert SplitSpans(s, 0) == [Span(0, |s|)];
    assert s[0..|s|] == s;
  }

  // ---------------------------------------------------------------------
  // Headers
  // ---------------------------------------------------------------------

  /** Headers that name story metadata, not passages. */
  const ReservedHeaders: set<string> := {
    "StoryTitle", "StorySubtitle", "StoryAuthor", "StoryMenu", "StorySettings", "StoryIncludes",
    "StoryData", "UserStylesheet", "UserScript", "stylesheet", "script"
  }

  /**
   * Regex.Replace(h, "\s*\{[\s\S]*\}\s*$", "").Trim(): when h ends (before
   * trailing whitespace) in `}` and holds a `{`, everything from its first `{`
   * on is cut.  The leftmost match starts at the whitespace before that `{`.
   */
  function CutMetadata(h: string): (r: string)
  {
    var t := TrimEnd(h);
    var f := IndexOfChar(t, '{');
    if EndsWith(t, '}') && f >= 0 then Trim(h[..f]) else Trim(h)
  }

  /** A name followed by a `{...}` block keeps only the name. */
  lemma {:induction false} CutMetadataOfBlock(name: string, meta: string)
    requires '{' !in name
    ensures CutMetadata(name + "{" + meta + "}") == Trim(name)
  {
    var h := name + "{" + meta + "}";
    assert TrimEnd(h) == h;
    assert IndexOfChar(h, '{') == |name| by {
      assert h[|name|] == '{';
      assert h[..|name|] == name;
    }
    assert h[..|name|] == name;
  }

  /** A header whose last visible character is not `}` is only trimmed. */
  lemma CutMetadataNoBlock(h: string)
    requires !EndsWith(TrimEnd(h), '}')
    ensures CutMetadata(h) == Trim(h)
  {
  }

  /** A header wrapped in double quotes loses them (no second trim). */
  function UnquoteHeader(h: string): (r: string)
    ensures |h| >= 2 && h[0] == '"' && h[|h| - 1] == '"' ==> r == h[1..|h| - 1]
    ensures !(|h| >= 2 && h[0] == '"' && h[|h| - 1] == '"') ==> r == h
  {
    if StartsWith(h, '"') && EndsWith(h, '"') && |h| >= 2 then h[1..|h| - 1] else h
  }

  // ---------------------------------------------------------------------
  // Body lines
  // ---------------------------------------------------------------------

  /** No `{` is followed, anywhere later, by a `}`. */
  predicate NoBraceSpan(s: string) {
    forall i, j :: 0 <= i < j < |s| && s[i] == '{' ==> s[j] != '}'
  }

  /**
   * Regex.Replace(s, "\{[\s\S]*?\}", ""): from each `{` through the first `}`
   * after it is cut; scanning resumes after the cut.  An unmatched `{` stays.
   */
  function RemoveBraces(s: string): (r: string)
    ensures |r| <= |s|
    decreases |s|
  {
    var i := IndexOfChar(s, '{');
    if i < 0 then s
    else
      var k := IndexOfChar(s[i + 1..], '}');
      if k < 0 then s
      else s[..i] + RemoveBraces(s[i + 1 + k + 1..])
  }

  /** After removal no `{` is followed by a `}`. */
  lemma {:induction false} RemoveBracesClean(s: string)
    ensures NoBraceSpan(RemoveBraces(s))
    decreases |s|
  {
    var i := IndexOfChar(s, '{');
    if i >= 0 {
      var k := IndexOfChar(s[i + 1..], '}');
      if k < 0 {
        NoBraceSpanUnclosed(s, i);
      } else {
        RemoveBracesClean(s[i + 1 + k + 1..]);
        NoBraceSpanPrefix(s[..i], RemoveBraces(s[i + 1 + k + 1..]));
      }
    }
  }

  /** A first `{` with no `}` anywhere after it leaves no span. */
  lemma NoBraceSpanUnclosed(s: string, i: nat)
    requires i < |s| && '{' !in s[..i] && '}' !in s[i + 1..]
    ensures NoBraceSpan(s)
  {
    forall p, q | 0 <= p < q < |s| && s[p] == '{'
      ensures s[q] != '}'
    {
      if p < i {
        assert false;
      } else {
        assert s[i + 1..][q - i - 1] == s[q];
      }
    }
  }

  /** Brace-free-opening text in front of a span-free text adds no span. */
  lemma NoBraceSpanPrefix(a: string, b: string)
    requires '{' !in a && NoBraceSpan(b)
    ensures NoBraceSpan(a + b)
  {
    var t := a + b;
    forall p, q | 0 <= p < q < |t| && t[p] == '{'
      ensures t[q] != '}'
    {
      if p < |a| {
        assert false;
      } else {
        assert t[p] == b[p - |a|] && t[q] == b[q - |a|];
      }
    }
  }

  /** Text without a `{...}` span is left as it is, so removal is idempotent. */
  lemma RemoveBracesNoSpan(s: string)
    requires NoBraceSpan(s)
    ensures RemoveBraces(s) == s
  {
    var i := IndexOfChar(s, '{');
    if i >= 0 {
      assert forall q :: i < q < |s| ==> s[q] != '}';
      assert '}' !in s[i + 1..];
    }
  }

  lemma RemoveBracesIdempotent(s: string)
    ensures RemoveBraces(RemoveBraces(s)) == RemoveBraces(s)
  {
    RemoveBracesClean(s);
    RemoveBracesNoSpan(RemoveBraces(s));
  }

  /** A `{...}` directive in the middle of brace-free text is cut out entirely. */
  lemma {:induction false} RemoveBracesOfDirective(a: string, d: string, c: string)
    requires '{' !in a && '}' !in d && '{' !in c && '}' !in c
    ensures RemoveBraces(a + "{" + d + "}" + c) == a + c
  {
    var s := a + "{" + d + "}" + c;
    var i := |a|;
    assert s[..i] == a && s[i] == '{';
    assert IndexOfChar(s, '{') == i;
    var t := s[i + 1..];
    assert t == d + "}" + c;
    assert t[..|d|] == d && t[|d|] == '}';
    assert IndexOfChar(t, '}') == |d|;
    assert s[i + 1 + |d| + 1..] == c;
    assert IndexOfChar(c, '{') == -1;
  }

  lemma {:induction false} NoBraceSpanSlice(s: string, a: nat, b: nat)
    requires NoBraceSpan(s) && a <= b <= |s|
    ensures NoBraceSpan(s[a..b])
  {
    var t := s[a..b];
    forall i, j | 0 <= i < j < |t| && t[i] == '{'
      ensures t[j] != '}'
    {
      assert t[i] == s[a + i] && t[j] == s[a + j];
    }
  }

  lemma {:induction false} NoBraceSpanTrim(s: string)
    requires NoBraceSpan(s)
    ensures NoBraceSpan(Trim(s))
  {
    var u := TrimStart(s);
    TrimStartSuffix(s);
    TrimEndPrefix(u);
    NoBraceSpanSlice(s, |s| - |u|, |s|);
    NoBraceSpanSlice(u, 0, |TrimEnd(u)|);
  }

  /** String.Split(new[] {"\r\n", "\n"}): the pieces between line breaks, the `\r` of a `\r\n` break dropped. */
  function SplitLines(s: string): (r: seq<string>)
    ensures |r| >= 1
  {
    DropBreakReturns(Split(s, '\n'))
  }

  function DropBreakReturns(parts: seq<string>): (r: seq<string>)
    ensures |r| == |parts|
  {
    if |parts| <= 1 then parts
    else [if EndsWith(parts[0], '\r') then parts[0][..|parts[0]| - 1] else parts[0]] + DropBreakReturns(parts[1..])
  }

  /** One raw body line: trimmed, `{...}` spans removed, trimmed again; a blank result gives no line. */
  function BodyLine(rl: string): (r: Option<string>)
    ensures r.Some? ==> r.value != [] && Trimmed(r.value) && NoBraceSpan(r.value)
  {
    var ln := Trim(rl);
    if ln == "" then None
    else
      var cleaned := Trim(RemoveBraces(ln));
      RemoveBracesClean(ln);
      NoBraceSpanTrim(RemoveBraces(ln));
      if cleaned == "" then None else Some(cleaned)
  }

  /** A line that can stand in a passage: non-empty, trimmed, free of `{...}` spans. */
  predicate CleanLine(ln: string) {
    ln != [] && Trimmed(ln) && NoBraceSpan(ln)
  }

  /** The kept lines of a body, in order. */
  function BodyLines(raws: seq<string>): (r: seq<string>)
    ensures |r| <= |raws|
    ensures forall k :: 0 <= k < |r| ==> CleanLine(r[k])
  {
    if raws == [] then []
    else
      var r0 := BodyLines(raws[..|raws| - 1]);
      var b := BodyLine(raws[|raws| - 1]);
      if b.Some? then r0 + [b.value] else r0
  }

  lemma BodyLinesStep(raws: seq<string>, m: nat)
    requires m < |raws|
    ensures BodyLines(raws[..m + 1]) ==
      BodyLines(raws[..m]) + (var b := BodyLine(raws[m]); if b.Some? then [b.value] else [])
  {
    assert raws[..m + 1][..m] == raws[..m];
  }

  function PassageBody(body: string): seq<string> {
    if body == "" then [] else BodyLines(SplitLines(body))
  }

  // ---------------------------------------------------------------------
  // Passages
  // ---------------------------------------------------------------------

  datatype ParsedPassage = ParsedPassage(title: string, lines: seq<string>)

  /** The header of a trimmed chunk: its first line, trimmed, metadata cut, unquoted. */
  function PassageHeader(part: string): string {
    var nl := IndexOfChar(part, '\n');
    UnquoteHeader(CutMetadata(if nl >= 0 then Trim(part[..nl]) else Trim(part)))
  }

  /** The body of a trimmed chunk: everything after its first line. */
  function PassageBodyText(part: string): string {
    var nl := IndexOfChar(part, '\n');
    if nl >= 0 then part[nl + 1..] else ""
  }

  /** One chunk of Regex.Split turned into a passage, or nothing when its header is reserved or empty. */
  function ParsePassage(raw: string): (r: Option<ParsedPassage>)
    ensures r.Some? ==> UsablePassage(r.value)
  {
    var part := Trim(raw);
    if part == "" then None
    else
      var header := PassageHeader(part);
      if header in ReservedHeaders || header == "" then None
      else Some(ParsedPassage(header, PassageBody(PassageBodyText(part))))
  }

  /** The passages of the chunks, in chunk order, skipping chunks that give none. */
  function ParsedPassages(parts: seq<string>): (r: seq<ParsedPassage>)
    ensures |r| <= |parts|
  {
    if parts == [] then []
    else
      var r0 := ParsedPassages(parts[..|parts| - 1]);
      var p := ParsePassage(parts[|parts| - 1]);
      if p.Some? then r0 + [p.value] else r0
  }

  /** Every parsed passage has a usable title and clean lines. */
  lemma {:induction false} ParsedPassagesClean(parts: seq<string>)
    ensures forall k :: 0 <= k < |ParsedPassages(parts)| ==> UsablePassage(ParsedPassages(parts)[k])
  {
    if parts != [] {
      ParsedPassagesClean(parts[..|parts| - 1]);
    }
  }

  predicate UsablePassage(p: ParsedPassage) {
    p.title != "" && p.title !in ReservedHeaders && forall k :: 0 <= k < |p.lines| ==> CleanLine(p.lines[k])
  }

  lemma ParsedPassagesStep(parts: seq<string>, n: nat)
    requires n < |parts|
    ensures ParsedPassages(parts[..n + 1]) ==
      ParsedPassages(parts[..n]) + (var p := ParsePassage(parts[n]); if p.Some? then [p.value] else [])
  {
    assert parts[..n + 1][..n] == parts[..n];
  }

  /** A name with no whitespace, braces or double quotes: header clean-up leaves it alone. */
  predicate PlainName(n: string) {
    n != "" && forall k :: 0 <= k < |n| ==> !IsWhiteSpace(n[k]) && n[k] != '{' && n[k] != '}' && n[k] != '"'
  }

  lemma ReservedArePlain()
    ensures forall n :: n in ReservedHeaders ==> PlainName(n)
  {
    forall n | n in ReservedHeaders
      ensures PlainName(n)
    {
      forall k | 0 <= k < |n|
        ensures 'A' <= n[k] <= 'Z' || 'a' <= n[k] <= 'z'
      {
      }
    }
  }

  /** Header clean-up leaves a plain name alone. */
  lemma PlainHeader(name: string)
    requires PlainName(name)
    ensures CutMetadata(name) == name && UnquoteHeader(name) == name
  {
    assert IndexOfChar(name, '{') == -1;
    assert !IsWhiteSpace(name[0]) && !IsWhiteSpace(name[|name| - 1]);
    assert TrimEnd(name) == name;
    TrimOfTrimmed(name);
  }

  /** The trimmed chunk's first line is the name. */
  lemma {:induction false} FirstLineOfChunk(name: string, body: string)
    requires PlainName(name)
    ensures var part := Trim(name + "\n" + body);
      var nl := IndexOfChar(part, '\n');
      (if nl >= 0 then Trim(part[..nl]) else Trim(part)) == name
  {
    var raw := name + "\n" + body;
    assert raw[0] == name[0];
    assert TrimStart(raw) == raw;
    var part := Trim(raw);
    TrimEndPrefix(raw);
    assert part == raw[..|part|];
    assert forall k :: |part| <= k < |raw| ==> IsWhiteSpace(raw[k]);
    assert !IsWhiteSpace(raw[|name| - 1]);
    assert part[..|name|] == name;
    var nl := IndexOfChar(part, '\n');
    assert !IsWhiteSpace(name[0]) && !IsWhiteSpace(name[|name| - 1]);
    if |part| == |name| {
      assert nl == -1;
      assert part == name;
    } else {
      assert part[|name|] == '\n';
      assert nl == |name|;
    }
    TrimOfTrimmed(name);
  }

  /**
   * A chunk whose first line is a plain name gives a passage with that title
   * exactly when the name is not reserved, whatever the body.
   */
  lemma HeaderLine(name: string, body: string)
    requires PlainName(name)
    ensures var r := ParsePassage(name + "\n" + body);
      (r.Some? <==> name !in ReservedHeaders) && (r.Some? ==> r.value.title == name)
  {
    var part := Trim(name + "\n" + body);
    FirstLineOfChunk(name, body);
    PlainHeader(name);
    assert part != "";
    assert PassageHeader(part) == name;
  }

  /** In particular a chunk headed by a reserved name gives no passage. */
  lemma ReservedHeaderSkipped(name: string, body: string)
    requires name in ReservedHeaders
    ensures ParsePassage(name + "\n" + body) == None
  {
    ReservedArePlain();
    HeaderLine(name, body);
  }

  /** One raw body line: trimmed, skipped when empty, `{...}` spans removed, trimmed, kept when non-empty. */
  method ReadBodyLine(rl: string) returns (kept: Option<string>)
    ensures kept == BodyLine(rl)
  {
    var ln := Trim(rl);
    if ln == "" {
      return None;
    }
    ln := Trim(RemoveBraces(ln));
    kept := if ln != "" then Some(ln) else None;
  }

  /** Cleans the raw body lines one by one (the inner loop of ParsePassages). */
  method ReadBodyLines(bodyRaw: string) returns (lines: seq<string>)
    ensures lines == PassageBody(bodyRaw)
  {
    lines := [];
    if bodyRaw != "" {
      var rawLines := SplitLines(bodyRaw);
      for m := 0 to |rawLines|
        invariant lines == BodyLines(rawLines[..m])
      {
        BodyLinesStep(rawLines, m);
        var kept := ReadBodyLine(rawLines[m]);
        if kept.Some? {
          lines := lines + [kept.value];
        }
      }
      assert rawLines[..|rawLines|] == rawLines;
    }
  }

  /**
   * ParsePassages: Regex.Split on separators, then one passage per chunk whose
   * header survives, with its body lines cleaned one by one.
   */
  method ParsePassages(text: string) returns (result: seq<ParsedPassage>)
    ensures result == ParsedPassages(PassageTexts(text))
    ensures forall k :: 0 <= k < |result| ==> result[k].title != ""
  {
    var parts := PassageTexts(text);
    result := ParseParts(parts);
    ParsedPassagesClean(parts);
  }

  /** The chunks read one by one, keeping the passages they give. */
  method ParseParts(parts: seq<string>) returns (result: seq<ParsedPassage>)
    ensures result == ParsedPassages(parts)
  {
    result := [];
    for n := 0 to |parts|
      invariant result == ParsedPassages(parts[..n])
    {
      ParsedPassagesStep(parts, n);
      var passage := ReadPassage(parts[n]);
      if passage.Some? {
        result := result + [passage.value];
      }
    }
    assert parts[..|parts|] == parts;
  }

  /** One chunk: trimmed, its header line cleaned, skipped when reserved or empty, else its body read. */
  method ReadPassage(raw: string) returns (passage: Option<ParsedPassage>)
    ensures passage == ParsePassage(raw)
  {
    var part := Trim(raw);
    if part == "" {
      return None;
    }
    var firstNewline := IndexOfChar(part, '\n');
    var headerRaw, bodyRaw;
    if firstNewline >= 0 {
      headerRaw := Trim(part[..firstNewline]);
      bodyRaw := part[firstNewline + 1..];
    } else {
      headerRaw := Trim(part);
      bodyRaw := "";
    }
    headerRaw := CutMetadata(headerRaw);
    headerRaw := UnquoteHeader(headerRaw);
    assert headerRaw == PassageHeader(part) && bodyRaw == PassageBodyText(part);
    if headerRaw in ReservedHeaders {
      return None;
    }
    if headerRaw == "" {
      return None;
    }
    var lines := ReadBodyLines(bodyRaw);
    passage := Some(ParsedPassage(headerRaw, lines));
  }

  // ---------------------------------------------------------------------
  // Choices: Regex.Matches(line, "\[\[(.*?)\]\]")
  // ---------------------------------------------------------------------

  /**
   * `\[\[(.*?)\]\]` matches with its `[[` at i and its `]]` at j: j is the
   * first `]]` from i + 2 on (the lazy group), and the group holds no
   * newline (`.` does not cross one).
   */
  predicate MatchAt(s: string, i: nat, j: nat) {
    && OccursAt(s, "[[", i) && i + 2 <= j && OccursAt(s, "]]", j)
    && (forall k :: i + 2 <= k < j ==> !OccursAt(s, "]]", k))
    && '\n' !in s[i + 2..j]
  }

  /**
   * The leftmost `[[...]]` match at or after from, as the positions of its
   * `[[` and `]]`: lazy, so the first `]]` after the opening, and `.` does
   * not cross a newline.
   */
  function NextChoice(s: string, from: nat): (r: Option<(nat, nat)>)
    ensures r.Some? ==> from <= r.value.0 && r.value.0 + 2 <= r.value.1 && r.value.1 + 2 <= |s|
    ensures r.Some? ==> MatchAt(s, r.value.0, r.value.1)
    ensures forall i, j :: from <= i && MatchAt(s, i, j) ==> r.Some? && r.value.0 <= i
    decreases |s| - from
  {
    var i := IndexOfFrom(s, "[[", from);
    if i < 0 then None
    else
      var j := IndexOfFrom(s, "]]", i + 2);
      if j >= 0 && '\n' !in s[i + 2..j] then Some((i, j))
      else
        NoMatchAtOpening(s, i);
        NextChoice(s, i + 1)
  }

  /** When the first `]]` after an opening is missing or past a newline, nothing matches from that opening. */
  lemma NoMatchAtOpening(s: string, i: nat)
    requires var j := IndexOfFrom(s, "]]", i + 2); !(j >= 0 && '\n' !in s[i + 2..j])
    ensures forall j :: !MatchAt(s, i, j)
  {
    var first := IndexOfFrom(s, "]]", i + 2);
    forall j | OccursAt(s, "[[", i) && i + 2 <= j && OccursAt(s, "]]", j) && (forall k :: i + 2 <= k < j ==> !OccursAt(s, "]]", k))
      ensures '\n' in s[i + 2..j]
    {
      assert first == j;
    }
  }

  /** The inner texts (group 1) of every match, in order. */
  function ChoiceTokens(s: string, from: nat): (r: seq<string>)
    decreases |s| - from
  {
    match NextChoice(s, from)
    case None => []
    case Some((i, j)) => [s[i + 2..j]] + ChoiceTokens(s, j + 2)
  }

  /** Regex.IsMatch(line, "\[\[.*?\]\]"): the same pattern, so a line has a choice iff it has a token. */
  predicate HasChoice(line: string) {
    NextChoice(line, 0).Some?
  }

  lemma HasChoiceTokens(line: string)
    ensures HasChoice(line) <==> ChoiceTokens(line, 0) != []
  {
  }

  /** All tokens of the given lines, line by line. */
  function LinesTokens(lines: seq<string>): seq<string> {
    if lines == [] then [] else LinesTokens(lines[..|lines| - 1]) + ChoiceTokens(lines[|lines| - 1], 0)
  }

  // ---------------------------------------------------------------------
  // The arrow search: IndexOfUnnested
  // ---------------------------------------------------------------------

  /** One character's effect on the bracket depth; a closer at depth 0 keeps it at 0. */
  function DepthStep(d: nat, c: char): nat {
    if c == '(' || c == '[' || c == '{' then d + 1
    else if c == ')' || c == ']' || c == '}' then (if d == 0 then 0 else d - 1)
    else d
  }

  /** The bracket depth after the first n characters. */
  function DepthAfter(text: string, n: nat): nat
    requires n <= |text|
  {
    if n == 0 then 0 else DepthStep(DepthAfter(text, n - 1), text[n - 1])
  }

  /** token starts at i, and the depth counted through the character at i is 0. */
  predicate UnnestedAt(text: string, token: string, i: nat) {
    token != [] && OccursAt(text, token, i) && DepthAfter(text, i + 1) == 0
  }

  /** The least i at or after from where token occurs unnested, or -1. */
  function UnnestedFrom(text: string, token: string, from: nat): (r: int)
    ensures r == -1 || (from <= r && UnnestedAt(text, token, r))
    ensures forall i :: from <= i && (r == -1 || i < r) ==> !UnnestedAt(text, token, i)
    decreases |text| - from
  {
    if from + |token| > |text| then -1
    else if UnnestedAt(text, token, from) then from
    else UnnestedFrom(text, token, from + 1)
  }

  /**
   * IndexOfUnnested: the depth is updated by the character at i before the
   * token is compared at i.  The result is the least index where token occurs
   * at depth 0, or -1.
   */
  method IndexOfUnnested(text: string, token: string) returns (r: int)
    requires token != ""
    ensures r == -1 || (0 <= r && UnnestedAt(text, token, r))
    ensures forall i :: 0 <= i && (r == -1 || i < r) ==> !UnnestedAt(text, token, i)
    ensures r == UnnestedFrom(text, token, 0)
  {
    var depth: nat := 0;
    var i := 0;
    while i <= |text| - |token|
      invariant 0 <= i <= |text|
      invariant depth == DepthAfter(text, i)
      invariant forall k :: 0 <= k < i ==> !UnnestedAt(text, token, k)
      decreases |text| - i
    {
      var c := text[i];
      if c == '(' || c == '[' || c == '{' {
        depth := depth + 1;
      } else if c == ')' || c == ']' || c == '}' {
        depth := if depth - 1 > 0 then depth - 1 else 0;
      }
      if depth == 0 && text[i..i + |token|] == token {
        return i;
      }
      i := i + 1;
    }
    return -1;
  }

  // ---------------------------------------------------------------------
  // Quotes and choice parts
  // ---------------------------------------------------------------------

  /** StripSurroundingQuotes: trim, then remove one layer of matching `"` or `'` quotes and trim again. */
  function StripSurroundingQuotes(s: string): (r: string)
    ensures Trimmed(r)
  {
    var t := Trim(s);
    if |t| >= 2 && ((t[0] == '"' && t[|t| - 1] == '"') || (t[0] == '\'' && t[|t| - 1] == '\'')) then Trim(t[1..|t| - 1])
    else t
  }

  /** A quoted text is already trimmed. */
  lemma QuotedIsTrimmed(q: char, x: string)
    requires q == '"' || q == '\''
    ensures Trim([q] + x + [q]) == [q] + x + [q]
  {
    var s := [q] + x + [q];
    assert !IsWhiteSpace(s[0]);
    assert TrimStart(s) == s;
    assert !IsWhiteSpace(s[|s| - 1]);
    assert TrimEnd(s) == s;
  }

  /** Exactly one layer goes: the inside of a quoted word is kept with its own quotes. */
  lemma {:induction false} StripOneLayer(q: char, x: string)
    requires q == '"' || q == '\''
    ensures StripSurroundingQuotes([q] + x + [q]) == Trim(x)
  {
    var s := [q] + x + [q];
    assert s[1..|s| - 1] == x;
    assert |s| >= 2 && s[0] == q && s[|s| - 1] == q;
    QuotedIsTrimmed(q, x);
  }

  /** Unquoted trimmed text is a fixed point. */
  lemma StripUnquoted(s: string)
    requires Trimmed(s)
    requires |s| < 2 || (s[0] != '"' && s[0] != '\'')
    ensures StripSurroundingQuotes(s) == s
  {
  }

  datatype ChoiceParts = ChoiceParts(choiceText: string, nextId: string)

  /** The label and the target named by a `[[...]]` inner text. */
  function ParseChoice(raw: string): (r: ChoiceParts)
    ensures Trimmed(r.choiceText) && Trimmed(r.nextId)
  {
    var parts := SplitAtArrow(Trim(raw));
    ChoiceParts(StripSurroundingQuotes(parts.choiceText), StripSurroundingQuotes(parts.nextId))
  }

  /** `label->target`, else `target<-label`, else the whole text as both. */
  function SplitAtArrow(inner: string): ChoiceParts {
    var a := UnnestedFrom(inner, "->", 0);
    if a >= 0 then ChoiceParts(Trim(inner[..a]), Trim(inner[a + 2..]))
    else
      var b := UnnestedFrom(inner, "<-", 0);
      if b >= 0 then ChoiceParts(Trim(inner[b + 2..]), Trim(inner[..b]))
      else ChoiceParts(inner, inner)
  }

  /** Without arrows the label and the target are the same text. */
  lemma {:induction false} ParseChoiceNoArrow(raw: string)
    requires forall i :: !OccursAt(Trim(raw), "->", i) && !OccursAt(Trim(raw), "<-", i)
    ensures ParseChoice(raw).choiceText == ParseChoice(raw).nextId == StripSurroundingQuotes(Trim(raw))
  {
    var inner := Trim(raw);
    assert UnnestedFrom(inner, "->", 0) == -1;
    assert UnnestedFrom(inner, "<-", 0) == -1;
  }

  /** No bracket that changes the depth. */
  predicate NoBrackets(x: string) {
    forall k :: 0 <= k < |x| ==> x[k] !in "()[]{}"
  }

  lemma {:induction false} DepthZero(text: string, n: nat)
    requires n <= |text| && NoBrackets(text[..n])
    ensures DepthAfter(text, n) == 0
    decreases n
  {
    if n > 0 {
      assert text[..n][n - 1] == text[n - 1];
      assert text[..n - 1] == text[..n][..n - 1];
      DepthZero(text, n - 1);
    }
  }

  /** In x + arrow + y the first unnested arrow is the one after x, when x has no bracket and no arrow. */
  lemma {:induction false} FirstArrowAfter(x: string, arrow: string, y: string)
    requires |arrow| == 2 && arrow[0] !in "()[]{}" && arrow[0] != arrow[1]
    requires NoBrackets(x) && forall k :: !OccursAt(x, arrow, k)
    ensures UnnestedFrom(x + arrow + y, arrow, 0) == |x|
  {
    var raw := x + arrow + y;
    assert raw[..|x| + 1] == x + [arrow[0]];
    assert NoBrackets(raw[..|x| + 1]);
    DepthZero(raw, |x| + 1);
    assert UnnestedAt(raw, arrow, |x|) by { assert raw[|x|..|x| + 2] == arrow; }
    forall k | 0 <= k < |x|
      ensures !OccursAt(raw, arrow, k)
    {
      if k + 2 <= |x| {
        assert raw[k..k + 2] == x[k..k + 2];
        assert !OccursAt(x, arrow, k);
      } else {
        assert raw[k + 1] == arrow[0];
        NotOccursAt(raw, arrow, k, 1);
      }
    }
  }

  /** A token that occurs nowhere is not found unnested either. */
  lemma NoUnnested(text: string, token: string)
    requires forall k :: !OccursAt(text, token, k)
    ensures UnnestedFrom(text, token, 0) == -1
  {
  }

  /**
   * `label->target`: the label is what stands before the first unnested arrow,
   * the target what follows it; one layer of quotes goes from each.
   */
  lemma {:induction false} ParseChoiceArrow(x: string, y: string)
    requires x != "" && y != "" && Trimmed(x) && Trimmed(y)
    requires NoBrackets(x) && forall k :: !OccursAt(x, "->", k)
    ensures ParseChoice(x + "->" + y) == ChoiceParts(StripSurroundingQuotes(x), StripSurroundingQuotes(y))
  {
    var raw := x + "->" + y;
    assert raw[0] == x[0] && raw[|raw| - 1] == y[|y| - 1];
    TrimOfTrimmed(raw);
    FirstArrowAfter(x, "->", y);
    assert raw[..|x|] == x && raw[|x| + 2..] == y;
  }

  /** `target<-label`, when the inner text has no `->` at all. */
  lemma {:induction false} ParseChoiceBackArrow(x: string, y: string)
    requires x != "" && y != "" && Trimmed(x) && Trimmed(y)
    requires NoBrackets(x) && forall k :: !OccursAt(x, "<-", k)
    requires forall k :: !OccursAt(x + "<-" + y, "->", k)
    ensures ParseChoice(x + "<-" + y) == ChoiceParts(StripSurroundingQuotes(y), StripSurroundingQuotes(x))
  {
    var raw := x + "<-" + y;
    assert raw[0] == x[0] && raw[|raw| - 1] == y[|y| - 1];
    TrimOfTrimmed(raw);
    NoUnnested(raw, "->");
    FirstArrowAfter(x, "<-", y);
    assert raw[..|x|] == x && raw[|x| + 2..] == y;
    TrimOfTrimmed(x);
    TrimOfTrimmed(y);
    assert SplitAtArrow(raw) == ChoiceParts(y, x);
  }
}
