/** The terminal renderer: each line of the output is scanned left to right
    for SGR sequences `ESC [ <digits and semicolons>+ m` (the control-sequence
    syntax of ECMA-48 section 5.4, restricted to a non-empty parameter list);
    the text between sequences becomes styled segments, and the parameters of
    each sequence update the style used for the text after it.

    The functions here carry only the contracts their own definitions need;
    what they mean is stated by the lemmas after them. */
module Render {

  import opened Wrappers
  import opened Text
  import opened Sgr
  import opened Controls

  /** A run of text with the style it is drawn in (one `<span>`). */
  datatype Segment = Segment(text: string, style: Style)

  /** One match of the renderer's pattern: where it starts in the searched
      text and its captured parameter text. */
  datatype SgrMatch = SgrMatch(index: nat, params: string)

  predicate IsParamChar(c: char)
  {
    '0' <= c <= '9' || c == ';'
  }

  /** A parameter list the renderer's pattern accepts: one or more digits
      and semicolons. */
  predicate IsSgrParams(p: string)
  {
    p != [] && forall i :: 0 <= i < |p| ==> IsParamChar(p[i])
  }

  // ---------------------------------------------------------------------
  // Matching one sequence

  /** Length of the longest prefix of `t` made of parameter characters. */
  function ParamRun(t: string): (n: nat)
    ensures n <= |t|
    decreases |t|
  {
    if t != [] && IsParamChar(t[0]) then 1 + ParamRun(t[1..]) else 0
  }

  /** The run is made of parameter characters and cannot be extended. */
  lemma {:induction false} ParamRunMaximal(t: string)
    ensures forall i :: 0 <= i < ParamRun(t) ==> IsParamChar(t[i])
    ensures ParamRun(t) < |t| ==> !IsParamChar(t[ParamRun(t)])
    decreases |t|
  {
    if t != [] && IsParamChar(t[0]) {
      ParamRunMaximal(t[1..]);
    }
  }

  lemma {:induction false} ParamRunStops(p: string, c: char, rest: string)
    requires forall i :: 0 <= i < |p| ==> IsParamChar(p[i])
    requires !IsParamChar(c)
    ensures ParamRun(p + [c] + rest) == |p|
    decreases |p|
  {
    if p != [] {
      assert (p + [c] + rest)[1..] == p[1..] + [c] + rest;
      ParamRunStops(p[1..], c, rest);
    }
  }

  /** The pattern tried at the start of `t`; the result is the captured
      parameter text. The greedy `[0-9;]+` never needs to give characters
      back, because the `m` that must follow it is not a parameter character. */
  function SgrAt(t: string): (r: Option<string>)
    ensures r.Some? ==> |r.value| + 3 <= |t|
  {
    if |t| >= 2 && t[0] == ESC && t[1] == '[' then
      var n := ParamRun(t[2..]);
      if n >= 1 && 2 + n < |t| && t[2 + n] == 'm' then Some(t[2..2 + n]) else None
    else None
  }

  /** The pattern matches at the start of `t` with parameters `p` exactly
      when `t` begins with the sequence `ESC [ p m` and `p` is a non-empty
      run of digits and semicolons. */
  lemma {:induction false} SgrAtIff(t: string, p: string)
    ensures SgrAt(t) == Some(p) <==>
      IsSgrParams(p) && |SgrText(p)| <= |t| && t[..|SgrText(p)|] == SgrText(p)
  {
    if SgrAt(t) == Some(p) {
      ParamRunMaximal(t[2..]);
      var n := |p|;
      assert t[..n + 3] == [ESC, '['] + t[2..2 + n] + ['m'];
    }
    if IsSgrParams(p) && |SgrText(p)| <= |t| && t[..|SgrText(p)|] == SgrText(p) {
      assert t == SgrText(p) + t[|SgrText(p)|..];
      SgrAtSgrText(p, t[|SgrText(p)|..]);
    }
  }

  /** Every SGR sequence with a non-empty parameter list is matched in full,
      whatever follows it. */
  lemma {:induction false} SgrAtSgrText(params: string, rest: string)
    requires IsSgrParams(params)
    ensures SgrAt(SgrText(params) + rest) == Some(params)
  {
    var t := SgrText(params) + rest;
    assert t[2..] == params + ['m'] + rest;
    ParamRunStops(params, 'm', rest);
    assert t[2..2 + |params|] == params;
  }

  // ---------------------------------------------------------------------
  // Searching for the next sequence

  /** `ansiRegex.exec` on `t`: the leftmost position where the pattern matches. */
  function FindSgr(t: string): (r: Option<SgrMatch>)
    ensures r.Some? ==> r.value.index + |r.value.params| + 3 <= |t|
    decreases |t|
  {
    if t == [] then None
    else match SgrAt(t)
      case Some(params) => Some(SgrMatch(0, params))
      case None =>
        match FindSgr(t[1..])
        case None => None
        case Some(m) => Some(SgrMatch(m.index + 1, m.params))
  }

  /** The search finds the leftmost match: the pattern matches at the index
      found, with the parameters found, and at no earlier position; when
      nothing is found it matches nowhere. */
  lemma {:induction false} FindSgrLeftmost(t: string)
    ensures FindSgr(t).Some? ==>
      SgrAt(t[FindSgr(t).value.index..]) == Some(FindSgr(t).value.params)
      && forall p :: 0 <= p < FindSgr(t).value.index ==> SgrAt(t[p..]).None?
    ensures FindSgr(t).None? ==> forall p :: 0 <= p <= |t| ==> SgrAt(t[p..]).None?
    decreases |t|
  {
    if t != [] && SgrAt(t).None? {
      FindSgrLeftmost(t[1..]);
      assert forall p :: 1 <= p <= |t| ==> t[1..][p - 1..] == t[p..];
    }
  }

  /** Text without an escape character holds no sequence. */
  lemma {:induction false} FindSgrNoEsc(t: string)
    requires ESC !in t
    ensures FindSgr(t) == None
    decreases |t|
  {
    if t != [] {
      assert t[0] != ESC;
      assert ESC !in t[1..];
      FindSgrNoEsc(t[1..]);
    }
  }

  /** After plain text, the next match is the sequence that follows it. */
  lemma {:induction false} FindSgrAfterPlain(plain: string, p: string, rest: string)
    requires ESC !in plain
    requires IsSgrParams(p)
    ensures FindSgr(plain + SgrText(p) + rest) == Some(SgrMatch(|plain|, p))
    decreases |plain|
  {
    var t := plain + SgrText(p) + rest;
    if plain == [] {
      assert t == SgrText(p) + rest;
      SgrAtSgrText(p, rest);
    } else {
      assert t[0] == plain[0] != ESC;
      assert t[1..] == plain[1..] + SgrText(p) + rest;
      assert ESC !in plain[1..];
      FindSgrAfterPlain(plain[1..], p, rest);
    }
  }

  // ---------------------------------------------------------------------
  // Scanning one line

  /** The segment for a piece of text, if the text is not empty. */
  function Emit(text: string, st: Style): seq<Segment>
  {
    if text == [] then [] else [Segment(text, st)]
  }

  /** The segments emitted for the rest `t` of a line when the current style
      is `st`: the text before the next sequence in the current style, then
      the rest after that sequence in the style its codes produce, and at the
      end of the line the remaining text in the final style. */
  function Scan(t: string, st: Style): (segments: seq<Segment>)
    ensures |segments| <= |t|
    decreases |t|, 1
  {
    match FindSgr(t)
    case None => Emit(t, st)
    case Some(m) => ScanPast(t, st, m)
  }

  /** The scan once the search has found `m`: the text before it in the
      current style, then the rest of the line in the style its codes produce. */
  function ScanPast(t: string, st: Style, m: SgrMatch): (segments: seq<Segment>)
    requires m.index + |m.params| + 3 <= |t|
    ensures |segments| <= |t|
    decreases |t|, 0
  {
    Emit(t[..m.index], st) + Scan(t[m.index + |m.params| + 3..], ApplyCodes(st, SplitOn(m.params, ';')))
  }

  /** One step of the scan, seen from position `from` of the whole line:
      the text before the match, then the scan resumed at `to`, just past
      the match, in the style `next` its codes produce. */
  lemma {:induction false} ScanAdvance(line: string, from: nat, to: nat, st: Style, m: SgrMatch, next: Style)
    requires from <= |line|
    requires FindSgr(line[from..]) == Some(m)
    requires to == from + m.index + |m.params| + 3
    requires next == ApplyCodes(st, SplitOn(m.params, ';'))
    ensures to <= |line|
    ensures Scan(line[from..], st) == Emit(line[from..from + m.index], st) + Scan(line[to..], next)
  {
    var t := line[from..];
    assert m.index + |m.params| + 3 <= |t|;
    SliceOfSlice(line, from, m.index, m.index + |m.params| + 3, to);
    ScanSplit(t, st, m, line[from..from + m.index], line[to..], next);
  }

  /** The scan of `t` when the search finds `m` in it. */
  lemma {:induction false} ScanUnfold(t: string, st: Style, m: SgrMatch)
    requires FindSgr(t) == Some(m)
    ensures m.index + |m.params| + 3 <= |t|
    ensures Scan(t, st) ==
      Emit(t[..m.index], st) + Scan(t[m.index + |m.params| + 3..], ApplyCodes(st, SplitOn(m.params, ';')))
  {
    assert Scan(t, st) == ScanPast(t, st, m);
  }

  /** ScanUnfold, with the text before the match, the text after it and the
      next style named by the caller. */
  lemma {:induction false} ScanSplit(t: string, st: Style, m: SgrMatch, before: string, after: string, next: Style)
    requires FindSgr(t) == Some(m)
    requires m.index + |m.params| + 3 <= |t|
    requires before == t[..m.index] && after == t[m.index + |m.params| + 3..]
    requires next == ApplyCodes(st, SplitOn(m.params, ';'))
    ensures Scan(t, st) == Emit(before, st) + Scan(after, next)
  {
    ScanUnfold(t, st, m);
  }

  /** The loop of the renderer keeps the scan of the whole line split into
      the segments pushed so far and the scan of what is left. */
  lemma {:induction false} ScanStep(line: string, from: nat, to: nat, st: Style, m: SgrMatch,
                 done: seq<Segment>, pushed: seq<Segment>, next: Style, whole: seq<Segment>)
    requires from <= |line|
    requires FindSgr(line[from..]) == Some(m)
    requires to == from + m.index + |m.params| + 3
    requires done + Scan(line[from..], st) == whole
    requires pushed == done + Emit(line[from..from + m.index], st)
    requires next == ApplyCodes(st, SplitOn(m.params, ';'))
    ensures to <= |line|
    ensures pushed + Scan(line[to..], next) == whole
  {
    ScanAdvance(line, from, to, st, m, next);
    AppendAssoc(done, Emit(line[from..from + m.index], st), Scan(line[to..], next));
  }

  /** The text of the segments, in order. */
  function Flatten(segs: seq<Segment>): string
  {
    if segs == [] then [] else segs[0].text + Flatten(segs[1..])
  }

  lemma {:induction false} FlattenAppend(a: seq<Segment>, b: seq<Segment>)
    ensures Flatten(a + b) == Flatten(a) + Flatten(b)
    decreases |a|
  {
    if a == [] {
      AppendEmpty(b);
    } else {
      assert (a + b)[0] == a[0];
      assert (a + b)[1..] == a[1..] + b;
      FlattenAppend(a[1..], b);
      AppendAssoc(a[0].text, Flatten(a[1..]), Flatten(b));
    }
  }

  /** The visible text of a line, defined position by position: a sequence
      that the pattern matches is dropped whole, any other character is kept. */
  function RemoveSgr(t: string): string
    decreases |t|
  {
    if t == [] then []
    else match SgrAt(t)
      case Some(p) => RemoveSgr(t[|p| + 3..])
      case None => [t[0]] + RemoveSgr(t[1..])
  }

  /** Where the search finds nothing, removing sequences keeps the text. */
  lemma {:induction false} RemoveSgrNoMatch(t: string)
    requires FindSgr(t) == None
    ensures RemoveSgr(t) == t
    decreases |t|
  {
    if t != [] {
      assert SgrAt(t) == None;
      RemoveSgrNoMatch(t[1..]);
      assert t == [t[0]] + t[1..];
    }
  }

  /** Removing sequences agrees with the search: the text before the first
      match is kept as it is and the match itself is dropped. */
  lemma {:induction false} RemoveSgrFirstMatch(t: string, m: SgrMatch)
    requires FindSgr(t) == Some(m)
    ensures RemoveSgr(t) == t[..m.index] + RemoveSgr(t[m.index + |m.params| + 3..])
    decreases |t|
  {
    if SgrAt(t).Some? {
      assert t[..0] == [];
      AppendEmpty(RemoveSgr(t[m.index + |m.params| + 3..]));
    } else {
      var m' := FindSgrSkip(t);
      var after := t[m.index + |m.params| + 3..];
      RemoveSgrFirstMatch(t[1..], m');
      SliceAfterFirst(t, m.index, m.index + |m.params| + 3, m'.index, m'.index + |m'.params| + 3);
      var after' := t[1..][m'.index + |m'.params| + 3..];
      RemoveSgrSkip(t);
      SameRemoval(after', after);
      ConsRegroup(t[0], t[1..][..m'.index], RemoveSgr(after'), RemoveSgr(after), RemoveSgr(t[1..]), RemoveSgr(t), t[..m.index]);
    }
  }

  /** Where no sequence starts at the first character, the search goes on
      from the second. */
  lemma {:induction false} FindSgrSkip(t: string) returns (m': SgrMatch)
    requires FindSgr(t).Some? && SgrAt(t).None?
    ensures FindSgr(t[1..]) == Some(m')
    ensures FindSgr(t) == Some(SgrMatch(m'.index + 1, m'.params))
  {
    m' := FindSgr(t[1..]).value;
  }

  /** Where no sequence starts at the first character, it is kept. */
  lemma {:induction false} RemoveSgrSkip(t: string)
    requires t != [] && SgrAt(t).None?
    ensures RemoveSgr(t) == [t[0]] + RemoveSgr(t[1..])
  {
  }

  /** Text without an escape is kept in front of whatever follows it. */
  lemma {:induction false} RemoveSgrKeepsPlain(plain: string, rest: string)
    requires ESC !in plain
    ensures RemoveSgr(plain + rest) == plain + RemoveSgr(rest)
    decreases |plain|
  {
    if plain == [] {
      assert plain + rest == rest;
    } else {
      var t := plain + rest;
      assert t[0] == plain[0] != ESC;
      assert t[1..] == plain[1..] + rest;
      assert ESC !in plain[1..];
      RemoveSgrKeepsPlain(plain[1..], rest);
      AppendAssoc([plain[0]], plain[1..], RemoveSgr(rest));
      assert [plain[0]] + plain[1..] == plain;
    }
  }

  /** A sequence the pattern matches is dropped whole. */
  lemma {:induction false} RemoveSgrDropsSgr(p: string, rest: string)
    requires IsSgrParams(p)
    ensures RemoveSgr(SgrText(p) + rest) == RemoveSgr(rest)
  {
    SgrAtSgrText(p, rest);
    assert (SgrText(p) + rest)[|p| + 3..] == rest;
  }

  /** The segments hold exactly the characters of the line that are not part
      of a matched sequence, in order: nothing is lost or duplicated. */
  lemma {:induction false} ScanText(t: string, st: Style)
    ensures Flatten(Scan(t, st)) == RemoveSgr(t)
    decreases |t|
  {
    match FindSgr(t)
    case None =>
      RemoveSgrNoMatch(t);
    case Some(m) =>
      var rest := t[m.index + |m.params| + 3..];
      var next := ApplyCodes(st, SplitOn(m.params, ';'));
      ScanUnfold(t, st, m);
      RemoveSgrFirstMatch(t, m);
      ScanText(rest, next);
      FlattenAppend(Emit(t[..m.index], st), Scan(rest, next));
      FlattenEmit(t[..m.index], st);
  }

  lemma {:induction false} FlattenEmit(text: string, st: Style)
    ensures Flatten(Emit(text, st)) == text
  {
    if text != [] {
      assert Flatten([Segment(text, st)]) == text + Flatten([]);
    }
  }

  /** No segment is empty, and every style is one the renderer knows when
      the starting style is. */
  lemma {:induction false} ScanWellFormed(t: string, st: Style)
    ensures forall i :: 0 <= i < |Scan(t, st)| ==> Scan(t, st)[i].text != []
    ensures ValidStyle(st) ==> forall i :: 0 <= i < |Scan(t, st)| ==> ValidStyle(Scan(t, st)[i].style)
    decreases |t|
  {
    match FindSgr(t)
    case None =>
    case Some(m) =>
      var rest := t[m.index + |m.params| + 3..];
      var next := ApplyCodes(st, SplitOn(m.params, ';'));
      ScanUnfold(t, st, m);
      ScanWellFormed(rest, next);
      if ValidStyle(st) {
        ApplyCodesValid(st, SplitOn(m.params, ';'));
      }
  }

  /** Text without escapes is a single segment in the current style. */
  lemma {:induction false} ScanPlain(t: string, st: Style)
    requires ESC !in t
    ensures Scan(t, st) == Emit(t, st)
  {
    FindSgrNoEsc(t);
  }

  /** A line where the pattern matches nowhere is kept literally: lone
      escapes, `ESC [ m`, and sequences ending in another letter are text. */
  lemma {:induction false} ScanUnmatched(t: string, st: Style)
    requires forall p :: 0 <= p <= |t| ==> SgrAt(t[p..]).None?
    ensures Scan(t, st) == Emit(t, st)
  {
    FindSgrLeftmost(t);
  }

  /** Plain text followed by a sequence: the text is drawn in the current
      style, and everything after the sequence in the style its codes give. */
  lemma {:induction false} ScanAfterPlain(plain: string, p: string, rest: string, st: Style)
    requires ESC !in plain
    requires IsSgrParams(p)
    ensures Scan(plain + SgrText(p) + rest, st) ==
      Emit(plain, st) + Scan(rest, ApplyCodes(st, SplitOn(p, ';')))
  {
    var t := plain + SgrText(p) + rest;
    FindSgrAfterPlain(plain, p, rest);
    assert t[..|plain|] == plain;
    assert t[|plain| + |p| + 3..] == rest;
  }

  /** A sequence at the start of the text emits nothing: the scan goes on
      after it in the style its codes produce. */
  lemma {:induction false} ScanLeadingSgr(p: string, rest: string, st: Style)
    requires IsSgrParams(p)
    ensures Scan(SgrText(p) + rest, st) == Scan(rest, ApplyCodes(st, SplitOn(p, ';')))
  {
    ScanAfterPlain([], p, rest, st);
    AppendEmpty(SgrText(p));
  }

  // ---------------------------------------------------------------------
  // Lines and whole outputs

  /** All segments of one line, in the default style at the start of the
      line; a line that yields none is drawn as one default segment holding
      the raw line, or a space when the line is empty. */
  function RenderLine(line: string): (segments: seq<Segment>)
    ensures |segments| >= 1
  {
    var scanned := Scan(line, DefaultStyle);
    if scanned == [] then [Segment(if line == [] then " " else line, DefaultStyle)]
    else scanned
  }

  /** Every rendered line has at least one non-empty segment in a known
      style; its text is the line without its sequences, or, when that is
      empty, the placeholder (a space for an empty line, otherwise the line
      itself with its sequences). */
  lemma {:induction false} RenderLineShape(line: string)
    ensures |RenderLine(line)| >= 1
    ensures forall i :: 0 <= i < |RenderLine(line)| ==>
      RenderLine(line)[i].text != [] && ValidStyle(RenderLine(line)[i].style)
    ensures Flatten(RenderLine(line)) ==
      if RemoveSgr(line) == [] then (if line == [] then " " else line) else RemoveSgr(line)
  {
    ScanWellFormed(line, DefaultStyle);
    ScanText(line, DefaultStyle);
    var segs := RenderLine(line);
    if Scan(line, DefaultStyle) == [] {
      assert Flatten(segs) == segs[0].text + Flatten([]);
    } else {
      assert Flatten(Scan(line, DefaultStyle)) != [] by {
        var s := Scan(line, DefaultStyle);
        assert Flatten(s) == s[0].text + Flatten(s[1..]);
      }
    }
  }

  /** `parts.map(f)`: `f` applied to every part, in order. */
  function MapLines(f: string -> seq<Segment>, parts: seq<string>): seq<seq<Segment>>
  {
    seq(|parts|, k requires 0 <= k < |parts| => f(parts[k]))
  }

  /** Mapping over two lists of parts in turn is mapping over both. */
  lemma {:induction false} MapLinesAppend(f: string -> seq<Segment>, a: seq<string>, b: seq<string>)
    ensures MapLines(f, a + b) == MapLines(f, a) + MapLines(f, b)
  {
    var r := MapLines(f, a + b);
    var rab := MapLines(f, a) + MapLines(f, b);
    forall k | 0 <= k < |r|
      ensures r[k] == rab[k]
    {
      if k < |a| {
        assert (a + b)[k] == a[k];
      } else {
        assert (a + b)[k] == b[k - |a|];
      }
    }
  }

  /** The whole output: one rendered line per `\n`-separated part. */
  function RenderText(text: string): (lines: seq<seq<Segment>>)
    ensures |lines| == Count(text, '\n') + 1
  {
    SplitCount(text, '\n');
    MapLines(RenderLine, SplitOn(text, '\n'))
  }

  /** Lines are rendered independently: no style carries over a newline. */
  lemma {:induction false} RenderTextAppend(a: string, b: string)
    ensures RenderText(a + ['\n'] + b) == RenderText(a) + RenderText(b)
  {
    SplitAppend(a, '\n', b);
    MapLinesAppend(RenderLine, SplitOn(a, '\n'), SplitOn(b, '\n'));
  }

  // ---------------------------------------------------------------------
  // The renderer as the component runs it

  /** The per-line body of the renderer: a loop over the matches of the
      pattern, pushing the text before each match and then applying the
      match's codes one by one, followed by the trailing text and the
      placeholder for a line that produced no segment. */
  method FormatLine(line: string) returns (segments: seq<Segment>)
    ensures segments == RenderLine(line)
  {
    segments := [];
    var currentIndex: nat := 0;
    var style := DefaultStyle;
    // The pattern is global, so each `exec` resumes where the last match ended.
    var found := FindSgr(line[currentIndex..]);
    ghost var whole := Scan(line, DefaultStyle);
    while found.Some?
      invariant currentIndex <= |line|
      invariant found == FindSgr(line[currentIndex..])
      invariant segments + Scan(line[currentIndex..], style) == whole
      decreases |line| - currentIndex
    {
      var m := found.value;
      var matchIndex := currentIndex + m.index;
      var params := m.params;
      ghost var done := segments;
      ghost var before := style;
      if matchIndex > currentIndex {
        segments := segments + [Segment(line[currentIndex..matchIndex], style)];
      }
      assert segments == done + Emit(line[currentIndex..matchIndex], before);
      style := ApplyParams(style, params);
      ghost var from := currentIndex;
      currentIndex := matchIndex + |params| + 3;
      ScanStep(line, from, currentIndex, before, m, done, segments, style, whole);
      found := FindSgr(line[currentIndex..]);
    }
    if currentIndex < |line| {
      segments := segments + [Segment(line[currentIndex..], style)];
    }
    if |segments| == 0 {
      segments := [Segment(if line == [] then " " else line, DefaultStyle)];
    }
  }

  /** The `// Parse ANSI codes` block of the loop: the captured parameter
      text is split on ";" and each code is applied in turn. */
  method ApplyParams(before: Style, params: string) returns (style: Style)
    ensures style == ApplyCodes(before, SplitOn(params, ';'))
  {
    style := before;
    var codes := SplitOn(params, ';');
    for k := 0 to |codes|
      invariant style == ApplyCodes(before, codes[..k])
    {
      var code := codes[k];
      ApplyCodesSnoc(before, codes, k);
      if code == "0" {
        style := DefaultStyle;
      } else if code == "1" {
        style := style.(bold := true);
      } else if code == "22" {
        style := style.(bold := false);
      } else if code in ColorMap {
        style := style.(colorClass := ColorMap[code]);
      }
    }
    assert codes[..|codes|] == codes;
  }

  /** `formatOutput`: the lines of the text, each formatted independently. */
  method FormatOutput(text: string) returns (lines: seq<seq<Segment>>)
    ensures lines == RenderText(text)
  {
    var parts := SplitOn(text, '\n');
    lines := [];
    for i := 0 to |parts|
      invariant |lines| == i
      invariant forall k :: 0 <= k < i ==> lines[k] == RenderLine(parts[k])
    {
      var segments := FormatLine(parts[i]);
      lines := lines + [segments];
    }
  }

  // ---------------------------------------------------------------------
  // Proof helpers: slices and congruence, kept apart so that each proof above stays small

  lemma {:induction false} SliceOfSlice<T>(s: seq<T>, from: nat, i: nat, j: nat, to: nat)
    requires from + j <= |s| && i <= j && to == from + j
    ensures s[from..][..i] == s[from..from + i]
    ensures s[from..][j..] == s[to..]
  {
  }

  /** One character in front of a concatenation, regrouped. */
  lemma {:induction false} ConsRegroup(c: char, x: string, tail: string, tail': string, r1: string, whole: string, before: string)
    requires r1 == x + tail && tail == tail'
    requires whole == [c] + r1
    requires before == [c] + x
    ensures whole == before + tail'
  {
    AppendAssoc([c], x, tail);
  }

  lemma {:induction false} SameRemoval(a: string, b: string)
    requires a == b
    ensures RemoveSgr(a) == RemoveSgr(b)
  {
  }

  /** Slices of `t` seen from its second character. */
  lemma {:induction false} SliceAfterFirst(t: string, i: nat, j: nat, i': nat, j': nat)
    requires 1 <= i <= j <= |t| && i == i' + 1 && j == j' + 1
    ensures t[..i] == [t[0]] + t[1..][..i']
    ensures t[1..][j'..] == t[j..]
  {
  }
}
