/** Worked examples of the terminal component: what each line shows, in
    which style, and what the copy button copies, for the shapes of output
    the component is meant for. Each example is derived from the general
    lemmas, through the small combinators in the first part. */
module Scenarios {

  import opened Wrappers
  import opened Text
  import opened Sgr
  import opened Controls
  import opened Render
  import Strip

  const Green: Style := Style("text-green-400", false)
  const Red: Style := Style("text-red-400", false)
  const BoldRed: Style := Style("text-red-400", true)

  /** Visible text of one line: not empty, no newline, no escape or CSI
      character. */
  predicate PlainText(t: string)
  {
    t != [] && '\n' !in t && forall i :: 0 <= i < |t| ==> !Strip.IsIntroducer(t[i])
  }

  // ---------------------------------------------------------------------
  // Combinators

  /** Output without a newline is one line. */
  lemma {:induction false} OneLine(text: string)
    requires '\n' !in text
    ensures RenderText(text) == [RenderLine(text)]
  {
    SplitNoSeparator(text, '\n');
  }

  /** A line whose scan yields segments is drawn as those segments. */
  lemma {:induction false} LineIsScan(line: string, segs: seq<Segment>)
    requires Scan(line, DefaultStyle) == segs && segs != []
    ensures RenderLine(line) == segs
  {
  }

  /** A line that is one line of output. */
  lemma {:induction false} OneRenderedLine(line: string, segs: seq<Segment>)
    requires '\n' !in line
    requires Scan(line, DefaultStyle) == segs && segs != []
    ensures RenderText(line) == [segs]
  {
    LineIsScan(line, segs);
    OneLine(line);
  }

  lemma {:induction false} PlainHasNoEsc(t: string)
    requires PlainText(t)
    ensures ESC !in t
  {
    assert forall i :: 0 <= i < |t| ==> t[i] != ESC;
  }

  /** Plain text is drawn as it is, and copied as it is. */
  lemma {:induction false} PlainOutput(t: string)
    requires PlainText(t)
    ensures RenderText(t) == [[Segment(t, DefaultStyle)]]
    ensures Strip.Strip(t) == t
  {
    PlainHasNoEsc(t);
    ScanPlain(t, DefaultStyle);
    OneRenderedLine(t, [Segment(t, DefaultStyle)]);
    Strip.StripPlain(t);
  }

  /** A sequence never breaks a line. */
  lemma {:induction false} SgrTextUnbroken(p: string)
    requires '\n' !in p
    ensures '\n' !in SgrText(p)
  {
    assert SgrText(p) == [ESC, '['] + p + ['m'];
  }

  /** A sequence, then text without an escape: the text is one segment in the
      style the sequence's codes produce. */
  lemma {:induction false} SgrThenText(p: string, text: string, st: Style)
    requires IsSgrParams(p) && ESC !in text
    ensures Scan(SgrText(p) + text, st) == Emit(text, ApplyCodes(st, SplitOn(p, ';')))
  {
    ScanLeadingSgr(p, text, st);
    ScanPlain(text, ApplyCodes(st, SplitOn(p, ';')));
  }

  /** Text, then a sequence that ends the line: one segment for the text. */
  lemma {:induction false} TextThenSgr(text: string, p: string, st: Style)
    requires IsSgrParams(p) && ESC !in text
    ensures Scan(text + SgrText(p), st) == Emit(text, st)
  {
    AppendEmpty(text + SgrText(p));
    ScanAfterPlain(text, p, [], st);
    assert FindSgr([]) == None;
  }

  /** Text between two sequences: one segment, in the style of the first. */
  lemma {:induction false} Wrapped(p: string, t: string, q: string, st: Style)
    requires IsSgrParams(p) && IsSgrParams(q) && ESC !in t
    ensures Scan(SgrText(p) + t + SgrText(q), st) == Emit(t, ApplyCodes(st, SplitOn(p, ';')))
  {
    Regroup3(SgrText(p), t, SgrText(q));
    ScanAfterPlain([], p, t + SgrText(q), st);
    TextThenSgr(t, q, ApplyCodes(st, SplitOn(p, ';')));
  }

  /** Text between two sequences, then more text in the style of the second. */
  lemma {:induction false} WrappedThenText(p: string, t: string, q: string, u: string, st: Style)
    requires IsSgrParams(p) && IsSgrParams(q) && ESC !in t && ESC !in u
    ensures Scan(SgrText(p) + t + SgrText(q) + u, st) ==
      Emit(t, ApplyCodes(st, SplitOn(p, ';')))
      + Emit(u, ApplyCodes(ApplyCodes(st, SplitOn(p, ';')), SplitOn(q, ';')))
  {
    var s1 := ApplyCodes(st, SplitOn(p, ';'));
    Regroup4(SgrText(p), t, SgrText(q), u);
    ScanAfterPlain([], p, t + SgrText(q) + u, st);
    ScanAfterPlain(t, q, u, s1);
    ScanPlain(u, ApplyCodes(s1, SplitOn(q, ';')));
  }

  /** Copying text between two sequences keeps the text and what follows. */
  lemma {:induction false} StripWrapped(g: seq<string>, t: string, h: seq<string>, u: string)
    requires |g| >= 1 && Strip.ShortGroups(g) && |h| >= 1 && Strip.ShortGroups(h)
    requires forall i :: 0 <= i < |t| ==> !Strip.IsIntroducer(t[i])
    requires forall i :: 0 <= i < |u| ==> !Strip.IsIntroducer(u[i])
    ensures Strip.Strip(SgrText(Join(g, ';')) + t + SgrText(Join(h, ';')) + u) == t + u
  {
    var a := SgrText(Join(g, ';'));
    var b := SgrText(Join(h, ';'));
    AppendAssoc(a, t, b);
    AppendAssoc(a, t + b, u);
    Strip.StripLeadingSgr(g, t + b + u);
    Strip.StripSgr(t, h, u);
    Strip.StripPlain(t);
    Strip.StripPlain(u);
  }

  /** The codes of a parameter string without a semicolon: the string itself. */
  lemma {:induction false} SingleCode(p: string)
    requires ';' !in p
    ensures SplitOn(p, ';') == [p]
  {
    SplitNoSeparator(p, ';');
  }

  // ---------------------------------------------------------------------
  // Facts about the codes the examples use

  lemma {:induction false} GreenCodes()
    ensures IsSgrParams("32") && IsSgrParams("0")
    ensures Join(["32"], ';') == "32" && Join(["0"], ';') == "0"
    ensures Strip.ShortGroups(["32"]) && Strip.ShortGroups(["0"])
    ensures ApplyCodes(DefaultStyle, SplitOn("32", ';')) == Green
  {
    SingleCode("32");
    assert ApplyCode(DefaultStyle, "32") == Green;
  }

  lemma {:induction false} ResetCode(st: Style)
    ensures ApplyCodes(st, SplitOn("0", ';')) == DefaultStyle
  {
    SingleCode("0");
  }

  lemma {:induction false} ErrorCodes()
    ensures IsSgrParams("1;31") && IsSgrParams("0")
    ensures Join(["1", "31"], ';') == "1;31" && Join(["0"], ';') == "0"
    ensures Strip.ShortGroups(["1", "31"]) && Strip.ShortGroups(["0"])
  {
  }

  // ---------------------------------------------------------------------
  // "\x1b[32mOK\x1b[0m"

  /** `"\x1b[32m" + t + "\x1b[0m"` (as in `"\x1b[32mOK\x1b[0m"`): one line,
      one green segment `t`; the trailing reset leaves no text behind it.
      The copy is `t`. */
  lemma {:induction false} GreenText(t: string)
    requires PlainText(t)
    ensures RenderText(SgrText("32") + t + SgrText("0")) == [[Segment(t, Green)]]
    ensures Strip.Strip(SgrText("32") + t + SgrText("0")) == t
  {
    var line := SgrText("32") + t + SgrText("0");
    GreenCodes();
    PlainHasNoEsc(t);
    Wrapped("32", t, "0", DefaultStyle);
    SgrTextUnbroken("32");
    SgrTextUnbroken("0");
    OneRenderedLine(line, [Segment(t, Green)]);
    StripWrapped(["32"], t, ["0"], []);
    AppendEmpty(line);
    AppendEmpty(t);
  }

  // ---------------------------------------------------------------------
  // "plain text"

  /** `"plain text"`: one default segment, copied unchanged. */
  lemma {:induction false} PlainLine()
    ensures RenderText("plain text") == [[Segment("plain text", DefaultStyle)]]
    ensures Strip.Strip("plain text") == "plain text"
  {
    PlainOutput("plain text");
  }

  // ---------------------------------------------------------------------
  // "\x1b[1;31mERROR\x1b[0m: failed"

  /** `"\x1b[1;31m" + t + "\x1b[0m" + u` (as in
      `"\x1b[1;31mERROR\x1b[0m: failed"`): `t` in bold red, then `u` back in
      the default style; the copy is `t + u`. */
  lemma {:induction false} ErrorText(t: string, u: string)
    requires PlainText(t) && PlainText(u)
    ensures RenderText(SgrText("1;31") + t + SgrText("0") + u)
         == [[Segment(t, BoldRed), Segment(u, DefaultStyle)]]
    ensures Strip.Strip(SgrText("1;31") + t + SgrText("0") + u) == t + u
  {
    ErrorTextShown(t, u);
    ErrorTextCopied(t, u);
  }

  lemma {:induction false} ErrorTextShown(t: string, u: string)
    requires PlainText(t) && PlainText(u)
    ensures RenderText(SgrText("1;31") + t + SgrText("0") + u)
         == [[Segment(t, BoldRed), Segment(u, DefaultStyle)]]
  {
    var line := SgrText("1;31") + t + SgrText("0") + u;
    ErrorTextScan(t, u);
    SgrTextUnbroken("1;31");
    SgrTextUnbroken("0");
    OneRenderedLine(line, [Segment(t, BoldRed), Segment(u, DefaultStyle)]);
  }

  lemma {:induction false} ErrorTextScan(t: string, u: string)
    requires PlainText(t) && PlainText(u)
    ensures Scan(SgrText("1;31") + t + SgrText("0") + u, DefaultStyle)
         == [Segment(t, BoldRed), Segment(u, DefaultStyle)]
  {
    ErrorCodes();
    PlainHasNoEsc(t);
    PlainHasNoEsc(u);
    WrappedThenText("1;31", t, "0", u, DefaultStyle);
    BoldRedFromDefault();
    ResetCode(BoldRed);
  }

  lemma {:induction false} ErrorTextCopied(t: string, u: string)
    requires PlainText(t) && PlainText(u)
    ensures Strip.Strip(SgrText("1;31") + t + SgrText("0") + u) == t + u
  {
    ErrorCodes();
    StripWrapped(["1", "31"], t, ["0"], u);
  }

  // ---------------------------------------------------------------------
  // Line structure

  /** `"a\nb"`: two lines, each one default segment. */
  lemma {:induction false} TwoLines()
    ensures RenderText("a\nb") == [[Segment("a", DefaultStyle)], [Segment("b", DefaultStyle)]]
  {
    RenderTextAppend("a", "b");
    assert "a" + ['\n'] + "b" == "a\nb";
    PlainOutput("a");
    PlainOutput("b");
  }

  /** `""`: one line holding the placeholder space. */
  lemma {:induction false} EmptyOutput()
    ensures RenderText("") == [[Segment(" ", DefaultStyle)]]
  {
    OneLine("");
    assert FindSgr("") == None;
  }

  /** An empty line between two lines keeps its height: it is drawn as a
      space. */
  lemma {:induction false} EmptyLineBetween(a: string, b: string)
    requires PlainText(a) && PlainText(b)
    ensures RenderText(a + "\n\n" + b) ==
      [[Segment(a, DefaultStyle)], [Segment(" ", DefaultStyle)], [Segment(b, DefaultStyle)]]
  {
    RenderTextAppend(a, "\n" + b);
    assert a + ['\n'] + ("\n" + b) == a + "\n\n" + b;
    RenderTextAppend("", b);
    assert "" + ['\n'] + b == "\n" + b;
    PlainOutput(a);
    PlainOutput(b);
    EmptyOutput();
  }

  /** Red set on one line does not reach the next. */
  lemma {:induction false} StyleEndsWithLine(t: string, u: string)
    requires PlainText(t) && PlainText(u)
    ensures RenderText(SgrText("31") + t + "\n" + u) ==
      [[Segment(t, Red)], [Segment(u, DefaultStyle)]]
  {
    var first := SgrText("31") + t;
    RenderTextAppend(first, u);
    assert first + ['\n'] + u == SgrText("31") + t + "\n" + u;
    PlainHasNoEsc(t);
    RedCode();
    SgrThenText("31", t, DefaultStyle);
    SgrTextUnbroken("31");
    OneRenderedLine(first, [Segment(t, Red)]);
    PlainOutput(u);
  }

  lemma {:induction false} RedCode()
    ensures IsSgrParams("31")
    ensures ApplyCodes(DefaultStyle, SplitOn("31", ';')) == Red
  {
    SingleCode("31");
    assert ApplyCode(DefaultStyle, "31") == Red;
  }

  // ---------------------------------------------------------------------
  // Codes without an effect

  /** Code 99 is not in the table: the text after it keeps the style it had. */
  lemma {:induction false} UnknownCodeIgnored(t: string, st: Style)
    requires ESC !in t
    ensures Scan(SgrText("99") + t, st) == Emit(t, st)
  {
    UnknownCode(st);
    SgrThenText("99", t, st);
  }

  lemma {:induction false} UnknownCode(st: Style)
    ensures IsSgrParams("99")
    ensures ApplyCodes(st, SplitOn("99", ';')) == st
  {
    SingleCode("99");
    UnknownNotColor();
  }

  lemma {:induction false} UnknownNotColor()
    ensures "99" !in ColorMap
  {
    ColorMapKeys();
  }

  /** Background codes (41) are ignored; the colour code beside them applies. */
  lemma {:induction false} BackgroundIgnored(t: string)
    requires ESC !in t && t != []
    ensures RenderLine(SgrText("31;41") + t) == [Segment(t, Red)]
  {
    RedBackgroundCodes();
    SgrThenText("31;41", t, DefaultStyle);
    LineIsScan(SgrText("31;41") + t, [Segment(t, Red)]);
  }

  lemma {:induction false} RedBackgroundCodes()
    ensures IsSgrParams("31;41")
    ensures ApplyCodes(DefaultStyle, SplitOn("31;41", ';')) == Red
  {
    SplitRedBackground();
    ApplyRedBackground();
  }

  lemma {:induction false} SplitRedBackground()
    ensures SplitOn("31;41", ';') == ["31", "41"]
  {
    assert Join(["31", "41"], ';') == "31;41";
    SplitJoin(["31", "41"], ';');
  }

  lemma {:induction false} ApplyRedBackground()
    ensures ApplyCodes(DefaultStyle, ["31", "41"]) == Red
  {
    var codes := ["31", "41"];
    ApplyCodesSnoc(DefaultStyle, codes, 1);
    assert codes[..2] == codes && codes[..1] == ["31"];
    BackgroundNotColor();
  }

  lemma {:induction false} BackgroundNotColor()
    ensures "41" !in ColorMap
  {
    ColorMapKeys();
    assert "41" !in ForegroundCodes;
  }

  // ---------------------------------------------------------------------
  // Text the renderer shows raw

  /** A line made only of a sequence yields no segment, so the placeholder
      shows the raw line, escape included. */
  lemma {:induction false} OnlySequence()
    ensures RenderLine(SgrText("31")) == [Segment(SgrText("31"), DefaultStyle)]
  {
    RedCode();
    TextThenSgr([], "31", DefaultStyle);
    AppendEmpty(SgrText("31"));
  }

  /** `"\x1bnotreal text"` is shown literally, escape included, but the
      copy drops the escape together with the `n` after it. */
  lemma {:induction false} NotRealSequence()
    ensures RenderLine([ESC] + "notreal text") == [Segment([ESC] + "notreal text", DefaultStyle)]
    ensures Strip.Strip([ESC] + "notreal text") == "otreal text"
  {
    var line := [ESC] + "notreal text";
    NotRealScan(line);
    LineIsScan(line, [Segment(line, DefaultStyle)]);
    NotRealCopy(line);
  }

  lemma {:induction false} NotRealScan(line: string)
    requires line == [ESC] + "notreal text"
    ensures Scan(line, DefaultStyle) == [Segment(line, DefaultStyle)]
  {
    assert line[0] == ESC && line[1] == 'n';
    assert SgrAt(line) == None;
    assert ESC !in line[1..];
    FindSgrNoEsc(line[1..]);
    assert FindSgr(line) == None;
  }

  lemma {:induction false} NotRealCopy(line: string)
    requires line == [ESC] + "notreal text"
    ensures Strip.Strip(line) == "otreal text"
  {
    assert line == [ESC, 'n'] + "otreal text";
    assert Strip.MatchAt(line) == Some(2) by {
      assert Strip.IsFinalChar('n');
    }
    assert line[2..] == "otreal text";
    Strip.StripPlain("otreal text");
  }

  /** `"\x1b[31x"`: without the closing `m` nothing matches, and the line is
      shown as it is. */
  lemma {:induction false} UnterminatedKept()
    ensures RenderLine([ESC] + "[31x") == [Segment([ESC] + "[31x", DefaultStyle)]
  {
    var line := [ESC] + "[31x";
    UnterminatedScan(line);
    LineIsScan(line, [Segment(line, DefaultStyle)]);
  }

  lemma {:induction false} UnterminatedScan(line: string)
    requires line == [ESC] + "[31x"
    ensures Scan(line, DefaultStyle) == [Segment(line, DefaultStyle)]
  {
    assert line[2..] == "31x";
    assert ParamRun("x") == 0;
    assert ParamRun("31x") == 2;
    assert SgrAt(line) == None;
    assert ESC !in line[1..];
    FindSgrNoEsc(line[1..]);
    assert FindSgr(line) == None;
  }

  // ---------------------------------------------------------------------
  // Proof helpers: regrouping concatenations

  /** `a + b + c` regrouped behind an empty prefix, the shape the
      one-sequence lemmas take. */
  lemma {:induction false} Regroup3<T>(a: seq<T>, b: seq<T>, c: seq<T>)
    ensures a + b + c == [] + a + (b + c)
  {
    AppendAssoc(a, b, c);
    AppendEmpty(a);
  }

  lemma {:induction false} Regroup4<T>(a: seq<T>, t: seq<T>, b: seq<T>, u: seq<T>)
    ensures a + t + b + u == [] + a + (t + b + u)
  {
    AppendAssoc(a, t, b);
    AppendAssoc(a, t + b, u);
    AppendEmpty(a);
  }
}
