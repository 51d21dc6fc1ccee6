/** How the two halves of the terminal component relate: the text the
    renderer shows and the text the copy button puts on the clipboard.
    They agree on output made of plain text and ordinary SGR sequences, and
    the scan of such output is the left fold over its pieces; on other
    input the two patterns differ, and the copy is not idempotent. */
module Agreement {

  import opened Wrappers
  import opened Text
  import opened Sgr
  import opened Controls
  import Render
  import Strip

  /** Terminal output seen as a list of pieces: plain text, and SGR
      sequences given by their parameter groups. */
  datatype Piece = Plain(text: string) | Sequence(groups: seq<string>)

  /** Plain text holds no introducer; a sequence has at least one non-empty
      group, and groups of at most four digits. */
  predicate ValidPiece(p: Piece)
  {
    match p
    case Plain(t) => forall i :: 0 <= i < |t| ==> !Strip.IsIntroducer(t[i])
    case Sequence(g) => |g| >= 1 && Strip.ShortGroups(g) && Join(g, ';') != []
  }

  predicate ValidPieces(ps: seq<Piece>)
  {
    forall i :: 0 <= i < |ps| ==> ValidPiece(ps[i])
  }

  function PieceText(p: Piece): string
  {
    match p
    case Plain(t) => t
    case Sequence(g) => SgrText(Join(g, ';'))
  }

  /** The raw output the pieces make up. */
  function Assemble(ps: seq<Piece>): string
  {
    if ps == [] then [] else PieceText(ps[0]) + Assemble(ps[1..])
  }

  /** The plain text of the pieces, in order. */
  function Visible(ps: seq<Piece>): string
  {
    if ps == [] then []
    else (match ps[0] case Plain(t) => t case Sequence(_) => []) + Visible(ps[1..])
  }

  /** The segments of the pieces, computed as a left fold: plain text is
      emitted in the current style, a sequence's groups are applied to it. */
  function Fold(ps: seq<Piece>, st: Style): seq<Render.Segment>
  {
    if ps == [] then []
    else match ps[0]
      case Plain(t) => Render.Emit(t, st) + Fold(ps[1..], st)
      case Sequence(g) => Fold(ps[1..], ApplyCodes(st, g))
  }

  /** Adjacent plain pieces would be scanned as one segment. */
  predicate Alternating(ps: seq<Piece>)
  {
    forall i :: 0 <= i < |ps| - 1 ==> !(ps[i].Plain? && ps[i + 1].Plain?)
  }

  lemma {:induction false} ValidPiecesTail(ps: seq<Piece>)
    requires ps != [] && ValidPieces(ps)
    ensures ValidPiece(ps[0]) && ValidPieces(ps[1..])
  {
    assert forall i :: 0 <= i < |ps[1..]| ==> ps[1..][i] == ps[i + 1];
  }

  /** Groups of digits joined by semicolons are what the renderer's pattern
      accepts as parameters. */
  lemma {:induction false} JoinedGroupsAreParams(g: seq<string>)
    requires |g| >= 1 && Strip.ShortGroups(g)
    ensures forall i :: 0 <= i < |Join(g, ';')| ==> Render.IsParamChar(Join(g, ';')[i])
    ensures forall k :: 0 <= k < |g| ==> ';' !in g[k]
    decreases |g|
  {
    Strip.ShortGroupsTail(g);
    if |g| > 1 {
      JoinedGroupsAreParams(g[1..]);
      var rest := Join(g[1..], ';');
      assert Join(g, ';') == g[0] + [';'] + rest;
      forall i | 0 <= i < |Join(g, ';')|
        ensures Render.IsParamChar(Join(g, ';')[i])
      {
        if i > |g[0]| {
          assert Join(g, ';')[i] == rest[i - |g[0]| - 1];
        }
      }
      forall k | 0 <= k < |g|
        ensures ';' !in g[k]
      {
        if k > 0 {
          assert g[k] == g[1..][k - 1];
        } else {
          assert forall j :: 0 <= j < |g[0]| ==> g[0][j] != ';';
        }
      }
    } else {
      assert forall j :: 0 <= j < |g[0]| ==> g[0][j] != ';';
    }
  }

  lemma {:induction false} SequenceParams(g: seq<string>)
    requires ValidPiece(Sequence(g))
    ensures Render.IsSgrParams(Join(g, ';'))
    ensures SplitOn(Join(g, ';'), ';') == g
  {
    JoinedGroupsAreParams(g);
    SplitJoin(g, ';');
  }

  /** A plain piece is kept by both. */
  lemma {:induction false} PlainStep(t: string, rest: string, st: Style)
    requires ValidPiece(Plain(t))
    ensures Strip.Strip(t + rest) == t + Strip.Strip(rest)
    ensures Render.RemoveSgr(t + rest) == t + Render.RemoveSgr(rest)
  {
    Strip.StripKeepsPlainPrefix(t, rest);
    assert ESC !in t by {
      assert forall i :: 0 <= i < |t| ==> t[i] != ESC;
    }
    Render.RemoveSgrKeepsPlain(t, rest);
  }

  /** A sequence piece is deleted by both, and the scan goes on in the
      style its groups give. */
  lemma {:induction false} SequenceStep(g: seq<string>, rest: string, st: Style)
    requires ValidPiece(Sequence(g))
    ensures Strip.Strip(SgrText(Join(g, ';')) + rest) == Strip.Strip(rest)
    ensures Render.RemoveSgr(SgrText(Join(g, ';')) + rest) == Render.RemoveSgr(rest)
    ensures Render.Scan(SgrText(Join(g, ';')) + rest, st) == Render.Scan(rest, ApplyCodes(st, g))
  {
    var p := Join(g, ';');
    SequenceParams(g);
    Strip.StripLeadingSgr(g, rest);
    Render.RemoveSgrDropsSgr(p, rest);
    Render.ScanLeadingSgr(p, rest, st);
  }

  /** On such output the copy and the display hold the same text: the
      stripper deletes exactly the sequences the renderer hides. */
  lemma {:induction false} CopyMatchesDisplay(ps: seq<Piece>)
    requires ValidPieces(ps)
    ensures Strip.Strip(Assemble(ps)) == Visible(ps)
    ensures Render.RemoveSgr(Assemble(ps)) == Visible(ps)
    decreases |ps|
  {
    if ps != [] {
      ValidPiecesTail(ps);
      CopyMatchesDisplay(ps[1..]);
      var rest := Assemble(ps[1..]);
      match ps[0]
      case Plain(t) =>
        PlainStep(t, rest, DefaultStyle);
      case Sequence(g) =>
        SequenceStep(g, rest, DefaultStyle);
        assert Visible(ps) == [] + Visible(ps[1..]);
    }
  }

  /** Hence the segments of a line made of such pieces spell out exactly the
      text the copy button copies. */
  lemma {:induction false} SegmentsSpellCopy(ps: seq<Piece>, st: Style)
    requires ValidPieces(ps)
    ensures Render.Flatten(Render.Scan(Assemble(ps), st)) == Strip.Strip(Assemble(ps))
  {
    CopyMatchesDisplay(ps);
    Render.ScanText(Assemble(ps), st);
  }

  /** A line made of such pieces with some plain text is drawn as its
      scan, so the rendered spans spell out exactly what the copy holds. */
  lemma {:induction false} RenderedLineSpellsCopy(ps: seq<Piece>)
    requires ValidPieces(ps) && Visible(ps) != []
    ensures Render.Flatten(Render.RenderLine(Assemble(ps))) == Strip.Strip(Assemble(ps))
  {
    CopyMatchesDisplay(ps);
    Render.RenderLineShape(Assemble(ps));
  }

  /** A non-empty line made only of sequences yields no span: the
      placeholder draws it raw, escapes included, while the copy is empty. */
  lemma {:induction false} SequencesOnlyLine(ps: seq<Piece>)
    requires ValidPieces(ps) && Visible(ps) == [] && Assemble(ps) != []
    ensures Render.Flatten(Render.RenderLine(Assemble(ps))) == Assemble(ps)
    ensures Strip.Strip(Assemble(ps)) == []
  {
    CopyMatchesDisplay(ps);
    Render.RenderLineShape(Assemble(ps));
  }

  /** The scan of such output is the left fold over its pieces: each plain
      piece is drawn in the style left by the sequences before it. */
  lemma {:induction false} ScanIsFold(ps: seq<Piece>, st: Style)
    requires ValidPieces(ps) && Alternating(ps)
    ensures Render.Scan(Assemble(ps), st) == Fold(ps, st)
    decreases |ps|
  {
    if ps == [] {
      assert Render.FindSgr([]) == None;
    } else {
      ValidPiecesTail(ps);
      AlternatingTail(ps);
      match ps[0]
      case Sequence(g) =>
        ScanIsFold(ps[1..], ApplyCodes(st, g));
        SequenceStep(g, Assemble(ps[1..]), st);
      case Plain(t) =>
        if |ps| == 1 {
          ScanLastPlain(t, st);
        } else {
          ValidPiecesTail(ps[1..]);
          AlternatingTail(ps[1..]);
          var g := ps[1].groups;
          ScanIsFold(ps[2..], ApplyCodes(st, g));
          ScanPlainThenSequence(t, g, Assemble(ps[2..]), st);
          assert ps[1..][1..] == ps[2..];
        }
    }
  }

  lemma {:induction false} AlternatingTail(ps: seq<Piece>)
    requires ps != [] && Alternating(ps)
    ensures Alternating(ps[1..])
    ensures |ps| > 1 && ps[0].Plain? ==> ps[1].Sequence?
  {
    assert forall i :: 0 <= i < |ps[1..]| ==> ps[1..][i] == ps[i + 1];
  }

  lemma {:induction false} ScanLastPlain(t: string, st: Style)
    requires ValidPiece(Plain(t))
    ensures Render.Scan(Assemble([Plain(t)]), st) == Fold([Plain(t)], st)
  {
    assert ESC !in t by {
      assert forall i :: 0 <= i < |t| ==> t[i] != ESC;
    }
    assert Assemble([Plain(t)]) == t + [];
    assert t + [] == t;
    Render.ScanPlain(t, st);
    assert Fold([Plain(t)], st) == Render.Emit(t, st) + [];
  }

  lemma {:induction false} ScanPlainThenSequence(t: string, g: seq<string>, rest: string, st: Style)
    requires ValidPiece(Plain(t)) && ValidPiece(Sequence(g))
    ensures Render.Scan(t + (SgrText(Join(g, ';')) + rest), st)
         == Render.Emit(t, st) + Render.Scan(rest, ApplyCodes(st, g))
  {
    assert ESC !in t by {
      assert forall i :: 0 <= i < |t| ==> t[i] != ESC;
    }
    SequenceParams(g);
    Render.ScanAfterPlain(t, Join(g, ';'), rest, st);
    AppendAssoc(t, SgrText(Join(g, ';')), rest);
  }

  // ---------------------------------------------------------------------
  // Where the copy and the display part ways

  /** Stripping twice can remove more than stripping once: the first pass
      keeps an ESC whose own sequence fails, the second pass joins it to
      the letter the first pass uncovered. */
  lemma {:induction false} StripNotIdempotent()
    ensures Strip.Strip([ESC, ESC, 'A', 'A']) == [ESC, 'A']
    ensures Strip.Strip([ESC, 'A']) == []
  {
    var s := [ESC, ESC, 'A', 'A'];
    assert Strip.MatchPrefix(s[1..]) == None;
    assert Strip.MatchAt(s) == None;
    assert s[1..] == [ESC, 'A', 'A'];
    assert Strip.MatchAt([ESC, 'A', 'A']) == Some(2);
    assert [ESC, 'A', 'A'][2..] == ['A'];
    assert Strip.MatchAt(['A']) == None;
    assert Strip.Strip(['A']) == ['A'];
    assert Strip.MatchAt([ESC, 'A']) == Some(2);
  }

  /** A parameter of five digits followed by plain text: the renderer
      hides the whole sequence and draws the text in the default style,
      while the stripper stops at the fifth digit (a final character) and
      the copy keeps the `m` in front of the text. */
  lemma {:induction false} LongParameterKeepsM(t: string)
    requires ValidPiece(Plain(t)) && t != []
    ensures Render.RenderLine(SgrText("12345") + t) == [Render.Segment(t, DefaultStyle)]
    ensures Render.RemoveSgr(SgrText("12345") + t) == t
    ensures Strip.Strip(SgrText("12345") + t) == "m" + t
  {
    assert ESC !in t by {
      assert forall i :: 0 <= i < |t| ==> t[i] != ESC;
    }
    LongParameterShown(t);
    LongParameterVisible(t);
    LongParameterCopied(t);
  }

  lemma {:induction false} LongParameterShown(t: string)
    requires ESC !in t && t != []
    ensures Render.RenderLine(SgrText("12345") + t) == [Render.Segment(t, DefaultStyle)]
  {
    LongParameterIgnored();
    Render.ScanLeadingSgr("12345", t, DefaultStyle);
    Render.ScanPlain(t, DefaultStyle);
  }

  lemma {:induction false} LongParameterVisible(t: string)
    requires ESC !in t
    ensures Render.RemoveSgr(SgrText("12345") + t) == t
  {
    LongParameterIgnored();
    Render.RemoveSgrDropsSgr("12345", t);
    Render.FindSgrNoEsc(t);
    Render.RemoveSgrNoMatch(t);
  }

  lemma {:induction false} LongParameterCopied(t: string)
    requires ValidPiece(Plain(t))
    ensures Strip.Strip(SgrText("12345") + t) == "m" + t
  {
    var s := SgrText("12345") + t;
    FiveDigitsMatch(t);
    assert s[7..] == "m" + t;
    Strip.StripKeepsPlainPrefix("m", t);
    Strip.StripPlain(t);
  }

  /** The renderer accepts the five digits as one code, which sets nothing. */
  lemma {:induction false} LongParameterIgnored()
    ensures Render.IsSgrParams("12345")
    ensures ApplyCodes(DefaultStyle, SplitOn("12345", ';')) == DefaultStyle
  {
    SplitNoSeparator("12345", ';');
    IgnoredCodesKeepStyle(DefaultStyle, ["12345"]) by {
      assert "12345" !in ColorMap;
    }
  }

  /** The match starting at the escape is seven characters long, whatever
      follows. */
  lemma {:induction false} FiveDigitsMatch(w: string)
    ensures Strip.MatchAt(SgrText("12345") + w) == Some(7)
  {
    var s := SgrText("12345") + w;
    assert s[0] == ESC && s[1..] == "[12345m" + w;
    FiveDigitsStopEarly(w);
    assert ("[12345m" + w)[1..] == "12345m" + w;
    assert Strip.MatchPrefix("[12345m" + w) == Some(6);
  }

  /** The group takes four digits, the fifth ends the sequence. */
  lemma {:induction false} FiveDigitsStopEarly(w: string)
    ensures Strip.MatchPrefix("12345m" + w) == Some(5)
  {
    var t := "12345m" + w;
    assert t == "12345" + ("m" + w);
    Strip.DigitRunStops("12345", "m" + w);
    assert t[4..] == "5m" + w;
    assert Strip.MatchMore("5m" + w) == Some(1);
    assert Strip.MatchDigits(t, 4, 1) == Some(5);
  }

  /** `ESC [ m`: the renderer shows it as text, the stripper deletes it. */
  lemma {:induction false} EmptyParametersDiffer()
    ensures Render.RemoveSgr(SgrText("")) == SgrText("")
    ensures Strip.Strip(SgrText("")) == []
  {
    var s := SgrText("");
    assert Render.SgrAt(s) == None;
    assert s[1..] == "[m";
    assert Render.SgrAt("[m") == None;
    assert Render.SgrAt("m") == None;
    Strip.MatchAtSgr([""], []);
    assert Join([""], ';') == "";
    assert s + [] == s;
  }

  /** An ESC followed by a character of the final class other than a
      digit (such as the `n` of `ESC notreal`): the renderer shows both, the
      stripper deletes both. */
  lemma {:induction false} EscLetterDiffers(c: char, rest: string)
    requires Strip.IsFinalChar(c) && !Strip.IsDigit(c)
    requires ESC !in rest
    ensures Render.RemoveSgr([ESC, c] + rest) == [ESC, c] + rest
    ensures Strip.MatchAt([ESC, c] + rest) == Some(2)
    ensures Strip.Strip([ESC, c] + rest) == Strip.Strip(rest)
  {
    var s := [ESC, c] + rest;
    assert c != ESC && c != '[';
    assert ESC !in [c] + rest;
    assert s[1..] == [c] + rest;
    assert Render.SgrAt(s) == None;
    Render.RemoveSgrKeepsPlain([c] + rest, []);
    assert [c] + rest + [] == [c] + rest;
    Render.RemoveSgrKeepsPlain([], []);
    Strip.StripIntroducerFinal(ESC, c, rest);
  }
}
