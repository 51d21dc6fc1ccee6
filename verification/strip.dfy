/** The copy button's clean-up: every match of the pattern

      [ESC CSI] [[()#;?]* ( [0-9]{1,4} (;[0-9]{0,4})* )? [0-9A-ORZcf-nqry=><]

    is deleted, scanning left to right as a global `replace` does. The match
    at a position is the one a backtracking matcher finds first: each
    quantifier is greedy and gives characters back only when what follows
    it fails. Every function `MatchX(t)` below answers how many characters
    at the start of `t` the rest of the pattern from X onwards consumes on
    that first successful path, or None when every path fails. */
module Strip {

  import opened Wrappers
  import opened Text
  import opened Controls

  predicate IsIntroducer(c: char)
  {
    c == ESC || c == CSI
  }

  /** `[[()#;?]`: private-parameter and intermediate characters. */
  predicate IsPrefixChar(c: char)
  {
    c == '[' || c == '(' || c == ')' || c == '#' || c == ';' || c == '?'
  }

  predicate IsDigit(c: char)
  {
    '0' <= c <= '9'
  }

  /** `[0-9A-ORZcf-nqry=><]`: the characters that may end a sequence. */
  predicate IsFinalChar(c: char)
  {
    IsDigit(c) || 'A' <= c <= 'O' || c == 'R' || c == 'Z' || c == 'c'
    || 'f' <= c <= 'n' || c == 'q' || c == 'r' || c == 'y'
    || c == '=' || c == '>' || c == '<'
  }

  /** Number of digits at the start of `t`. */
  function DigitRun(t: string): (n: nat)
    ensures n <= |t|
    decreases |t|
  {
    if t != [] && IsDigit(t[0]) then 1 + DigitRun(t[1..]) else 0
  }

  function Min(a: nat, b: nat): nat
  {
    if a <= b then a else b
  }

  /** The final character. */
  function MatchFinal(t: string): (r: Option<nat>)
    ensures r.Some? ==> r.value <= |t|
  {
    if t != [] && IsFinalChar(t[0]) then Some(1) else None
  }

  /** `(;[0-9]{0,4})*` followed by the final character: the star first tries
      one more `;`-group, and only when that path fails stops and tries the
      final character here. */
  function MatchMore(t: string): (r: Option<nat>)
    ensures r.Some? ==> r.value <= |t|
    decreases |t|, 0, 0
  {
    var group := if t != [] && t[0] == ';' then MatchDigits(t[1..], Min(4, DigitRun(t[1..])), 0) else None;
    match group
    case Some(n) => Some(1 + n)
    case None => MatchFinal(t)
  }

  /** A greedy `[0-9]{lo,4}` that has `k` digits available at the start of
      `u`, followed by MatchMore: it takes all `k` first and gives them back
      one at a time while the rest fails, never going below `lo`. */
  function MatchDigits(u: string, k: nat, lo: nat): (r: Option<nat>)
    requires k <= |u|
    ensures r.Some? ==> r.value <= |u|
    decreases |u|, 1, k
  {
    if k < lo then None
    else match MatchMore(u[k..])
      case Some(n) => Some(k + n)
      case None => if k == lo then None else MatchDigits(u, k - 1, lo)
  }

  /** The optional parameter group, then the final character: the group is
      tried first, and skipped only when no path through it succeeds. */
  function MatchBody(t: string): (r: Option<nat>)
    ensures r.Some? ==> r.value <= |t|
  {
    match MatchDigits(t, Min(4, DigitRun(t)), 1)
    case Some(n) => Some(n)
    case None => MatchFinal(t)
  }

  /** `[[()#;?]*` followed by the body: each prefix character is taken if
      the rest can still match after it. */
  function MatchPrefix(t: string): (r: Option<nat>)
    ensures r.Some? ==> r.value <= |t|
    decreases |t|
  {
    if t != [] && IsPrefixChar(t[0]) then
      match MatchPrefix(t[1..])
      case Some(n) => Some(1 + n)
      case None => MatchBody(t)
    else MatchBody(t)
  }

  /** The whole pattern at the start of `t`: the length of the match. */
  function MatchAt(t: string): (r: Option<nat>)
    ensures r.Some? ==> 1 <= r.value <= |t|
  {
    if t != [] && IsIntroducer(t[0]) then
      match MatchPrefix(t[1..])
      case Some(n) => Some(1 + n)
      case None => None
    else None
  }

  /** `output.replace(pattern, "")` with the global flag: a match is deleted
      and the search resumes after it; elsewhere the character is kept. */
  function Strip(s: string): (r: string)
    ensures |r| <= |s|
    decreases |s|
  {
    if s == [] then []
    else match MatchAt(s)
      case Some(n) => Strip(s[n..])
      case None => [s[0]] + Strip(s[1..])
  }

  // ---------------------------------------------------------------------
  // What the copy keeps

  /** `a` is `b` with some characters deleted. */
  predicate IsSubsequence(a: string, b: string)
    decreases |b|
  {
    a == [] || (b != [] && ((a[0] == b[0] && IsSubsequence(a[1..], b[1..])) || IsSubsequence(a, b[1..])))
  }

  lemma {:induction false} SubsequenceOfSuffix(a: string, b: string, n: nat)
    requires n <= |b|
    requires IsSubsequence(a, b[n..])
    ensures IsSubsequence(a, b)
    decreases n
  {
    if n > 0 {
      assert b[1..][n - 1..] == b[n..];
      SubsequenceOfSuffix(a, b[1..], n - 1);
    }
  }

  lemma {:induction false} SubsequenceLength(a: string, b: string)
    requires IsSubsequence(a, b)
    ensures |a| <= |b|
    decreases |b|
  {
    if a != [] {
      if a[0] == b[0] && IsSubsequence(a[1..], b[1..]) {
        SubsequenceLength(a[1..], b[1..]);
      } else {
        SubsequenceLength(a, b[1..]);
      }
    }
  }

  /** The copied text only deletes characters: what remains appears in the
      output in the same order, and is never longer. */
  lemma {:induction false} StripDeletesOnly(s: string)
    ensures IsSubsequence(Strip(s), s)
    ensures |Strip(s)| <= |s|
    decreases |s|
  {
    if s != [] {
      match MatchAt(s)
      case Some(n) =>
        StripDeletesOnly(s[n..]);
        SubsequenceOfSuffix(Strip(s), s, n);
      case None =>
        StripDeletesOnly(s[1..]);
        var r := Strip(s);
        assert r[0] == s[0] && r[1..] == Strip(s[1..]);
    }
    SubsequenceLength(Strip(s), s);
  }

  /** Only an introducer can start a deletion: text without ESC and CSI is
      copied unchanged, and such text in front of anything is kept. */
  lemma {:induction false} StripKeepsPlainPrefix(a: string, b: string)
    requires forall i :: 0 <= i < |a| ==> !IsIntroducer(a[i])
    ensures Strip(a + b) == a + Strip(b)
    decreases |a|
  {
    if a != [] {
      var s := a + b;
      assert s[0] == a[0];
      assert s[1..] == a[1..] + b;
      StripKeepsPlainPrefix(a[1..], b);
      AppendAssoc([a[0]], a[1..], Strip(b));
      assert [a[0]] + a[1..] == a;
    } else {
      assert a + b == b;
    }
  }

  /** Text without ESC and CSI is copied unchanged. */
  lemma {:induction false} StripPlain(s: string)
    requires forall i :: 0 <= i < |s| ==> !IsIntroducer(s[i])
    ensures Strip(s) == s
  {
    StripKeepsPlainPrefix(s, []);
    assert s + [] == s;
  }

  // ---------------------------------------------------------------------
  // A match never reaches past an introducer

  /** No character after the first one of a match is ESC or CSI, so what
      follows an introducer cannot change a match that starts before it:
      every matcher answers the same on `u + e` as on `u` alone. */
  predicate StartsWithIntroducer(e: string)
  {
    e != [] && IsIntroducer(e[0])
  }

  lemma {:induction false} AppendSuffix(u: string, e: string, k: nat)
    requires k <= |u|
    ensures (u + e)[k..] == u[k..] + e
  {
  }

  lemma {:induction false} DigitRunBeforeIntroducer(u: string, e: string)
    requires StartsWithIntroducer(e)
    ensures DigitRun(u + e) == DigitRun(u)
    decreases |u|
  {
    if u == [] {
      assert u + e == e;
    } else {
      AppendSuffix(u, e, 1);
      DigitRunBeforeIntroducer(u[1..], e);
    }
  }

  lemma {:induction false} MatchFinalBeforeIntroducer(u: string, e: string)
    requires StartsWithIntroducer(e)
    ensures MatchFinal(u + e) == MatchFinal(u)
  {
    if u == [] {
      assert u + e == e;
    }
  }

  lemma {:induction false} MatchMoreBeforeIntroducer(u: string, e: string)
    requires StartsWithIntroducer(e)
    ensures MatchMore(u + e) == MatchMore(u)
    decreases |u|, 0, 0
  {
    MatchFinalBeforeIntroducer(u, e);
    if u == [] {
      assert u + e == e;
    } else if u[0] == ';' {
      AppendSuffix(u, e, 1);
      DigitRunBeforeIntroducer(u[1..], e);
      MatchDigitsBeforeIntroducer(u[1..], e, Min(4, DigitRun(u[1..])), 0);
    }
  }

  lemma {:induction false} MatchDigitsBeforeIntroducer(u: string, e: string, k: nat, lo: nat)
    requires StartsWithIntroducer(e)
    requires k <= |u|
    ensures MatchDigits(u + e, k, lo) == MatchDigits(u, k, lo)
    decreases |u|, 1, k
  {
    if lo <= k {
      AppendSuffix(u, e, k);
      MatchMoreBeforeIntroducer(u[k..], e);
      if k > lo {
        MatchDigitsBeforeIntroducer(u, e, k - 1, lo);
      }
    }
  }

  lemma {:induction false} MatchBodyBeforeIntroducer(u: string, e: string)
    requires StartsWithIntroducer(e)
    ensures MatchBody(u + e) == MatchBody(u)
  {
    DigitRunBeforeIntroducer(u, e);
    MatchDigitsBeforeIntroducer(u, e, Min(4, DigitRun(u)), 1);
    MatchFinalBeforeIntroducer(u, e);
  }

  lemma {:induction false} MatchPrefixBeforeIntroducer(u: string, e: string)
    requires StartsWithIntroducer(e)
    ensures MatchPrefix(u + e) == MatchPrefix(u)
    decreases |u|
  {
    MatchBodyBeforeIntroducer(u, e);
    if u == [] {
      assert u + e == e;
    } else {
      AppendSuffix(u, e, 1);
      MatchPrefixBeforeIntroducer(u[1..], e);
    }
  }

  /** A match that starts in `u` ends in `u`. */
  lemma {:induction false} MatchAtBeforeIntroducer(u: string, e: string)
    requires u != [] && StartsWithIntroducer(e)
    ensures MatchAt(u + e) == MatchAt(u)
  {
    AppendSuffix(u, e, 1);
    MatchPrefixBeforeIntroducer(u[1..], e);
  }

  /** Hence the copy of text followed by something that starts with an
      introducer is the copy of the text followed by the copy of the rest:
      nothing is deleted across the boundary. */
  lemma {:induction false} StripBeforeIntroducer(u: string, e: string)
    requires StartsWithIntroducer(e)
    ensures Strip(u + e) == Strip(u) + Strip(e)
    decreases |u|
  {
    if u == [] {
      assert u + e == e;
    } else {
      MatchAtBeforeIntroducer(u, e);
      match MatchAt(u)
      case Some(n) =>
        AppendSuffix(u, e, n);
        StripBeforeIntroducer(u[n..], e);
      case None =>
        AppendSuffix(u, e, 1);
        StripBeforeIntroducer(u[1..], e);
        AppendAssoc([u[0]], Strip(u[1..]), Strip(e));
    }
  }

  /** ESC or CSI followed by a final character that is not a digit is a
      whole match of two characters, whatever follows, and is deleted. */
  lemma {:induction false} StripIntroducerFinal(i: char, c: char, rest: string)
    requires IsIntroducer(i) && IsFinalChar(c) && !IsDigit(c)
    ensures MatchAt([i, c] + rest) == Some(2)
    ensures Strip([i, c] + rest) == Strip(rest)
  {
    var t := [i, c] + rest;
    assert t[1..] == [c] + rest;
    assert DigitRun([c] + rest) == 0;
    assert MatchBody([c] + rest) == Some(1);
    assert t[2..] == rest;
  }

  // ---------------------------------------------------------------------
  // SGR sequences are deleted whole

  /** SGR parameter groups of at most four digits each. */
  predicate ShortGroups(groups: seq<string>)
  {
    forall i :: 0 <= i < |groups| ==>
      |groups[i]| <= 4 && forall j :: 0 <= j < |groups[i]| ==> IsDigit(groups[i][j])
  }

  /** The `;g` groups that follow the first one. */
  function SemiGroups(groups: seq<string>): string
  {
    if groups == [] then [] else [';'] + groups[0] + SemiGroups(groups[1..])
  }

  lemma {:induction false} JoinAsSemiGroups(groups: seq<string>)
    requires |groups| >= 1
    ensures Join(groups, ';') == groups[0] + SemiGroups(groups[1..])
    decreases |groups|
  {
    if |groups| == 1 {
      assert groups[1..] == [];
      assert groups[0] + [] == groups[0];
    } else {
      JoinAsSemiGroups(groups[1..]);
      assert groups[1..][1..] == groups[2..];
      assert Join(groups, ';') == groups[0] + [';'] + Join(groups[1..], ';');
    }
  }

  lemma {:induction false} DigitRunStops(g: string, rest: string)
    requires forall j :: 0 <= j < |g| ==> IsDigit(g[j])
    requires rest != [] && !IsDigit(rest[0])
    ensures DigitRun(g + rest) == |g|
    decreases |g|
  {
    if g != [] {
      assert (g + rest)[1..] == g[1..] + rest;
      DigitRunStops(g[1..], rest);
    } else {
      assert g + rest == rest;
    }
  }

  lemma {:induction false} ShortGroupsTail(groups: seq<string>)
    requires |groups| >= 1 && ShortGroups(groups)
    ensures ShortGroups(groups[1..]) && |groups[0]| <= 4
    ensures forall j :: 0 <= j < |groups[0]| ==> IsDigit(groups[0][j])
  {
    forall i | 0 <= i < |groups[1..]|
      ensures |groups[1..][i]| <= 4 && forall j :: 0 <= j < |groups[1..][i]| ==> IsDigit(groups[1..][i][j])
    {
      assert groups[1..][i] == groups[i + 1];
    }
  }

  /** A group of at most four digits, followed by text the rest of the
      pattern matches and that does not start with a digit, is taken whole
      on the first try. */
  lemma {:induction false} MatchGroupThenMore(g: string, tail: string, lo: nat)
    requires lo <= |g| <= 4
    requires forall j :: 0 <= j < |g| ==> IsDigit(g[j])
    requires tail != [] && !IsDigit(tail[0])
    requires MatchMore(tail).Some?
    ensures MatchDigits(g + tail, Min(4, DigitRun(g + tail)), lo) == Some(|g| + MatchMore(tail).value)
  {
    DigitRunStops(g, tail);
    assert (g + tail)[|g|..] == tail;
  }

  /** The `;`-groups, peeled one group at a time, and the character after
      them is never a digit. */
  lemma {:induction false} SemiGroupsCons(groups: seq<string>, rest: string)
    requires |groups| >= 1
    ensures SemiGroups(groups) + ['m'] + rest
         == [';'] + (groups[0] + (SemiGroups(groups[1..]) + ['m'] + rest))
    ensures |SemiGroups(groups)| == 1 + |groups[0]| + |SemiGroups(groups[1..])|
  {
    var g := groups[0];
    var s1 := SemiGroups(groups[1..]);
    AppendAssoc([';'] + g, s1, ['m']);
    AppendAssoc([';'] + g, s1 + ['m'], rest);
    AppendAssoc([';'], g, s1 + ['m'] + rest);
  }

  /** What follows the groups starts with `;` or `m`, never with a digit. */
  lemma {:induction false} AfterGroupsNoDigit(groups: seq<string>, rest: string)
    ensures !IsDigit((SemiGroups(groups) + ['m'] + rest)[0])
  {
    if groups != [] {
      assert (SemiGroups(groups) + ['m'] + rest)[0] == ';';
    }
  }

  /** One `;`-group of at most four digits in front of text MatchMore
      accepts and that does not start with a digit. */
  lemma {:induction false} MatchMoreStep(g: string, tail: string)
    requires |g| <= 4
    requires forall j :: 0 <= j < |g| ==> IsDigit(g[j])
    requires tail != [] && !IsDigit(tail[0])
    requires MatchMore(tail).Some?
    ensures MatchMore([';'] + (g + tail)) == Some(1 + |g| + MatchMore(tail).value)
  {
    var t := [';'] + (g + tail);
    DropFirst(';', g + tail);
    assert t[0] == ';';
    MatchGroupThenMore(g, tail, 0);
  }

  /** After the first group, the `;`-groups and the final `m` are consumed
      exactly, whatever follows. */
  lemma {:induction false} MatchMoreGroups(groups: seq<string>, rest: string)
    requires ShortGroups(groups)
    ensures MatchMore(SemiGroups(groups) + ['m'] + rest) == Some(|SemiGroups(groups)| + 1)
    decreases |groups|
  {
    if groups == [] {
      AppendEmpty(['m']);
    } else {
      SemiGroupsCons(groups, rest);
      AfterGroupsNoDigit(groups[1..], rest);
      ShortGroupsTail(groups);
      MatchMoreGroups(groups[1..], rest);
      MatchMoreStep(groups[0], SemiGroups(groups[1..]) + ['m'] + rest);
    }
  }

  /** The prefix characters in front of the first non-empty group (the `[`
      and any leading `;`) are consumed, then the groups and the final `m`. */
  lemma {:induction false} MatchPrefixGroups(groups: seq<string>, rest: string)
    requires |groups| >= 1 && ShortGroups(groups)
    ensures MatchPrefix(Join(groups, ';') + ['m'] + rest) == Some(|Join(groups, ';')| + 1)
    decreases |groups|
  {
    JoinAsSemiGroups(groups);
    ShortGroupsTail(groups);
    if groups[0] != [] {
      MatchBodyGroups(groups, rest);
    } else if |groups| == 1 {
      assert Join(groups, ';') + ['m'] + rest == ['m'] + rest;
      MatchPrefixFinalOnly(rest);
    } else {
      MatchPrefixGroups(groups[1..], rest);
      var t := Join(groups, ';') + ['m'] + rest;
      assert Join(groups, ';') == [';'] + Join(groups[1..], ';');
      assert t[1..] == Join(groups[1..], ';') + ['m'] + rest;
    }
  }

  /** `ESC [ m`: no group, the `m` alone ends the sequence. */
  lemma {:induction false} MatchPrefixFinalOnly(rest: string)
    ensures MatchPrefix(['m'] + rest) == Some(1)
  {
    var t := ['m'] + rest;
    assert DigitRun(t) == 0;
    assert MatchBody(t) == Some(1);
  }

  /** The joined groups, the final `m` and the rest, split after the first
      group. */
  lemma {:induction false} JoinCons(groups: seq<string>, rest: string)
    requires |groups| >= 1
    ensures Join(groups, ';') + ['m'] + rest == groups[0] + (SemiGroups(groups[1..]) + ['m'] + rest)
    ensures |Join(groups, ';')| == |groups[0]| + |SemiGroups(groups[1..])|
  {
    JoinAsSemiGroups(groups);
    var s1 := SemiGroups(groups[1..]);
    AppendAssoc(groups[0], s1, ['m']);
    AppendAssoc(groups[0], s1 + ['m'], rest);
  }

  /** A first group of one to four digits is not a prefix character, so the
      body takes it whole on the first try. */
  lemma {:induction false} MatchBodyStep(g: string, tail: string)
    requires 1 <= |g| <= 4
    requires forall j :: 0 <= j < |g| ==> IsDigit(g[j])
    requires tail != [] && !IsDigit(tail[0])
    requires MatchMore(tail).Some?
    ensures MatchPrefix(g + tail) == Some(|g| + MatchMore(tail).value)
  {
    assert (g + tail)[0] == g[0];
    MatchGroupThenMore(g, tail, 1);
  }

  /** With a non-empty first group, no prefix character is taken and the
      body consumes the groups and the final `m`. */
  lemma {:induction false} MatchBodyGroups(groups: seq<string>, rest: string)
    requires |groups| >= 1 && ShortGroups(groups) && groups[0] != []
    ensures MatchPrefix(Join(groups, ';') + ['m'] + rest) == Some(|Join(groups, ';')| + 1)
  {
    JoinCons(groups, rest);
    ShortGroupsTail(groups);
    AfterGroupsNoDigit(groups[1..], rest);
    MatchMoreGroups(groups[1..], rest);
    MatchBodyStep(groups[0], SemiGroups(groups[1..]) + ['m'] + rest);
  }

  /** An SGR sequence whose parameter groups have at most four digits each
      (including the empty list of `ESC [ m`) is matched in full. */
  lemma {:induction false} MatchAtSgr(groups: seq<string>, rest: string)
    requires |groups| >= 1 && ShortGroups(groups)
    ensures MatchAt(SgrText(Join(groups, ';')) + rest) == Some(|SgrText(Join(groups, ';'))|)
  {
    var p := Join(groups, ';');
    var t := SgrText(p) + rest;
    MatchPrefixGroups(groups, rest);
    assert t[1..] == ['['] + (p + ['m'] + rest);
    assert (['['] + (p + ['m'] + rest))[1..] == p + ['m'] + rest;
  }

  /** Such a sequence at the start is deleted, and the copy goes on after it. */
  lemma {:induction false} StripLeadingSgr(groups: seq<string>, rest: string)
    requires |groups| >= 1 && ShortGroups(groups)
    ensures Strip(SgrText(Join(groups, ';')) + rest) == Strip(rest)
  {
    var sgr := SgrText(Join(groups, ';'));
    MatchAtSgr(groups, rest);
    assert (sgr + rest)[|sgr|..] == rest;
  }

  /** Such a sequence is deleted wherever it stands, whatever comes before
      it: the copy is the copy of the text before it followed by the copy of
      the text after it. */
  lemma {:induction false} StripSgr(before: string, groups: seq<string>, rest: string)
    requires |groups| >= 1 && ShortGroups(groups)
    ensures Strip(before + SgrText(Join(groups, ';')) + rest) == Strip(before) + Strip(rest)
  {
    var sgr := SgrText(Join(groups, ';'));
    StripBeforeIntroducer(before, sgr + rest);
    AppendAssoc(before, sgr, rest);
    StripLeadingSgr(groups, rest);
  }
}
