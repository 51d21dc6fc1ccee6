/** The copy button's pattern read as a language, beside the backtracking
    matcher of the Strip module:

      [ESC CSI] [[()#;?]* ( [0-9]{1,4} (;[0-9]{0,4})* )? [0-9A-ORZcf-nqry=><]

    Each part of the pattern is a predicate on the text it covers, with the
    parameter groups read through `split(";")`. The matcher is proved sound
    (the text it consumes is a match of the pattern) and complete (when some
    text at the start of the input is a match, it finds one). */
module CopyPattern {

  import opened Wrappers
  import opened Text
  import opened Strip

  predicate AllDigits(d: string)
  {
    forall j :: 0 <= j < |d| ==> IsDigit(d[j])
  }

  predicate AllPrefixChars(x: string)
  {
    forall j :: 0 <= j < |x| ==> IsPrefixChar(x[j])
  }

  /** `(;[0-9]{0,4})*`: nothing, or a `;` and then `;`-separated groups of
      at most four digits each. */
  predicate IsMoreGroups(x: string)
  {
    x == [] || (x[0] == ';' && ShortGroups(SplitOn(x[1..], ';')))
  }

  /** `([0-9]{1,4}(;[0-9]{0,4})*)?`: nothing, or `;`-separated groups of at
      most four digits each of which the first is not empty. */
  predicate IsParams(p: string)
  {
    p == [] || (SplitOn(p, ';')[0] != [] && ShortGroups(SplitOn(p, ';')))
  }

  /** The `;`-groups after the first group, then the final character. */
  predicate IsMore(x: string)
  {
    x != [] && IsFinalChar(x[|x| - 1]) && IsMoreGroups(x[..|x| - 1])
  }

  /** The parameters, then the final character. */
  predicate IsBody(x: string)
  {
    x != [] && IsFinalChar(x[|x| - 1]) && IsParams(x[..|x| - 1])
  }

  /** A whole match: an introducer, prefix characters, then the body. */
  predicate IsMatch(w: string)
  {
    w != [] && IsIntroducer(w[0])
    && exists i :: 1 <= i <= |w| && AllPrefixChars(w[1..i]) && IsBody(w[i..])
  }

  // ---------------------------------------------------------------------
  // The matcher against the language

  /** What the matcher consumes at the start of `t` is a match of the
      pattern, and whenever some text at the start of `t` is a match of the
      pattern, the matcher finds a match there. */
  lemma {:induction false} MatchAtIsPattern(t: string)
    ensures MatchAt(t).Some? ==> IsMatch(t[..MatchAt(t).value])
    ensures forall n :: 0 <= n <= |t| && IsMatch(t[..n]) ==> MatchAt(t).Some?
  {
    if MatchAt(t).Some? {
      MatchAtSound(t);
    }
    forall n | 0 <= n <= |t| && IsMatch(t[..n])
      ensures MatchAt(t).Some?
    {
      MatchAtFound(t, n);
    }
  }

  /** Hence a character the copy keeps starts no match of the pattern. */
  lemma {:induction false} KeptStartsNoMatch(s: string)
    requires s != [] && MatchAt(s).None?
    ensures Strip.Strip(s) == [s[0]] + Strip.Strip(s[1..])
    ensures forall n :: 0 <= n <= |s| ==> !IsMatch(s[..n])
  {
    MatchAtIsPattern(s);
  }

  // ---------------------------------------------------------------------
  // Soundness

  lemma {:induction false} MatchAtSound(t: string)
    requires MatchAt(t).Some?
    ensures IsMatch(t[..MatchAt(t).value])
  {
    var n := MatchAt(t).value;
    var w := t[..n];
    var j := PrefixSound(t[1..]);
    var i := j + 1;
    assert w[1..i] == t[1..][..j];
    assert w[i..] == t[1..][j..n - 1];
  }

  lemma {:induction false} PrefixSound(t: string) returns (i: nat)
    requires MatchPrefix(t).Some?
    ensures i <= MatchPrefix(t).value
    ensures AllPrefixChars(t[..i]) && IsBody(t[i..MatchPrefix(t).value])
    decreases |t|
  {
    if t != [] && IsPrefixChar(t[0]) && MatchPrefix(t[1..]).Some? {
      var j := PrefixSound(t[1..]);
      i := j + 1;
      PrefixTaken(t, j);
    } else {
      i := 0;
      PrefixSkipped(t);
      BodySound(t);
    }
  }

  /** A prefix character taken: the prefix run and the body, read in `t[1..]`. */
  lemma {:induction false} PrefixTaken(t: string, j: nat)
    requires t != [] && IsPrefixChar(t[0]) && MatchPrefix(t[1..]).Some?
    requires j <= MatchPrefix(t[1..]).value
    requires AllPrefixChars(t[1..][..j]) && IsBody(t[1..][j..MatchPrefix(t[1..]).value])
    ensures MatchPrefix(t) == Some(MatchPrefix(t[1..]).value + 1)
    ensures AllPrefixChars(t[..j + 1]) && IsBody(t[j + 1..MatchPrefix(t).value])
  {
    var n := MatchPrefix(t[1..]).value + 1;
    assert t[..j + 1] == [t[0]] + t[1..][..j];
    assert t[j + 1..n] == t[1..][j..n - 1];
  }

  /** No prefix character taken: the body matches from the start. */
  lemma {:induction false} PrefixSkipped(t: string)
    requires MatchPrefix(t).Some?
    requires !(t != [] && IsPrefixChar(t[0]) && MatchPrefix(t[1..]).Some?)
    ensures MatchBody(t) == MatchPrefix(t) && t[..0] == [] && t[0..MatchPrefix(t).value] == t[..MatchPrefix(t).value]
  {
  }

  lemma {:induction false} BodySound(t: string)
    requires MatchBody(t).Some?
    ensures IsBody(t[..MatchBody(t).value])
  {
    var k := Min(4, DigitRun(t));
    if MatchDigits(t, k, 1).Some? {
      var j := DigitsSound(t, k, 1);
      MoreSound(t[j..]);
      BodyOfGroup(t, j, MatchMore(t[j..]).value);
    } else {
      assert t[..0] == [];
      BodyFromParts(t, 0);
    }
  }

  lemma {:induction false} MoreSound(t: string)
    requires MatchMore(t).Some?
    ensures IsMore(t[..MatchMore(t).value])
    decreases |t|
  {
    if t != [] && t[0] == ';' && MatchDigits(t[1..], Min(4, DigitRun(t[1..])), 0).Some? {
      var u := t[1..];
      var j := DigitsSound(u, Min(4, DigitRun(u)), 0);
      MoreSound(u[j..]);
      MoreOfGroup(t, j, MatchMore(u[j..]).value);
    } else {
      assert t[..0] == [];
      MoreFromParts(t, 0);
    }
  }

  /** A first group of `j` digits, then `;`-groups and the final character. */
  lemma {:induction false} BodyOfGroup(t: string, j: nat, m: nat)
    requires 1 <= j <= 4 && j <= DigitRun(t) && j + m <= |t|
    requires IsMore(t[j..][..m])
    ensures IsBody(t[..j + m])
  {
    var r := t[j..];
    MoreParts(r, m);
    DigitRunPrefix(t, j);
    ParamsFromGroups(t[..j], r[..m - 1]);
    Glue(t, j, m);
    BodyFromParts(t, j + m - 1);
  }

  /** A `;` and a group of `j` digits, then `;`-groups and the final
      character. */
  lemma {:induction false} MoreOfGroup(t: string, j: nat, m: nat)
    requires t != [] && t[0] == ';'
    requires j <= 4 && j <= DigitRun(t[1..]) && 1 + j + m <= |t|
    requires IsMore(t[1..][j..][..m])
    ensures IsMore(t[..1 + j + m])
  {
    var u := t[1..];
    var r := u[j..];
    MoreParts(r, m);
    DigitRunPrefix(u, j);
    MoreGroupsCons(u[..j], r[..m - 1]);
    Glue(u, j, m);
    assert t[..j + m] == [t[0]] + u[..j + m - 1];
    MoreFromParts(t, j + m);
  }

  /** The number of digits the group gave back to, and the rest after them. */
  lemma {:induction false} DigitsSound(u: string, k: nat, lo: nat) returns (j: nat)
    requires k <= |u| && MatchDigits(u, k, lo).Some?
    ensures lo <= j <= k && MatchMore(u[j..]).Some?
    ensures MatchDigits(u, k, lo).value == j + MatchMore(u[j..]).value
    decreases k
  {
    if MatchMore(u[k..]).Some? {
      j := k;
    } else {
      j := DigitsSound(u, k - 1, lo);
    }
  }

  // ---------------------------------------------------------------------
  // Completeness

  lemma {:induction false} MatchAtFound(t: string, n: nat)
    requires n <= |t| && IsMatch(t[..n])
    ensures MatchAt(t).Some?
  {
    var i := MatchSplit(t[..n]);
    DropIntroducer(t, n, i);
    PrefixFound(t[1..], i - 1, n - 1);
    MatchAtFromPrefix(t);
  }

  /** Where the prefix characters of a match end. */
  lemma {:induction false} MatchSplit(w: string) returns (i: nat)
    requires IsMatch(w)
    ensures 1 <= i <= |w| && AllPrefixChars(w[1..i]) && IsBody(w[i..])
  {
    i :| 1 <= i <= |w| && AllPrefixChars(w[1..i]) && IsBody(w[i..]);
  }

  /** An introducer followed by a match of the rest of the pattern. */
  lemma {:induction false} MatchAtFromPrefix(t: string)
    requires t != [] && IsIntroducer(t[0]) && MatchPrefix(t[1..]).Some?
    ensures MatchAt(t).Some?
  {
  }

  lemma {:induction false} PrefixFound(t: string, i: nat, n: nat)
    requires i <= n <= |t| && AllPrefixChars(t[..i]) && IsBody(t[i..n])
    ensures MatchPrefix(t).Some?
    decreases i
  {
    if i == 0 {
      assert t[0..n] == t[..n];
      BodyFound(t, n);
    } else {
      assert t[..i][0] == t[0];
      assert t[1..][..i - 1] == t[1..i];
      assert t[1..][i - 1..n - 1] == t[i..n];
      PrefixFound(t[1..], i - 1, n - 1);
    }
  }

  lemma {:induction false} BodyFound(t: string, n: nat)
    requires n <= |t| && IsBody(t[..n])
    ensures MatchBody(t).Some?
  {
    BodyParts(t, n);
    if t[..n - 1] != [] {
      var g, z := FirstGroup(t[..n - 1]);
      CutFront(t, n - 1, g, z);
      DigitRunCovers(t, g);
      var r := t[|g|..];
      MoreFromParts(r, |z|);
      MoreFound(r, |z| + 1);
      DigitsFound(t, Min(4, DigitRun(t)), 1, |g|);
    }
  }

  lemma {:induction false} MoreFound(t: string, n: nat)
    requires n <= |t| && IsMore(t[..n])
    ensures MatchMore(t).Some?
    decreases |t|
  {
    MoreParts(t, n);
    var p := t[..n - 1];
    if p != [] {
      var u := t[1..];
      assert p[1..] == u[..n - 2];
      var g, z := FirstGroup(p[1..]);
      CutFront(u, n - 2, g, z);
      DigitRunCovers(u, g);
      var r := u[|g|..];
      MoreFromParts(r, |z|);
      MoreFound(r, |z| + 1);
      DigitsFound(u, Min(4, DigitRun(u)), 0, |g|);
    }
  }

  /** A length the group may give back to, after which the rest matches,
      is reached before the group gives up. */
  lemma {:induction false} DigitsFound(u: string, k: nat, lo: nat, j: nat)
    requires lo <= j <= k <= |u| && MatchMore(u[j..]).Some?
    ensures MatchDigits(u, k, lo).Some?
    decreases k
  {
    if k > j && MatchMore(u[k..]).None? {
      DigitsFound(u, k - 1, lo, j);
    }
  }

  // ---------------------------------------------------------------------
  // Groups read through split

  /** The first group of `;`-separated short groups, and the `;`-groups
      after it. */
  lemma {:induction false} FirstGroup(s: string) returns (g: string, z: string)
    requires ShortGroups(SplitOn(s, ';'))
    ensures s == g + z && g == SplitOn(s, ';')[0]
    ensures |g| <= 4 && AllDigits(g) && IsMoreGroups(z)
  {
    var parts := SplitOn(s, ';');
    JoinSplit(s, ';');
    ShortGroupsTail(parts);
    g := parts[0];
    if |parts| == 1 {
      z := [];
    } else {
      var tail := parts[1..];
      z := [';'] + Join(tail, ';');
      SplitPartsLackSeparator(s, ';');
      assert forall i :: 0 <= i < |tail| ==> tail[i] == parts[i + 1];
      SplitJoin(tail, ';');
      assert z[1..] == Join(tail, ';');
      AppendAssoc(g, [';'], Join(tail, ';'));
    }
  }

  /** Short digit groups split off the front of `;`-groups. */
  lemma {:induction false} SplitDigitsThen(d: string, z: string)
    requires AllDigits(d) && IsMoreGroups(z)
    ensures SplitOn(d + z, ';') == [d] + (if z == [] then [] else SplitOn(z[1..], ';'))
  {
    assert ';' !in d by {
      assert forall j :: 0 <= j < |d| ==> d[j] != ';';
    }
    SplitNoSeparator(d, ';');
    if z == [] {
      assert d + z == d;
    } else {
      assert d + z == d + [';'] + z[1..];
      SplitAppend(d, ';', z[1..]);
    }
  }

  lemma {:induction false} ShortGroupsCons(d: string, groups: seq<string>)
    requires |d| <= 4 && AllDigits(d) && ShortGroups(groups)
    ensures ShortGroups([d] + groups)
  {
    forall i | 0 <= i < |[d] + groups|
      ensures |([d] + groups)[i]| <= 4
      ensures forall j :: 0 <= j < |([d] + groups)[i]| ==> IsDigit(([d] + groups)[i][j])
    {
      if i > 0 {
        assert ([d] + groups)[i] == groups[i - 1];
      }
    }
  }

  lemma {:induction false} MoreGroupsRest(z: string)
    requires IsMoreGroups(z)
    ensures ShortGroups(if z == [] then [] else SplitOn(z[1..], ';'))
  {
  }

  /** One more group in front of `;`-groups. */
  lemma {:induction false} MoreGroupsCons(d: string, z: string)
    requires |d| <= 4 && AllDigits(d) && IsMoreGroups(z)
    ensures IsMoreGroups([';'] + (d + z))
  {
    assert ([';'] + (d + z))[1..] == d + z;
    SplitDigitsThen(d, z);
    MoreGroupsRest(z);
    ShortGroupsCons(d, if z == [] then [] else SplitOn(z[1..], ';'));
  }

  /** A first group of one to four digits in front of `;`-groups. */
  lemma {:induction false} ParamsFromGroups(d: string, z: string)
    requires 1 <= |d| <= 4 && AllDigits(d) && IsMoreGroups(z)
    ensures IsParams(d + z)
  {
    SplitDigitsThen(d, z);
    MoreGroupsRest(z);
    ShortGroupsCons(d, if z == [] then [] else SplitOn(z[1..], ';'));
  }

  // ---------------------------------------------------------------------
  // Proof helpers: digit runs and slices

  lemma {:induction false} DigitRunPrefix(u: string, j: nat)
    requires j <= DigitRun(u)
    ensures AllDigits(u[..j])
    decreases j
  {
    if j > 0 {
      DigitRunPrefix(u[1..], j - 1);
      assert forall i :: 1 <= i < j ==> u[..j][i] == u[1..][..j - 1][i - 1];
    }
  }

  lemma {:induction false} DigitRunCovers(t: string, g: string)
    requires |g| <= |t| && t[..|g|] == g && AllDigits(g)
    ensures DigitRun(t) >= |g|
    decreases |g|
  {
    if g != [] {
      assert t[1..][..|g| - 1] == g[1..];
      DigitRunCovers(t[1..], g[1..]);
    }
  }

  lemma {:induction false} BodyParts(t: string, n: nat)
    requires n <= |t| && IsBody(t[..n])
    ensures 1 <= n && IsFinalChar(t[n - 1]) && IsParams(t[..n - 1])
  {
    assert t[..n][..n - 1] == t[..n - 1];
  }

  lemma {:induction false} BodyFromParts(t: string, k: nat)
    requires k < |t| && IsParams(t[..k]) && IsFinalChar(t[k])
    ensures IsBody(t[..k + 1])
  {
    assert t[..k + 1][..k] == t[..k];
  }

  lemma {:induction false} MoreParts(t: string, n: nat)
    requires n <= |t| && IsMore(t[..n])
    ensures 1 <= n && IsFinalChar(t[n - 1]) && IsMoreGroups(t[..n - 1])
  {
    assert t[..n][..n - 1] == t[..n - 1];
  }

  lemma {:induction false} MoreFromParts(t: string, k: nat)
    requires k < |t| && IsMoreGroups(t[..k]) && IsFinalChar(t[k])
    ensures IsMore(t[..k + 1])
  {
    assert t[..k + 1][..k] == t[..k];
  }

  /** A prefix of `t` that is `a + b` is `a`, then `b` after it. */
  lemma {:induction false} CutFront(t: string, n: nat, a: string, b: string)
    requires n <= |t| && t[..n] == a + b
    ensures t[..|a|] == a && t[|a|..][..|b|] == b
  {
    assert t[..|a|] == t[..n][..|a|];
    assert t[|a|..][..|b|] == t[..n][|a|..];
  }

  /** The parts of a match of length `n` at the start of `t`, after its
      introducer, read in `t[1..]`. */
  lemma {:induction false} DropIntroducer(t: string, n: nat, i: nat)
    requires 1 <= i <= n <= |t|
    ensures t[1..][..i - 1] == t[..n][1..i] && t[1..][i - 1..n - 1] == t[..n][i..]
    ensures t[0] == t[..n][0]
  {
  }

  /** The first `j + m - 1` characters of `u`, cut after `j`. */
  lemma {:induction false} Glue(u: string, j: nat, m: nat)
    requires 1 <= m && j + m <= |u|
    ensures u[..j + m - 1] == u[..j] + u[j..][..m - 1]
  {
  }
}
