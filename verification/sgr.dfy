/** The rendering state that the terminal renderer threads through one line,
    and the effect of one SGR (Select Graphic Rendition, ECMA-48 section
    8.3.117) parameter on it. Parameters are compared as strings, exactly as
    the renderer compares them: "0" resets, "1" sets bold, "22" clears bold,
    one of sixteen table keys replaces the colour class, anything else
    (including "", "01" and background codes such as "42") is ignored. */
module Sgr {

  import opened Wrappers
  import opened Text

  /** The colour class of unstyled text. */
  const DefaultColor: string := "text-gray-200"

  /** Foreground codes 30-37 and 90-97 and the colour class each selects. */
  const ColorMap: map<string, string> := map[
    "30" := "text-gray-900",
    "31" := "text-red-400",
    "32" := "text-green-400",
    "33" := "text-yellow-400",
    "34" := "text-blue-400",
    "35" := "text-pink-400",
    "36" := "text-cyan-400",
    "37" := "text-gray-300",
    "90" := "text-gray-500",
    "91" := "text-red-300",
    "92" := "text-green-300",
    "93" := "text-yellow-300",
    "94" := "text-blue-300",
    "95" := "text-pink-300",
    "96" := "text-cyan-300",
    "97" := "text-white"
  ]

  /** The current colour class and whether the text is bold. */
  datatype Style = Style(colorClass: string, bold: bool)

  /** The state every line starts from. */
  const DefaultStyle: Style := Style(DefaultColor, false)

  /** A colour class the renderer can produce: the default or a table entry. */
  predicate ValidStyle(st: Style)
  {
    st.colorClass == DefaultColor || st.colorClass in ColorMap.Values
  }

  /** Codes that change the colour class. */
  predicate SetsColor(code: string)
  {
    code == "0" || code in ColorMap
  }

  /** Codes that change the bold flag. */
  predicate SetsBold(code: string)
  {
    code == "0" || code == "1" || code == "22"
  }

  /** One pass of the inner `for (const code of codes)` loop. */
  function ApplyCode(st: Style, code: string): (r: Style)
    ensures !SetsColor(code) ==> r.colorClass == st.colorClass
    ensures !SetsBold(code) ==> r.bold == st.bold
  {
    if code == "0" then DefaultStyle
    else if code == "1" then Style(st.colorClass, true)
    else if code == "22" then Style(st.colorClass, false)
    else if code in ColorMap then Style(ColorMap[code], st.bold)
    else st
  }

  /** The codes of one sequence applied in list order (a left fold, written
      from the last code so that a prefix of the list is a prefix of the fold). */
  function ApplyCodes(st: Style, codes: seq<string>): (r: Style)
    decreases |codes|
  {
    if codes == [] then st
    else ApplyCode(ApplyCodes(st, codes[..|codes| - 1]), codes[|codes| - 1])
  }

  /** Applying one more code of the list. */
  lemma {:induction false} ApplyCodesSnoc(st: Style, codes: seq<string>, k: nat)
    requires k < |codes|
    ensures ApplyCodes(st, codes[..k + 1]) == ApplyCode(ApplyCodes(st, codes[..k]), codes[k])
  {
    assert codes[..k + 1][..k] == codes[..k];
  }

  /** Whatever the codes, the colour class stays one the renderer knows. */
  lemma {:induction false} ApplyCodesValid(st: Style, codes: seq<string>)
    requires ValidStyle(st)
    ensures ValidStyle(ApplyCodes(st, codes))
    decreases |codes|
  {
    if codes != [] {
      ApplyCodesValid(st, codes[..|codes| - 1]);
      var code := codes[|codes| - 1];
      if code in ColorMap {
        assert ColorMap[code] in ColorMap.Values;
      }
    }
  }

  /** The last code in the list that changes the colour class, if any. */
  function LastColorCode(codes: seq<string>): (r: Option<string>)
    ensures r.Some? ==> SetsColor(r.value) && r.value in codes
    decreases |codes|
  {
    if codes == [] then None
    else if SetsColor(codes[|codes| - 1]) then Some(codes[|codes| - 1])
    else LastColorCode(codes[..|codes| - 1])
  }

  /** The last code in the list that changes the bold flag, if any. */
  function LastBoldCode(codes: seq<string>): (r: Option<string>)
    ensures r.Some? ==> SetsBold(r.value) && r.value in codes
    decreases |codes|
  {
    if codes == [] then None
    else if SetsBold(codes[|codes| - 1]) then Some(codes[|codes| - 1])
    else LastBoldCode(codes[..|codes| - 1])
  }

  /** The colour class that results from the codes: the last colour-setting
      code wins, "0" meaning the default, and without one the colour is kept. */
  lemma {:induction false} ColorIsLastColorCode(st: Style, codes: seq<string>)
    ensures ApplyCodes(st, codes).colorClass ==
      match LastColorCode(codes)
      case None => st.colorClass
      case Some(c) => if c == "0" then DefaultColor else ColorMap[c]
    decreases |codes|
  {
    if codes != [] {
      var init, c := codes[..|codes| - 1], codes[|codes| - 1];
      ColorIsLastColorCode(st, init);
      assert ApplyCodes(st, codes) == ApplyCode(ApplyCodes(st, init), c);
      if SetsColor(c) {
        assert LastColorCode(codes) == Some(c);
      } else {
        assert LastColorCode(codes) == LastColorCode(init);
      }
    }
  }

  /** The bold flag that results from the codes: the last of "0", "1", "22"
      decides, and without one the flag is kept. */
  lemma {:induction false} BoldIsLastBoldCode(st: Style, codes: seq<string>)
    ensures ApplyCodes(st, codes).bold ==
      match LastBoldCode(codes)
      case None => st.bold
      case Some(c) => c == "1"
    decreases |codes|
  {
    if codes != [] {
      BoldIsLastBoldCode(st, codes[..|codes| - 1]);
    }
  }

  /** Applying two lists in turn is applying their concatenation. */
  lemma {:induction false} ApplyCodesAppend(st: Style, a: seq<string>, b: seq<string>)
    ensures ApplyCodes(st, a + b) == ApplyCodes(ApplyCodes(st, a), b)
    decreases |b|
  {
    if b == [] {
      assert a + b == a;
    } else {
      var n := |b| - 1;
      assert (a + b)[..|a + b| - 1] == a + b[..n];
      assert (a + b)[|a + b| - 1] == b[n];
      ApplyCodesAppend(st, a, b[..n]);
    }
  }

  /** A "0" code discards everything before it, whatever the state was. */
  lemma {:induction false} ResetForgetsHistory(st: Style, before: seq<string>, after: seq<string>)
    ensures ApplyCodes(st, before + ["0"] + after) == ApplyCodes(DefaultStyle, after)
  {
    ApplyCodesAppend(st, before + ["0"], after);
    var n := |before + ["0"]| - 1;
    assert (before + ["0"])[..n] == before;
  }

  /** Codes that neither set a colour nor touch bold leave the state as it is. */
  lemma {:induction false} IgnoredCodesKeepStyle(st: Style, codes: seq<string>)
    requires forall i :: 0 <= i < |codes| ==> !SetsColor(codes[i]) && !SetsBold(codes[i])
    ensures ApplyCodes(st, codes) == st
  {
    NoColorCode(codes);
    NoBoldCode(codes);
    ColorIsLastColorCode(st, codes);
    BoldIsLastBoldCode(st, codes);
  }

  lemma {:induction false} NoColorCode(codes: seq<string>)
    requires forall i :: 0 <= i < |codes| ==> !SetsColor(codes[i])
    ensures LastColorCode(codes) == None
    decreases |codes|
  {
    if codes != [] {
      NoColorCode(codes[..|codes| - 1]);
    }
  }

  lemma {:induction false} NoBoldCode(codes: seq<string>)
    requires forall i :: 0 <= i < |codes| ==> !SetsBold(codes[i])
    ensures LastBoldCode(codes) == None
    decreases |codes|
  {
    if codes != [] {
      NoBoldCode(codes[..|codes| - 1]);
    }
  }

  const ForegroundCodes: set<string> :=
    {"30", "31", "32", "33", "34", "35", "36", "37",
     "90", "91", "92", "93", "94", "95", "96", "97"}

  /** Exactly the sixteen foreground codes 30-37 and 90-97 select a colour;
      background codes and the control codes are not among them. */
  lemma {:induction false} ColorMapKeys()
    ensures ColorMap.Keys == ForegroundCodes
  {
  }

  /** The reset and bold codes are not colour codes. */
  lemma {:induction false} ControlCodesAreNotColors()
    ensures "0" !in ColorMap && "1" !in ColorMap && "22" !in ColorMap
  {
  }

  /** Two codes applied in turn. */
  lemma {:induction false} ApplyTwo(st: Style, a: string, b: string)
    ensures ApplyCodes(st, [a, b]) == ApplyCode(ApplyCode(st, a), b)
  {
    assert [a, b][..1] == [a];
    assert [a][..0] == [];
    assert ApplyCodes(st, [a]) == ApplyCode(st, a);
  }

  /** "\x1b[0;31m": whatever the state, the text after it is red and not bold. */
  lemma {:induction false} ResetThenRed(st: Style)
    ensures ApplyCodes(st, SplitOn("0;31", ';')) == Style("text-red-400", false)
  {
    SplitTwo("0", ';', "31");
    assert "0" + [';'] + "31" == "0;31";
    ApplyTwo(st, "0", "31");
    RedEntry();
  }

  /** "\x1b[1;31m" from the start of a line: bold red. */
  lemma {:induction false} BoldRedFromDefault()
    ensures ApplyCodes(DefaultStyle, SplitOn("1;31", ';')) == Style("text-red-400", true)
  {
    SplitTwo("1", ';', "31");
    assert "1" + [';'] + "31" == "1;31";
    ApplyTwo(DefaultStyle, "1", "31");
    RedEntry();
  }

  // ---------------------------------------------------------------------
  // Proof helpers: table entries

  /** Code "31" selects the red class. */
  lemma {:induction false} RedEntry()
    ensures "31" in ColorMap && ColorMap["31"] == "text-red-400"
  {
  }
}
