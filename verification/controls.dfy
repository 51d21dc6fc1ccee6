/** The two characters that introduce a control sequence, and the shape of
    an SGR (Select Graphic Rendition) sequence, ECMA-48 sections 5.4 and
    8.3.117. */
module Controls {

  /** ESCAPE; `ESC [` is the 7-bit form of the control sequence introducer. */
  const ESC: char := '\U{1B}'

  /** The 8-bit CONTROL SEQUENCE INTRODUCER. */
  const CSI: char := '\U{9B}'

  /** The characters of an SGR sequence with parameter text `params`. */
  function SgrText(params: string): (s: string)
    ensures |s| == |params| + 3 && s[0] == ESC && s[|s| - 1] == 'm'
  {
    [ESC, '['] + params + ['m']
  }
}
