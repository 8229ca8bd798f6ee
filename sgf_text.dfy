/**
 * SGF text values: the escaping the writer applies to comments and game
 * information, and the unescaping the reader applies to them.  Each step
 * of the program is one global regular-expression replacement, scanned
 * left to right; each is one recursive function here, in the same order.
 */
module SgfText {
  import Seqs
  import SgfParser

  const VT: char := '\U{000B}'
  const LS: char := '\U{2028}'
  const PS: char := '\U{2029}'

  /** The characters the writer escapes with a backslash. */
  predicate Special(c: char) {
    c == ']' || c == '\\' || c == ':'
  }

  /** What `.` in a regular expression does not match. */
  predicate LineTerminator(c: char) {
    c == '\n' || c == '\r' || c == LS || c == PS
  }

  /** The blanks of a text value: a tab or a vertical tab. */
  predicate Tab(c: char) {
    c == '\t' || c == VT
  }

  /** The blanks of a simple text value: tabs and line breaks. */
  predicate SimpleBlank(c: char) {
    Tab(c) || c == '\n' || c == '\r'
  }

  // ----- writing -----

  /** Every `]`, `\` and `:` preceded by a backslash. */
  function EscapeSpecials(s: string): string {
    if s == [] then []
    else (if Special(s[0]) then ['\\', s[0]] else [s[0]]) + EscapeSpecials(s[1..])
  }

  /** Tabs replaced by spaces; with `simple`, line breaks too. */
  function Blanked(s: string, simple: bool): string {
    if s == [] then []
    else [if Tab(s[0]) || (simple && SimpleBlank(s[0])) then ' ' else s[0]] + Blanked(s[1..], simple)
  }

  /** A text value as written: specials escaped, then tabs turned into spaces. */
  function ToSGFText(s: string): string {
    Blanked(EscapeSpecials(s), false)
  }

  /** A simple text value as written: specials escaped, then tabs and line breaks turned into spaces. */
  function ToSGFSimpleText(s: string): string {
    Blanked(EscapeSpecials(s), true)
  }

  // ----- reading, as the program does it -----

  /** Every backslash followed by a line break (`\n`, `\n\r`, `\r` or `\r\n`) removed. */
  function DropSoftBreaks(v: string): string {
    if |v| >= 2 && v[0] == '\\' && v[1] == '\n' then
      if |v| >= 3 && v[2] == '\r' then DropSoftBreaks(v[3..]) else DropSoftBreaks(v[2..])
    else if |v| >= 2 && v[0] == '\\' && v[1] == '\r' then
      if |v| >= 3 && v[2] == '\n' then DropSoftBreaks(v[3..]) else DropSoftBreaks(v[2..])
    else if v == [] then []
    else [v[0]] + DropSoftBreaks(v[1..])
  }

  /** Every backslash followed by a character other than a line terminator replaced by that character. */
  function DropEscapes(v: string): string {
    if |v| >= 2 && v[0] == '\\' && !LineTerminator(v[1]) then [v[1]] + DropEscapes(v[2..])
    else if v == [] then []
    else [v[0]] + DropEscapes(v[1..])
  }

  /** Every tab immediately followed by a vertical tab replaced by one space. */
  function TabVtToSpace(v: string): string {
    if |v| >= 2 && v[0] == '\t' && v[1] == VT then " " + TabVtToSpace(v[2..])
    else if v == [] then []
    else [v[0]] + TabVtToSpace(v[1..])
  }

  /** Every tab, vertical tab and line break (`\n`, `\n\r`, `\r` or `\r\n`) replaced by one space. */
  function BlankBreaks(v: string): string {
    if v == [] then []
    else if Tab(v[0]) then " " + BlankBreaks(v[1..])
    else if v[0] == '\n' then
      if |v| >= 2 && v[1] == '\r' then " " + BlankBreaks(v[2..]) else " " + BlankBreaks(v[1..])
    else if v[0] == '\r' then
      if |v| >= 2 && v[1] == '\n' then " " + BlankBreaks(v[2..]) else " " + BlankBreaks(v[1..])
    else [v[0]] + BlankBreaks(v[1..])
  }

  /** A text value as the program reads it: soft line breaks dropped, escapes dropped, a tab and vertical tab pair blanked. */
  function ParseSGFText(v: string): string {
    TabVtToSpace(DropEscapes(DropSoftBreaks(v)))
  }

  /** A simple text value as the program reads it: soft line breaks dropped, escapes dropped, blanks and line breaks blanked. */
  function ParseSGFSimpleText(v: string): string {
    BlankBreaks(DropEscapes(DropSoftBreaks(v)))
  }

  // ----- reading in one scan -----

  /**
   * Soft line breaks and escapes handled in one left-to-right scan, so
   * that a backslash escaped by a backslash cannot start a soft line
   * break.
   */
  function UnescapeText(v: string): string {
    if |v| >= 2 && v[0] == '\\' && v[1] == '\n' then
      if |v| >= 3 && v[2] == '\r' then UnescapeText(v[3..]) else UnescapeText(v[2..])
    else if |v| >= 2 && v[0] == '\\' && v[1] == '\r' then
      if |v| >= 3 && v[2] == '\n' then UnescapeText(v[3..]) else UnescapeText(v[2..])
    else if |v| >= 2 && v[0] == '\\' && !LineTerminator(v[1]) then [v[1]] + UnescapeText(v[2..])
    else if v == [] then []
    else [v[0]] + UnescapeText(v[1..])
  }

  /** A text value read in one scan, then a tab and vertical tab pair blanked as the program does. */
  function ParseSGFTextFixed(v: string): string {
    TabVtToSpace(UnescapeText(v))
  }

  // ----- properties -----

  lemma EscapeSpecialsCons(s: string)
    requires s != []
    ensures EscapeSpecials(s) == (if Special(s[0]) then ['\\', s[0]] else [s[0]]) + EscapeSpecials(s[1..])
  {
  }

  /** Blanking and escaping commute: the escaped characters are never blanks. */
  lemma {:induction false} BlankedEscaped(s: string, simple: bool)
    ensures Blanked(EscapeSpecials(s), simple) == EscapeSpecials(Blanked(s, simple))
    decreases |s|
  {
    if s != [] {
      BlankedEscaped(s[1..], simple);
      var b := Blanked(s, simple);
      assert b[1..] == Blanked(s[1..], simple);
      var head := if Special(s[0]) then ['\\', s[0]] else [s[0]];
      BlankedConcat(head, EscapeSpecials(s[1..]), simple);
      EscapeSpecialsCons(b);
    }
  }

  lemma {:induction false} BlankedConcat(a: string, b: string, simple: bool)
    ensures Blanked(a + b, simple) == Blanked(a, simple) + Blanked(b, simple)
    decreases |a|
  {
    if a != [] {
      assert (a + b)[1..] == a[1..] + b;
      BlankedConcat(a[1..], b, simple);
      assert (a + b)[0] == a[0];
      Seqs.ConcatAssoc([if Tab(a[0]) || (simple && SimpleBlank(a[0])) then ' ' else a[0]], Blanked(a[1..], simple), Blanked(b, simple));
    } else {
      assert a + b == b;
    }
  }

  /** The blanked characters are gone. */
  lemma {:induction false} BlankedHasNoBlank(s: string, simple: bool)
    ensures forall k | 0 <= k < |Blanked(s, simple)| :: !Tab(Blanked(s, simple)[k])
    ensures simple ==> forall k | 0 <= k < |Blanked(s, simple)| :: !SimpleBlank(Blanked(s, simple)[k])
    decreases |s|
  {
    if s != [] {
      BlankedHasNoBlank(s[1..], simple);
    }
  }

  /** An escaped text is a raw value the SGF reader gives back unchanged. */
  lemma {:induction false} EscapedIsRaw(s: string)
    ensures SgfParser.RawValue(EscapeSpecials(s))
    decreases |s|
  {
    if s != [] {
      var e := EscapeSpecials(s);
      EscapedIsRaw(s[1..]);
      if Special(s[0]) {
        assert e[2..] == EscapeSpecials(s[1..]);
      } else {
        assert e[1..] == EscapeSpecials(s[1..]);
      }
    }
  }

  /** Both kinds of written text are raw values. */
  lemma WrittenIsRaw(s: string)
    ensures SgfParser.RawValue(ToSGFText(s)) && SgfParser.RawValue(ToSGFSimpleText(s))
  {
    BlankedEscaped(s, false);
    BlankedEscaped(s, true);
    EscapedIsRaw(Blanked(s, false));
    EscapedIsRaw(Blanked(s, true));
  }

  /** Reading an escaped text in one scan gives it back. */
  lemma {:induction false} UnescapeEscaped(s: string)
    ensures UnescapeText(EscapeSpecials(s)) == s
    decreases |s|
  {
    if s != [] {
      var e := EscapeSpecials(s);
      UnescapeEscaped(s[1..]);
      if Special(s[0]) {
        assert e[2..] == EscapeSpecials(s[1..]);
      } else {
        assert e[1..] == EscapeSpecials(s[1..]);
      }
    }
  }

  /** Dropping the escapes of an escaped text gives it back. */
  lemma {:induction false} DropEscapesEscaped(s: string)
    ensures DropEscapes(EscapeSpecials(s)) == s
    decreases |s|
  {
    if s != [] {
      var e := EscapeSpecials(s);
      DropEscapesEscaped(s[1..]);
      if Special(s[0]) {
        assert e[2..] == EscapeSpecials(s[1..]);
      } else {
        assert e[1..] == EscapeSpecials(s[1..]);
      }
    }
  }

  /** With no line break in it, an escaped text has no soft line break to drop. */
  lemma {:induction false} NoSoftBreaks(s: string)
    requires forall k | 0 <= k < |s| :: !SimpleBlank(s[k])
    ensures DropSoftBreaks(EscapeSpecials(s)) == EscapeSpecials(s)
    decreases |s|
  {
    if s != [] {
      var e := EscapeSpecials(s);
      NoSoftBreaks(s[1..]);
      if Special(s[0]) {
        assert e[2..] == EscapeSpecials(s[1..]);
        if |s| >= 2 {
          assert e[2..] != [] && e[2] == EscapeSpecials(s[1..])[0];
          assert e[2] != '\n' && e[2] != '\r';
        }
        assert DropSoftBreaks(e) == [e[0]] + DropSoftBreaks(e[1..]);
        assert e[1..] == [s[0]] + EscapeSpecials(s[1..]);
        assert DropSoftBreaks(e[1..]) == [s[0]] + DropSoftBreaks(EscapeSpecials(s[1..]));
      } else {
        assert e[1..] == EscapeSpecials(s[1..]);
      }
    }
  }

  /** A text with no tab, vertical tab or line break is left alone by the blanking of a simple text. */
  lemma {:induction false} BlankBreaksNone(s: string)
    requires forall k | 0 <= k < |s| :: !SimpleBlank(s[k])
    ensures BlankBreaks(s) == s
    decreases |s|
  {
    if s != [] {
      BlankBreaksNone(s[1..]);
    }
  }

  /** A text with no tab is left alone by the tab and vertical tab pass. */
  lemma {:induction false} TabVtNone(s: string)
    requires forall k | 0 <= k < |s| :: !Tab(s[k])
    ensures TabVtToSpace(s) == s
    decreases |s|
  {
    if s != [] {
      TabVtNone(s[1..]);
    }
  }

  /** A simple text written and read back is the text with its blanks and line breaks turned into spaces. */
  lemma SimpleTextRoundTrip(s: string)
    ensures ParseSGFSimpleText(ToSGFSimpleText(s)) == Blanked(s, true)
  {
    var b := Blanked(s, true);
    BlankedEscaped(s, true);
    BlankedHasNoBlank(s, true);
    NoSoftBreaks(b);
    DropEscapesEscaped(b);
    BlankBreaksNone(b);
  }

  /** A text written and read back in one scan is the text with its tabs turned into spaces. */
  lemma TextRoundTripFixed(s: string)
    ensures ParseSGFTextFixed(ToSGFText(s)) == Blanked(s, false)
  {
    var b := Blanked(s, false);
    BlankedEscaped(s, false);
    BlankedHasNoBlank(s, false);
    UnescapeEscaped(b);
    TabVtNone(b);
  }

  /**
   * The program's reading loses a backslash written before a line break:
   * the escaped backslash `\\` followed by the break reads as a backslash
   * and a soft line break, which is dropped.
   */
  lemma BackslashBeforeBreakLost()
    ensures ToSGFText("\\\n") == "\\\\\n"
    ensures ParseSGFText(ToSGFText("\\\n")) == "\\"
    ensures ParseSGFTextFixed(ToSGFText("\\\n")) == "\\\n"
  {
    var e := "\\\\\n";
    assert EscapeSpecials("\\\n") == e by {
      assert "\\\n"[1..] == "\n";
      assert EscapeSpecials("\n") == "\n" by { assert "\n"[1..] == []; }
    }
    assert Blanked(e, false) == e by {
      assert e[1..] == "\\\n" && e[2..] == "\n" && e[3..] == [];
    }
    assert DropSoftBreaks(e) == "\\" by {
      assert e[1..] == "\\\n" && e[1..][2..] == [];
    }
    assert DropEscapes("\\") == "\\" by { assert "\\"[1..] == []; }
    assert TabVtToSpace("\\") == "\\" by { assert "\\"[1..] == []; }
    assert UnescapeText(e) == "\\\n" by {
      assert e[2..] == "\n" && "\n"[1..] == [];
    }
    assert TabVtToSpace("\\\n") == "\\\n" by {
      assert "\\\n"[1..] == "\n" && "\n"[1..] == [];
    }
  }
}
