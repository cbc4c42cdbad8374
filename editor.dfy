/** The two editor helpers around the scanner: `insertCode`, which splices
    a code into a text area at its selection, and `applyHexColor`, which
    validates the hex input field. */
module Editor {
  import opened JsString
  import opened Colors

  /** `before + code + after`: the selection `[start, end)` of `value`
      replaced by `code`. */
  function Splice(value: string, start: nat, end: nat, code: string): (r: string)
    requires start <= end <= |value|
    ensures |r| == |value| - (end - start) + |code|
    ensures r[..start] == value[..start]
    ensures r[start..start + |code|] == code
    ensures r[start + |code|..] == value[end..]
  {
    value[..start] + code + value[end..]
  }

  /** Splicing back what was selected undoes an insertion. */
  lemma SpliceUndo(value: string, start: nat, end: nat, code: string)
    requires start <= end <= |value|
    ensures Splice(Splice(value, start, end, code), start, start + |code|, value[start..end]) == value
  {
    var once := Splice(value, start, end, code);
    var back := Splice(once, start, start + |code|, value[start..end]);
    assert back == value[..start] + value[start..end] + value[end..];
    assert value == value[..start] + value[start..end] + value[end..];
  }

  /** Inserting at a caret (an empty selection) deletes nothing. */
  lemma InsertAtCaret(value: string, caret: nat, code: string)
    requires caret <= |value|
    ensures Splice(value, caret, caret, code) == value[..caret] + code + value[caret..]
    ensures Splice(value, caret, caret, "") == value
  {
    assert value[..caret] + "" + value[caret..] == value;
  }

  /** Two insertions at a caret that moves past each insertion are one
      insertion of both codes. */
  lemma {:induction false} InsertTwice(value: string, caret: nat, code1: string, code2: string)
    requires caret <= |value|
    ensures Splice(Splice(value, caret, caret, code1), caret + |code1|, caret + |code1|, code2)
      == Splice(value, caret, caret, code1 + code2)
  {
    var once := Splice(value, caret, caret, code1);
    assert once[..caret + |code1|] == value[..caret] + code1;
    assert once[caret + |code1|..] == value[caret..];
  }

  /** A text area: its value and its selection, which the browser keeps
      within the value. */
  class TextArea {
    var value: string
    var selectionStart: nat
    var selectionEnd: nat

    predicate Valid()
      reads this
    {
      selectionStart <= selectionEnd <= |value|
    }

    constructor (value: string, selectionStart: nat, selectionEnd: nat)
      requires selectionStart <= selectionEnd <= |value|
      ensures Valid()
      ensures this.value == value && this.selectionStart == selectionStart && this.selectionEnd == selectionEnd
    {
      this.value := value;
      this.selectionStart := selectionStart;
      this.selectionEnd := selectionEnd;
    }

    /** `insertCode(code)`: the selection is replaced by the code and the
        caret is put right after it. */
    method InsertCode(code: string)
      requires Valid()
      modifies this
      ensures Valid()
      ensures value == Splice(old(value), old(selectionStart), old(selectionEnd), code)
      ensures selectionStart == selectionEnd == old(selectionStart) + |code|
    {
      var cursorPos := selectionStart;
      var textBefore := value[..cursorPos];
      var textAfter := value[selectionEnd..];
      value := textBefore + code + textAfter;
      selectionStart := cursorPos + |code|;
      selectionEnd := selectionStart;
    }
  }

  /** What `applyHexColor` does with the input field. */
  datatype HexInputOutcome =
    | NoInput               // the trimmed input is empty: nothing happens
    | InvalidHex            // reported as an invalid hex colour
    | Applied(hex: string)  // the colour picker and the preview get `hex`

  /** `/^#[A-Fa-f0-9]{6}$/.test(hex)`. */
  predicate MatchesHexPattern(hex: string) {
    |hex| == 7 && hex[0] == '#' && AllHexDigits(hex[1..])
  }

  /** `applyHexColor`: trims the input, gives up on an empty one, puts a
      `#` in front when there is none and accepts the result exactly when
      it is `#` and six hex digits. */
  function ApplyHexColor(inputValue: string): (outcome: HexInputOutcome)
    ensures outcome == NoInput <==> Trim(inputValue) == ""
    ensures outcome.Applied? ==> MatchesHexPattern(outcome.hex)
    ensures outcome.Applied? ==>
      outcome.hex == (if Trim(inputValue)[0] == '#' then Trim(inputValue) else "#" + Trim(inputValue))
  {
    var hex := Trim(inputValue);
    if hex == "" then NoInput
    else
      var withHash := if hex[0] == '#' then hex else "#" + hex;
      if MatchesHexPattern(withHash) then Applied(withHash) else InvalidHex
  }

  /** The field accepts exactly what `hexToRgb` reads as a colour, and the
      colour applied has the same channels. */
  lemma {:induction false} ApplyHexColorAgreesWithHexToRgb(inputValue: string)
    ensures ApplyHexColor(inputValue).Applied? <==> HexToRgb(Trim(inputValue)).Some?
    ensures ApplyHexColor(inputValue).Applied? ==>
      HexToRgb(ApplyHexColor(inputValue).hex) == HexToRgb(Trim(inputValue))
  {
    var hex := Trim(inputValue);
    if hex != "" {
      PatternMeansHexColor(hex);
    }
  }

  /** The pattern, after the `#` is put in front, accepts what `hexToRgb`
      accepts, and the two spellings read as the same channels. */
  lemma PatternMeansHexColor(hex: string)
    requires hex != ""
    ensures var withHash := if hex[0] == '#' then hex else "#" + hex;
      (MatchesHexPattern(withHash) <==> HexToRgb(hex).Some?) &&
      HexToRgb(withHash) == HexToRgb(hex)
  {
    if hex[0] != '#' {
      var withHash := "#" + hex;
      assert withHash[1..] == hex;
      assert DigitsOf(withHash) == DigitsOf(hex);
    }
  }
}
