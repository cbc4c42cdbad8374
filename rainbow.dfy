/** The rainbow branch of `applyPreset`: every non-space character of the
    base text is preceded by one of seven colour codes, chosen by the
    character's position. */
module Rainbow {
  import opened Wrappers
  import opened Colors
  import opened Scanner
  import opened JsString

  /** `rainbowColors`. */
  const RainbowColors: seq<string> := ["\U{00A7}c", "\U{00A7}6", "\U{00A7}e", "\U{00A7}a", "\U{00A7}b", "\U{00A7}9", "\U{00A7}d"]

  /** What position `i` contributes: a bare space, or the position's colour
      code followed by the character. */
  function RainbowPiece(text: string, i: nat): string
    requires i < |text|
  {
    if text[i] == ' ' then " " else RainbowColors[i % |RainbowColors|] + [text[i]]
  }

  /** The rainbow code of positions `i` onwards. */
  function RainbowFrom(text: string, i: nat): string
    decreases |text| - i
  {
    if i >= |text| then "" else RainbowPiece(text, i) + RainbowFrom(text, i + 1)
  }

  /** The loop of the rainbow preset. */
  method RainbowCode(baseText: string) returns (rainbowCode: string)
    ensures rainbowCode == RainbowFrom(baseText, 0)
  {
    rainbowCode := "";
    for i := 0 to |baseText|
      invariant RainbowFrom(baseText, 0) == rainbowCode + RainbowFrom(baseText, i)
    {
      var c := baseText[i];
      RainbowStep(baseText, i, rainbowCode);
      if c == ' ' {
        rainbowCode := rainbowCode + " ";
      } else {
        var colorIndex := i % |RainbowColors|;
        rainbowCode := rainbowCode + (RainbowColors[colorIndex] + [c]);
      }
    }
    assert RainbowFrom(baseText, |baseText|) == "";
  }

  lemma RainbowStep(text: string, i: nat, code: string)
    requires i < |text| && RainbowFrom(text, 0) == code + RainbowFrom(text, i)
    ensures RainbowFrom(text, 0) == (code + RainbowPiece(text, i)) + RainbowFrom(text, i + 1)
  {
    ConcatAssoc(code, RainbowPiece(text, i), RainbowFrom(text, i + 1));
  }

  /** The colour a position's code selects. */
  function RainbowColor(i: nat): (color: string)
    ensures McColor(RainbowColors[i % 7][1]) == Some(color)
  {
    McColor(RainbowColors[i % 7][1]).value
  }

  /** The colours of all positions. */
  function RainbowPalette(text: string): (colors: seq<string>)
    ensures |colors| == |text|
    ensures forall j :: 0 <= j < |text| ==> colors[j] == RainbowColor(j)
  {
    seq(|text|, j requires 0 <= j < |text| => RainbowColor(j))
  }

  /** A non-space piece scans as one segment in the piece's colour. */
  lemma ScanRainbowPiece(text: string, i: nat, at: nat, reg: map<string, string>, st: Style)
    requires i < |text| && text[i] != ' ' && text[i] != Section
    ensures Scan(RainbowFrom(text, i), at, reg, st)
      == [Segment(at + 2, text[i], Plain(RainbowColor(i)))] + Scan(RainbowFrom(text, i + 1), at + 3, reg, Plain(RainbowColor(i)))
  {
    var code := RainbowColors[i % 7];
    var rest := RainbowFrom(text, i + 1);
    var s := RainbowFrom(text, i);
    assert s == code + ([text[i]] + rest);
    assert code[0] == Section && code[1] != '#';
    ScanCodeStep(s, at, reg, st);
    assert s[2..] == [text[i]] + rest;
    ScanLiteralStep([text[i]] + rest, at + 2, reg, Plain(RainbowColor(i)));
    assert ([text[i]] + rest)[1..] == rest;
  }

  /** A space scans as one segment in the current style. */
  lemma ScanRainbowSpace(text: string, i: nat, at: nat, reg: map<string, string>, st: Style)
    requires i < |text| && text[i] == ' '
    ensures Scan(RainbowFrom(text, i), at, reg, st)
      == [Segment(at, ' ', st)] + Scan(RainbowFrom(text, i + 1), at + 1, reg, st)
  {
    var s := RainbowFrom(text, i);
    assert s == " " + RainbowFrom(text, i + 1);
    ScanLiteralStep(s, at, reg, st);
    assert s[1..] == RainbowFrom(text, i + 1);
  }

  lemma {:induction false} ScanRainbowFrom(text: string, i: nat, at: nat, reg: map<string, string>, st: Style)
    requires i <= |text|
    requires forall k :: i <= k < |text| ==> text[k] != Section
    requires NoFlags(st)
    ensures ReadBack(Scan(RainbowFrom(text, i), at, reg, st), text, RainbowPalette(text), i, st)
    decreases |text| - i
  {
    if i < |text| {
      var colors := RainbowPalette(text);
      if text[i] == ' ' {
        ScanRainbowSpace(text, i, at, reg, st);
        ScanRainbowFrom(text, i + 1, at + 1, reg, st);
        ReadBackCons(Segment(at, ' ', st), Scan(RainbowFrom(text, i + 1), at + 1, reg, st), text, colors, i, st);
      } else {
        var next := Plain(RainbowColor(i));
        ScanRainbowPiece(text, i, at, reg, st);
        ScanRainbowFrom(text, i + 1, at + 3, reg, next);
        ReadBackCons(Segment(at + 2, text[i], next), Scan(RainbowFrom(text, i + 1), at + 3, reg, next), text, colors, i, st);
      }
    }
  }

  /** Reading a rainbow back: whatever the registry holds, a text without
      `§` comes back one character per segment with every flag off, each
      non-space character in the colour of code `i % 7` and each space in
      the style of the character before it. */
  lemma RainbowRoundTrip(text: string, reg: map<string, string>)
    requires forall k :: 0 <= k < |text| ==> text[k] != Section
    ensures var segs := Scan(RainbowFrom(text, 0), 0, reg, Initial);
      |segs| == |text| &&
      forall k :: 0 <= k < |segs| ==>
        segs[k].ch == text[k] && NoFlags(segs[k].style) &&
        (text[k] != ' ' ==> segs[k].style == Plain(RainbowColor(k))) &&
        (text[k] == ' ' ==> segs[k].style == (if k == 0 then Initial else segs[k - 1].style))
  {
    ScanRainbowFrom(text, 0, 0, reg, Initial);
    ReadBackWhole(Scan(RainbowFrom(text, 0), 0, reg, Initial), text, RainbowPalette(text), Initial);
  }

  /** The code is chosen by position, spaces included: the `c` at
      position 3 gets the fourth code, not the third. */
  lemma RainbowCountsSpaces()
    ensures RainbowFrom("ab c", 0) == "\U{00A7}ca\U{00A7}6b \U{00A7}ac"
  {
  }
}
