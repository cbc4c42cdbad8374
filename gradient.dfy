/** `generateGradient`: encodes a text as a stream of `§#RRGGBB` tokens whose
    colours run linearly from a start colour to an end colour, registering
    every token so that the scanner can read the stream back. */
module Gradient {
  import opened Wrappers
  import opened JsString
  import opened Colors
  import opened Scanner
  import opened Registry
  import opened History
  import FormatConvert

  const MaxGradientLength: nat := 50

  /** `text.length === 1 ? 0 : i / (text.length - 1)`, over exact rationals. */
  function GradientFactor(n: nat, i: nat): (f: real)
    requires i < n
    ensures 0.0 <= f <= 1.0
    ensures i == 0 ==> f == 0.0
    ensures n >= 2 && i == n - 1 ==> f == 1.0
  {
    if n == 1 then 0.0 else i as real / (n - 1) as real
  }

  /** The colour of position `i` of the trimmed text (spaces count). */
  function GradientColor(text: string, startColor: string, endColor: string, i: nat): (c: string)
    requires i < |text|
    ensures HexToRgb(startColor).Some? && HexToRgb(endColor).Some? ==> IsCanonicalHex(c)
  {
    InterpolateColor(startColor, endColor, GradientFactor(|text|, i))
  }

  /** The colours of all positions, in order. */
  function GradientColors(text: string, startColor: string, endColor: string): (colors: seq<string>)
    ensures |colors| == |text|
    ensures forall j :: 0 <= j < |text| ==> colors[j] == GradientColor(text, startColor, endColor, j)
  {
    seq(|text|, j requires 0 <= j < |text| => GradientColor(text, startColor, endColor, j))
  }

  /** `'§#' + interpolatedColor.substring(1).toUpperCase()`. */
  function HexCode(color: string): string {
    [Section, '#'] + ToUpperAscii(DropFirst(color))
  }

  /** What position `i` contributes to the stream: a bare space, or the
      token of the position's colour followed by the character. */
  function GradientPiece(text: string, colors: seq<string>, i: nat): string
    requires i < |text| == |colors|
  {
    if text[i] == ' ' then " " else HexCode(colors[i]) + [text[i]]
  }

  /** The `§` stream built from position `i` onwards. */
  function GradientCode(text: string, colors: seq<string>, i: nat): string
    requires |text| == |colors|
    decreases |text| - i
  {
    if i >= |text| then ""
    else GradientPiece(text, colors, i) + GradientCode(text, colors, i + 1)
  }

  /** The registry after the writes of positions `i` onwards, in order. */
  function Registered(reg: map<string, string>, text: string, colors: seq<string>, i: nat): map<string, string>
    requires |text| == |colors|
    decreases |text| - i
  {
    if i >= |text| then reg
    else if text[i] == ' ' then Registered(reg, text, colors, i + 1)
    else Registered(reg[HexCode(colors[i]) := colors[i]], text, colors, i + 1)
  }

  /** The tokens written for positions `i` onwards. */
  function TokensFrom(text: string, colors: seq<string>, i: nat): set<string>
    requires |text| == |colors|
  {
    set j | i <= j < |text| && text[j] != ' ' :: HexCode(colors[j])
  }

  /** The three ways a gradient request ends. */
  datatype GradientOutcome =
    | NoText            // the trimmed text is empty: nothing happens
    | TextTooLong       // more than 50 characters: nothing happens
    | Generated(code: string)

  /** The last `generateGradient`. The preview HTML and the DOM updates are
      not modelled; the format selector's value is the parameter `format`. */
  method GenerateGradient(rawText: string, startColor: string, endColor: string, format: string,
                          registry: ColorRegistry, history: TextHistory) returns (outcome: GradientOutcome)
    modifies registry, history
    ensures var text := Trim(rawText);
      var colors := GradientColors(text, startColor, endColor);
      if text == "" then
        outcome == NoText && registry.entries == old(registry.entries) && history.items == old(history.items)
      else if |text| > MaxGradientLength then
        outcome == TextTooLong && registry.entries == old(registry.entries) && history.items == old(history.items)
      else
        outcome == Generated(FormatConvert.ConvertColorFormat(GradientCode(text, colors, 0), format)) &&
        registry.entries == Registered(old(registry.entries), text, colors, 0) &&
        history.items == AddedToHistory(old(history.items), HistoryItem(text, "gradient", GradientRecord(startColor, endColor, outcome.code)))
  {
    var text := Trim(rawText);
    if text == "" {
      return NoText;
    }
    if |text| > MaxGradientLength {
      return TextTooLong;
    }
    var gradientCodeText := EncodeGradient(text, startColor, endColor, registry);
    var formattedGradientCode := FormatConvert.ConvertColorFormat(gradientCodeText, format);
    TrimIdempotent(rawText);
    if Trim(text) != "" {
      history.Add(HistoryItem(text, "gradient", GradientRecord(startColor, endColor, formattedGradientCode)));
    }
    outcome := Generated(formattedGradientCode);
  }

  /** The `for` loop of `generateGradient`: builds the `§` stream and writes
      every token into the registry. */
  method EncodeGradient(text: string, startColor: string, endColor: string, registry: ColorRegistry)
    returns (gradientCodeText: string)
    modifies registry
    ensures var colors := GradientColors(text, startColor, endColor);
      gradientCodeText == GradientCode(text, colors, 0) &&
      registry.entries == Registered(old(registry.entries), text, colors, 0)
  {
    ghost var colors := GradientColors(text, startColor, endColor);
    gradientCodeText := "";
    for i := 0 to |text|
      invariant EncodedUpTo(text, colors, i, gradientCodeText, old(registry.entries), registry.entries)
    {
      var c := text[i];
      if c == ' ' {
        SpaceStepKeeps(text, colors, i, gradientCodeText, old(registry.entries), registry.entries);
        gradientCodeText := gradientCodeText + " ";
        continue;
      }
      var factor := if |text| == 1 then 0.0 else i as real / (|text| - 1) as real;
      FactorAt(text, startColor, endColor, i);
      var interpolatedColor := InterpolateColor(startColor, endColor, factor);
      var hexCode := "§#" + ToUpperAscii(DropFirst(interpolatedColor));
      PieceStepKeeps(text, colors, i, gradientCodeText, old(registry.entries), registry.entries);
      registry.Register(hexCode, interpolatedColor);
      gradientCodeText := gradientCodeText + (hexCode + [c]);
    }
    EncodedAll(text, colors, gradientCodeText, old(registry.entries), registry.entries);
  }

  /** The loop invariant of `GenerateGradient`: the stream so far and the
      rest still to come make the whole stream, and the writes still to come
      turn the registry into the final one. */
  ghost predicate EncodedUpTo(text: string, colors: seq<string>, i: nat, code: string,
                              reg0: map<string, string>, reg: map<string, string>)
    requires |text| == |colors|
  {
    i <= |text| &&
    GradientCode(text, colors, 0) == code + GradientCode(text, colors, i) &&
    Registered(reg0, text, colors, 0) == Registered(reg, text, colors, i)
  }

  /** The factor the loop computes at position `i` is in range and gives
      the position's colour. */
  lemma FactorAt(text: string, startColor: string, endColor: string, i: nat)
    requires i < |text|
    ensures var factor := if |text| == 1 then 0.0 else i as real / (|text| - 1) as real;
      0.0 <= factor <= 1.0 &&
      InterpolateColor(startColor, endColor, factor) == GradientColors(text, startColor, endColor)[i] &&
      "§#" + ToUpperAscii(DropFirst(InterpolateColor(startColor, endColor, factor))) == HexCode(GradientColors(text, startColor, endColor)[i])
  {
    assert GradientFactor(|text|, i) == if |text| == 1 then 0.0 else i as real / (|text| - 1) as real;
  }

  lemma EncodedAll(text: string, colors: seq<string>, code: string, reg0: map<string, string>, reg: map<string, string>)
    requires |text| == |colors|
    requires EncodedUpTo(text, colors, |text|, code, reg0, reg)
    ensures code == GradientCode(text, colors, 0) && reg == Registered(reg0, text, colors, 0)
  {
    assert code + GradientCode(text, colors, |text|) == code;
  }

  lemma SpaceStepKeeps(text: string, colors: seq<string>, i: nat, code: string,
                       reg0: map<string, string>, reg: map<string, string>)
    requires |text| == |colors| && i < |text| && text[i] == ' '
    requires EncodedUpTo(text, colors, i, code, reg0, reg)
    ensures EncodedUpTo(text, colors, i + 1, code + " ", reg0, reg)
  {
    ConcatAssoc(code, " ", GradientCode(text, colors, i + 1));
  }

  lemma PieceStepKeeps(text: string, colors: seq<string>, i: nat, code: string,
                       reg0: map<string, string>, reg: map<string, string>)
    requires |text| == |colors| && i < |text| && text[i] != ' '
    requires EncodedUpTo(text, colors, i, code, reg0, reg)
    ensures EncodedUpTo(text, colors, i + 1, code + (HexCode(colors[i]) + [text[i]]), reg0, reg[HexCode(colors[i]) := colors[i]])
  {
    ConcatAssoc(code, HexCode(colors[i]) + [text[i]], GradientCode(text, colors, i + 1));
  }

  // ---------------------------------------------------------------------------
  // Tokens
  // ---------------------------------------------------------------------------

  /** The token of a canonical colour is `§#` and six upper-case digits. */
  lemma HexCodeShape(color: string)
    requires IsCanonicalHex(color)
    ensures |HexCode(color)| == 8 && HexCode(color)[0] == Section && HexCode(color)[1] == '#'
    ensures forall k :: 2 <= k < 8 ==> HexCode(color)[k] == UpperChar(color[k - 1])
  {
  }

  /** Different canonical colours get different tokens. */
  lemma {:induction false} HexCodeInjective(c1: string, c2: string)
    requires IsCanonicalHex(c1) && IsCanonicalHex(c2)
    requires HexCode(c1) == HexCode(c2)
    ensures c1 == c2
  {
    HexCodeShape(c1);
    HexCodeShape(c2);
    forall k | 1 <= k < 7
      ensures c1[k] == c2[k]
    {
      assert HexCode(c1)[k + 1] == HexCode(c2)[k + 1];
    }
  }

  /** A colour list in which equal tokens always stand for equal colours. */
  predicate TokensDetermineColors(colors: seq<string>) {
    forall i, j :: 0 <= i < |colors| && 0 <= j < |colors| && HexCode(colors[i]) == HexCode(colors[j]) ==>
      colors[i] == colors[j]
  }

  /** Within one gradient a token always stands for one colour: when both
      end colours are hex colours because the colours are canonical, and
      otherwise because every position gets the start colour. */
  lemma GradientTokensDetermineColors(text: string, startColor: string, endColor: string)
    ensures TokensDetermineColors(GradientColors(text, startColor, endColor))
  {
    var colors := GradientColors(text, startColor, endColor);
    forall i, j | 0 <= i < |colors| && 0 <= j < |colors| && HexCode(colors[i]) == HexCode(colors[j])
      ensures colors[i] == colors[j]
    {
      if HexToRgb(startColor).Some? && HexToRgb(endColor).Some? {
        HexCodeInjective(colors[i], colors[j]);
      }
    }
  }

  // ---------------------------------------------------------------------------
  // The registry after a gradient
  // ---------------------------------------------------------------------------

  /** Every token among positions before `i` maps to its colour in `reg`. */
  predicate TokensBefore(reg: map<string, string>, text: string, colors: seq<string>, i: nat)
    requires |text| == |colors| && i <= |text|
  {
    forall j :: 0 <= j < i && text[j] != ' ' ==> HexCode(colors[j]) in reg && reg[HexCode(colors[j])] == colors[j]
  }

  /** One more write keeps every earlier token's colour. */
  lemma RegisterKeepsEarlier(reg: map<string, string>, text: string, colors: seq<string>, i: nat)
    requires |text| == |colors| && i < |text| && text[i] != ' '
    requires TokensDetermineColors(colors) && TokensBefore(reg, text, colors, i)
    ensures TokensBefore(reg[HexCode(colors[i]) := colors[i]], text, colors, i + 1)
  {
  }

  /** After the writes every generated token maps to its own colour: no
      later write of the same token disagrees with an earlier one. */
  lemma {:induction false} RegisteredResolves(reg: map<string, string>, text: string, colors: seq<string>, i: nat)
    requires |text| == |colors| && i <= |text|
    requires TokensDetermineColors(colors) && TokensBefore(reg, text, colors, i)
    ensures TokensBefore(Registered(reg, text, colors, i), text, colors, |text|)
    decreases |text| - i
  {
    if i < |text| {
      if text[i] == ' ' {
        RegisteredResolves(reg, text, colors, i + 1);
      } else {
        RegisterKeepsEarlier(reg, text, colors, i);
        RegisteredResolves(reg[HexCode(colors[i]) := colors[i]], text, colors, i + 1);
      }
    }
  }

  lemma TokensFromStep(text: string, colors: seq<string>, i: nat)
    requires |text| == |colors| && i < |text|
    ensures TokensFrom(text, colors, i) ==
      (if text[i] == ' ' then {} else {HexCode(colors[i])}) + TokensFrom(text, colors, i + 1)
  {
  }

  /** The writes add exactly the generated tokens, and every entry whose
      token the gradient did not generate keeps its value. */
  lemma {:induction false} RegisteredKeepsOthers(reg: map<string, string>, text: string, colors: seq<string>, i: nat)
    requires |text| == |colors|
    ensures var r := Registered(reg, text, colors, i);
      r.Keys == reg.Keys + TokensFrom(text, colors, i) &&
      forall t :: t in reg && t !in TokensFrom(text, colors, i) ==> r[t] == reg[t]
    decreases |text| - i
  {
    if i < |text| {
      TokensFromStep(text, colors, i);
      if text[i] == ' ' {
        RegisteredKeepsOthers(reg, text, colors, i + 1);
      } else {
        RegisteredKeepsOthers(reg[HexCode(colors[i]) := colors[i]], text, colors, i + 1);
      }
    } else {
      assert TokensFrom(text, colors, i) == {};
    }
  }

  // ---------------------------------------------------------------------------
  // Reading a gradient back
  // ---------------------------------------------------------------------------

  /** Every token of positions `i` onwards is an eight-character `§#` token
      that resolves to its colour in `reg`. */
  predicate TokensResolve(reg: map<string, string>, text: string, colors: seq<string>, i: nat)
    requires |text| == |colors| && i <= |text|
  {
    forall j :: i <= j < |text| && text[j] != ' ' ==>
      |HexCode(colors[j])| == 8 && HexCode(colors[j])[1] == '#' &&
      Resolve(reg, HexCode(colors[j])) == Some(colors[j])
  }

  /** A registered token followed by a literal scans as one segment in the
      token's colour. */
  lemma ScanTokenThenLiteral(token: string, c: char, rest: string, at: nat, reg: map<string, string>, st: Style)
    requires |token| == 8 && token[0] == Section && token[1] == '#' && Resolve(reg, token).Some?
    requires c != Section
    ensures Scan(token + ([c] + rest), at, reg, st)
      == [Segment(at + 8, c, Plain(Resolve(reg, token).value))] + Scan(rest, at + 9, reg, Plain(Resolve(reg, token).value))
  {
    var s := token + ([c] + rest);
    assert s[..8] == token;
    ScanTokenStep(s, at, reg, st);
    assert s[8..] == [c] + rest;
    ScanLiteralStep([c] + rest, at + 8, reg, Plain(Resolve(reg, token).value));
    assert ([c] + rest)[1..] == rest;
  }

  /** A non-space piece scans as one segment in the piece's colour. */
  lemma ScanPiece(text: string, colors: seq<string>, i: nat, at: nat, reg: map<string, string>, st: Style)
    requires |text| == |colors| && i < |text| && text[i] != ' ' && text[i] != Section
    requires TokensResolve(reg, text, colors, i)
    ensures Scan(GradientCode(text, colors, i), at, reg, st)
      == [Segment(at + 8, text[i], Plain(colors[i]))] + Scan(GradientCode(text, colors, i + 1), at + 9, reg, Plain(colors[i]))
  {
    var token := HexCode(colors[i]);
    var rest := GradientCode(text, colors, i + 1);
    assert GradientCode(text, colors, i) == token + ([text[i]] + rest);
    assert token[0] == Section;
    ScanTokenThenLiteral(token, text[i], rest, at, reg, st);
  }

  /** A space scans as one segment in the current style. */
  lemma ScanSpace(text: string, colors: seq<string>, i: nat, at: nat, reg: map<string, string>, st: Style)
    requires |text| == |colors| && i < |text| && text[i] == ' '
    ensures Scan(GradientCode(text, colors, i), at, reg, st)
      == [Segment(at, ' ', st)] + Scan(GradientCode(text, colors, i + 1), at + 1, reg, st)
  {
    var s := GradientCode(text, colors, i);
    assert s == " " + GradientCode(text, colors, i + 1);
    ScanLiteralStep(s, at, reg, st);
    assert s[1..] == GradientCode(text, colors, i + 1);
  }

  /** Scanning the stream of positions `i` onwards gives one segment per
      character, flags off, each non-space character in its colour and each
      space in the style of the segment before it. */
  lemma {:induction false} ScanGradientFrom(text: string, colors: seq<string>, i: nat,
                                            at: nat, reg: map<string, string>, st: Style)
    requires |text| == |colors| && i <= |text|
    requires forall k :: i <= k < |text| ==> text[k] != Section
    requires TokensResolve(reg, text, colors, i)
    requires NoFlags(st)
    ensures ReadBack(Scan(GradientCode(text, colors, i), at, reg, st), text, colors, i, st)
    decreases |text| - i
  {
    if i < |text| {
      if text[i] == ' ' {
        ScanSpace(text, colors, i, at, reg, st);
        ScanGradientFrom(text, colors, i + 1, at + 1, reg, st);
        ReadBackCons(Segment(at, ' ', st), Scan(GradientCode(text, colors, i + 1), at + 1, reg, st), text, colors, i, st);
      } else {
        var next := Plain(colors[i]);
        ScanPiece(text, colors, i, at, reg, st);
        ScanGradientFrom(text, colors, i + 1, at + 9, reg, next);
        ReadBackCons(Segment(at + 8, text[i], next), Scan(GradientCode(text, colors, i + 1), at + 9, reg, next), text, colors, i, st);
      }
    }
  }

  /** The gradient round trip: scanning the `§` stream of a text without
      `§` against the registry the gradient leaves behind gives back the
      text, one character per segment, every flag off, every non-space
      character in its interpolated colour and every space in the style of
      the character before it (the initial style for a leading space). */
  lemma GradientRoundTrip(text: string, startColor: string, endColor: string, reg: map<string, string>)
    requires HexToRgb(startColor).Some? && HexToRgb(endColor).Some?
    requires forall k :: 0 <= k < |text| ==> text[k] != Section
    ensures var colors := GradientColors(text, startColor, endColor);
      var segs := Scan(GradientCode(text, colors, 0), 0, Registered(reg, text, colors, 0), Initial);
      |segs| == |text| &&
      forall k :: 0 <= k < |segs| ==>
        segs[k].ch == text[k] && NoFlags(segs[k].style) &&
        (text[k] != ' ' ==> segs[k].style == Plain(GradientColor(text, startColor, endColor, k))) &&
        (text[k] == ' ' ==> segs[k].style == (if k == 0 then Initial else segs[k - 1].style))
  {
    var colors := GradientColors(text, startColor, endColor);
    var r := Registered(reg, text, colors, 0);
    GradientTokensDetermineColors(text, startColor, endColor);
    RegisteredResolves(reg, text, colors, 0);
    forall j | 0 <= j < |text| && text[j] != ' '
      ensures |HexCode(colors[j])| == 8 && HexCode(colors[j])[1] == '#' && Resolve(r, HexCode(colors[j])) == Some(colors[j])
    {
      HexCodeShape(colors[j]);
    }
    ScanGradientFrom(text, colors, 0, 0, r, Initial);
    ReadBackWhole(Scan(GradientCode(text, colors, 0), 0, r, Initial), text, colors, Initial);
  }

  // ---------------------------------------------------------------------------
  // Endpoints and shape
  // ---------------------------------------------------------------------------

  /** The first position has exactly the start colour's channels and, for
      a text of two or more characters, the last has the end colour's. */
  lemma GradientEndpoints(text: string, startColor: string, endColor: string)
    requires HexToRgb(startColor).Some? && HexToRgb(endColor).Some? && text != []
    ensures HexToRgb(GradientColor(text, startColor, endColor, 0)) == HexToRgb(startColor)
    ensures |text| >= 2 ==> HexToRgb(GradientColor(text, startColor, endColor, |text| - 1)) == HexToRgb(endColor)
  {
  }

  /** The number of non-space characters from position `i` on. */
  function NonSpaceCount(text: string, i: nat): (n: nat)
    ensures i <= |text| ==> n <= |text| - i
    decreases |text| - i
  {
    if i >= |text| then 0 else (if text[i] == ' ' then 0 else 1) + NonSpaceCount(text, i + 1)
  }

  /** The stream is the text with eight token characters before each
      non-space character and none before a space. */
  lemma {:induction false} GradientCodeLength(text: string, colors: seq<string>, i: nat)
    requires |text| == |colors| && i <= |text|
    requires forall j :: 0 <= j < |colors| ==> IsCanonicalHex(colors[j])
    ensures |GradientCode(text, colors, i)| == |text| - i + 8 * NonSpaceCount(text, i)
    decreases |text| - i
  {
    if i < |text| {
      HexCodeShape(colors[i]);
      GradientCodeLength(text, colors, i + 1);
    }
  }

  /** Between two hex colours every position's colour is canonical, so the
      gradient stream has the length above. */
  lemma GradientLength(text: string, startColor: string, endColor: string)
    requires HexToRgb(startColor).Some? && HexToRgb(endColor).Some?
    ensures |GradientCode(text, GradientColors(text, startColor, endColor), 0)| == |text| + 8 * NonSpaceCount(text, 0)
  {
    GradientCodeLength(text, GradientColors(text, startColor, endColor), 0);
  }

  /** The colour of an end of a two-character gradient is the canonical
      spelling of that end's channels. */
  lemma EndColorOfPair(text: string, startColor: string, endColor: string, i: nat, rgb: Rgb)
    requires |text| == 2 && i < 2
    requires HexToRgb(startColor).Some? && HexToRgb(endColor).Some?
    requires HexToRgb(if i == 0 then startColor else endColor) == Some(rgb)
    ensures GradientColors(text, startColor, endColor)[i] == RgbToHex(rgb.r, rgb.g, rgb.b)
  {
    var c := GradientColors(text, startColor, endColor)[i];
    GradientEndpoints(text, startColor, endColor);
    CanonicalHexIsRgbToHex(c);
  }

  /** The stream of two non-space characters. */
  lemma PairCode(text: string, colors: seq<string>)
    requires |text| == |colors| == 2 && text[0] != ' ' && text[1] != ' '
    ensures GradientCode(text, colors, 0) == HexCode(colors[0]) + [text[0]] + HexCode(colors[1]) + [text[1]]
  {
    assert GradientCode(text, colors, 2) == "";
    assert GradientCode(text, colors, 1) == HexCode(colors[1]) + [text[1]];
  }

  lemma RedToBlueColors()
    ensures var colors := GradientColors("AB", "#FF0000", "#0000FF");
      colors[0] == RgbToHex(255, 0, 0) && colors[1] == RgbToHex(0, 0, 255)
  {
    assert HexToRgb("#FF0000") == Some(Rgb(255, 0, 0)) by {
      assert AllHexDigits("FF0000");
    }
    assert HexToRgb("#0000FF") == Some(Rgb(0, 0, 255)) by {
      assert AllHexDigits("0000FF");
    }
    EndColorOfPair("AB", "#FF0000", "#0000FF", 0, Rgb(255, 0, 0));
    EndColorOfPair("AB", "#FF0000", "#0000FF", 1, Rgb(0, 0, 255));
  }

  /** Red to blue over two characters: the first character is preceded by
      the token of exactly the start colour's channels and the last by that
      of exactly the end colour's. */
  lemma GradientRedToBlue()
    ensures GradientCode("AB", GradientColors("AB", "#FF0000", "#0000FF"), 0)
      == HexCode(RgbToHex(255, 0, 0)) + "A" + HexCode(RgbToHex(0, 0, 255)) + "B"
  {
    RedToBlueColors();
    PairCode("AB", GradientColors("AB", "#FF0000", "#0000FF"));
  }

  /** A space gets no token: `A B` encodes to a token, `A`, a bare space, a
      token and `B`. */
  lemma SpaceGetsNoToken(startColor: string, endColor: string)
    ensures var colors := GradientColors("A B", startColor, endColor);
      GradientCode("A B", colors, 0) == HexCode(colors[0]) + "A" + " " + HexCode(colors[2]) + "B"
  {
  }
}
