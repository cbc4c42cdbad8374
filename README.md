# MineStyle formatting-code engine in Dafny

This project models the Minecraft `§` formatting-code engine of the MineStyle
web tool, and proves properties of that model. The engine lives in
`scripts/main_old.js`, and `scripts/main.js` repeats its helpers. It has these
parts:

- **Scanner** (module `Scanner`). `parseMinecraftText` walks a string with an
  index. It keeps one style: a colour and five flags (bold, italic, underline,
  strikethrough, obfuscated). It consumes two-character `§x` codes and
  registered eight-character `§#RRGGBB` tokens. It writes one `<span>` per
  remaining character.
  - The spec function `Scan` folds the text into styled segments.
  - `Render` turns the segments into HTML.
  - The method `ParseMinecraftText` is the source's `while` loop, proved equal
    to `Render(Scan(...))`.
- **Colour registry** (module `Registry`). `customHexColors` is a class
  `ColorRegistry` whose field is a `map<string, string>`. The gradient encoder
  writes it and the scanner reads it.
- **Colours** (module `Colors`). This covers the sixteen-colour table, and
  `hexToRgb`, `rgbToHex` and `interpolateColor`. Channels are integers
  0..255. `Math.round(x)` is `floor(x + 1/2)` over exact rationals.
- **Gradient encoder** (module `Gradient`). This is the effective (last)
  `generateGradient`.
  - The trimmed text is checked: empty means nothing happens, and more than
    50 characters is refused.
  - Each non-space character at index `i` is preceded by
    `§#` + the upper-cased hex of the colour interpolated at `i / (n - 1)`.
  - That token is registered in the colour registry.
  - The result is converted to the chosen prefix and added to the history.
  - The loop is the method `EncodeGradient`, proved against the spec
    functions `GradientCode` and `Registered`.
- **Prefix converter** (module `FormatConvert`). `convertColorFormat` is a
  blind `§`↔`&` replace.
- **Helpers.**
  - Small caps (module `SmallCaps`).
  - The textarea splice of `insertCode` (module `Editor`, class `TextArea`).
  - Hex-input validation of `applyHexColor` (module `Editor`).
  - The bounded, newest-first history (module `History`, class `TextHistory`).
  - The rainbow preset builder (module `Rainbow`).
- **JavaScript built-ins** (modules `JsString` and `Wrappers`). These are the
  few built-ins the engine relies on (`trim`, ASCII `toUpperCase`, global
  one-character `replace`), and an `Option` datatype.

Parameters stand in for what the source reads from the outside world.
- `Math.random` in obfuscation is the parameter `draw: nat -> nat`. It gives,
  for each text position, the roll `Math.floor(Math.random() * 44)`.
- DOM inputs are parameters:
  - `ParseMinecraftText` takes the text.
  - `GenerateGradient` takes the raw text, both colours and the format.
  - `ApplyHexColor` takes the input value.

The main results:

- **Gradient round trip** (`Gradient.GradientRoundTrip`). Encode a text
  without `§` between two hex colours (both accepted by `hexToRgb`), and scan
  the stream with the registry the encoder leaves behind. There is one segment per input character, with every flag off:
  - each non-space character is drawn in its interpolated colour;
  - each space keeps the style of the character before it.
- **Rainbow round trip** (`Rainbow.RainbowRoundTrip`). The same holds for the
  rainbow preset, with the table colour `i % 7`.
- **Scanner laws.** Each is an equation on `Scan`: colour codes, format codes,
  reset, unknown codes, registered tokens and a trailing lone `§`.
- **Round trips.** `hexToRgb(rgbToHex(r, g, b)) == (r, g, b)`, and an accepted
  hex converted back is `#` followed by the input's six digits in lower case. The prefix converter round-trips
  when the text has no `&`.

Facts about the code that the model keeps:

- The obfuscation alphabet `abcdefghijklmnopqrstuvwxyz0123456789!@#$%^&*` has
  44 characters.
- The obfuscated character is chosen while parsing, in the same loop that
  writes the span.
- The registry stores the colour string returned by `interpolateColor`. When
  both end colours pass `hexToRgb` this is lower case `#rrggbb`; otherwise it
  is the start colour exactly as given.
- The scanner's token check is only a registry lookup of the eight characters
  starting at the `§` (`text.substring(i, i + 8)`, `scripts/main_old.js` line
  557; `customHexColors[hexCode]` must be truthy). It does not check the hex
  pattern separately.
- The effective `applyHexColor` (the later one in `main_old.js`, and the one
  in `main.js`) validates and previews only. It writes no registry entry.

## Model

| member | source | states |
|---|---|---|
| Colors.McColor | scripts/main_old.js:11-16 | the table has an entry exactly for the lowercase codes `0`-`9`, `a`-`f` |
| Colors.HexValue | scripts/main.js:266-268 | `parseInt(_, 16)` of one hex digit, either case, is a value below 16 |
| Colors.DigitsOf | scripts/main.js:264 | what the `#?` of the regex leaves: the input without one leading `#` |
| Colors.ToHexString | scripts/main.js:273 | `toString(16)`: a lower-case base-16 numeral of at least one digit |
| Colors.Round | scripts/main.js:282-284 | `Math.round`: the integer within one half of the value, halves rounded up |
| Colors.HexToRgb | scripts/main.js:263-270 | channels are returned exactly when the input is six hex digits (either case), with or without a leading `#`; otherwise nothing |
| Colors.RgbToHex | scripts/main.js:272-274 | the result is `#` plus two lowercase hex digits per channel, six digits in all |
| Colors.PaddedHex | scripts/main_old.js:289-291 | `(1 << 24) + (r << 16) + (g << 8) + b` printed in base 16 is `1` followed by the six padded digits, so `slice(1)` leaves exactly those |
| Colors.RgbToHexRoundTrip | scripts/main.js:263-274 | `hexToRgb(rgbToHex(r, g, b))` gives back `(r, g, b)` |
| Colors.HexToRgbRoundTrip | scripts/main.js:263-274 | for any accepted input, `rgbToHex(hexToRgb(hex))` is `#` plus the input's digits in lower case |
| Colors.CanonicalHexIsRgbToHex | scripts/main_old.js:280-291 | a `#` + six lowercase-digit colour is accepted by `hexToRgb` and printed back unchanged by `rgbToHex` |
| Colors.LerpChannel | scripts/main.js:276-287 | one rounded channel lies between the two endpoint channels, equals the first at factor 0 and the second at factor 1 |
| Colors.InterpolateColor | scripts/main_old.js:323-334 | an invalid endpoint gives back `color1` unchanged; otherwise the result is a canonical colour whose every channel lies between the endpoints' channels, equal to the start at factor 0 and the end at factor 1 |
| Colors.RoundBetween | scripts/main.js:282-284 | `Math.round` of a value between two integers stays between them |
| Colors.LerpEnds | scripts/main.js:282-284 | `Math.round(a + f * (b - a))` is `a` at `f = 0` and `b` at `f = 1` |
| Registry.Resolve | scripts/main_old.js:558-559 | a token is a hit exactly when it is a key whose colour is a non-empty (truthy) string, and the hit is that colour |
| Registry.ColorRegistry.constructor | scripts/main_old.js:26 | the registry starts empty |
| Registry.ColorRegistry.Register | scripts/main_old.js:1015 | `customHexColors[token] = color` is a map update: the last write wins and no other entry changes |
| Scanner.ApplyCode | scripts/main_old.js:571-597 | a colour code or `r` clears every flag; any other code keeps the colour and never clears a flag |
| Scanner.Scan | scripts/main_old.js:553-617 | the scan never yields more segments than the text has characters |
| Scanner.ScanLiteralStep | scripts/main_old.js:599-616 | a character that does not start a code (anything but `§`, or a `§` with nothing after it) becomes one segment in the current style, at its own position |
| Scanner.ScanTokenStep | scripts/main_old.js:556-568 | a `§#` whose eight characters resolve in the registry sets that colour, clears every flag and skips eight characters |
| Scanner.ScanCodeStep | scripts/main_old.js:571-598 | any other `§x` applies code `x` to the style and skips two characters, emitting nothing |
| Scanner.ColorCode | scripts/main_old.js:573-580 | `§` followed by a digit or a lowercase `a`-`f` sets the table colour and clear all five flags |
| Scanner.FormatCode | scripts/main_old.js:582-587 | `§l`, `§o`, `§n`, `§m`, `§k` set only their own flag; colour and the other flags are unchanged |
| Scanner.ResetCode | scripts/main_old.js:588-595 | `§r` sets the colour to `#FFFFFF` and clears all flags |
| Scanner.UnknownCode | scripts/main_old.js:571-598 | `§` followed by any other character (an uppercase colour letter, an unknown letter, `#` without a registered token) consumes two characters and changes nothing |
| Scanner.RegisteredToken | scripts/main_old.js:556-568 | a registered `§#RRGGBB` token followed by more text switches to the registered colour with all flags off and resumes eight characters later |
| Scanner.TrailingSection | scripts/main_old.js:553-554 | a lone `§` at the end of the text is a literal and yields one span |
| Scanner.ScanPlainText | scripts/main_old.js:545-616 | a text without `§` yields one segment per character, in order, all in the starting style |
| Scanner.ScanPositions | scripts/main_old.js:553-617 | there are never more segments than input characters, and each segment carries the input character at its position |
| Scanner.ScanInOrder | scripts/main_old.js:553-617 | segments come out in strictly increasing input position |
| Scanner.ReadBackWhole | scripts/main_old.js:553-617 | a read-back of a whole stream means one segment per text character, flags off, non-spaces in their colour, spaces in the style before them |
| Scanner.ReadBackCons | scripts/main_old.js:553-617 | a correct first segment followed by a correct read-back of the rest is a correct read-back of the whole |
| Scanner.Shown | scripts/main_old.js:607-612 | an obfuscated character is replaced by one from the 44-character alphabet (never a space); any other is drawn as itself |
| Scanner.RenderCons | scripts/main_old.js:614 | the HTML of a segment list is the first segment's span followed by the HTML of the rest |
| Scanner.RenderSpan | scripts/main_old.js:600-614 | the span the loop appends for a literal is the span of that literal's segment, so the loop's string building agrees with `StyleCss` and `SpanHtml` |
| Scanner.StyleCss | scripts/main_old.js:600-605 | the style always starts with `color: <colour>;` |
| Scanner.AddIf | scripts/main_old.js:601-605 | `if (flag) styles += clause` only ever extends the style |
| Scanner.StyleCssClauses | scripts/main_old.js:600-605 | the style is `color: <colour>;` followed by the clauses whose flags are set, in the source's order (bold, italic, underline, line-through, both lines) and nothing else |
| Scanner.PickedIncreasing | scripts/main_old.js:601-605 | the chosen clause indices strictly increase, so the clauses keep the source's order |
| Scanner.ClausePresent | scripts/main_old.js:601-605 | clause `k` occurs in the style exactly when its flag is set |
| Scanner.ClausesOfStyle | scripts/main_old.js:601-605 | bold, italic, underline and line-through each add their clause exactly when set, and `underline line-through` is added exactly when both line flags are set |
| Scanner.PlainCss | scripts/main_old.js:600 | with every flag off the style is only the colour |
| Scanner.SpanHtml | scripts/main_old.js:614 | one `<span style="...">` holding the character, a space written as `&nbsp;` |
| Scanner.SpanOfSegment | scripts/main_old.js:607-614 | a non-obfuscated space is written `&nbsp;`, any other non-obfuscated character as itself, and an obfuscated one as a character of the 44-character alphabet |
| Scanner.Render | scripts/main_old.js:553-617 | the HTML of a list of segments: the span of each, one after another |
| Scanner.Spans | scripts/main_old.js:614 | one span per segment, the `k`-th for the `k`-th segment |
| Scanner.RenderIsSpans | scripts/main_old.js:553-617 | the HTML is the concatenation of one span per segment, in segment order |
| Scanner.TokenStepKeeps | scripts/main_old.js:556-567 | consuming a registered token keeps the parse invariant |
| Scanner.CodeStepKeeps | scripts/main_old.js:571-598 | consuming a two-character code keeps the parse invariant |
| Scanner.LiteralStepKeeps | scripts/main_old.js:599-616 | emitting a literal's span keeps the parse invariant |
| Scanner.ParseMinecraftText | scripts/main_old.js:543-620 | the HTML built by the loop is the rendering of the segments the scanner finds, starting from `#FFFFFF` with all flags off and reading the current registry |
| FormatConvert.ConvertColorFormat | scripts/main.js:484-490 | target `&` turns every `§` into `&`; any other target turns every `&` into `§`; length and every other character are kept |
| FormatConvert.ConvertRemovesOtherPrefix | scripts/main_old.js:945-953 | after converting to `&` no `§` is left, and after converting to `§` no `&` is left |
| FormatConvert.RoundTripThroughAmpersand | scripts/main.js:484-490 | converting to `&` and back to `§` restores a text that had no `&` |
| FormatConvert.RoundTripThroughSection | scripts/main.js:484-490 | converting to `§` and back to `&` restores a text that had no `§` |
| FormatConvert.MixedPrefixesDoNotRoundTrip | scripts/main.js:484-490 | the replace is blind: `§a&` comes back as `§a§`, so a text holding both prefixes does not round-trip |
| History.AddedToHistory | scripts/main.js:123-136 | the new item is element 0, the earlier items follow in their old order, and the list is cut to 20 |
| History.HistoryIsNewestFirst | scripts/main.js:123-136 | after several additions the list holds the newest first, then the older items in order, never more than 20 |
| History.TextHistory.constructor | scripts/main.js:22 | the history starts as the stored list |
| History.TextHistory.Add | scripts/main_old.js:146-159 | `unshift` then `slice(0, 20)` leaves the list `AddedToHistory` describes: the item first, at most 20 entries |
| Gradient.GradientFactor | scripts/main_old.js:1010 | the factor is in `[0, 1]`: 0 at the first index (and for a one-character text), 1 at the last |
| Gradient.GradientColor | scripts/main_old.js:1010-1011 | with both endpoints valid, each character's colour is a canonical `#rrggbb` colour |
| Gradient.GradientColors | scripts/main_old.js:1002-1011 | one interpolated colour per character index of the trimmed text, spaces included |
| Gradient.GenerateGradient | scripts/main_old.js:979-1042 | empty trimmed text: nothing changes; more than 50 characters: refused, nothing changes; otherwise the result is the converted gradient stream, every token is registered, and the item is added to history with both colours and the result |
| Gradient.EncodeGradient | scripts/main_old.js:999-1017 | the loop's output is the gradient stream, and the registry is the old one with every generated token written in order |
| Gradient.FactorAt | scripts/main_old.js:1010-1012 | the loop's factor is in range, its interpolated colour is the character's colour, and its `§#` token is that colour's token |
| Gradient.SpaceStepKeeps | scripts/main_old.js:1004-1008 | a space is appended bare and leaves the registry alone, keeping the loop invariant |
| Gradient.PieceStepKeeps | scripts/main_old.js:1010-1017 | token plus character is appended and the token registered, keeping the loop invariant |
| Gradient.EncodedAll | scripts/main_old.js:1002-1019 | at loop end the invariant gives the whole stream and the whole registry |
| Gradient.HexCode | scripts/main_old.js:1012 | the token of a colour: `§#` followed by the colour after its first character, upper-cased |
| Gradient.GradientPiece | scripts/main_old.js:1004-1017 | a space contributes a bare space; any other character its colour's token followed by itself |
| Gradient.GradientCode | scripts/main_old.js:1002-1017 | the stream from index `i` on: the pieces of every later index, in order |
| Gradient.Registered | scripts/main_old.js:1002-1015 | the registry after the loop from index `i`: every non-space token written, in index order |
| Gradient.HexCodeShape | scripts/main_old.js:1012 | a token is eight characters: `§`, `#`, then the colour's six digits upper-cased |
| Gradient.HexCodeInjective | scripts/main_old.js:1012 | two canonical colours with the same token are the same colour |
| Gradient.GradientTokensDetermineColors | scripts/main_old.js:1010-1015 | within one gradient, equal tokens always stand for equal colours, so a later write never changes an earlier token's colour |
| Gradient.RegisterKeepsEarlier | scripts/main_old.js:1015 | registering one more token keeps every earlier token resolving to its colour |
| Gradient.RegisteredResolves | scripts/main_old.js:1002-1017 | after the loop every generated token resolves to the colour it was generated for |
| Gradient.TokensFromStep | scripts/main_old.js:1004-1015 | the tokens from index `i` are this character's token (none for a space) plus those after it |
| Gradient.RegisteredKeepsOthers | scripts/main_old.js:1015 | the registry gains exactly the generated tokens; every other entry keeps its value |
| Gradient.ScanTokenThenLiteral | scripts/main_old.js:556-616 | a resolving token followed by a literal scans as one segment in the token's colour, with all flags off |
| Gradient.ScanPiece | scripts/main_old.js:1017 | scanning a non-space piece yields its character in its colour, then the rest |
| Gradient.ScanSpace | scripts/main_old.js:1005 | scanning a bare space yields it in the current style, then the rest |
| Gradient.ScanGradientFrom | scripts/main_old.js:1002-1017 | scanning the stream from index `i` reads back every character from `i` on: flags off, its colour, spaces inheriting |
| Gradient.GradientRoundTrip | scripts/main_old.js:1002-1017 | between two hex colours (both accepted by `hexToRgb`), parsing a gradient of `§`-free text with the resulting registry gives one segment per character, flags off, each non-space in its interpolated colour, each space in the preceding style |
| Gradient.GradientEndpoints | scripts/main.js:327-328 | between two hex colours (both accepted by `hexToRgb`), the first character gets the start colour's channels and, for two or more characters, the last gets the end colour's channels |
| Gradient.NonSpaceCount | scripts/main_old.js:1004-1008 | the non-space characters from `i` on number at most the characters from `i` on |
| Gradient.GradientCodeLength | scripts/main_old.js:1002-1017 | the stream has one character per input character plus eight per non-space character |
| Gradient.GradientLength | scripts/main_old.js:1002-1017 | the same length law for a gradient between two valid colours |
| Gradient.EndColorOfPair | scripts/main_old.js:1010-1011 | in a two-character text the colours are exactly the endpoints, printed canonically |
| Gradient.PairCode | scripts/main_old.js:1017 | the stream of two non-space characters is token, character, token, character |
| Gradient.RedToBlueColors | scripts/main_old.js:1010-1011 | from `#FF0000` to `#0000FF` over `AB`, the colours are red then blue |
| Gradient.GradientRedToBlue | scripts/main_old.js:1002-1017 | the stream for `AB` from red to blue is red's token, `A`, blue's token, `B` |
| Gradient.SpaceGetsNoToken | scripts/main_old.js:1004-1008 | in `A B` the space is emitted bare, while the index still counts it |
| Rainbow.RainbowCode | scripts/main_old.js:460-476 | the loop builds the rainbow stream: a space is bare, any other character is preceded by colour code `i % 7` |
| Rainbow.RainbowPiece | scripts/main_old.js:467-472 | a space contributes a bare space; any other character is preceded by colour code `i % 7` |
| Rainbow.RainbowFrom | scripts/main_old.js:465-473 | the rainbow stream from index `i` on: the pieces of every later index, in order |
| Rainbow.RainbowStep | scripts/main_old.js:465-473 | one more character of the loop keeps the invariant |
| Rainbow.RainbowColor | scripts/main_old.js:463 | every rainbow code is a table colour code |
| Rainbow.RainbowPalette | scripts/main_old.js:463-471 | one table colour per character index, by `i % 7` |
| Rainbow.ScanRainbowPiece | scripts/main_old.js:471 | a coloured rainbow piece scans as its character in that colour, flags off |
| Rainbow.ScanRainbowSpace | scripts/main_old.js:468 | a bare space scans as itself in the current style |
| Rainbow.ScanRainbowFrom | scripts/main_old.js:465-473 | scanning the rainbow stream from `i` reads back every character from `i` on |
| Rainbow.RainbowRoundTrip | scripts/main_old.js:460-476 | parsing the rainbow stream of `§`-free text gives one segment per character, flags off, each non-space in colour `i % 7`, each space in the preceding style |
| Rainbow.RainbowCountsSpaces | scripts/main_old.js:465-473 | `ab c` becomes `§ca`, then `§` `6` `b`, a bare space, then `§ac`: the space takes no code but still counts in `i % 7` |
| SmallCaps.SmallCapsMap | scripts/main.js:4-8 | the table has an entry exactly for `a`-`z` |
| SmallCaps.ToLowerKey | scripts/main.js:155 | `toLowerCase` on the characters that can reach the table: `A`-`Z` and the Kelvin sign |
| SmallCaps.SmallCap | scripts/main.js:154-157 | a letter of either case becomes its table entry; every other character stays |
| SmallCaps.ConvertToUnicodeSmallCaps | scripts/main.js:153-158 | the map keeps the length and converts character by character |
| SmallCaps.CaseInsensitive | scripts/main.js:155-156 | an uppercase letter converts like its lowercase; apart from `q` and `x` the result is no longer an ASCII letter |
| SmallCaps.SmallCapInjective | scripts/main.js:4-8 | different lowercase letters map to different characters |
| SmallCaps.SmallCapFixed | scripts/main.js:153-158 | converting a converted character changes nothing |
| SmallCaps.ConvertIdempotent | scripts/main.js:153-158 | converting twice is converting once |
| SmallCaps.ConvertIgnoresCase | scripts/main.js:153-158 | upper- or lower-casing the input first does not change the result |
| Editor.Splice | scripts/main.js:372-376 | the new value is the text before the selection, then the code, then the text after it |
| Editor.SpliceUndo | scripts/main.js:372-376 | splicing the removed text back over the inserted code restores the value |
| Editor.InsertAtCaret | scripts/main.js:372-376 | with an empty selection the code is inserted at the caret; inserting nothing changes nothing |
| Editor.InsertTwice | scripts/main_old.js:502-508 | inserting two codes one after the other at the moving caret equals inserting their concatenation |
| Editor.TextArea.constructor | scripts/main.js:372-373 | a textarea holds a value and a selection within it |
| Editor.TextArea.InsertCode | scripts/main.js:360-386 | the value becomes the splice of the code over the selection, and the caret collapses to just after the code |
| Editor.MatchesHexPattern | scripts/main.js:512 | `/^#[A-Fa-f0-9]{6}$/`: seven characters, `#` then six hex digits of either case |
| Editor.ApplyHexColor | scripts/main.js:495-527 | empty trimmed input does nothing; otherwise `#` is prepended when missing and the value is accepted only if it matches `#` plus six hex digits |
| Editor.ApplyHexColorAgreesWithHexToRgb | scripts/main.js:502-515 | the input is accepted exactly when `hexToRgb` accepts the trimmed input, and then both read the same channels |
| Editor.PatternMeansHexColor | scripts/main.js:507-515 | `#` + six hex digits holds after prepending `#` exactly when `hexToRgb` accepts the value |
| JsString.TrimStart | scripts/main_old.js:980 | leading white space is dropped, and only white space |
| JsString.TrimEnd | scripts/main_old.js:980 | trailing white space is dropped, and only white space |
| JsString.Trim | scripts/main_old.js:980 | `trim` gives the middle piece of the text, with no white space at either end |
| JsString.TrimIdempotent | scripts/main_old.js:1035 | trimming twice is trimming once, so the history guard on the trimmed text always holds |
| JsString.ToUpperAscii | scripts/main_old.js:1012 | `toUpperCase` on ASCII letters only, character by character |
| JsString.ToLowerAscii | scripts/main.js:264-273 | ASCII letters lower-cased one by one, length kept; the case `hexToRgb` ignores and `toString(16)` prints |
| JsString.Join | scripts/main_old.js:614 | the pieces one after another, as repeated `+=` builds them |
| JsString.ReplaceChar | scripts/main_old.js:948-951 | a global one-character `replace` swaps every match and keeps every other character |
| JsString.DropFirst | scripts/main_old.js:1012 | `substring(1)` is everything after the first character |

## Left out

- DOM and UI glue is not modelled. This covers element look-ups, `innerHTML`
  writes, the gradient preview HTML, notifications, focus, theme, navigation,
  copy and export, and event listeners. It has no behaviour beyond the values
  modelled here.
- `localStorage`, JSON (de)serialisation, `Date.now` ids and ISO timestamps
  are not modelled. A history item keeps only its text, kind and result.
- `escapeHtml` needs the DOM; it only touches the preview, never the code
  stream.
- The regex-based `parseMinecraftText` of `scripts/main.js` (lines 429-478) is
  not modelled. It is a chain of global replaces with no clean grammar. The
  sequential scanner of `scripts/main_old.js` is modelled instead.
- `scripts/minecraft3d.js` (a WebGL scene), `hslToHex` (unused float colour
  code), and the 50 ms obfuscation re-render timer are not modelled.
- The superseded earlier declarations in `scripts/main_old.js`
  (`generateGradient` at 339, `applyHexColor` at 513, and the earlier copies
  of other UI functions) are dead code. JavaScript keeps the later
  declaration, and only that one is modelled.
- `insertCode` has one declaration in each file (`scripts/main_old.js` lines
  488-511, `scripts/main.js` lines 360-386). Both do the same splice and move
  the caret the same way, and `Editor.TextArea.InsertCode` models both. The
  choice of which textarea it writes to, and the preview refresh after it,
  are DOM state. `TextArea` stands for the chosen one.
- Concurrency: the source is single-threaded, and so is the model.
- Colors.InterpolateColor: the factor is an exact rational, not a double.
  `i / (n - 1)` in floating point can land just beside a `.5` tie that the
  rational hits exactly, so a channel may differ by one at such ties.
- Colors.RgbToHex: channels are restricted to 0..255. Every caller passes
  parsed or interpolated channels. Other values make the source print
  malformed colours.
- JsString.ToUpperAscii: only ASCII letters are upper-cased. The token hex
  comes from `rgbToHex`, whose digits are ASCII, so this matters only when
  `interpolateColor` returns an invalid start colour unchanged.
- SmallCaps.ToLowerKey: only ASCII letters and the Kelvin sign are
  lower-cased. These are the only characters whose `toLowerCase` lands in the
  table. Other characters pass through, as in the source.
- Strings are sequences of Unicode scalar values, not UTF-16 code units. A
  character outside the Basic Multilingual Plane counts once here and twice
  in the source's `length` and indexing.
- Registry.ColorRegistry.Register: its contract is the map update itself.
  That every other entry is unchanged follows from it, and the lemma
  `Gradient.RegisteredKeepsOthers` states it for a whole gradient.
- Rainbow.RainbowCode: the preset's fixed text `Rainbow Text` is a parameter.
  Writing the result into the textarea is DOM. The short example
  `Rainbow.RainbowCountsSpaces` stands in for the fixed one.
- Editor.ApplyHexColor: the colour-picker and preview updates are DOM. The
  error notification is the `InvalidHex` outcome.
