/** The `§` code scanner and style state machine of `parseMinecraftText`: one
    left-to-right pass that keeps a colour and five format flags, consumes
    `§x` codes and registered `§#RRGGBB` tokens, and emits one styled span per
    remaining character. */
module Scanner {
  import opened Wrappers
  import opened Colors
  import opened Registry
  import opened JsString

  const Section: char := '§'

  /** The scanner's state: the current colour and the five format flags. */
  datatype Style = Style(color: string, bold: bool, italic: bool, underline: bool,
                         strikethrough: bool, obfuscated: bool)

  /** A colour with every flag off: the state after a colour code, a
      registered hex token or the reset code. */
  function Plain(color: string): Style {
    Style(color, false, false, false, false, false)
  }

  /** The state every parse starts from. */
  const Initial: Style := Plain(White)

  predicate NoFlags(st: Style) {
    !st.bold && !st.italic && !st.underline && !st.strikethrough && !st.obfuscated
  }

  /** One span of output: the position of the character in the input, the
      character itself and the style it is drawn in. */
  datatype Segment = Segment(pos: nat, ch: char, style: Style)

  /** The effect of the two-character code `§c`: a colour of the table, one of
      the five format flags, reset, or nothing at all for any other `c`. */
  function ApplyCode(st: Style, c: char): (r: Style)
    ensures McColor(c).Some? || c == 'r' ==> NoFlags(r)
    ensures McColor(c).None? && c != 'r' ==>
              r.color == st.color &&
              (st.bold ==> r.bold) && (st.italic ==> r.italic) && (st.underline ==> r.underline) &&
              (st.strikethrough ==> r.strikethrough) && (st.obfuscated ==> r.obfuscated)
  {
    if McColor(c).Some? then Plain(McColor(c).value)
    else match c
      case 'l' => st.(bold := true)
      case 'o' => st.(italic := true)
      case 'n' => st.(underline := true)
      case 'm' => st.(strikethrough := true)
      case 'k' => st.(obfuscated := true)
      case 'r' => Plain(White)
      case _ => st
  }

  /** The segments of `s` scanned from state `st`, where `at` is the position
      of `s[0]` in the whole text. A `§` with a character after it is a code;
      a `§#` whose eight characters are a registered token sets that colour;
      anything else is a literal. */
  function Scan(s: string, at: nat, reg: map<string, string>, st: Style): (segs: seq<Segment>)
    ensures |segs| <= |s|
    decreases |s|
  {
    if s == [] then []
    else if s[0] == Section && |s| >= 2 then
      if s[1] == '#' && |s| >= 8 && Resolve(reg, s[..8]).Some? then
        Scan(s[8..], at + 8, reg, Plain(Resolve(reg, s[..8]).value))
      else
        Scan(s[2..], at + 2, reg, ApplyCode(st, s[1]))
    else
      [Segment(at, s[0], st)] + Scan(s[1..], at + 1, reg, st)
  }

  lemma ScanLiteralStep(s: string, at: nat, reg: map<string, string>, st: Style)
    requires s != [] && (s[0] != Section || |s| == 1)
    ensures Scan(s, at, reg, st) == [Segment(at, s[0], st)] + Scan(s[1..], at + 1, reg, st)
  {
  }

  lemma ScanTokenStep(s: string, at: nat, reg: map<string, string>, st: Style)
    requires |s| >= 8 && s[0] == Section && s[1] == '#' && Resolve(reg, s[..8]).Some?
    ensures Scan(s, at, reg, st) == Scan(s[8..], at + 8, reg, Plain(Resolve(reg, s[..8]).value))
  {
  }

  lemma ScanCodeStep(s: string, at: nat, reg: map<string, string>, st: Style)
    requires |s| >= 2 && s[0] == Section
    requires !(s[1] == '#' && |s| >= 8 && Resolve(reg, s[..8]).Some?)
    ensures Scan(s, at, reg, st) == Scan(s[2..], at + 2, reg, ApplyCode(st, s[1]))
  {
  }

  // ---------------------------------------------------------------------------
  // Properties of the scanner
  // ---------------------------------------------------------------------------

  /** Text without `§` (so also text with `&`, which is no prefix) gives one
      segment per character, in order, all in the starting style. */
  lemma {:induction false} ScanPlainText(s: string, at: nat, reg: map<string, string>, st: Style)
    requires forall k :: 0 <= k < |s| ==> s[k] != Section
    ensures |Scan(s, at, reg, st)| == |s|
    ensures forall k :: 0 <= k < |s| ==> Scan(s, at, reg, st)[k] == Segment(at + k, s[k], st)
    decreases |s|
  {
    if s != [] {
      ScanPlainText(s[1..], at + 1, reg, st);
    }
  }

  /** Every segment is a character of `s` at its recorded position, where
      `at` is the position of `s[0]`. */
  predicate AtPositions(segs: seq<Segment>, s: string, at: nat) {
    forall k :: 0 <= k < |segs| ==> at <= segs[k].pos < at + |s| && s[segs[k].pos - at] == segs[k].ch
  }

  lemma AtPositionsDrop(segs: seq<Segment>, s: string, d: nat, at: nat)
    requires d <= |s| && AtPositions(segs, s[d..], at + d)
    ensures AtPositions(segs, s, at)
  {
    forall k | 0 <= k < |segs| ensures at <= segs[k].pos < at + |s| && s[segs[k].pos - at] == segs[k].ch {
      assert s[d..][segs[k].pos - (at + d)] == s[segs[k].pos - at];
    }
  }

  lemma AtPositionsCons(rest: seq<Segment>, s: string, at: nat, st: Style)
    requires s != [] && AtPositions(rest, s[1..], at + 1)
    ensures AtPositions([Segment(at, s[0], st)] + rest, s, at)
  {
    AtPositionsDrop(rest, s, 1, at);
    var segs := [Segment(at, s[0], st)] + rest;
    forall k | 0 <= k < |segs| ensures at <= segs[k].pos < at + |s| && s[segs[k].pos - at] == segs[k].ch {
      if k > 0 {
        assert segs[k] == rest[k - 1];
      }
    }
  }

  /** Every segment is a character of the input at its recorded position. */
  lemma {:induction false} ScanPositions(s: string, at: nat, reg: map<string, string>, st: Style)
    ensures |Scan(s, at, reg, st)| <= |s|
    ensures AtPositions(Scan(s, at, reg, st), s, at)
    decreases |s|
  {
    if s == [] {
    } else if s[0] == Section && |s| >= 2 {
      if s[1] == '#' && |s| >= 8 && Resolve(reg, s[..8]).Some? {
        ScanTokenStep(s, at, reg, st);
        ScanPositions(s[8..], at + 8, reg, Plain(Resolve(reg, s[..8]).value));
        AtPositionsDrop(Scan(s, at, reg, st), s, 8, at);
      } else {
        ScanCodeStep(s, at, reg, st);
        ScanPositions(s[2..], at + 2, reg, ApplyCode(st, s[1]));
        AtPositionsDrop(Scan(s, at, reg, st), s, 2, at);
      }
    } else {
      ScanLiteralStep(s, at, reg, st);
      var rest := Scan(s[1..], at + 1, reg, st);
      ScanPositions(s[1..], at + 1, reg, st);
      AtPositionsCons(rest, s, at, st);
    }
  }

  /** The segments come in strictly increasing input order, so each input
      position yields at most one of them. */
  lemma {:induction false} ScanInOrder(s: string, at: nat, reg: map<string, string>, st: Style)
    ensures var segs := Scan(s, at, reg, st);
      forall j, k :: 0 <= j < k < |segs| ==> segs[j].pos < segs[k].pos
    decreases |s|
  {
    if s == [] {
    } else if s[0] == Section && |s| >= 2 {
      if s[1] == '#' && |s| >= 8 && Resolve(reg, s[..8]).Some? {
        ScanTokenStep(s, at, reg, st);
        ScanInOrder(s[8..], at + 8, reg, Plain(Resolve(reg, s[..8]).value));
      } else {
        ScanCodeStep(s, at, reg, st);
        ScanInOrder(s[2..], at + 2, reg, ApplyCode(st, s[1]));
      }
    } else {
      ScanLiteralStep(s, at, reg, st);
      var rest := Scan(s[1..], at + 1, reg, st);
      ScanInOrder(s[1..], at + 1, reg, st);
      ScanPositions(s[1..], at + 1, reg, st);
      var segs := Scan(s, at, reg, st);
      forall j, k | 0 <= j < k < |segs| ensures segs[j].pos < segs[k].pos {
        assert segs[k] == rest[k - 1];
        if j > 0 {
          assert segs[j] == rest[j - 1];
        }
      }
    }
  }

  /** A `§` followed by a digit or by `a`..`f` sets the table colour and
      clears every flag, whatever the state before. */
  lemma ColorCode(c: char, rest: string, at: nat, reg: map<string, string>, st: Style)
    requires '0' <= c <= '9' || 'a' <= c <= 'f'
    ensures Scan([Section, c] + rest, at, reg, st) == Scan(rest, at + 2, reg, Plain(McColor(c).value))
  {
    assert ([Section, c] + rest)[2..] == rest;
  }

  /** The format codes set exactly their own flag; colour and the other flags
      are left as they were. */
  lemma FormatCode(c: char, rest: string, at: nat, reg: map<string, string>, st: Style)
    requires c in "lonmk"
    ensures Scan([Section, c] + rest, at, reg, st) == Scan(rest, at + 2, reg,
      if c == 'l' then st.(bold := true)
      else if c == 'o' then st.(italic := true)
      else if c == 'n' then st.(underline := true)
      else if c == 'm' then st.(strikethrough := true)
      else st.(obfuscated := true))
  {
    assert ([Section, c] + rest)[2..] == rest;
  }

  /** `§r` restores white and clears every flag. */
  lemma ResetCode(rest: string, at: nat, reg: map<string, string>, st: Style)
    ensures Scan([Section, 'r'] + rest, at, reg, st) == Scan(rest, at + 2, reg, Initial)
  {
    assert ([Section, 'r'] + rest)[2..] == rest;
  }

  /** Any other `§c` (an upper-case colour letter, an unknown letter, or `#`
      not starting a registered token) swallows both characters and changes
      nothing. */
  lemma UnknownCode(c: char, rest: string, at: nat, reg: map<string, string>, st: Style)
    requires McColor(c).None? && c !in "lonmkr"
    requires c == '#' && |rest| >= 6 ==> Resolve(reg, [Section, c] + rest[..6]).None?
    ensures Scan([Section, c] + rest, at, reg, st) == Scan(rest, at + 2, reg, st)
  {
    var s := [Section, c] + rest;
    assert s[2..] == rest;
    if c == '#' && |rest| >= 6 {
      assert s[..8] == [Section, c] + rest[..6];
    }
  }

  /** A registered token sets its colour, clears every flag and is consumed
      whole. */
  lemma RegisteredToken(token: string, rest: string, at: nat, reg: map<string, string>, st: Style)
    requires |token| == 8 && token[0] == Section && token[1] == '#'
    requires token in reg && reg[token] != ""
    ensures Scan(token + rest, at, reg, st) == Scan(rest, at + 8, reg, Plain(reg[token]))
  {
    var s := token + rest;
    assert s[..8] == token && s[8..] == rest;
  }

  /** A `§` at the very end has no code letter and is shown as itself. */
  lemma TrailingSection(at: nat, reg: map<string, string>, st: Style)
    ensures Scan([Section], at, reg, st) == [Segment(at, Section, st)]
  {
  }

  // ---------------------------------------------------------------------------
  // Reading back an encoded text
  // ---------------------------------------------------------------------------

  /** What the encoders promise of the scan of an encoded text from position
      `i` on, started in style `st`: one segment per character, every flag
      off, each non-space character in its colour from `colors` and each
      space in the style of the segment before it. */
  predicate ReadBack(segs: seq<Segment>, text: string, colors: seq<string>, i: nat, st: Style)
    requires |text| == |colors| && i <= |text|
  {
    |segs| == |text| - i &&
    forall k :: 0 <= k < |segs| ==> ReadBackAt(segs, text, colors, i, st, k)
  }

  /** What `ReadBack` says of segment `k`. */
  predicate ReadBackAt(segs: seq<Segment>, text: string, colors: seq<string>, i: nat, st: Style, k: nat)
    requires |text| == |colors| && i + k < |text| && k < |segs|
  {
    segs[k].ch == text[i + k] && NoFlags(segs[k].style) &&
    (text[i + k] != ' ' ==> segs[k].style == Plain(colors[i + k])) &&
    (text[i + k] == ' ' ==> segs[k].style == (if k == 0 then st else segs[k - 1].style))
  }

  /** `ReadBack` of a whole text, spelled out. */
  lemma ReadBackWhole(segs: seq<Segment>, text: string, colors: seq<string>, st: Style)
    requires |text| == |colors| && ReadBack(segs, text, colors, 0, st)
    ensures |segs| == |text|
    ensures forall k :: 0 <= k < |segs| ==>
      segs[k].ch == text[k] && NoFlags(segs[k].style) &&
      (text[k] != ' ' ==> segs[k].style == Plain(colors[k])) &&
      (text[k] == ' ' ==> segs[k].style == (if k == 0 then st else segs[k - 1].style))
  {
    forall k | 0 <= k < |segs|
      ensures segs[k].ch == text[k] && NoFlags(segs[k].style)
      ensures text[k] != ' ' ==> segs[k].style == Plain(colors[k])
      ensures text[k] == ' ' ==> segs[k].style == (if k == 0 then st else segs[k - 1].style)
    {
      assert ReadBackAt(segs, text, colors, 0, st, k);
    }
  }

  /** One more segment in front of a read-back suffix. */
  lemma ReadBackCons(first: Segment, rest: seq<Segment>, text: string, colors: seq<string>, i: nat, st: Style)
    requires |text| == |colors| && i < |text|
    requires ReadBack(rest, text, colors, i + 1, first.style)
    requires first.ch == text[i] && NoFlags(first.style)
    requires text[i] != ' ' ==> first.style == Plain(colors[i])
    requires text[i] == ' ' ==> first.style == st
    ensures ReadBack([first] + rest, text, colors, i, st)
  {
    var segs := [first] + rest;
    forall k | 0 <= k < |segs|
      ensures ReadBackAt(segs, text, colors, i, st, k)
    {
      if k > 0 {
        assert ReadBackAt(rest, text, colors, i + 1, first.style, k - 1);
        assert segs[k] == rest[k - 1];
        assert segs[k - 1] == if k == 1 then first else rest[k - 2];
        assert i + 1 + (k - 1) == i + k;
      }
    }
  }

  // ---------------------------------------------------------------------------
  // Rendering
  // ---------------------------------------------------------------------------

  /** The characters an obfuscated span is drawn from. */
  const ObfuscationAlphabet: string := "abcdefghijklmnopqrstuvwxyz0123456789!@#$%^&*"

  /** The five optional clauses of a span's style, in the order the source
      adds them: bold, italic, underline, strikethrough, and the combined
      clause for underline with strikethrough. */
  const BoldCss: string := " font-weight: bold;"
  const ItalicCss: string := " font-style: italic;"
  const UnderlineCss: string := " text-decoration: underline;"
  const StrikethroughCss: string := " text-decoration: line-through;"
  const BothLinesCss: string := " text-decoration: underline line-through;"

  /** The inline CSS of a span, clause by clause in the order the source adds
      them. */
  function StyleCss(st: Style): (css: string)
    ensures "color: " + st.color + ";" <= css
  {
    var css := "color: " + st.color + ";";
    var css := AddIf(css, st.bold, BoldCss);
    var css := AddIf(css, st.italic, ItalicCss);
    var css := AddIf(css, st.underline, UnderlineCss);
    var css := AddIf(css, st.strikethrough, StrikethroughCss);
    AddIf(css, st.underline && st.strikethrough, BothLinesCss)
  }

  /** `if (cond) styles += clause`. */
  function AddIf(css: string, cond: bool, clause: string): (r: string)
    ensures css <= r
  {
    if cond then css + clause else css
  }

  lemma AddIfThen(css: string, cond: bool, clause: string, rest: string)
    ensures AddIf(css, cond, clause) + rest == css + ((if cond then clause else "") + rest)
  {
    if cond {
      ConcatAssoc(css, clause, rest);
    } else {
      assert "" + rest == rest;
    }
  }

  const ClauseOrder: seq<string> := [BoldCss, ItalicCss, UnderlineCss, StrikethroughCss, BothLinesCss]

  /** Which of the clauses of `ClauseOrder` style `st` calls for. */
  function CssFlags(st: Style): seq<bool> {
    [st.bold, st.italic, st.underline, st.strikethrough, st.underline && st.strikethrough]
  }

  /** The indices, from `k` on, whose flag is set. */
  function Picked(flags: seq<bool>, k: nat): seq<nat>
    requires k <= |flags|
    decreases |flags| - k
  {
    if k == |flags| then [] else (if flags[k] then [k] else []) + Picked(flags, k + 1)
  }

  /** The picked indices are set flags from `k` on. */
  lemma {:induction false} PickedSet(flags: seq<bool>, k: nat)
    requires k <= |flags|
    ensures forall j :: 0 <= j < |Picked(flags, k)| ==> k <= Picked(flags, k)[j] < |flags| && flags[Picked(flags, k)[j]]
    decreases |flags| - k
  {
    if k < |flags| {
      PickedSet(flags, k + 1);
      var on, rest := Picked(flags, k), Picked(flags, k + 1);
      if flags[k] {
        assert on == [k] + rest;
        forall j | 0 <= j < |on| ensures k <= on[j] < |flags| && flags[on[j]] {
          if j == 0 {
            assert on[j] == k;
          } else {
            assert on[j] == rest[j - 1];
          }
        }
      } else {
        assert on == rest;
      }
    }
  }

  predicate Increasing(on: seq<nat>) {
    forall j, l :: 0 <= j < l < |on| ==> on[j] < on[l]
  }

  lemma IncreasingCons(x: nat, rest: seq<nat>)
    requires Increasing(rest)
    requires forall j :: 0 <= j < |rest| ==> x < rest[j]
    ensures Increasing([x] + rest)
  {
    var on := [x] + rest;
    forall j, l | 0 <= j < l < |on| ensures on[j] < on[l] {
      assert on[l] == rest[l - 1];
      if j > 0 {
        assert on[j] == rest[j - 1];
      }
    }
  }

  /** The picked indices increase. */
  lemma {:induction false} PickedIncreasing(flags: seq<bool>, k: nat)
    requires k <= |flags|
    ensures Increasing(Picked(flags, k))
    decreases |flags| - k
  {
    if k < |flags| {
      PickedIncreasing(flags, k + 1);
      var rest := Picked(flags, k + 1);
      if flags[k] {
        PickedSet(flags, k + 1);
        IncreasingCons(k, rest);
        assert Picked(flags, k) == [k] + rest;
      } else {
        assert Picked(flags, k) == rest;
      }
    }
  }

  /** Every set flag from `k` on is picked. */
  lemma {:induction false} PickedComplete(flags: seq<bool>, k: nat, m: nat)
    requires k <= m < |flags| && flags[m]
    ensures m in Picked(flags, k)
    decreases m - k
  {
    if m > k {
      PickedComplete(flags, k + 1, m);
      var rest := Picked(flags, k + 1);
      assert Picked(flags, k) == (if flags[k] then [k] else []) + rest;
      var j :| 0 <= j < |rest| && rest[j] == m;
      assert Picked(flags, k)[j + (if flags[k] then 1 else 0)] == m;
    }
  }

  /** The clauses whose flag is set, from `k` on, in order. */
  function PickedClauses(flags: seq<bool>, order: seq<string>, k: nat): seq<string>
    requires |flags| == |order| && k <= |flags|
    decreases |flags| - k
  {
    if k == |flags| then [] else (if flags[k] then [order[k]] else []) + PickedClauses(flags, order, k + 1)
  }

  /** The picked clauses are the clauses at the picked indices. */
  lemma {:induction false} PickedClausesIndexed(flags: seq<bool>, order: seq<string>, k: nat)
    requires |flags| == |order| && k <= |flags|
    ensures |PickedClauses(flags, order, k)| == |Picked(flags, k)|
    ensures forall j :: 0 <= j < |Picked(flags, k)| ==> Picked(flags, k)[j] < |order|
    ensures forall j :: 0 <= j < |PickedClauses(flags, order, k)| ==>
      PickedClauses(flags, order, k)[j] == order[Picked(flags, k)[j]]
    decreases |flags| - k
  {
    PickedSet(flags, k);
    if k < |flags| {
      PickedClausesIndexed(flags, order, k + 1);
      var cs, on := PickedClauses(flags, order, k + 1), Picked(flags, k + 1);
      if flags[k] {
        var cs0, on0 := PickedClauses(flags, order, k), Picked(flags, k);
        assert cs0 == [order[k]] + cs;
        assert on0 == [k] + on;
        forall j | 0 <= j < |cs0| ensures cs0[j] == order[on0[j]] {
          if j > 0 {
            assert cs0[j] == cs[j - 1];
            assert on0[j] == on[j - 1];
          }
        }
      } else {
        assert PickedClauses(flags, order, k) == cs;
        assert Picked(flags, k) == on;
      }
    }
  }

  lemma PickedStep(flags: seq<bool>, order: seq<string>, k: nat)
    requires |flags| == |order| && k < |flags|
    ensures Join(PickedClauses(flags, order, k))
      == (if flags[k] then order[k] else "") + Join(PickedClauses(flags, order, k + 1))
  {
    if flags[k] {
      JoinCons(order[k], PickedClauses(flags, order, k + 1));
    } else {
      assert PickedClauses(flags, order, k) == PickedClauses(flags, order, k + 1);
      assert "" + Join(PickedClauses(flags, order, k + 1)) == Join(PickedClauses(flags, order, k + 1));
    }
  }

  /** Appending the chosen clauses one `AddIf` at a time, from clause `k` on. */
  function AddClauses(css: string, flags: seq<bool>, order: seq<string>, k: nat): string
    requires |flags| == |order| && k <= |flags|
    decreases |flags| - k
  {
    if k == |flags| then css else AddClauses(AddIf(css, flags[k], order[k]), flags, order, k + 1)
  }

  lemma {:induction false} AddClausesPicked(css: string, flags: seq<bool>, order: seq<string>, k: nat)
    requires |flags| == |order| && k <= |flags|
    ensures AddClauses(css, flags, order, k) == css + Join(PickedClauses(flags, order, k))
    decreases |flags| - k
  {
    if k == |flags| {
      assert css + "" == css;
    } else {
      AddClausesPicked(AddIf(css, flags[k], order[k]), flags, order, k + 1);
      PickedStep(flags, order, k);
      AddIfThen(css, flags[k], order[k], Join(PickedClauses(flags, order, k + 1)));
    }
  }

  /** The style of a span is its colour followed by the clauses its flags
      call for, in source order (`PickedIncreasing`, `PickedComplete`). */
  lemma StyleCssClauses(st: Style)
    ensures StyleCss(st) == "color: " + st.color + ";" + Join(PickedClauses(CssFlags(st), ClauseOrder, 0))
  {
    var c0 := "color: " + st.color + ";";
    var f, o := CssFlags(st), ClauseOrder;
    assert AddClauses(c0, f, o, 0) == StyleCss(st) by {
      assert f[0] == st.bold && f[1] == st.italic && f[2] == st.underline && f[3] == st.strikethrough;
      assert f[4] == (st.underline && st.strikethrough);
      assert o[0] == BoldCss && o[1] == ItalicCss && o[2] == UnderlineCss && o[3] == StrikethroughCss && o[4] == BothLinesCss;
      var c1 := AddIf(c0, st.bold, BoldCss);
      var c2 := AddIf(c1, st.italic, ItalicCss);
      var c3 := AddIf(c2, st.underline, UnderlineCss);
      var c4 := AddIf(c3, st.strikethrough, StrikethroughCss);
      var c5 := AddIf(c4, st.underline && st.strikethrough, BothLinesCss);
      assert AddClauses(c0, f, o, 0) == AddClauses(c1, f, o, 1);
      assert AddClauses(c1, f, o, 1) == AddClauses(c2, f, o, 2);
      assert AddClauses(c2, f, o, 2) == AddClauses(c3, f, o, 3);
      assert AddClauses(c3, f, o, 3) == AddClauses(c4, f, o, 4);
      assert AddClauses(c4, f, o, 4) == AddClauses(c5, f, o, 5);
      assert AddClauses(c5, f, o, 5) == c5;
    }
    AddClausesPicked(c0, f, o, 0);
  }

  /** Among distinct clauses, a clause occurs in the picked ones exactly
      when its flag is set. */
  lemma PickedPresent(flags: seq<bool>, order: seq<string>, k: nat)
    requires |flags| == |order| && k < |flags|
    requires forall i, j :: 0 <= i < j < |order| ==> order[i] != order[j]
    ensures order[k] in PickedClauses(flags, order, 0) <==> flags[k]
  {
    var on := Picked(flags, 0);
    var cs := PickedClauses(flags, order, 0);
    PickedClausesIndexed(flags, order, 0);
    if order[k] in cs {
      var j :| 0 <= j < |cs| && cs[j] == order[k];
      assert order[on[j]] == order[k];
      PickedSet(flags, 0);
      assert on[j] == k;
    } else if flags[k] {
      PickedComplete(flags, 0, k);
    }
  }

  /** Clause `k` occurs in a span's style exactly when the flag (or, for the
      last clause, both flags) it stands for is set. The clause texts differ
      in length, so none is mistaken for another. */
  lemma ClausePresent(st: Style, k: nat)
    requires k < 5
    ensures ClauseOrder[k] in PickedClauses(CssFlags(st), ClauseOrder, 0) <==> CssFlags(st)[k]
  {
    assert forall i, j :: 0 <= i < j < 5 ==> |ClauseOrder[i]| != |ClauseOrder[j]|;
    PickedPresent(CssFlags(st), ClauseOrder, k);
  }

  /** Spelled out per flag: bold, italic, underline and strikethrough each add
      their clause exactly when set, and `underline line-through` is added
      exactly when both line flags are. */
  lemma ClausesOfStyle(st: Style)
    ensures var cs := PickedClauses(CssFlags(st), ClauseOrder, 0);
      (BoldCss in cs <==> st.bold) && (ItalicCss in cs <==> st.italic) &&
      (UnderlineCss in cs <==> st.underline) && (StrikethroughCss in cs <==> st.strikethrough) &&
      (BothLinesCss in cs <==> st.underline && st.strikethrough)
  {
    ClausePresent(st, 0);
    ClausePresent(st, 1);
    ClausePresent(st, 2);
    ClausePresent(st, 3);
    ClausePresent(st, 4);
  }

  /** With every flag off the style is the colour alone. */
  lemma PlainCss(st: Style)
    requires NoFlags(st)
    ensures StyleCss(st) == "color: " + st.color + ";"
  {
  }

  /** The character a segment is drawn as. `draw(pos)` stands for the value of
      `Math.floor(Math.random() * 44)` rolled at that position. */
  function Shown(seg: Segment, draw: nat -> nat): (c: char)
    ensures seg.style.obfuscated ==> c in ObfuscationAlphabet && c != ' '
    ensures !seg.style.obfuscated ==> c == seg.ch
  {
    if seg.style.obfuscated then ObfuscationAlphabet[draw(seg.pos) % |ObfuscationAlphabet|] else seg.ch
  }

  /** One `<span>`; a space is written as `&nbsp;`. Nothing is escaped. */
  function SpanHtml(c: char, st: Style): string {
    "<span style=\"" + StyleCss(st) + "\">" + (if c == ' ' then "&nbsp;" else [c]) + "</span>"
  }

  /** What a segment's span writes: a non-obfuscated space is `&nbsp;`, any
      other non-obfuscated character is itself, and an obfuscated one is a
      single alphabet character. */
  lemma SpanOfSegment(seg: Segment, draw: nat -> nat)
    ensures var open := "<span style=\"" + StyleCss(seg.style) + "\">";
      var span := SpanHtml(Shown(seg, draw), seg.style);
      (!seg.style.obfuscated && seg.ch == ' ' ==> span == open + "&nbsp;" + "</span>") &&
      (!seg.style.obfuscated && seg.ch != ' ' ==> span == open + [seg.ch] + "</span>") &&
      (seg.style.obfuscated ==> Shown(seg, draw) in ObfuscationAlphabet && span == open + [Shown(seg, draw)] + "</span>")
  {
  }

  function Render(segs: seq<Segment>, draw: nat -> nat): string
    decreases |segs|
  {
    if segs == [] then "" else SpanHtml(Shown(segs[0], draw), segs[0].style) + Render(segs[1..], draw)
  }

  lemma RenderCons(seg: Segment, rest: seq<Segment>, draw: nat -> nat)
    ensures Render([seg] + rest, draw) == SpanHtml(Shown(seg, draw), seg.style) + Render(rest, draw)
  {
    assert ([seg] + rest)[1..] == rest;
  }

  /** The span of each segment, in segment order. */
  function Spans(segs: seq<Segment>, draw: nat -> nat): (spans: seq<string>)
    ensures |spans| == |segs|
    ensures forall k :: 0 <= k < |segs| ==> spans[k] == SpanHtml(Shown(segs[k], draw), segs[k].style)
  {
    seq(|segs|, k requires 0 <= k < |segs| => SpanHtml(Shown(segs[k], draw), segs[k].style))
  }

  /** The HTML is one span per segment, joined in segment order. */
  lemma {:induction false} RenderIsSpans(segs: seq<Segment>, draw: nat -> nat)
    ensures Render(segs, draw) == Join(Spans(segs, draw))
    decreases |segs|
  {
    if segs != [] {
      RenderIsSpans(segs[1..], draw);
      var head := SpanHtml(Shown(segs[0], draw), segs[0].style);
      assert Spans(segs, draw) == [head] + Spans(segs[1..], draw);
      JoinCons(head, Spans(segs[1..], draw));
    }
  }

  /** The span the loop appends for the literal at position `i`: the style
      string built clause by clause, the character replaced by a random one of
      the alphabet while obfuscated, a space written as `&nbsp;`. */
  method RenderSpan(c: char, i: nat, currentColor: string, isBold: bool, isItalic: bool, isUnderlined: bool,
                    isStrikethrough: bool, isObfuscated: bool, draw: nat -> nat) returns (span: string)
    ensures var st := Style(currentColor, isBold, isItalic, isUnderlined, isStrikethrough, isObfuscated);
      span == SpanHtml(Shown(Segment(i, c, st), draw), st)
  {
    var styles := "color: " + currentColor + ";";
    if isBold { styles := styles + BoldCss; }
    if isItalic { styles := styles + ItalicCss; }
    if isUnderlined { styles := styles + UnderlineCss; }
    if isStrikethrough { styles := styles + StrikethroughCss; }
    if isUnderlined && isStrikethrough { styles := styles + BothLinesCss; }
    var shown := c;
    if isObfuscated {
      shown := ObfuscationAlphabet[draw(i) % |ObfuscationAlphabet|];
    }
    span := "<span style=\"" + styles + "\">" + (if shown == ' ' then "&nbsp;" else [shown]) + "</span>";
  }

  /** What the loop of `ParseMinecraftText` keeps: the HTML so far followed
      by the rendering of the rest of the text, scanned from the current
      state, is the rendering of the whole text. */
  ghost predicate ParsedUpTo(text: string, reg: map<string, string>, draw: nat -> nat, i: nat, st: Style, html: string) {
    i <= |text| && Render(Scan(text, 0, reg, Initial), draw) == html + Render(Scan(text[i..], i, reg, st), draw)
  }

  lemma TokenStepKeeps(text: string, reg: map<string, string>, draw: nat -> nat, i: nat, st: Style, html: string)
    requires ParsedUpTo(text, reg, draw, i, st, html)
    requires i + 7 < |text| && text[i] == Section && text[i + 1] == '#' && Resolve(reg, text[i..i + 8]).Some?
    ensures ParsedUpTo(text, reg, draw, i + 8, Plain(Resolve(reg, text[i..i + 8]).value), html)
  {
    var s := text[i..];
    assert s[..8] == text[i..i + 8] && s[8..] == text[i + 8..];
    ScanTokenStep(s, i, reg, st);
  }

  lemma CodeStepKeeps(text: string, reg: map<string, string>, draw: nat -> nat, i: nat, st: Style, html: string)
    requires ParsedUpTo(text, reg, draw, i, st, html)
    requires i + 1 < |text| && text[i] == Section
    requires !(text[i + 1] == '#' && i + 7 < |text| && Resolve(reg, text[i..i + 8]).Some?)
    ensures ParsedUpTo(text, reg, draw, i + 2, ApplyCode(st, text[i + 1]), html)
  {
    var s := text[i..];
    assert |s| >= 8 ==> s[..8] == text[i..i + 8];
    assert s[2..] == text[i + 2..];
    ScanCodeStep(s, i, reg, st);
  }

  lemma LiteralStepKeeps(text: string, reg: map<string, string>, draw: nat -> nat, i: nat, st: Style, html: string)
    requires ParsedUpTo(text, reg, draw, i, st, html)
    requires i < |text| && !(text[i] == Section && i + 1 < |text|)
    ensures ParsedUpTo(text, reg, draw, i + 1, st, html + SpanHtml(Shown(Segment(i, text[i], st), draw), st))
  {
    var s := text[i..];
    var seg := Segment(i, text[i], st);
    var rest := Scan(s[1..], i + 1, reg, st);
    ScanLiteralStep(s, i, reg, st);
    RenderCons(seg, rest, draw);
    ConcatAssoc(html, SpanHtml(Shown(seg, draw), st), Render(rest, draw));
    assert s[1..] == text[i + 1..];
  }

  /** `parseMinecraftText(text)`: the HTML of the segments the scanner finds,
      starting in white with every flag off and reading the current registry. */
  method ParseMinecraftText(text: string, registry: ColorRegistry, draw: nat -> nat) returns (html: string)
    ensures html == Render(Scan(text, 0, registry.entries, Initial), draw)
  {
    var reg := registry.entries;
    html := "";
    var currentColor := White;
    var isBold, isItalic, isUnderlined, isStrikethrough, isObfuscated := false, false, false, false, false;
    var i := 0;
    while i < |text|
      invariant ParsedUpTo(text, reg, draw, i,
                           Style(currentColor, isBold, isItalic, isUnderlined, isStrikethrough, isObfuscated), html)
      decreases |text| - i
    {
      ghost var st := Style(currentColor, isBold, isItalic, isUnderlined, isStrikethrough, isObfuscated);
      if text[i] == Section && i + 1 < |text| {
        if text[i + 1] == '#' && i + 7 < |text| {
          var hexCode := text[i..i + 8];
          if hexCode in reg && reg[hexCode] != "" {
            TokenStepKeeps(text, reg, draw, i, st, html);
            currentColor := reg[hexCode];
            isBold, isItalic, isUnderlined, isStrikethrough, isObfuscated := false, false, false, false, false;
            i := i + 8;
            continue;
          }
        }
        var code := text[i + 1];
        CodeStepKeeps(text, reg, draw, i, st, html);
        if McColor(code).Some? {
          currentColor := McColor(code).value;
          isBold, isItalic, isUnderlined, isStrikethrough, isObfuscated := false, false, false, false, false;
        } else {
          match code
          case 'l' => isBold := true;
          case 'o' => isItalic := true;
          case 'n' => isUnderlined := true;
          case 'm' => isStrikethrough := true;
          case 'k' => isObfuscated := true;
          case 'r' =>
            currentColor := White;
            isBold, isItalic, isUnderlined, isStrikethrough, isObfuscated := false, false, false, false, false;
          case _ =>
        }
        assert Style(currentColor, isBold, isItalic, isUnderlined, isStrikethrough, isObfuscated) == ApplyCode(st, code);
        i := i + 2;
      } else {
        var span := RenderSpan(text[i], i, currentColor, isBold, isItalic, isUnderlined, isStrikethrough, isObfuscated, draw);
        LiteralStepKeeps(text, reg, draw, i, st, html);
        html := html + span;
        i := i + 1;
      }
    }
    assert text[i..] == [];
  }
}
