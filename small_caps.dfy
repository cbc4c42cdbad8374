/** `convertToUnicodeSmallCaps`: every letter, of either case, becomes the
    small-capital letter of `smallCapsMap`; every other character stays. */
module SmallCaps {
  import opened Wrappers
  import opened JsString

  /** `smallCapsMap`: the table is keyed by the 26 lower-case letters. Two
      entries are plain ASCII: `q` maps to `Q` and `x` to `x`. */
  function SmallCapsMap(c: char): (v: Option<char>)
    ensures v.Some? <==> 'a' <= c <= 'z'
  {
    match c
    case 'a' => Some('\U{1D00}')
    case 'b' => Some('\U{0299}')
    case 'c' => Some('\U{1D04}')
    case 'd' => Some('\U{1D05}')
    case 'e' => Some('\U{1D07}')
    case 'f' => Some('\U{A730}')
    case 'g' => Some('\U{0262}')
    case 'h' => Some('\U{029C}')
    case 'i' => Some('\U{026A}')
    case 'j' => Some('\U{1D0A}')
    case 'k' => Some('\U{1D0B}')
    case 'l' => Some('\U{029F}')
    case 'm' => Some('\U{1D0D}')
    case 'n' => Some('\U{0274}')
    case 'o' => Some('\U{1D0F}')
    case 'p' => Some('\U{1D18}')
    case 'q' => Some('Q')
    case 'r' => Some('\U{0280}')
    case 's' => Some('\U{A731}')
    case 't' => Some('\U{1D1B}')
    case 'u' => Some('\U{1D1C}')
    case 'v' => Some('\U{1D20}')
    case 'w' => Some('\U{1D21}')
    case 'x' => Some('x')
    case 'y' => Some('\U{028F}')
    case 'z' => Some('\U{1D22}')
    case _ => None
  }

  /** `char.toLowerCase()` where the result can be a key of the table:
      `A`..`Z` and the Kelvin sign, whose lower case is `k`. Every other
      character either is its own lower case or lowers to no key. */
  function ToLowerKey(c: char): (l: char)
    ensures 'A' <= c <= 'Z' ==> l as int == c as int + 32
    ensures c == '\U{212A}' ==> l == 'k'
    ensures !('A' <= c <= 'Z') && c != '\U{212A}' ==> l == c
  {
    if 'A' <= c <= 'Z' then (c as int + 32) as char
    else if c == '\U{212A}' then 'k'
    else c
  }

  predicate IsLetter(c: char) {
    'a' <= c <= 'z' || 'A' <= c <= 'Z' || c == '\U{212A}'
  }

  /** `smallCapsMap[lower] || char` for one character. Every table value is
      a non-empty string, so a hit is always taken. */
  function SmallCap(c: char): (r: char)
    ensures IsLetter(c) ==> SmallCapsMap(ToLowerKey(c)) == Some(r)
    ensures !IsLetter(c) ==> r == c
  {
    match SmallCapsMap(ToLowerKey(c))
    case Some(v) => v
    case None => c
  }

  /** The whole conversion: a character-by-character map. */
  function ConvertToUnicodeSmallCaps(text: string): (r: string)
    ensures |r| == |text|
    ensures forall k :: 0 <= k < |text| ==> r[k] == SmallCap(text[k])
    decreases |text|
  {
    if text == [] then [] else [SmallCap(text[0])] + ConvertToUnicodeSmallCaps(text[1..])
  }

  /** Upper and lower case of a letter give the same small capital, and a
      small capital is never an ASCII letter except for `Q` and `x`. */
  lemma CaseInsensitive(c: char)
    requires 'a' <= c <= 'z'
    ensures SmallCap((c as int - 32) as char) == SmallCap(c)
    ensures c != 'q' && c != 'x' ==> !IsLetter(SmallCap(c))
  {
  }

  /** Distinct lower-case letters get distinct small capitals. */
  lemma SmallCapInjective(c1: char, c2: char)
    requires 'a' <= c1 <= 'z' && 'a' <= c2 <= 'z' && c1 != c2
    ensures SmallCap(c1) != SmallCap(c2)
  {
  }

  /** Every small capital the table produces converts to itself. */
  lemma SmallCapFixed(c: char)
    ensures SmallCap(SmallCap(c)) == SmallCap(c)
  {
  }

  /** Converting twice is converting once. */
  lemma {:induction false} ConvertIdempotent(text: string)
    ensures ConvertToUnicodeSmallCaps(ConvertToUnicodeSmallCaps(text)) == ConvertToUnicodeSmallCaps(text)
  {
    var once := ConvertToUnicodeSmallCaps(text);
    var twice := ConvertToUnicodeSmallCaps(once);
    forall k | 0 <= k < |text|
      ensures twice[k] == once[k]
    {
      SmallCapFixed(text[k]);
    }
  }

  /** Upper-casing or lower-casing the ASCII letters first changes nothing. */
  lemma {:induction false} ConvertIgnoresCase(text: string)
    ensures ConvertToUnicodeSmallCaps(ToUpperAscii(text)) == ConvertToUnicodeSmallCaps(text)
    ensures ConvertToUnicodeSmallCaps(ToLowerAscii(text)) == ConvertToUnicodeSmallCaps(text)
  {
    var plain := ConvertToUnicodeSmallCaps(text);
    var upper := ConvertToUnicodeSmallCaps(ToUpperAscii(text));
    var lower := ConvertToUnicodeSmallCaps(ToLowerAscii(text));
    forall k | 0 <= k < |text|
      ensures upper[k] == plain[k] && lower[k] == plain[k]
    {
      var c := text[k];
      if 'a' <= c <= 'z' {
        CaseInsensitive(c);
      } else if 'A' <= c <= 'Z' {
        CaseInsensitive((c as int + 32) as char);
      }
    }
  }
}
