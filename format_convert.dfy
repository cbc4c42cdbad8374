/** `convertColorFormat`: the switch between the `§` prefix and the `&`
    prefix that chat plugins accept. It is a blind character replacement, not
    aware of codes. */
module FormatConvert {
  import opened JsString
  import Scanner

  const Ampersand: char := '&'

  /** Target `&` turns every `§` into `&`; any other target turns every `&`
      into `§`. Nothing else moves or changes. */
  function ConvertColorFormat(text: string, targetFormat: string): (r: string)
    ensures |r| == |text|
    ensures targetFormat == "&" ==>
      forall k :: 0 <= k < |text| ==> r[k] == (if text[k] == Scanner.Section then Ampersand else text[k])
    ensures targetFormat != "&" ==>
      forall k :: 0 <= k < |text| ==> r[k] == (if text[k] == Ampersand then Scanner.Section else text[k])
  {
    if targetFormat == "&" then ReplaceChar(text, Scanner.Section, Ampersand) else ReplaceChar(text, Ampersand, Scanner.Section)
  }

  /** After converting to `&` no `§` is left, and after converting to `§` no
      `&` is left. */
  lemma ConvertRemovesOtherPrefix(text: string)
    ensures forall k :: 0 <= k < |text| ==> ConvertColorFormat(text, "&")[k] != Scanner.Section
    ensures forall k :: 0 <= k < |text| ==> ConvertColorFormat(text, "§")[k] != Ampersand
  {
  }

  /** Text without a literal `&` survives the trip to the `&` form and back. */
  lemma {:induction false} RoundTripThroughAmpersand(text: string)
    requires forall k :: 0 <= k < |text| ==> text[k] != Ampersand
    ensures ConvertColorFormat(ConvertColorFormat(text, "&"), "§") == text
  {
    var there := ConvertColorFormat(text, "&");
    var back := ConvertColorFormat(there, "§");
    assert forall k :: 0 <= k < |text| ==> back[k] == text[k];
  }

  /** Text without a literal `§` survives the trip to the `§` form and back. */
  lemma {:induction false} RoundTripThroughSection(text: string)
    requires forall k :: 0 <= k < |text| ==> text[k] != Scanner.Section
    ensures ConvertColorFormat(ConvertColorFormat(text, "§"), "&") == text
  {
    var there := ConvertColorFormat(text, "§");
    var back := ConvertColorFormat(there, "&");
    assert forall k :: 0 <= k < |text| ==> back[k] == text[k];
  }

  /** A text holding both prefixes does not survive the trip: the literal
      `&` comes back as `§`. */
  lemma MixedPrefixesDoNotRoundTrip()
    ensures ConvertColorFormat(ConvertColorFormat("§a&", "&"), "§") == "§a§"
  {
    assert ConvertColorFormat("§a&", "&") == "&a&";
  }
}
