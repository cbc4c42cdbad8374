/** The custom colour registry `customHexColors`: a map from an eight-character
    `§#RRGGBB` token to the colour it stands for. The gradient encoder writes
    it; the scanner reads it. */
module Registry {
  import opened Wrappers

  /** `customHexColors[token]` used as a condition: a hit only when the token
      is present AND its colour is a non-empty (truthy) string. */
  function Resolve(entries: map<string, string>, token: string): (color: Option<string>)
    ensures color.Some? <==> token in entries && entries[token] != ""
    ensures color.Some? ==> color.value == entries[token]
  {
    if token in entries && entries[token] != "" then Some(entries[token]) else None
  }

  class ColorRegistry {
    var entries: map<string, string>

    /** The registry starts empty when the page loads. */
    constructor ()
      ensures entries == map[]
    {
      entries := map[];
    }

    /** `customHexColors[token] = color`: an upsert, the last write wins and
        no other entry changes. */
    method Register(token: string, color: string)
      modifies this
      ensures entries == old(entries)[token := color]
    {
      entries := entries[token := color];
    }
  }
}
