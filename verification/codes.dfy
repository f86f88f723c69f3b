/** The rich text codes: a prefix/suffix pair per markup style, and the fixed
    table of styles the editor's toolbar offers. */
module Codes {

  /** A rich text code, for example the pair `<b>` / `</b>`. The prefix may
      hold the placeholder `x`, which the editor replaces by a value. */
  datatype RichCode = RichCode(prefix: string, suffix: string)

  /** The character a code's prefix uses as a slot for a value. */
  const Placeholder: char := 'x'

  /** The `RichCode(prefix, suffix)` constructor: stores both strings as
      given, without substitution or validation. */
  function MakeCode(prefix: string, suffix: string): (c: RichCode)
    ensures c.prefix == prefix
    ensures c.suffix == suffix
  {
    RichCode(prefix, suffix)
  }

  /** A code is nothing but its two strings: codes built from equal arguments
      are equal, and equal codes were built from equal arguments. */
  lemma MakeCodeIsPair(p: string, s: string, p': string, s': string)
    ensures MakeCode(p, s) == MakeCode(p', s') <==> p == p' && s == s'
  {
  }

  const Bold: RichCode := MakeCode("<b>", "</b>")
  const Italic: RichCode := MakeCode("<i>", "</i>")
  const Size: RichCode := MakeCode("<size=x>", "</size>")
  const Color: RichCode := MakeCode("<color=#x>", "</color>")

  /** The editor's dictionary of codes, keyed by style name. */
  function CodeTable(): map<string, RichCode> {
    map["bold" := Bold, "italic" := Italic, "size" := Size, "color" := Color]
  }

  /** Every code in the table has a non-empty prefix and suffix, the prefix
      opens a tag and the suffix closes one; only the size and colour
      prefixes carry the placeholder. */
  lemma CodeTableWellFormed()
    ensures CodeTable().Keys == {"bold", "italic", "size", "color"}
    ensures forall name :: name in CodeTable() ==>
      && CodeTable()[name].prefix != []
      && CodeTable()[name].suffix != []
      && CodeTable()[name].prefix[0] == '<'
      && CodeTable()[name].suffix[..2] == "</"
    ensures forall name :: name in CodeTable() ==>
      (Placeholder in CodeTable()[name].prefix <==> name == "size" || name == "color")
    ensures forall name :: name in CodeTable() ==> Placeholder !in CodeTable()[name].suffix
  {
  }
}
