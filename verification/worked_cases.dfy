/** The toggle on concrete texts with the bold code: wrapping a word,
    toggling the wrapped word again, and a selection that occurs twice; and
    the placeholder filled with a size and a colour. In the toggle cases the
    buffer and the selection are the lemma's parameters, fixed by its
    precondition, as they are the editor's state when the button is pressed;
    each case derives the result from the general lemmas about `Rich`. */
module WorkedCases {
  import opened Wrappers
  import opened Strings
  import opened Codes
  import opened RichEditor

  /** The bold code takes no value: its tags are `<b>` and `</b>`. */
  lemma BoldTags()
    ensures EffectivePrefix(Bold.prefix, "") == "<b>"
    ensures Bold.suffix == "</b>"
  {
  }

  // ---------------------------------------------------------------------------
  // Bold on "world" in "hello world"
  // ---------------------------------------------------------------------------

  /** Bold on "world" in "hello world" wraps the word. */
  lemma BoldWrapsWord(text: string, sel: string)
    requires text == "hello world" && sel == "world"
    ensures Rich(text, sel, Bold, "") == Success("hello <b>world</b>")
  {
    HelloWorldWrapped(text, sel);
    HelloWorldSpelled(text, sel);
  }

  lemma HelloWorldSpelled(text: string, sel: string)
    requires text == "hello world" && sel == "world"
    ensures text[..6] + "<b>" + sel + "</b>" + text[11..] == "hello <b>world</b>"
  {
  }

  lemma HelloWorldWrapped(text: string, sel: string)
    requires text == "hello world" && sel == "world"
    ensures Rich(text, sel, Bold, "") == Success(text[..6] + "<b>" + sel + "</b>" + text[11..])
  {
    HelloWorldUntagged(text, sel);
    RichWrapsUntagged(text, sel, Bold, "", 6);
  }

  /** "world" occurs once in "hello world", which holds no bold tag. */
  lemma HelloWorldUntagged(text: string, sel: string)
    requires text == "hello world" && sel == "world"
    ensures OccursOnlyAt(text, sel, 6)
    ensures !Occurs(text, EffectivePrefix(Bold.prefix, "")) && !Occurs(text, Bold.suffix)
  {
    OnlyAtByHead(text, sel, 6);
    AbsentByHead(text, "<b>");
    AbsentByHead(text, "</b>");
  }

  // ---------------------------------------------------------------------------
  // Bold on "<b>world</b>" in "hello <b>world</b>"
  // ---------------------------------------------------------------------------

  /** Bold on the wrapped word "<b>world</b>" does not restore "hello world":
      the strip removes both tags, and the prefix is added back because the
      text before the selection holds no "<b>". */
  lemma BoldAgainIsNotUndone(text: string, sel: string)
    requires text == "hello <b>world</b>" && sel == "<b>world</b>"
    ensures Rich(text, sel, Bold, "") == Success("hello <b>world")
  {
    WrappedWordRetagged(text, sel);
    WrappedWordSpelled(text);
  }

  lemma WrappedWordSpelled(text: string)
    requires text == "hello <b>world</b>"
    ensures text[..6] + "<b>world" + text[18..] == "hello <b>world"
  {
  }

  lemma WrappedWordRetagged(text: string, sel: string)
    requires text == "hello <b>world</b>" && sel == "<b>world</b>"
    ensures Rich(text, sel, Bold, "") == Success(text[..6] + "<b>world" + text[18..])
  {
    WrappedWordOnce(text, sel);
    RichSingleOccurrence(text, sel, Bold, "", 6);
    ToggleBoldWord(text, sel);
  }

  /** "<b>world</b>" occurs once in "hello <b>world</b>". */
  lemma WrappedWordOnce(text: string, sel: string)
    requires text == "hello <b>world</b>" && sel == "<b>world</b>"
    ensures OccursOnlyAt(text, sel, 6)
  {
    OnlyAtByHead(text, sel, 6);
  }

  /** The prefix goes back on, the suffix does not. */
  lemma ToggleBoldWord(text: string, sel: string)
    requires text == "hello <b>world</b>" && sel == "<b>world</b>"
    ensures Toggled(sel, EffectivePrefix(Bold.prefix, ""), Bold.suffix, text[..6], text[6..]) == "<b>world"
  {
    BoldTags();
    StripBoldWord(sel);
    AbsentByHead(text[..6], "<b>");
    assert OccursAt(text[6..], "</b>", 8);
  }

  /** The strip takes both tags off "<b>world</b>". */
  lemma StripBoldWord(sel: string)
    requires sel == "<b>world</b>"
    ensures Stripped(sel, "<b>", "</b>") == "world"
  {
    StripOpeningTag(sel);
    StripClosingTag(sel[3..]);
  }

  /** The opening tag sits at 0 and does not occur again. */
  lemma StripOpeningTag(sel: string)
    requires sel == "<b>world</b>"
    ensures ReplaceAll(sel, "<b>", []) == sel[3..]
  {
    ReplaceAllAtFirst(sel, "<b>", [], 0);
    AbsentByHeadPair(sel[3..], "<b>");
    ReplaceAllAbsent(sel[3..], "<b>", []);
  }

  /** The closing tag sits at 5 and ends the string. */
  lemma StripClosingTag(rest: string)
    requires rest == "world</b>"
    ensures ReplaceAll(rest, "</b>", []) == "world"
  {
    FirstByHead(rest, "</b>", 5);
    ReplaceAllAtFirst(rest, "</b>", [], 5);
    assert rest[9..] == [];
  }

  // ---------------------------------------------------------------------------
  // Bold on "ab" in "ab ab"
  // ---------------------------------------------------------------------------

  /** Every occurrence of the selection is replaced, not only the first. */
  lemma BoldReplacesEveryOccurrence(text: string, sel: string)
    requires text == "ab ab" && sel == "ab"
    ensures Rich(text, sel, Bold, "") == Success("<b>ab</b> <b>ab</b>")
  {
    TwiceToggled(text, sel);
    TwiceReplaced(text, sel, "<b>ab</b>");
  }

  lemma TwiceToggled(text: string, sel: string)
    requires text == "ab ab" && sel == "ab"
    ensures Rich(text, sel, Bold, "") == Success(ReplaceAll(text, sel, "<b>ab</b>"))
  {
    assert FirstOccurrence(text, sel, 0);
    TwiceUntagged(text, sel);
    BoldTags();
    RichResult(text, sel, Bold, "", 0);
  }

  /** The tags are absent, so the selection is wrapped whole. */
  lemma TwiceUntagged(text: string, sel: string)
    requires text == "ab ab" && sel == "ab"
    ensures Toggled(sel, "<b>", "</b>", text[..0], text[0..]) == "<b>ab</b>"
  {
    AbsentByHead(text, "</b>");
    AbsentByHead(sel, "<b>");
    AbsentByHead(sel, "</b>");
    ReplaceAllAbsent(sel, "<b>", []);
    ReplaceAllAbsent(sel, "</b>", []);
    AbsentByHead(text[..0], "<b>");
  }

  lemma TwiceReplaced(text: string, sel: string, wrapped: string)
    requires text == "ab ab" && sel == "ab" && wrapped == "<b>ab</b>"
    ensures ReplaceAll(text, sel, wrapped) == "<b>ab</b> <b>ab</b>"
  {
    ReplaceAllAtFirst(text, sel, wrapped, 0);
    var rest := text[2..];
    FirstByHead(rest, sel, 1);
    ReplaceAllAtFirst(rest, sel, wrapped, 1);
    assert rest[3..] == [];
  }

  // ---------------------------------------------------------------------------
  // The placeholder
  // ---------------------------------------------------------------------------

  /** Size 12 opens the tag `<size=12>`. */
  lemma SizeTwelve()
    ensures EffectivePrefix(Size.prefix, "12") == "<size=12>"
  {
    SizeCodePrefix("12");
  }

  /** Opaque red opens the tag `<color=#FF0000FF>`. */
  lemma ColorRed()
    ensures EffectivePrefix(Color.prefix, "FF0000FF") == "<color=#FF0000FF>"
  {
    ColorCodePrefix("FF0000FF");
  }
}
