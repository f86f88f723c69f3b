/** The editor's tag toggle, `VikingRichEditor.Rich`: given the text buffer,
    the selected substring and a rich text code, it strips the code's tags
    from the selection, re-adds the prefix and suffix unless the surrounding
    text already holds them, and substitutes the result for every occurrence
    of the selection in the buffer. */
module RichEditor {
  import opened Wrappers
  import opened Strings
  import opened Codes

  /** The prefix actually used: when `value` is non-empty, the code's prefix
      with every `"x"` replaced by `value`; otherwise the prefix verbatim. */
  function EffectivePrefix(prefix: string, value: string): (a: string)
    ensures value == [] ==> a == prefix
  {
    if value != [] then
      ReplaceAll(prefix, [Placeholder], value)
    else
      prefix
  }

  /** With a value, every placeholder of the prefix is replaced by the whole
      value, independently of the others; without one the prefix is used
      verbatim. Either way the prefix becomes empty only if it was empty. */
  lemma {:induction false} EffectivePrefixSubstitutes(prefix: string, value: string)
    ensures EffectivePrefix(prefix, value)
      == if value == [] then prefix else SubstituteChar(prefix, Placeholder, value)
    ensures EffectivePrefix(prefix, value) == [] <==> prefix == []
  {
    if value != [] {
      ReplaceAllSingleChar(prefix, Placeholder, value);
    }
  }

  /** Removes a tag from the selection when the selection contains it. The
      `Replace` throws when the tag is empty, since every string contains
      the empty string. */
  function StripTag(s: string, tag: string): (r: Result<string, Fault>)
    ensures tag == [] ==> r == Failure(EmptyOldValue)
    ensures tag != [] ==> r == Success(ReplaceAll(s, tag, []))
  {
    if Contains(s, tag) then
      Replace(s, tag, [])
    else
      ReplaceAllAbsent(s, tag, []);
      Success(s)
  }

  /** The selection with every occurrence of the prefix `a` removed, and then
      every occurrence of the suffix `b`. */
  function Stripped(sel: string, a: string, b: string): string
    requires a != [] && b != []
  {
    ReplaceAll(ReplaceAll(sel, a, []), b, [])
  }

  /** What the toggle substitutes for the selection: the stripped selection,
      preceded by `a` when the text `before` the selection does not contain
      `a`, and followed by `b` when the text from the selection onward does
      not contain `b`. */
  ghost function Toggled(sel: string, a: string, b: string, before: string, after: string): string
    requires a != [] && b != []
  {
    (if Occurs(before, a) then [] else a) + Stripped(sel, a, b) + (if Occurs(after, b) then [] else b)
  }

  /** `VikingRichEditor.Rich(code, value)` applied to `text` with the
      selection `sel`; the result is the new text, or the exception the
      call raises. */
  function Rich(text: string, sel: string, code: RichCode, value: string): (r: Result<string, Fault>)
    ensures r.Success? <==> code.prefix != [] && code.suffix != [] && sel != [] && Occurs(text, sel)
    ensures r.Failure? ==> (r.error == OutOfRange <==> code.prefix != [] && code.suffix != [] && !Occurs(text, sel))
  {
    var a := EffectivePrefix(code.prefix, value);
    var b := code.suffix;
    var withoutPrefix :- StripTag(sel, a);
    var withoutTags :- StripTag(withoutPrefix, b);
    var index := IndexOf(text, sel);
    var before :- Substring(text, 0, index);
    // Once `Substring(0, index)` has succeeded, `Substring(index)` and the
    // two `Insert`s below are within bounds and cannot throw.
    var after := text[index..];
    var prefixed := if !Contains(before, a) then a + withoutTags else withoutTags;
    var wrapped := if !Contains(after, b) then prefixed + b else prefixed;
    Replace(text, sel, wrapped)
  }

  /** When the toggle can succeed, it substitutes `Toggled` for every
      occurrence of the selection, where the split into "before" and "after"
      is made at the first occurrence of the selection in the text. */
  lemma RichResult(text: string, sel: string, code: RichCode, value: string, i: int)
    requires code.prefix != [] && code.suffix != [] && sel != []
    requires FirstOccurrence(text, sel, i)
    ensures Rich(text, sel, code, value)
      == Replace(text, sel, Toggled(sel, EffectivePrefix(code.prefix, value), code.suffix, text[..i], text[i..]))
  {
    EffectivePrefixSubstitutes(code.prefix, value);
    FirstOccurrenceUnique(text, sel, i, IndexOf(text, sel));
    var a := EffectivePrefix(code.prefix, value);
    var b := code.suffix;
    var withoutTags := Stripped(sel, a, b);
    assert StripTag(ReplaceAll(sel, a, []), b) == Success(withoutTags);
    assert Substring(text, 0, i) == Success(text[..i]);
    var prefixed := if !Contains(text[..i], a) then a + withoutTags else withoutTags;
    var wrapped := if !Contains(text[i..], b) then prefixed + b else prefixed;
    assert wrapped == Toggled(sel, a, b, text[..i], text[i..]);
  }

  /** When the selection occurs exactly once, the toggle rewrites only that
      span: the text before and after it is kept. */
  lemma RichSingleOccurrence(text: string, sel: string, code: RichCode, value: string, i: int)
    requires code.prefix != [] && code.suffix != [] && sel != []
    requires OccursOnlyAt(text, sel, i)
    ensures Rich(text, sel, code, value)
      == Success(text[..i] + Toggled(sel, EffectivePrefix(code.prefix, value), code.suffix, text[..i], text[i..])
                 + text[i + |sel|..])
  {
    assert FirstOccurrence(text, sel, i);
    RichResult(text, sel, code, value, i);
    ReplaceAllOnce(text, sel, Toggled(sel, EffectivePrefix(code.prefix, value), code.suffix, text[..i], text[i..]), i);
  }

  /** Toggling a selection that occurs once in a text holding neither tag
      wraps the selection in the prefix and the suffix. */
  lemma RichWrapsUntagged(text: string, sel: string, code: RichCode, value: string, i: int)
    requires code.prefix != [] && code.suffix != [] && sel != []
    requires OccursOnlyAt(text, sel, i)
    requires !Occurs(text, EffectivePrefix(code.prefix, value))
    requires !Occurs(text, code.suffix)
    ensures Rich(text, sel, code, value)
      == Success(text[..i] + EffectivePrefix(code.prefix, value) + sel + code.suffix + text[i + |sel|..])
  {
    var a := EffectivePrefix(code.prefix, value);
    var b := code.suffix;
    RichSingleOccurrence(text, sel, code, value, i);
    if Occurs(sel, a) {
      OccursWithin(text, sel, a, i);
    }
    if Occurs(sel, b) {
      OccursWithin(text, sel, b, i);
    }
    ReplaceAllAbsent(sel, a, []);
    ReplaceAllAbsent(sel, b, []);
    if Occurs(text[..i], a) {
      OccursInPrefix(text, a, i);
    }
    if Occurs(text[i..], b) {
      OccursInSuffix(text, b, i);
    }
    assert Toggled(sel, a, b, text[..i], text[i..]) == a + sel + b;
    assert text[..i] + (a + sel + b) + text[i + |sel|..] == text[..i] + a + sel + b + text[i + |sel|..];
  }

  /** The suffix test looks at the text from the selection onward, which
      includes the selection itself: a selection that contained the suffix
      never has it appended again, even though the strip removed it. */
  lemma RichKeepsSuffixOff(text: string, sel: string, code: RichCode, value: string, i: int, k: int)
    requires code.prefix != [] && code.suffix != [] && sel != []
    requires FirstOccurrence(text, sel, i)
    requires OccursAt(sel, code.suffix, k)
    ensures Rich(text, sel, code, value) == Replace(text, sel,
      var a := EffectivePrefix(code.prefix, value);
      (if Contains(text[..i], a) then [] else a) + Stripped(sel, a, code.suffix))
  {
    var a := EffectivePrefix(code.prefix, value);
    RichResult(text, sel, code, value, i);
    assert text[i..][..|sel|] == sel;
    OccursWithin(text[i..], sel, code.suffix, 0);
    assert Toggled(sel, a, code.suffix, text[..i], text[i..])
      == (if Occurs(text[..i], a) then [] else a) + Stripped(sel, a, code.suffix);
  }

  /** The toggle inspects the whole text before the selection: a prefix
      anywhere earlier, even inside an unrelated span, stops the prefix from
      being added. */
  lemma RichPrefixAnywhereBefore(text: string, sel: string, code: RichCode, value: string, i: int)
    requires code.prefix != [] && code.suffix != [] && sel != []
    requires FirstOccurrence(text, sel, i)
    requires Contains(text[..i], EffectivePrefix(code.prefix, value))
    ensures Rich(text, sel, code, value) == Replace(text, sel,
      Stripped(sel, EffectivePrefix(code.prefix, value), code.suffix)
      + (if Contains(text[i..], code.suffix) then [] else code.suffix))
  {
    var a := EffectivePrefix(code.prefix, value);
    var b := code.suffix;
    assert Occurs(text[..i], a);
    var tail := if Contains(text[i..], b) then [] else b;
    assert Toggled(sel, a, b, text[..i], text[i..]) == Stripped(sel, a, b) + tail;
    RichResult(text, sel, code, value, i);
  }

  /** The placeholder slot of a prefix of the form `open + "x" + close`
      receives the value verbatim. */
  lemma FillSlot(open: string, close: string, value: string)
    requires Placeholder !in open && Placeholder !in close
    requires value != []
    ensures EffectivePrefix(open + [Placeholder] + close, value) == open + value + close
  {
    SubstituteCharFill(open, close, Placeholder, value);
    ReplaceAllSingleChar(open + [Placeholder] + close, Placeholder, value);
  }


  /** The size code with a value `v` opens the tag `<size=v>`; its suffix is
      never substituted. */
  lemma SizeCodePrefix(value: string)
    requires value != []
    ensures EffectivePrefix(Size.prefix, value) == "<size=" + value + ">"
    ensures Size.suffix == "</size>"
  {
    assert Size.prefix == "<size=" + [Placeholder] + ">";
    FillSlot("<size=", ">", value);
  }

  /** The colour code with a hex value `h` opens the tag `<color=#h>`. */
  lemma ColorCodePrefix(value: string)
    requires value != []
    ensures EffectivePrefix(Color.prefix, value) == "<color=#" + value + ">"
    ensures Color.suffix == "</color>"
  {
    assert Color.prefix == "<color=#" + [Placeholder] + ">";
    FillSlot("<color=#", ">", value);
  }
}
