# VikingRich tag toggle, in Dafny

VikingRich is a small editor window for writing rich text: a text area, a
preview, and a toolbar with Bold, Italic, Size and Color buttons. Each button
toggles a markup code around the selected text. This project models that
toggle, `VikingRichEditor.Rich`, as a pure function over strings. It also
models the `RichCode` prefix/suffix pair, the fixed table of four codes, and
the toolbar pass that calls the toggle and clamps the size field to [2, 128].

Everything is functional. Strings are `seq<char>`. The .NET string operations
the editor uses are written out as ordinal functions (module `Strings`):
`Contains`, `IndexOf`, `Replace` and `Substring`. Where .NET throws, the model
returns a `Failure` holding the exception kind:

- `Replace` with an empty old value throws an `ArgumentException` (`EmptyOldValue`).
- `Substring(0, -1)` throws an `ArgumentOutOfRangeException` (`OutOfRange`).

`Rich(text, sel, code, value)` makes the editor's two hidden inputs
explicit: the buffer and the selected text. It raises exactly the exceptions
the C# method raises, in the same order:

1. An empty prefix throws when it is stripped: every string contains `""`.
2. An empty suffix throws in the same way.
3. A selection that does not occur in the text throws at `Substring(0, -1)`.
4. An empty selection throws at the final `Replace`.

Modules: `Wrappers` (the `Result` type), `Strings`, `Codes` (RichCode.cs and
the code table), `RichEditor` (the toggle), `Decimal` (`int.ToString()`),
`Toolbar` (the toolbar pass) and `WorkedCases` (the toggle on concrete texts).

The comments in `Rich` describe a toggle: remove the prefix and the suffix
from the selection if it holds them (VikingRichEditor.cs:102, 108), add the
prefix if there isn't one before the selection and the suffix if there isn't
one after it (119, 125). The model follows the code where it does something
else:

- The strip removes **every** occurrence of the prefix and of the suffix from
  the selection, not only the first.
- The final step replaces **every** occurrence of the original selection in
  the buffer, not only the one at the first index
  (`WorkedCases.BoldReplacesEveryOccurrence`).
- Toggling bold on `<b>world</b>` in `hello <b>world</b>` gives
  `hello <b>world`, not `hello world`. The second toggle does not undo the
  first (`WorkedCases.BoldAgainIsNotUndone`).
- An empty selection is not wrapped: the call throws.

## Model

| member | source | states |
|---|---|---|
| `Codes.MakeCode` | Assets/Viking/Rich/Scripts/Editor/RichCode.cs:23-27 | the constructor stores the prefix and the suffix exactly as given, for any two strings |
| `Codes.MakeCodeIsPair` | Assets/Viking/Rich/Scripts/Editor/RichCode.cs:11-27 | a code holds nothing but its two strings: in the model, codes are equal exactly when their fields are |
| `Codes.CodeTableWellFormed` | Assets/Viking/Rich/Scripts/Editor/VikingRichEditor.cs:37-45 | the table has exactly the keys bold, italic, size and color; every prefix and suffix is non-empty and opens or closes a tag; only the size and colour prefixes hold the placeholder `x` |
| `Strings.IndexOf` | Assets/Viking/Rich/Scripts/Editor/VikingRichEditor.cs:114 | the result is the first index where the selection occurs in the text, or -1 exactly when it does not occur |
| `Strings.Contains` | Assets/Viking/Rich/Scripts/Editor/VikingRichEditor.cs:103 | true exactly when the pattern occurs somewhere in the string; the empty string is always contained |
| `Strings.Replace` | Assets/Viking/Rich/Scripts/Editor/VikingRichEditor.cs:131 | throws exactly when the old value is empty, and otherwise substitutes every non-overlapping occurrence from left to right |
| `Strings.Substring` | Assets/Viking/Rich/Scripts/Editor/VikingRichEditor.cs:116 | fails with an out-of-range fault exactly when the bounds leave the string (as for index -1); otherwise returns the slice at that index |
| `Strings.CountZeroIffAbsent` | Assets/Viking/Rich/Scripts/Editor/VikingRichEditor.cs:103-105 | the replace-all scan substitutes nothing exactly when the pattern does not occur |
| `Strings.ReplaceAllAbsent` | Assets/Viking/Rich/Scripts/Editor/VikingRichEditor.cs:103-111 | a string without the pattern is returned unchanged, so the `Contains` guards before the strips change nothing |
| `Strings.ReplaceAllAtFirst` | Assets/Viking/Rich/Scripts/Editor/VikingRichEditor.cs:131 | the text before the first occurrence is kept, that occurrence is substituted, and the scan resumes just after it |
| `Strings.ReplaceAllOnce` | Assets/Viking/Rich/Scripts/Editor/VikingRichEditor.cs:131 | when the pattern occurs exactly once, only that span changes |
| `Strings.ReplaceAllLength` | Assets/Viking/Rich/Scripts/Editor/VikingRichEditor.cs:131 | each substituted occurrence changes the length by the length difference of the two strings |
| `Strings.ReplaceAllSelf` | Assets/Viking/Rich/Scripts/Editor/VikingRichEditor.cs:131 | replacing a pattern by itself leaves the string unchanged |
| `Strings.ReplaceAllSingleChar` | Assets/Viking/Rich/Scripts/Editor/VikingRichEditor.cs:99 | replacing the one-character string `x` is the same as substituting each `x` independently, character by character |
| `RichEditor.EffectivePrefix` | Assets/Viking/Rich/Scripts/Editor/VikingRichEditor.cs:93-100 | with an empty value the prefix is used verbatim; the substitution of a non-empty value is stated by `EffectivePrefixSubstitutes` |
| `RichEditor.EffectivePrefixSubstitutes` | Assets/Viking/Rich/Scripts/Editor/VikingRichEditor.cs:96-100 | with an empty value the prefix is used verbatim; otherwise every placeholder `x` is replaced by the whole value, each independently of the others; the result is empty exactly when the prefix is |
| `RichEditor.StripTag` | Assets/Viking/Rich/Scripts/Editor/VikingRichEditor.cs:102-112 | an empty tag throws; otherwise the guarded strip equals an unconditional removal of every occurrence of the tag |
| `RichEditor.Rich` | Assets/Viking/Rich/Scripts/Editor/VikingRichEditor.cs:89-132 | succeeds exactly when prefix, suffix and selection are non-empty and the selection occurs in the text; the fault is out-of-range exactly when both tags are non-empty and the selection is absent (an empty tag throws first, and an absent selection is never empty) |
| `RichEditor.RichResult` | Assets/Viking/Rich/Scripts/Editor/VikingRichEditor.cs:114-131 | with non-empty tags and a selection first found at index i, the toggle replaces every occurrence of the selection by the stripped selection, with the prefix in front iff the text before i lacks it and the suffix behind iff the text from i onward lacks it |
| `RichEditor.RichSingleOccurrence` | Assets/Viking/Rich/Scripts/Editor/VikingRichEditor.cs:114-131 | for a selection occurring once at i, the result is the text before i, the toggled selection, then the text after the selection, unchanged |
| `RichEditor.RichWrapsUntagged` | Assets/Viking/Rich/Scripts/Editor/VikingRichEditor.cs:102-131 | in a text holding neither tag, a selection occurring once is wrapped in the prefix and the suffix and nothing else changes |
| `RichEditor.RichKeepsSuffixOff` | Assets/Viking/Rich/Scripts/Editor/VikingRichEditor.cs:125-129 | the suffix test covers the selection itself, so a selection that contains the suffix is replaced by its stripped form with no suffix appended |
| `RichEditor.RichPrefixAnywhereBefore` | Assets/Viking/Rich/Scripts/Editor/VikingRichEditor.cs:119-123 | a prefix anywhere in the text before the selection, related or not, stops the prefix from being added |
| `RichEditor.SizeCodePrefix` | Assets/Viking/Rich/Scripts/Editor/VikingRichEditor.cs:41 | the size code with a non-empty value v opens `<size=v>`; its suffix stays `</size>` |
| `RichEditor.ColorCodePrefix` | Assets/Viking/Rich/Scripts/Editor/VikingRichEditor.cs:42 | the colour code with a non-empty hex value h opens `<color=#h>`; its suffix stays `</color>` |
| `Decimal.NatToString` | Assets/Viking/Rich/Scripts/Editor/VikingRichEditor.cs:159 | the rendering of the size is a non-empty string of decimal digits without a leading zero |
| `Decimal.IntToString` | Assets/Viking/Rich/Scripts/Editor/VikingRichEditor.cs:159 | the rendering of the size is non-empty and starts with `-` exactly for a negative value; it reads back exactly by `ParseIntToString` |
| `Decimal.ParseIntToString` | Assets/Viking/Rich/Scripts/Editor/VikingRichEditor.cs:159 | the decimal rendering of an integer reads back as that integer |
| `Toolbar.Clamp` | Assets/Viking/Rich/Scripts/Editor/VikingRichEditor.cs:162 | the clamped value lies in [min, max], equals the input when the input is in range, and is the nearer bound otherwise |
| `Toolbar.ToolbarPass` | Assets/Viking/Rich/Scripts/Editor/VikingRichEditor.cs:137-187 | a pass keeps the size in [2, 128]; it faults exactly when a style button meets an empty or absent selection, out-of-range exactly for an absent one; without a fault the size is the clamped field value; bold and italic store the toggled text; a pass with no button or with Clipboard leaves the text alone; after a fault the window is unchanged, except that a Color pass has already stored the clamped size |
| `Toolbar.Repaint` | Assets/Viking/Rich/Scripts/Editor/VikingRichEditor.cs:69-75 | a repaint runs the toolbar before the text area: an exception in the toolbar leaves the toolbar's window as the result, so no typing is applied in that repaint; without a toolbar fault the buffer becomes what the user typed, if anything; the size is always the toolbar's, and stays in [2, 128] |
| `Toolbar.IdlePassKeepsWindow` | Assets/Viking/Rich/Scripts/Editor/VikingRichEditor.cs:161-162 | a pass with no button pressed, in which the size field returns the stored in-range size, leaves the window unchanged |
| `Toolbar.RunKeepsSizeInRange` | Assets/Viking/Rich/Scripts/Editor/VikingRichEditor.cs:156-163 | from a size in [2, 128], such as the initial 9, every sequence of repaints, typing included, keeps the size in [2, 128] |
| `Toolbar.InitialRunKeepsSizeInRange` | Assets/Viking/Rich/Scripts/Editor/VikingRichEditor.cs:27 | from the opened window, whose size is 9, every sequence of repaints keeps the size in [2, 128] |
| `Toolbar.SizeButtonUsesDecimalSize` | Assets/Viking/Rich/Scripts/Editor/VikingRichEditor.cs:157-160 | pressing Size changes the text exactly as toggling the fixed pair `<size=n>` / `</size>` would, where n is the decimal rendering of the current size |
| `Toolbar.ColorButtonUsesHex` | Assets/Viking/Rich/Scripts/Editor/VikingRichEditor.cs:161-172 | pressing Color changes the text exactly as toggling the fixed pair `<color=#h>` / `</color>` would, for the hex rendering h; the clamped size field is stored even when the toggle throws |
| `WorkedCases.BoldWrapsWord` | Assets/Viking/Rich/Scripts/Editor/VikingRichEditor.cs:89-132 | bold on `world` in `hello world` gives `hello <b>world</b>` |
| `WorkedCases.BoldAgainIsNotUndone` | Assets/Viking/Rich/Scripts/Editor/VikingRichEditor.cs:102-131 | bold on `<b>world</b>` in `hello <b>world</b>` gives `hello <b>world`: both tags are stripped and only the prefix comes back |
| `WorkedCases.BoldReplacesEveryOccurrence` | Assets/Viking/Rich/Scripts/Editor/VikingRichEditor.cs:131 | bold on `ab` in `ab ab` wraps both occurrences |
| `WorkedCases.SizeTwelve` | Assets/Viking/Rich/Scripts/Editor/VikingRichEditor.cs:96-100 | size 12 gives the prefix `<size=12>` |
| `WorkedCases.ColorRed` | Assets/Viking/Rich/Scripts/Editor/VikingRichEditor.cs:96-100 | the hex value `FF0000FF` gives the prefix `<color=#FF0000FF>` |

## Left out

- Window creation, menu registration and rendering (`Init`, the layout in `OnGUI`, the preview label): host UI code with no logic of its own. The text area is modelled only by the new contents it returns when the user types.
- Reading the selection from the host's keyboard-focus text editor: the selection is an explicit `sel` argument.
- The selection's position in the buffer: the source never uses it, because it locates the selection with `IndexOf` from index 0.
- `CopyToClipboard` and its log message: clipboard and console I/O. A clipboard pass is modelled as leaving the text unchanged.
- `ColorUtility.ToHtmlStringRGBA` and the colour and integer fields: foreign widgets and floating-point colours. The colour reaches the model as an opaque hex string, and the size field's result as an arbitrary integer.
- How the host reacts to an exception: the pass stops at the throwing call (a later size clamp does not run), and the fault is returned, not logged.
- Strings are sequences of Unicode scalar values, not UTF-16 code units: a string holding an unpaired surrogate (half of an emoji, say) has no counterpart, and indices count scalar values rather than code units. On text without unpaired surrogates the ordinal operations agree.
- Culture-sensitive comparison in `IndexOf(string)`: all string operations are ordinal.
- `RichCode` is a class with mutable public fields, compared by reference: it is modelled as an immutable value, because the editor never mutates or compares codes.
- Null strings: the host never supplies a null selection or text.
- Culture-specific number formatting in `size.ToString()`: the rendering is the invariant-culture one, ASCII digits with a leading `-` for negative values.
- The colour field's value persisting between passes: each pass receives the hex rendering of whatever colour the field held when the button was pressed.
