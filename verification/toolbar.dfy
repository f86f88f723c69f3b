/** One pass of the editor window's toolbar: the four style buttons call the
    tag toggle with a code from the table, and the size field is clamped to
    the range the editor allows. */
module Toolbar {
  import opened Wrappers
  import opened Strings
  import opened Codes
  import opened Decimal
  import opened RichEditor

  const MinSize: int := 2
  const MaxSize: int := 128
  const InitialSize: int := 9

  /** `Mathf.Clamp(value, min, max)` on integers. */
  function Clamp(value: int, min: int, max: int): (r: int)
    ensures min <= max ==> min <= r <= max
    ensures min <= value <= max ==> r == value
    ensures value < min ==> r == min
    ensures min <= value && max < value ==> r == max
  {
    if value < min then min else if value > max then max else value
  }

  /** The window's editable state: the text buffer and the target size. The
      target colour is represented by its hex rendering, passed per pass. */
  datatype Window = Window(text: string, size: int)

  /** The window as it is opened: empty text and size 9. */
  const InitialWindow: Window := Window("", InitialSize)

  /** The toolbar control activated in a pass, if any. */
  datatype Button = NoButton | BoldButton | ItalicButton | SizeButton | ColorButton | ClipboardButton

  /** The state after a pass, and the exception that cut the pass short. */
  datatype Outcome = Outcome(window: Window, fault: Option<Fault>)

  predicate IsStyleButton(b: Button) {
    b.BoldButton? || b.ItalicButton? || b.SizeButton? || b.ColorButton?
  }

  /** Stores the toggled text, or stops the pass at the exception. */
  function ApplyToggle(w: Window, r: Result<string, Fault>): Outcome {
    match r
    case Success(t) => Outcome(w.(text := t), None)
    case Failure(e) => Outcome(w, Some(e))
  }

  /** Stores the typed size, clamped, as the size field does after the size
      button. */
  function StoreSize(o: Outcome, typedSize: int): Outcome {
    if o.fault.Some? then o
    else Outcome(o.window.(size := Clamp(typedSize, MinSize, MaxSize)), None)
  }

  /** One toolbar pass. `sel` is the selected text, `typedSize` what the
      size field returns and `colorHex` the RGBA hex rendering of the colour
      field. The bold, italic and size buttons come before the size field, so
      an exception they raise leaves the size untouched; the colour button
      comes after it. */
  function ToolbarPass(w: Window, pressed: Button, sel: string, typedSize: int, colorHex: string): (o: Outcome)
    ensures MinSize <= w.size <= MaxSize ==> MinSize <= o.window.size <= MaxSize
    ensures o.fault.None? ==> o.window.size == Clamp(typedSize, MinSize, MaxSize)
    ensures o.fault.Some? <==> IsStyleButton(pressed) && (sel == [] || !Occurs(w.text, sel))
    ensures o.fault.Some? ==> (o.fault.value == OutOfRange <==> !Occurs(w.text, sel))
    ensures !IsStyleButton(pressed) ==> o.window.text == w.text
    ensures pressed.BoldButton? && o.fault.None? ==> o.window.text == Rich(w.text, sel, Bold, "").value
    ensures pressed.ItalicButton? && o.fault.None? ==> o.window.text == Rich(w.text, sel, Italic, "").value
    ensures o.fault.Some? && !pressed.ColorButton? ==> o.window == w
    ensures o.fault.Some? && pressed.ColorButton? ==> o.window == w.(size := Clamp(typedSize, MinSize, MaxSize))
  {
    match pressed
    case NoButton => StoreSize(Outcome(w, None), typedSize)
    case BoldButton => StoreSize(ApplyToggle(w, Rich(w.text, sel, CodeTable()["bold"], "")), typedSize)
    case ItalicButton => StoreSize(ApplyToggle(w, Rich(w.text, sel, CodeTable()["italic"], "")), typedSize)
    case SizeButton =>
      StoreSize(ApplyToggle(w, Rich(w.text, sel, CodeTable()["size"], IntToString(w.size))), typedSize)
    case ColorButton =>
      var sized := StoreSize(Outcome(w, None), typedSize);
      ApplyToggle(sized.window, Rich(w.text, sel, CodeTable()["color"], colorHex))
    case ClipboardButton => StoreSize(Outcome(w, None), typedSize)
  }

  /** The toolbar runs on every repaint. A pass in which nothing is pressed
      and the size field returns the stored size leaves the window as it
      was, because clamping an in-range size changes nothing. */
  lemma IdlePassKeepsWindow(w: Window, sel: string, colorHex: string)
    requires MinSize <= w.size <= MaxSize
    ensures ToolbarPass(w, NoButton, sel, w.size, colorHex) == Outcome(w, None)
  {
  }

  /** What the user does in one repaint: the button activated, the selected
      text, the size field's value, the colour field's hex rendering, and
      the text area's new contents when the user typed into it. */
  datatype Input = Input(pressed: Button, sel: string, typedSize: int, colorHex: string, edit: Option<string>)

  /** One repaint of the window: the toolbar pass, then the text area, which
      replaces the buffer by what the user typed. An exception in the toolbar
      ends the repaint before the text area is reached. */
  function Repaint(w: Window, i: Input): (r: Window)
    ensures MinSize <= w.size <= MaxSize ==> MinSize <= r.size <= MaxSize
    ensures ToolbarPass(w, i.pressed, i.sel, i.typedSize, i.colorHex).fault.Some?
      ==> r == ToolbarPass(w, i.pressed, i.sel, i.typedSize, i.colorHex).window
    ensures r.size == ToolbarPass(w, i.pressed, i.sel, i.typedSize, i.colorHex).window.size
    ensures ToolbarPass(w, i.pressed, i.sel, i.typedSize, i.colorHex).fault.None?
      ==> r.text == (if i.edit.Some? then i.edit.value else ToolbarPass(w, i.pressed, i.sel, i.typedSize, i.colorHex).window.text)
  {
    var o := ToolbarPass(w, i.pressed, i.sel, i.typedSize, i.colorHex);
    if o.fault.Some? || i.edit.None? then o.window else o.window.(text := i.edit.value)
  }

  /** The window after a sequence of repaints. */
  function Run(w: Window, inputs: seq<Input>): Window
    decreases |inputs|
  {
    if inputs == [] then w else Run(Repaint(w, inputs[0]), inputs[1..])
  }

  /** Once the size is within [2, 128], as it is in the initial window, it
      stays there whatever sequence of passes follows. */
  lemma {:induction false} RunKeepsSizeInRange(w: Window, inputs: seq<Input>)
    requires MinSize <= w.size <= MaxSize
    ensures MinSize <= Run(w, inputs).size <= MaxSize
    decreases |inputs|
  {
    if inputs != [] {
      RunKeepsSizeInRange(Repaint(w, inputs[0]), inputs[1..]);
    }
  }
  /** From the opened window, every sequence of repaints keeps the size in
      [2, 128]. */
  lemma InitialRunKeepsSizeInRange(inputs: seq<Input>)
    ensures MinSize <= Run(InitialWindow, inputs).size <= MaxSize
  {
    RunKeepsSizeInRange(InitialWindow, inputs);
  }


  /** The size button toggles the tag pair `<size=n>` / `</size>`, where
      `n` is the decimal rendering of the window's current size. */
  lemma SizeButtonUsesDecimalSize(w: Window, sel: string, typedSize: int, colorHex: string, n: string)
    requires n == IntToString(w.size)
    ensures ToolbarPass(w, SizeButton, sel, typedSize, colorHex).window.text
      == ApplyToggle(w, Rich(w.text, sel, RichCode("<size=" + n + ">", "</size>"), "")).window.text
  {
    SizeCodePrefix(n);
  }


  /** The colour button toggles the tag pair `<color=#h>` / `</color>` for
      the hex rendering `h` of the colour. The size field comes before the
      button, so its value is stored even when the toggle throws. */
  lemma ColorButtonUsesHex(w: Window, sel: string, typedSize: int, colorHex: string)
    requires colorHex != []
    ensures ToolbarPass(w, ColorButton, sel, typedSize, colorHex).window.text
      == ApplyToggle(w, Rich(w.text, sel, RichCode("<color=#" + colorHex + ">", "</color>"), "")).window.text
    ensures ToolbarPass(w, ColorButton, sel, typedSize, colorHex).window.size == Clamp(typedSize, MinSize, MaxSize)
  {
    ColorCodePrefix(colorHex);
  }

}
