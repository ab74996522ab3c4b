/** The state of the `TranslatorInterface` component in
    src/components/TranslatingInterface.tsx: the two text cells, the
    direction and the copy-feedback flag, the three event handlers that
    change them, and the values the component derives from them. */
module Session {
  import opened Translator

  /** A value of the component's four `useState` cells. */
  datatype Snapshot = Snapshot(englishText: string, alienText: string, direction: Direction, copied: bool)
  {
    /** `inputText`: the editable pane. */
    function InputText(): string {
      if direction == ToAlien then englishText else alienText
    }

    /** `outputText`: the read-only pane. */
    function OutputText(): string {
      if direction == ToAlien then alienText else englishText
    }

    /** `textToCopy` in `handleCopy` (line 30): always the read-only pane.
        The source writes the same conditional as `outputText` (line 63), so
        the body repeats `OutputText`'s and the contract states that they
        agree. */
    function TextToCopy(): (r: string)
      ensures r == OutputText()
    {
      if direction == ToAlien then alienText else englishText
    }

    /** The character count shown under the panes; while the read-only pane
        is derived it has as many characters as the editable one. */
    function CharacterCount(): (n: nat)
      ensures Derived() ==> n == |OutputText()|
    {
      |InputText()|
    }

    /** The read-only pane shows the translation of the editable one. */
    predicate Derived() {
      OutputText() == Translate(InputText(), direction)
    }

    /** What the handlers keep between the two panes: the read-only pane is
        the translation of the editable one, in the current direction or in
        the other one. */
    predicate Coherent() {
      Derived() || OutputText() == Translate(InputText(), Flip(direction))
    }
  }

  /** The state the component mounts with. */
  function Initial(): (s: Snapshot)
    ensures s.InputText() == [] && s.OutputText() == [] && s.CharacterCount() == 0
    ensures s.direction == ToAlien && !s.copied
    ensures s.Derived()
  {
    Snapshot("", "", ToAlien, false)
  }

  /** `handleInputChange`: the typed value becomes the editable pane, the
      read-only pane becomes its translation, and nothing else changes. */
  function InputChange(s: Snapshot, value: string): (r: Snapshot)
    ensures r.InputText() == value && r.CharacterCount() == |value|
    ensures r.OutputText() == Translate(value, s.direction) && |r.OutputText()| == |value|
    ensures r.direction == s.direction && r.copied == s.copied
    ensures r.Derived()
  {
    if s.direction == ToAlien then
      s.(englishText := value, alienText := Translate(value, ToAlien))
    else
      s.(alienText := value, englishText := Translate(value, ToEnglish))
  }

  /** `handleSwap`: the direction flips and the two text cells trade places,
      with no translation; since both panes are chosen by the direction, each
      pane goes on showing the text it showed. */
  function Swap(s: Snapshot): (r: Snapshot)
    ensures r.direction != s.direction
    ensures r.InputText() == s.InputText() && r.OutputText() == s.OutputText()
    ensures r.copied == s.copied
  {
    Snapshot(s.alienText, s.englishText, Flip(s.direction), s.copied)
  }

  /** The part of `handleCopy` that changes state: the flag is set when the
      clipboard write resolves or, failing that, when the fallback
      `execCommand('copy')` reports success; a failure leaves it as it was. */
  function Copy(s: Snapshot, clipboardOk: bool, execCommandOk: bool): (r: Snapshot)
    ensures r.copied <==> s.copied || clipboardOk || execCommandOk
    ensures r.englishText == s.englishText && r.alienText == s.alienText && r.direction == s.direction
  {
    if clipboardOk then s.(copied := true)
    else if execCommandOk then s.(copied := true)
    else s
  }

  /** The `setTimeout` callback scheduled by a successful copy. */
  function FeedbackExpired(s: Snapshot): (r: Snapshot)
    ensures !r.copied
    ensures r.englishText == s.englishText && r.alienText == s.alienText && r.direction == s.direction
  {
    s.(copied := false)
  }

  /** Swapping twice restores every cell. */
  lemma SwapTwice(s: Snapshot)
    ensures Swap(Swap(s)) == s
  {
  }

  /** After an edit the state depends only on the last value typed. */
  lemma LastEditWins(s: Snapshot, v: string, w: string)
    ensures InputChange(InputChange(s, v), w) == InputChange(s, w)
  {
  }

  /** A swap keeps the read-only pane a translation of the editable one only
      when the text is one that neither direction changes: the panes keep
      their texts while the direction flips. */
  lemma SwapKeepsDerivedIff(s: Snapshot)
    requires s.Derived()
    ensures Swap(s).Derived() <==>
      Translate(s.InputText(), ToAlien) == s.InputText() && Translate(s.InputText(), ToEnglish) == s.InputText()
  {
    var x := s.InputText();
    DirectionsAgreeIff(x);
    assert Swap(s).Derived() <==> Translate(x, s.direction) == Translate(x, Flip(s.direction));
  }

  /** Both text cells are only written together: the mounted state is
      coherent and every handler keeps it so. After an edit the read-only pane
      is the translation of the editable one in the current direction; each
      swap flips the direction but not the panes, so it is the translation in
      the current direction after an even number of swaps and in the other
      direction after an odd number. */
  lemma CoherentIsInvariant(s: Snapshot, value: string, clipboardOk: bool, execCommandOk: bool)
    requires s.Coherent()
    ensures Initial().Coherent()
    ensures InputChange(s, value).Coherent()
    ensures Swap(s).Coherent()
    ensures Copy(s, clipboardOk, execCommandOk).Coherent()
    ensures FeedbackExpired(s).Coherent()
  {
    SwapTwice(s);
  }

  /** Typing "HELLO" and swapping leaves "HELLO" in the editable pane, now
      read as alien text, and its glyphs in the read-only pane. */
  lemma HelloSwapScenario()
    ensures Swap(InputChange(Initial(), "HELLO")).direction == ToEnglish
    ensures Swap(InputChange(Initial(), "HELLO")).InputText() == "HELLO"
    ensures Swap(InputChange(Initial(), "HELLO")).OutputText() == Translate("HELLO", ToAlien)
    ensures !Swap(InputChange(Initial(), "HELLO")).Derived()
  {
    var s := InputChange(Initial(), "HELLO");
    AlienKeysAreLetters('H');
    CharFixedIff('H', ToAlien);
    TranslateAt("HELLO", ToAlien, 0);
    SwapKeepsDerivedIff(s);
  }

  /** The component: its four state cells as fields, its handlers as methods
      proved against the functions above. */
  class TranslatorInterface {
    var englishText: string
    var alienText: string
    var direction: Direction
    var copied: bool

    function State(): Snapshot
      reads this
    {
      Snapshot(englishText, alienText, direction, copied)
    }

    constructor ()
      ensures State() == Initial()
    {
      englishText := "";
      alienText := "";
      direction := ToAlien;
      copied := false;
    }

    method HandleInputChange(value: string)
      modifies this
      ensures State() == InputChange(old(State()), value)
      ensures State().InputText() == value && State().Derived()
    {
      if direction == ToAlien {
        englishText := value;
        alienText := Translate(value, ToAlien);
      } else {
        alienText := value;
        englishText := Translate(value, ToEnglish);
      }
    }

    method HandleSwap()
      modifies this
      ensures State() == Swap(old(State()))
      ensures State().InputText() == old(State().InputText())
      ensures State().OutputText() == old(State().OutputText())
    {
      direction := Flip(direction);
      var temp := englishText;
      englishText := alienText;
      alienText := temp;
    }

    /** Returns the text handed to the clipboard; the outcomes of the
        clipboard write and of the fallback are parameters. */
    method HandleCopy(clipboardOk: bool, execCommandOk: bool) returns (textToCopy: string)
      modifies this
      ensures textToCopy == old(State().OutputText())
      ensures State() == Copy(old(State()), clipboardOk, execCommandOk)
    {
      textToCopy := State().TextToCopy();
      if clipboardOk {
        copied := true;
      } else if execCommandOk {
        copied := true;
      }
    }

    method FeedbackTimerFires()
      modifies this
      ensures State() == FeedbackExpired(old(State()))
    {
      copied := false;
    }
  }
}
