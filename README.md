# Martian translator: the substitution codec and the translator session

This project models the two pieces of the Martian translator web page that hold its logic, and proves properties about them in Dafny.

- **The codec** (`src/utils/translator.ts`, module `Translator`). The `alienAlphabet` record maps the 26 upper-case Latin letters to 26 symbol glyphs. It is modelled as its ordered list of properties (`AlienEntries`). `FromEntries` models `Object.fromEntries`, where a later entry overwrites an earlier one with the same key. The forward table `AlienAlphabet` and the reverse table `EnglishAlphabet` (every entry swapped) are both built with it. `Translate` models `translateText`. It maps each character on its own: the character is upper-cased, looked up in the table for the direction, and replaced by its image if found, or else kept as it is.
- **The translator session** (`src/components/TranslatingInterface.tsx`, module `Session`). The component's four state cells are `englishText`, `alienText`, `direction` and `copied`. The class `TranslatorInterface` holds them as fields. Its handlers `HandleInputChange`, `HandleSwap` and `HandleCopy`, plus the timer callback `FeedbackTimerFires`, are methods. Each method is proved against a pure transition on the `Snapshot` datatype (`InputChange`, `Swap`, `Copy`, `FeedbackExpired`). The derived values (`inputText`, `outputText`, `textToCopy`, the character count) are functions of `Snapshot`.

What the proofs establish:
- The record's keys are exactly 'A'..'Z', and its glyphs are distinct and lie above U+2200. So the two tables are exact inverses, and their keys do not overlap.
- Translation preserves length and works one character at a time. So it distributes over concatenation.
- Translating twice in the same direction is the same as translating once.
- A text is left unchanged exactly when no character's upper case is a key of the active table. Translating there and back restores a text exactly when each character round-trips. Both facts are proved in both directions of the if-and-only-if.
- The glyph lookup ignores the case of ASCII letters.
- For the session, each transition's contract states the whole new state through the views. It also states what stays unchanged.

What the model shows about the session:
- **Swap.** `handleSwap` flips the direction and also exchanges `englishText` and `alienText`. Both panes are chosen by the direction, so each pane keeps the text it showed; only the labels change. A swap leaves the typed text in the editable pane (`Swap`, `HandleSwap`, `HelloSwapScenario`).
- **Read-only pane after a swap.** Every handler keeps one relation: the read-only pane is the translation of the editable one, either in the current direction or in the other one (`Snapshot.Coherent`, `CoherentIsInvariant`). An edit makes the read-only pane the translation of the editable one in the current direction again. Each swap flips the direction but not the panes. Starting from a state whose read-only pane is the translation of the editable one, a swap keeps that so only for texts that neither direction changes (`SwapKeepsDerivedIff`). For example, after typing "HELLO" and swapping, the editable pane holds "HELLO" and the read-only pane holds its glyphs. A second swap makes the read-only pane the translation again.
- **Copy feedback.** Earlier feedback timers are never cancelled (src/components/TranslatingInterface.tsx:35, 52), so one can clear the flag during a later copy's window. The model has no timers (see below).

## Model

| member | source | states |
|---|---|---|
| Translator.FromEntries | src/utils/translator.ts:10-12 | the map built from an entry list has exactly the entry list's keys |
| Translator.FromEntriesLastWins | src/utils/translator.ts:10-12 | a key maps to the value of its last entry in the list |
| Translator.AlienEntriesShape | src/utils/translator.ts:2-7 | the record has 26 properties, keyed 'A'..'Z' in order, with pairwise distinct glyphs all at or above U+2200 |
| Translator.TablesAt | src/utils/translator.ts:2-12 | the i-th property is found in the forward table under its letter and in the reverse table under its glyph |
| Translator.AlienKeyAt | src/utils/translator.ts:2-7 | every key of the forward table is the letter of some property |
| Translator.EnglishKeyAt | src/utils/translator.ts:10-12 | every key of the reverse table is the glyph of some property |
| Translator.AlienKeysAreLetters | src/utils/translator.ts:2-7 | a character is a key of the forward table if and only if it is an upper-case letter A-Z |
| Translator.AlienThenEnglish | src/utils/translator.ts:2-12 | for every letter L, the reverse table sends the glyph of L back to L |
| Translator.EnglishThenAlien | src/utils/translator.ts:2-12 | for every glyph g, the forward table sends the letter of g back to g, and g is at or above U+2200 |
| Translator.EnglishKeysAreGlyphs | src/utils/translator.ts:10-12 | no key of the reverse table is below U+2200, so none is a Latin letter, digit or ASCII punctuation |
| Translator.AlienInjective | src/utils/translator.ts:2-7 | two letters share a glyph only if they are the same letter |
| Translator.KeyFacts | src/utils/translator.ts:2-12 | a key of either table is its own upper case and is not a key of the other table, and its image is a key of the other table that maps back to it |
| Translator.ToUpper | src/utils/translator.ts:23 | 'a'..'z' go to 'A'..'Z', U+0131 to 'I' and U+017F to 'S'; upper-casing changes a character only into an upper-case letter, and leaves upper-case letters alone |
| Translator.UpperKey | src/utils/translator.ts:23-28 | a character whose upper case is a key never equals that key's image; if it differs from its upper case, the key is a letter and the character is not a glyph |
| Translator.AlienAlphabet | src/utils/translator.ts:2-7 | `alienAlphabet`: the map built from the record's properties |
| Translator.Swapped | src/utils/translator.ts:11 | each `[key, value]` entry turned into `[value, key]`, in the same order |
| Translator.EnglishAlphabet | src/utils/translator.ts:10-12 | `englishAlphabet`: the map built from the swapped entries |
| Translator.Table | src/utils/translator.ts:17 | `alienAlphabet` for toAlien, else `englishAlphabet` |
| Translator.Flip | src/components/TranslatingInterface.tsx:22 | the other direction: it always differs from the given one |
| Translator.TranslateChar | src/utils/translator.ts:21-32 | a character whose upper case is not a key of the active table is emitted as it is; otherwise its image is a key of the other table that maps back to that upper case |
| Translator.Translate | src/utils/translator.ts:14-34 | the output has the input's length, so the empty text gives the empty text |
| Translator.TranslateAt | src/utils/translator.ts:19-33 | the i-th output character is the translation of the i-th input character alone |
| Translator.TranslateConcat | src/utils/translator.ts:19-33 | translating a + b gives the translation of a followed by that of b |
| Translator.CharFixedIff | src/utils/translator.ts:23-31 | a character is kept if and only if its upper case is not a key of the active table |
| Translator.FixedPointIff | src/utils/translator.ts:17-33 | a text is unchanged if and only if none of its characters upper-cases to a key of the active table |
| Translator.PlainAsciiFixed | src/utils/translator.ts:26-31 | texts of ASCII digits, punctuation, spaces and other non-letters are unchanged in both directions |
| Translator.NoGlyphsFixedToEnglish | src/utils/translator.ts:17-31 | towards English, a text with no glyph is unchanged, so plain Latin letters of either case pass through |
| Translator.CharIdempotent | src/utils/translator.ts:19-33 | translating an already translated character again in the same direction changes nothing |
| Translator.TranslateIdempotent | src/utils/translator.ts:19-33 | translating a text twice in one direction equals translating it once |
| Translator.CharRoundTripIff | src/utils/translator.ts:2-33 | a character survives one direction and back if and only if it is a key of the first table or upper-cases to a key of neither |
| Translator.RoundTripIff | src/utils/translator.ts:2-33 | a text survives one direction and back if and only if each of its characters does: 'A'..'Z' together with characters that are not glyphs and whose upper case is not one of 'A'..'Z' (so not 'a'..'z', U+0131 or U+017F) for letter-to-glyph-and-back; the glyphs together with those same characters for glyph-to-letter-and-back |
| Translator.CharDirectionsAgreeIff | src/utils/translator.ts:17-31 | the two directions give the same character only where both keep it |
| Translator.DirectionsAgreeIff | src/utils/translator.ts:17-33 | the two directions translate a text alike if and only if neither changes it |
| Translator.ToAlienIgnoresCase | src/utils/translator.ts:23-28 | towards the glyphs, texts that differ only in the case of ASCII letters translate alike |
| Translator.LetterCases | src/utils/translator.ts:23 | two ASCII letters whose code points are 32 apart have the same upper case, and it is a key of the forward table |
| Translator.HelloExample | src/utils/translator.ts:23-28 | "Hello" and "HELLO" give the same glyphs |
| Translator.UnmappedExample | src/utils/translator.ts:19-33 | "A1B2!" gives the glyphs for A and B with '1', '2' and '!' kept in place |
| Session.Snapshot.InputText | src/components/TranslatingInterface.tsx:62 | `englishText` when direction is toAlien, else `alienText` |
| Session.Snapshot.OutputText | src/components/TranslatingInterface.tsx:63 | `alienText` when direction is toAlien, else `englishText` |
| Session.Snapshot.Derived | src/components/TranslatingInterface.tsx:12-20 | the relation each edit sets up: the read-only pane is the translation of the editable one in the current direction |
| Session.Snapshot.Coherent | src/components/TranslatingInterface.tsx:12-27 | the read-only pane is the translation of the editable one in the current direction or in the other one |
| Session.Snapshot.TextToCopy | src/components/TranslatingInterface.tsx:30 | the text chosen for copying is always the read-only pane `outputText` |
| Session.Snapshot.CharacterCount | src/components/TranslatingInterface.tsx:193 | while the read-only pane is derived, the count is also the read-only pane's length |
| Session.Initial | src/components/TranslatingInterface.tsx:7-10 | the component mounts with both panes empty, a count of 0, direction toAlien and no copy feedback, and the output is derived |
| Session.InputChange | src/components/TranslatingInterface.tsx:12-20 | after an edit the editable pane is the typed value and the count is its length, and the read-only pane is its translation in the unchanged direction, of equal length; `copied` is untouched |
| Session.Swap | src/components/TranslatingInterface.tsx:21-27 | a swap always flips the direction, leaves both panes' texts and `copied` as they were, and translates nothing |
| Session.Copy | src/components/TranslatingInterface.tsx:29-60 | the copy feedback is set exactly when the clipboard write or the fallback succeeds, and is otherwise unchanged; the texts and direction are untouched |
| Session.FeedbackExpired | src/components/TranslatingInterface.tsx:35 | the timer callback clears the feedback and touches nothing else |
| Session.SwapTwice | src/components/TranslatingInterface.tsx:21-27 | two swaps restore the whole state |
| Session.LastEditWins | src/components/TranslatingInterface.tsx:12-20 | an edit's result does not depend on the edit before it |
| Session.CoherentIsInvariant | src/components/TranslatingInterface.tsx:7-60 | the mounted state is coherent, and an edit, a swap, a copy and the feedback timer each keep it coherent |
| Session.SwapKeepsDerivedIff | src/components/TranslatingInterface.tsx:21-27 | after a swap, the read-only pane is still the translation of the editable one if and only if neither direction changes the text |
| Session.HelloSwapScenario | src/components/TranslatingInterface.tsx:12-27 | typing "HELLO" and swapping leaves "HELLO" editable with direction toEnglish, its glyphs read-only, and the read-only pane no longer derived |
| Session.TranslatorInterface.State | src/components/TranslatingInterface.tsx:7-10 | the four state cells read as one `Snapshot` value |
| Session.TranslatorInterface.constructor | src/components/TranslatingInterface.tsx:7-10 | the fields start as the initial state |
| Session.TranslatorInterface.HandleInputChange | src/components/TranslatingInterface.tsx:12-20 | the fields become InputChange of the old state: the editable pane holds the value, and the read-only pane is derived |
| Session.TranslatorInterface.HandleSwap | src/components/TranslatingInterface.tsx:21-27 | the fields become Swap of the old state, and both panes show what they showed |
| Session.TranslatorInterface.HandleCopy | src/components/TranslatingInterface.tsx:29-60 | the text handed to the clipboard is the old read-only pane, and the fields become Copy of the old state |
| Session.TranslatorInterface.FeedbackTimerFires | src/components/TranslatingInterface.tsx:35 | the fields become FeedbackExpired of the old state |

## Left out

- Clipboard I/O: `navigator.clipboard.writeText`, the off-screen textarea with `execCommand('copy')`, and `console.error` are not modelled. Their outcomes are the parameters `clipboardOk` and `execCommandOk`. `execCommandOk` is false both when the command returns false and when it throws.
- Session.TranslatorInterface.HandleCopy: the handler is modelled as one atomic step. The real handler awaits the clipboard, so other events may change the state before `copied` is set; the model does not capture that interleaving.
- Timers: the 2000 ms delay is not modelled, and neither is the set of pending timers. `FeedbackTimerFires` is the callback of any one of them. The code does not cancel earlier timers, so the model does not describe a restarting window either.
- React rendering: state updates are batched and applied at the next render. Each handler is modelled as one atomic transition of the four cells.
- Translator.ToUpper: models only the part of `String.prototype.toUpperCase` that a lookup can see. That is ASCII a-z, plus U+0131 and U+017F, whose upper case is 'I' and 'S'. Every other character is returned as it is. Its real upper case, a different character or a string of two or more, is never a key of either table, so the translation is the same.
- Translator.Translate: Dafny's `char` is a Unicode scalar value, while `split('')` yields UTF-16 code units. A character outside the Basic Multilingual Plane is one `char` here and two code units there, and a lone surrogate cannot be represented at all. The output is the same either way, because every such code unit passes through unchanged.
- Session.Snapshot.CharacterCount: Dafny's `char` is a Unicode scalar value, while `split('')` and `.length` work on UTF-16 code units. Characters outside the Basic Multilingual Plane are one `char` here and two code units there. Both are left unchanged by the codec, but the count is lower here for them.
- The loading portal, star background, spaceship, both games, the alien keyboard and `App.tsx` are presentational (animation, canvas, SVG, an iframe) and are not part of this model.
