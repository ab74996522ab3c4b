/** The letter-substitution codec of src/utils/translator.ts: a fixed table
    from the 26 upper-case Latin letters to 26 symbol glyphs, the reverse
    table derived from it, and `translateText`, which maps a text one
    character at a time. */
module Translator {

  /** The two values of the `direction` union type. */
  datatype Direction = ToAlien | ToEnglish

  /** An ordered list of record properties, as `Object.entries` yields them. */
  type Entries = seq<(char, char)>

  /** The `alienAlphabet` record literal, its properties in declaration order. */
  const AlienEntries: Entries := [
    ('A', '\U{23C3}'), ('B', '\U{23DA}'), ('C', '\U{260A}'), ('D', '\U{2385}'),
    ('E', '\U{27D2}'), ('F', '\U{238E}'), ('G', '\U{260C}'), ('H', '\U{2291}'),
    ('I', '\U{27DF}'), ('J', '\U{27CA}'), ('K', '\U{260D}'), ('L', '\U{2330}'),
    ('M', '\U{22D4}'), ('N', '\U{22CF}'), ('O', '\U{235C}'), ('P', '\U{233F}'),
    ('Q', '\U{237E}'), ('R', '\U{2340}'), ('S', '\U{2307}'), ('T', '\U{23C1}'),
    ('U', '\U{238D}'), ('V', '\U{2390}'), ('W', '\U{2359}'), ('X', '\U{2316}'),
    ('Y', '\U{22AC}'), ('Z', '\U{22C9}')
  ]

  /** The keys of an entry list. */
  ghost function KeysOf(e: Entries): set<char> {
    set i | 0 <= i < |e| :: e[i].0
  }

  /** `Object.fromEntries`: the entries are stored in order, so when a key
      occurs twice the later value overwrites the earlier one. */
  function FromEntries(e: Entries): (r: map<char, char>)
    ensures r.Keys == KeysOf(e)
  {
    if e == [] then map[]
    else
      var init := FromEntries(e[..|e| - 1]);
      var last := e[|e| - 1];
      init[last.0 := last.1]
  }

  /** The `[key, value] => [value, key]` step of line 11. */
  function Swapped(e: Entries): Entries {
    seq(|e|, i requires 0 <= i < |e| => (e[i].1, e[i].0))
  }

  /** `alienAlphabet`: upper-case letter to glyph. */
  const AlienAlphabet: map<char, char> := FromEntries(AlienEntries)

  /** `englishAlphabet`: built by swapping every entry of `alienAlphabet`. */
  const EnglishAlphabet: map<char, char> := FromEntries(Swapped(AlienEntries))

  predicate IsUpperLetter(c: char) {
    'A' <= c <= 'Z'
  }

  predicate IsAsciiLetter(c: char) {
    'a' <= c <= 'z' || 'A' <= c <= 'Z'
  }

  /** The part of `String.prototype.toUpperCase` on one character that a
      table lookup can observe: ASCII 'a'..'z', and the two characters whose
      upper case is a single ASCII letter (U+0131 dotless i and U+017F long s).
      Every other character is returned as it is; its real upper case is never
      a key of either table, so the lookup outcome is the same. */
  function ToUpper(c: char): (r: char)
    ensures 'a' <= c <= 'z' ==> r as int == c as int - 32
    ensures c == '\U{0131}' ==> r == 'I'
    ensures c == '\U{017F}' ==> r == 'S'
    ensures r != c ==> IsUpperLetter(r)
    ensures IsUpperLetter(c) ==> r == c
  {
    if 'a' <= c <= 'z' then (c as int - 32) as char
    else if c == '\U{0131}' then 'I'
    else if c == '\U{017F}' then 'S'
    else c
  }

  /** The table `translateText` consults for a direction (line 17). */
  function Table(d: Direction): map<char, char> {
    match d
    case ToAlien => AlienAlphabet
    case ToEnglish => EnglishAlphabet
  }

  /** The other direction: the update `handleSwap` applies to `direction`
      (src/components/TranslatingInterface.tsx line 22). It sits beside
      `Direction` because the codec's contracts speak of the other table. */
  function Flip(d: Direction): (r: Direction)
    ensures r != d
  {
    match d
    case ToAlien => ToEnglish
    case ToEnglish => ToAlien
  }

  /** The callback passed to `map` (lines 21-32): look the upper-cased
      character up and emit its image, or else the character itself. */
  function TranslateChar(c: char, d: Direction): (r: char)
    ensures ToUpper(c) !in Table(d) ==> r == c
    ensures ToUpper(c) in Table(d) ==> r in Table(Flip(d)) && Table(Flip(d))[r] == ToUpper(c)
  {
    var upper := ToUpper(c);
    if upper in Table(d) then
      KeyFacts(upper, d);
      Table(d)[upper]
    else c
  }

  /** `translateText`: the empty text gives the empty text, and every
      character of the input gives exactly one character of the output. */
  function Translate(text: string, d: Direction): (r: string)
    ensures |r| == |text|
  {
    if text == [] then []
    else [TranslateChar(text[0], d)] + Translate(text[1..], d)
  }

  // ----- The tables -----

  /** `Object.fromEntries` maps a key to the value of its last entry. */
  lemma {:induction false} FromEntriesLastWins(e: Entries, i: int)
    requires 0 <= i < |e|
    requires forall j :: i < j < |e| ==> e[j].0 != e[i].0
    ensures e[i].0 in FromEntries(e) && FromEntries(e)[e[i].0] == e[i].1
  {
    if i < |e| - 1 {
      FromEntriesLastWins(e[..|e| - 1], i);
    }
  }

  /** Everything the tables' correctness needs from the record literal: its
      keys are 'A'..'Z' in order, every glyph lies at or above U+2200, and no
      glyph repeats. */
  lemma AlienEntriesShape()
    ensures |AlienEntries| == 26
    ensures forall i :: 0 <= i < 26 ==> AlienEntries[i].0 as int == 'A' as int + i
    ensures forall i :: 0 <= i < 26 ==> AlienEntries[i].1 as int >= 0x2200
    ensures forall i, j :: 0 <= i < j < 26 ==> AlienEntries[i].1 != AlienEntries[j].1
  {
  }

  /** The i-th property of the record, read through both tables. */
  lemma TablesAt(i: int)
    requires 0 <= i < 26
    ensures AlienEntries[i].0 in AlienAlphabet && AlienAlphabet[AlienEntries[i].0] == AlienEntries[i].1
    ensures AlienEntries[i].1 in EnglishAlphabet && EnglishAlphabet[AlienEntries[i].1] == AlienEntries[i].0
    ensures AlienEntries[i].0 as int == 'A' as int + i && AlienEntries[i].1 as int >= 0x2200
  {
    AlienEntriesShape();
    FromEntriesLastWins(AlienEntries, i);
    FromEntriesLastWins(Swapped(AlienEntries), i);
  }

  /** A key of the forward table is the key of some property of the record. */
  lemma AlienKeyAt(l: char) returns (i: int)
    requires l in AlienAlphabet
    ensures 0 <= i < 26 && AlienEntries[i].0 == l
  {
    AlienEntriesShape();
    assert l in KeysOf(AlienEntries);
    i :| 0 <= i < |AlienEntries| && AlienEntries[i].0 == l;
  }

  /** A key of the reverse table is the glyph of some property of the record. */
  lemma EnglishKeyAt(g: char) returns (i: int)
    requires g in EnglishAlphabet
    ensures 0 <= i < 26 && AlienEntries[i].1 == g
  {
    AlienEntriesShape();
    assert g in KeysOf(Swapped(AlienEntries));
    i :| 0 <= i < |Swapped(AlienEntries)| && Swapped(AlienEntries)[i].0 == g;
  }

  /** The forward table is keyed by exactly the 26 upper-case letters. */
  lemma AlienKeysAreLetters(c: char)
    ensures c in AlienAlphabet <==> IsUpperLetter(c)
  {
    if IsUpperLetter(c) {
      TablesAt(c as int - 'A' as int);
    }
    if c in AlienAlphabet {
      var i := AlienKeyAt(c);
      TablesAt(i);
    }
  }

  /** Looking a letter up forward and its glyph up in reverse gives the letter. */
  lemma AlienThenEnglish(l: char)
    requires l in AlienAlphabet
    ensures AlienAlphabet[l] in EnglishAlphabet && EnglishAlphabet[AlienAlphabet[l]] == l
  {
    var i := AlienKeyAt(l);
    TablesAt(i);
  }

  /** Looking a glyph up in reverse and its letter up forward gives the glyph;
      every glyph lies at or above U+2200, beyond every letter. */
  lemma EnglishThenAlien(g: char)
    requires g in EnglishAlphabet
    ensures EnglishAlphabet[g] in AlienAlphabet && AlienAlphabet[EnglishAlphabet[g]] == g
    ensures g as int >= 0x2200
  {
    var i := EnglishKeyAt(g);
    TablesAt(i);
  }

  /** Every key of the reverse table lies at or above U+2200. */
  lemma EnglishKeysAreGlyphs(c: char)
    ensures c in EnglishAlphabet ==> c as int >= 0x2200
  {
    if c in EnglishAlphabet {
      EnglishThenAlien(c);
    }
  }

  /** The forward table never sends two letters to one glyph. */
  lemma AlienInjective(a: char, b: char)
    requires a in AlienAlphabet && b in AlienAlphabet
    ensures AlienAlphabet[a] == AlienAlphabet[b] <==> a == b
  {
    AlienThenEnglish(a);
    AlienThenEnglish(b);
  }

  /** Keys of either table are their own upper case and are not keys of the
      other table; a value of either table is a key of the other. */
  lemma KeyFacts(c: char, d: Direction)
    requires c in Table(d)
    ensures ToUpper(c) == c && c !in Table(Flip(d))
    ensures Table(d)[c] in Table(Flip(d)) && Table(Flip(d))[Table(d)[c]] == c
  {
    AlienKeysAreLetters(c);
    if c in AlienAlphabet {
      AlienThenEnglish(c);
    }
    if c in EnglishAlphabet {
      EnglishThenAlien(c);
    }
  }

  /** The character whose upper case is a key of a table: it is that key itself
      unless it is a lower-case form of a letter. */
  lemma UpperKey(c: char, d: Direction)
    requires ToUpper(c) in Table(d)
    ensures c != ToUpper(c) ==> d == ToAlien && c !in Table(Flip(d))
    ensures Table(d)[ToUpper(c)] != c
  {
    var u := ToUpper(c);
    KeyFacts(u, d);
    AlienKeysAreLetters(u);
    AlienKeysAreLetters(c);
    if c in EnglishAlphabet {
      EnglishThenAlien(c);
    }
    if Table(d)[u] in EnglishAlphabet {
      EnglishThenAlien(Table(d)[u]);
    }
  }

  // ----- One character -----

  /** A character is left as it is exactly when its upper case is not a key
      of the active table. */
  lemma CharFixedIff(c: char, d: Direction)
    ensures TranslateChar(c, d) == c <==> ToUpper(c) !in Table(d)
  {
    if ToUpper(c) in Table(d) {
      UpperKey(c, d);
    }
  }

  /** Translating a character that is already a translation changes nothing. */
  lemma CharIdempotent(c: char, d: Direction)
    ensures TranslateChar(TranslateChar(c, d), d) == TranslateChar(c, d)
  {
    var u := ToUpper(c);
    if u in Table(d) {
      KeyFacts(u, d);
      KeyFacts(Table(d)[u], Flip(d));
    }
  }

  /** The characters that translating in direction d and then back restores:
      a key of the active table, or a character whose upper case is a key of
      neither table. */
  predicate RoundTrips(c: char, d: Direction) {
    c in Table(d) || (ToUpper(c) !in Table(d) && ToUpper(c) !in Table(Flip(d)))
  }

  lemma CharRoundTripIff(c: char, d: Direction)
    ensures TranslateChar(TranslateChar(c, d), Flip(d)) == c <==> RoundTrips(c, d)
  {
    var u := ToUpper(c);
    var t := TranslateChar(c, d);
    if c in Table(d) {
      KeyFacts(c, d);
    }
    if u in Table(d) {
      KeyFacts(u, d);
      assert t == Table(d)[u];
      KeyFacts(t, Flip(d));
      assert Flip(Flip(d)) == d;
      assert TranslateChar(t, Flip(d)) == u;
      assert RoundTrips(c, d) <==> u == c;
    } else {
      assert t == c;
      CharFixedIff(c, Flip(d));
      assert RoundTrips(c, d) <==> u !in Table(Flip(d));
    }
  }

  // ----- Whole texts -----

  /** The text is mapped one character at a time. */
  lemma {:induction false} TranslateAt(text: string, d: Direction, i: int)
    requires 0 <= i < |text|
    ensures Translate(text, d)[i] == TranslateChar(text[i], d)
  {
    if i > 0 {
      TranslateAt(text[1..], d, i - 1);
    }
  }

  /** Translation distributes over concatenation. */
  lemma {:induction false} TranslateConcat(a: string, b: string, d: Direction)
    ensures Translate(a + b, d) == Translate(a, d) + Translate(b, d)
  {
    if a != [] {
      assert (a + b)[0] == a[0];
      assert (a + b)[1..] == a[1..] + b;
      TranslateConcat(a[1..], b, d);
      calc {
        Translate(a + b, d);
        [TranslateChar(a[0], d)] + Translate(a[1..] + b, d);
        [TranslateChar(a[0], d)] + (Translate(a[1..], d) + Translate(b, d));
        ([TranslateChar(a[0], d)] + Translate(a[1..], d)) + Translate(b, d);
        Translate(a, d) + Translate(b, d);
      }
    } else {
      assert a + b == b;
    }
  }

  /** Translation is the identity on a text exactly when no character's upper
      case is a key of the active table. */
  lemma {:induction false} FixedPointIff(s: string, d: Direction)
    ensures Translate(s, d) == s <==> forall i :: 0 <= i < |s| ==> ToUpper(s[i]) !in Table(d)
  {
    if Translate(s, d) == s {
      forall i | 0 <= i < |s| ensures ToUpper(s[i]) !in Table(d) {
        TranslateAt(s, d, i);
        CharFixedIff(s[i], d);
      }
    }
    if forall i :: 0 <= i < |s| ==> ToUpper(s[i]) !in Table(d) {
      forall i | 0 <= i < |s| ensures Translate(s, d)[i] == s[i] {
        TranslateAt(s, d, i);
        CharFixedIff(s[i], d);
      }
    }
  }

  /** Digits, punctuation, spaces and every other ASCII character that is not a
      letter come out unchanged in both directions. */
  lemma {:induction false} PlainAsciiFixed(s: string, d: Direction)
    requires forall i :: 0 <= i < |s| ==> s[i] as int < 128 && !IsAsciiLetter(s[i])
    ensures Translate(s, d) == s
  {
    forall i | 0 <= i < |s| ensures ToUpper(s[i]) !in Table(d) {
      AlienKeysAreLetters(s[i]);
      EnglishKeysAreGlyphs(s[i]);
    }
    FixedPointIff(s, d);
  }

  /** Towards English, a text without glyphs (plain Latin letters of either
      case included) comes out unchanged. */
  lemma {:induction false} NoGlyphsFixedToEnglish(s: string)
    requires forall i :: 0 <= i < |s| ==> s[i] !in EnglishAlphabet
    ensures Translate(s, ToEnglish) == s
  {
    forall i | 0 <= i < |s| ensures ToUpper(s[i]) !in EnglishAlphabet {
      var u := ToUpper(s[i]);
      EnglishKeysAreGlyphs(u);
      assert u == s[i] || u as int <= 'Z' as int;
    }
    FixedPointIff(s, ToEnglish);
  }

  /** Translating twice in the same direction is translating once. */
  lemma {:induction false} TranslateIdempotent(s: string, d: Direction)
    ensures Translate(Translate(s, d), d) == Translate(s, d)
  {
    var t := Translate(s, d);
    forall i | 0 <= i < |t| ensures Translate(t, d)[i] == t[i] {
      TranslateAt(s, d, i);
      TranslateAt(t, d, i);
      CharIdempotent(s[i], d);
    }
  }

  /** Translating in one direction and back restores the text exactly when
      every character of it round-trips: towards the glyphs and back this is a
      text of 'A'..'Z' and of characters that are not glyphs and whose upper
      case is not one of 'A'..'Z' (so not 'a'..'z', U+0131 or U+017F; 'é' is
      one of them); the other way round it is a text of glyphs and of those
      same characters. */
  lemma {:induction false} RoundTripIff(s: string, d: Direction)
    ensures Translate(Translate(s, d), Flip(d)) == s <==> forall i :: 0 <= i < |s| ==> RoundTrips(s[i], d)
  {
    var t := Translate(Translate(s, d), Flip(d));
    forall i | 0 <= i < |s| ensures t[i] == TranslateChar(TranslateChar(s[i], d), Flip(d)) {
      TranslateAt(s, d, i);
      TranslateAt(Translate(s, d), Flip(d), i);
    }
    if t == s {
      forall i | 0 <= i < |s| ensures RoundTrips(s[i], d) {
        CharRoundTripIff(s[i], d);
      }
    }
    if forall i :: 0 <= i < |s| ==> RoundTrips(s[i], d) {
      forall i | 0 <= i < |s| ensures t[i] == s[i] {
        CharRoundTripIff(s[i], d);
      }
    }
  }

  /** The two directions give the same character only where both leave it
      as it is. */
  lemma CharDirectionsAgreeIff(c: char)
    ensures TranslateChar(c, ToAlien) == TranslateChar(c, ToEnglish) <==>
      TranslateChar(c, ToAlien) == c && TranslateChar(c, ToEnglish) == c
  {
    var u := ToUpper(c);
    CharFixedIff(c, ToAlien);
    CharFixedIff(c, ToEnglish);
    if u in AlienAlphabet {
      KeyFacts(u, ToAlien);
    }
    if u in EnglishAlphabet {
      KeyFacts(u, ToEnglish);
    }
  }

  /** The two directions agree on a text exactly when neither changes it. */
  lemma {:induction false} DirectionsAgreeIff(s: string)
    ensures Translate(s, ToAlien) == Translate(s, ToEnglish) <==>
      Translate(s, ToAlien) == s && Translate(s, ToEnglish) == s
  {
    if Translate(s, ToAlien) == Translate(s, ToEnglish) {
      forall i | 0 <= i < |s|
        ensures Translate(s, ToAlien)[i] == s[i] && Translate(s, ToEnglish)[i] == s[i]
      {
        TranslateAt(s, ToAlien, i);
        TranslateAt(s, ToEnglish, i);
        CharDirectionsAgreeIff(s[i]);
      }
    }
  }

  /** Two texts that differ only in the case of ASCII letters. */
  predicate SameUpToLetterCase(a: string, b: string) {
    |a| == |b| &&
    forall i :: 0 <= i < |a| ==>
      a[i] == b[i] ||
      (IsAsciiLetter(a[i]) && IsAsciiLetter(b[i]) &&
       (a[i] as int - b[i] as int == 32 || b[i] as int - a[i] as int == 32))
  }

  /** Two ASCII letters 32 apart are the two cases of one letter. */
  lemma LetterCases(x: char, y: char)
    requires IsAsciiLetter(x) && IsAsciiLetter(y)
    requires x as int - y as int == 32 || y as int - x as int == 32
    ensures ToUpper(x) == ToUpper(y) && ToUpper(x) in AlienAlphabet
  {
    if 'a' <= x <= 'z' {
      assert IsUpperLetter(y) && ToUpper(x) == y;
    } else {
      assert 'a' <= y <= 'z' && ToUpper(y) == x;
    }
    AlienKeysAreLetters(ToUpper(x));
  }

  /** Towards the glyphs the lookup ignores the case of letters. */
  lemma {:induction false} ToAlienIgnoresCase(a: string, b: string)
    requires SameUpToLetterCase(a, b)
    ensures Translate(a, ToAlien) == Translate(b, ToAlien)
  {
    forall i | 0 <= i < |a| ensures Translate(a, ToAlien)[i] == Translate(b, ToAlien)[i] {
      TranslateAt(a, ToAlien, i);
      TranslateAt(b, ToAlien, i);
      if a[i] != b[i] {
        LetterCases(a[i], b[i]);
      }
    }
  }

  /** "Hello" and "HELLO" translate alike towards the glyphs. */
  lemma HelloExample()
    ensures Translate("Hello", ToAlien) == Translate("HELLO", ToAlien)
  {
    ToAlienIgnoresCase("Hello", "HELLO");
  }

  /** In "A1B2!" only the two letters change. */
  lemma UnmappedExample()
    ensures Translate("A1B2!", ToAlien) == ['\U{23C3}', '1', '\U{23DA}', '2', '!']
  {
    var s := "A1B2!";
    var r := ['\U{23C3}', '1', '\U{23DA}', '2', '!'];
    TablesAt(0);
    TablesAt(1);
    forall i | 0 <= i < 5 ensures Translate(s, ToAlien)[i] == r[i] {
      TranslateAt(s, ToAlien, i);
      AlienKeysAreLetters(s[i]);
    }
  }
}
