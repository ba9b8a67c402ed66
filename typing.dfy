/** The typewriter effect of the portfolio page: a fixed list of five texts
    that are typed out one code unit per tick, held, deleted one code unit
    per tick, and followed by the next text, for ever.

    JavaScript strings are sequences of UTF-16 code units, and both
    `substring` and `.length` count code units, so the model does too: a text
    is a `seq<CodeUnit>`, and the brain emoji that ends the fifth text is two
    of them (a surrogate pair). */
module Typing {

  /** One UTF-16 code unit. */
  type CodeUnit = x: int | 0 <= x < 0x1_0000

  /** The UTF-16 encoding of one Unicode scalar value: itself when it lies in
      the Basic Multilingual Plane, a high/low surrogate pair otherwise. */
  function EncodeChar(c: char): (r: seq<CodeUnit>)
    ensures 1 <= |r| <= 2
    ensures |r| == 1 <==> c as int < 0x1_0000
    ensures |r| == 1 ==> r[0] == c as int
    ensures |r| == 2 ==> 0xD800 <= r[0] < 0xDC00 <= r[1] < 0xE000
    ensures |r| == 2 ==> 0x1_0000 + (r[0] as int - 0xD800) * 0x400 + (r[1] as int - 0xDC00) == c as int
  {
    if c as int < 0x1_0000 then [c as int]
    else
      var v := c as int - 0x1_0000;
      [0xD800 + v / 0x400, 0xDC00 + v % 0x400]
  }

  /** The code units a JavaScript string literal holds. */
  function Utf16(s: string): (r: seq<CodeUnit>)
    ensures |s| <= |r| <= 2 * |s|
  {
    if s == [] then [] else Utf16(s[..|s| - 1]) + EncodeChar(s[|s| - 1])
  }

  /** Every character of `s` fits in one code unit. */
  predicate InBmp(s: string) {
    forall i :: 0 <= i < |s| ==> s[i] as int < 0x1_0000
  }

  /** A string of Basic Multilingual Plane characters is one code unit per
      character. */
  lemma {:induction false} Utf16OfBmp(s: string)
    requires InBmp(s)
    ensures |Utf16(s)| == |s|
    ensures forall i :: 0 <= i < |s| ==> Utf16(s)[i] == s[i] as int
    ensures Utf16(s) == Units(s)
  {
    if s != [] {
      var init := s[..|s| - 1];
      assert InBmp(init) by {
        forall i | 0 <= i < |init| ensures init[i] as int < 0x1_0000 {
          assert init[i] == s[i];
        }
      }
      Utf16OfBmp(init);
    }
  }

  /** The code units of a string of Basic Multilingual Plane characters,
      one per character. */
  function Units(s: string): (r: seq<CodeUnit>)
    ensures |r| == |s|
    ensures InBmp(s) ==> forall i :: 0 <= i < |s| ==> r[i] == s[i] as int
  {
    seq(|s|, i requires 0 <= i < |s| => s[i] as int % 0x1_0000)
  }

  /** The texts cycled through, as the page's script lists them, in code
      units; the last one ends in the surrogate pair of U+1F9E0. */
  const TypingTexts: seq<seq<CodeUnit>> := [
    Units("model.fit(X_train, y_train)"),
    Units("predictions = model.predict(X_test)"),
    Units("accuracy_score(y_test, predictions)"),
    Units("Building AI solutions..."),
    Units("Deep Learning Expert ") + EncodeChar('\U{1F9E0}')
  ]

  /** The texts are exactly the UTF-16 encodings of the script's five string
      literals. */
  lemma TextsAreUtf16()
    ensures TypingTexts == [
      Utf16("model.fit(X_train, y_train)"),
      Utf16("predictions = model.predict(X_test)"),
      Utf16("accuracy_score(y_test, predictions)"),
      Utf16("Building AI solutions..."),
      Utf16("Deep Learning Expert \U{1F9E0}")
    ]
  {
    FirstTextUtf16();
    SecondTextUtf16();
    ThirdTextUtf16();
    FourthTextUtf16();
    LastTextUtf16();
  }

  /** The first four literals are printable ASCII, one code unit per
      character. */
  lemma FirstTextUtf16()
    ensures TypingTexts[0] == Utf16("model.fit(X_train, y_train)")
  {
    AsciiUtf16("model.fit(X_train, y_train)");
  }

  lemma SecondTextUtf16()
    ensures TypingTexts[1] == Utf16("predictions = model.predict(X_test)")
  {
    AsciiUtf16("predictions = model.predict(X_test)");
  }

  lemma ThirdTextUtf16()
    ensures TypingTexts[2] == Utf16("accuracy_score(y_test, predictions)")
  {
    AsciiUtf16("accuracy_score(y_test, predictions)");
  }

  lemma FourthTextUtf16()
    ensures TypingTexts[3] == Utf16("Building AI solutions...")
  {
    AsciiUtf16("Building AI solutions...");
  }

  /** The last literal ends in U+1F9E0, which UTF-16 encodes as a
      surrogate pair. */
  lemma LastTextUtf16()
    ensures TypingTexts[4] == Utf16("Deep Learning Expert \U{1F9E0}")
  {
    var last := "Deep Learning Expert \U{1F9E0}";
    assert last[..21] == "Deep Learning Expert ";
    AsciiUtf16(last[..21]);
    assert Utf16(last) == Utf16(last[..21]) + EncodeChar(last[21]);
  }

  /** A string of printable ASCII characters is one code unit per
      character. */
  lemma AsciiUtf16(s: string)
    requires forall i :: 0 <= i < |s| ==> ' ' <= s[i] <= '~'
    ensures Utf16(s) == Units(s)
  {
    Utf16OfBmp(s);
  }

  /** The lengths of the first four texts, which are plain ASCII. */
  lemma AsciiTextLengths()
    ensures |TypingTexts| == 5
    ensures |TypingTexts[0]| == 27 && |TypingTexts[1]| == 35
    ensures |TypingTexts[2]| == 35 && |TypingTexts[3]| == 24
  {
  }

  /** The last text has 22 characters but 23 code units: its final
      character, the brain emoji U+1F9E0, is the surrogate pair D83E DDE0. */
  lemma EmojiText()
    ensures |TypingTexts[4]| == 23
    ensures TypingTexts[4][21] == 0xD83E && TypingTexts[4][22] == 0xDDE0
  {
  }

  /** No text of `texts` is empty. */
  predicate NonEmptyTexts(texts: seq<seq<CodeUnit>>) {
    forall k :: 0 <= k < |texts| ==> |texts[k]| > 0
  }

  /** None of the page's texts is empty. */
  lemma TextsNonEmpty()
    ensures |TypingTexts| == 5
    ensures NonEmptyTexts(TypingTexts)
  {
    AsciiTextLengths();
    EmojiText();
  }

  /** `String.prototype.substring(start, end)` of JavaScript: both bounds are
      clamped into `[0, |s|]` and swapped when out of order. */
  function Substring(s: seq<CodeUnit>, start: int, end: int): (r: seq<CodeUnit>)
    ensures 0 <= start <= end <= |s| ==> r == s[start..end]
    ensures end <= 0 && start <= 0 ==> r == []
    ensures |r| <= |s|
  {
    var a := if start < 0 then 0 else if start > |s| then |s| else start;
    var b := if end < 0 then 0 else if end > |s| then |s| else end;
    if a <= b then s[a..b] else s[b..a]
  }

  /** The three module-level variables of the effect. `charIndex` is a
      JavaScript number, so it is an `int` here. */
  datatype TypingState = TypingState(textIndex: nat, charIndex: int, isDeleting: bool)

  /** The state the page starts in. */
  const Initial := TypingState(0, 0, false)

  /** The states the effect can be in at the start of a tick over the list
      `texts`: while typing the text is not yet complete, while deleting it
      is not yet empty. The effect itself is stated for any list of texts;
      the page runs it on `TypingTexts`. */
  predicate Valid(texts: seq<seq<CodeUnit>>, s: TypingState) {
    && s.textIndex < |texts|
    && (if s.isDeleting then 0 < s.charIndex <= |texts[s.textIndex]|
        else 0 <= s.charIndex < |texts[s.textIndex]|)
  }

  /** What one tick produces: the next state, the text it displays, and the
      delay in milliseconds before the next tick. */
  datatype TickResult = TickResult(next: TypingState, shown: seq<CodeUnit>, delay: nat)

  /** One tick of the effect: show one more (or one fewer) code unit of the
      current text, then choose the delay and, at the two boundaries, flip the
      direction; after deleting a text completely, move on to the next one. */
  function Step(texts: seq<seq<CodeUnit>>, s: TypingState): (r: TickResult)
    requires s.textIndex < |texts|
    ensures Valid(texts, s) && NonEmptyTexts(texts) ==> Valid(texts, r.next)
    // typing grows the displayed prefix by one code unit ...
    ensures Valid(texts, s) && !s.isDeleting ==>
      && r.next.charIndex == s.charIndex + 1
      && r.shown == texts[s.textIndex][..s.charIndex + 1]
    // ... and deleting shrinks it by one
    ensures Valid(texts, s) && s.isDeleting ==>
      && r.next.charIndex == s.charIndex - 1
      && r.shown == texts[s.textIndex][..s.charIndex - 1]
    // the text stays the same, except after a text was deleted completely
    ensures r.next.textIndex == if s.isDeleting && s.charIndex == 1
                                then (s.textIndex + 1) % |texts| else s.textIndex
    // reaching the full text while typing: hold for 2000 ms, then delete
    ensures !s.isDeleting && s.charIndex + 1 == |texts[s.textIndex]| ==>
      r.delay == 2000 && r.next.isDeleting
    // reaching the empty text while deleting: pause 500 ms, then type
    ensures s.isDeleting && s.charIndex == 1 ==> r.delay == 500 && !r.next.isDeleting
    // in between, 100 ms per typed and 50 ms per deleted code unit
    ensures !s.isDeleting && s.charIndex + 1 != |texts[s.textIndex]| ==>
      r.delay == 100 && !r.next.isDeleting
    ensures s.isDeleting && s.charIndex != 1 ==> r.delay == 50 && r.next.isDeleting
  {
    var currentText := texts[s.textIndex];
    var shown := if s.isDeleting then Substring(currentText, 0, s.charIndex - 1)
                 else Substring(currentText, 0, s.charIndex + 1);
    var charIndex := if s.isDeleting then s.charIndex - 1 else s.charIndex + 1;
    var typeSpeed := if s.isDeleting then 50 else 100;
    if !s.isDeleting && charIndex == |currentText| then
      TickResult(TypingState(s.textIndex, charIndex, true), shown, 2000)
    else if s.isDeleting && charIndex == 0 then
      TickResult(TypingState((s.textIndex + 1) % |texts|, charIndex, false), shown, 500)
    else
      TickResult(TypingState(s.textIndex, charIndex, s.isDeleting), shown, typeSpeed)
  }

  /** The state after `n` ticks. */
  function Run(texts: seq<seq<CodeUnit>>, s: TypingState, n: nat): (r: TypingState)
    requires NonEmptyTexts(texts) && Valid(texts, s)
    ensures Valid(texts, r)
    decreases n
  {
    if n == 0 then s else Run(texts, Step(texts, s).next, n - 1)
  }

  /** Ticks compose: `a` ticks followed by `b` ticks are `a + b` ticks. */
  lemma {:induction false} RunAdd(texts: seq<seq<CodeUnit>>, s: TypingState, a: nat, b: nat)
    requires NonEmptyTexts(texts) && Valid(texts, s)
    ensures Run(texts, s, a + b) == Run(texts, Run(texts, s, a), b)
    decreases a
  {
    if a > 0 {
      RunAdd(texts, Step(texts, s).next, a - 1, b);
    }
  }

  /** Typing from `c` code units on: after `k` more ticks `c + k` are shown,
      and the effect has turned to deleting exactly when the text is full. */
  lemma {:induction false} TypingPhase(texts: seq<seq<CodeUnit>>, i: nat, c: nat, k: nat)
    requires NonEmptyTexts(texts) && i < |texts|
    requires c < |texts[i]| && c + k <= |texts[i]|
    ensures Run(texts, TypingState(i, c, false), k) == TypingState(i, c + k, c + k == |texts[i]|)
    decreases k
  {
    if k > 0 {
      var next := Step(texts, TypingState(i, c, false)).next;
      if c + 1 < |texts[i]| {
        assert next == TypingState(i, c + 1, false);
        TypingPhase(texts, i, c + 1, k - 1);
      } else {
        assert next == TypingState(i, c + 1, true);
      }
    }
  }

  /** Deleting from `c` code units on: after `k` more ticks `c - k` remain;
      once none remain, the effect types the next text. */
  lemma {:induction false} DeletingPhase(texts: seq<seq<CodeUnit>>, i: nat, c: nat, k: nat)
    requires NonEmptyTexts(texts) && i < |texts|
    requires 0 < c <= |texts[i]| && k <= c
    ensures Run(texts, TypingState(i, c, true), k) ==
      if k < c then TypingState(i, c - k, true)
      else TypingState((i + 1) % |texts|, 0, false)
    decreases k
  {
    if k > 0 {
      var next := Step(texts, TypingState(i, c, true)).next;
      if c > 1 {
        assert next == TypingState(i, c - 1, true);
        DeletingPhase(texts, i, c - 1, k - 1);
      } else {
        assert next == TypingState((i + 1) % |texts|, 0, false);
      }
    }
  }

  /** One full cycle on text `i`, started from the empty display: the tick
      that completes the text shows all of it and holds for 2000 ms, after
      `len` ticks the effect is deleting the full text, and after `len` more
      it is at the start of the next text (wrapping after the last). */
  lemma FullCycle(texts: seq<seq<CodeUnit>>, i: nat)
    requires NonEmptyTexts(texts) && i < |texts|
    ensures var len := |texts[i]|;
      && Valid(texts, TypingState(i, 0, false))
      && Step(texts, Run(texts, TypingState(i, 0, false), len - 1)).shown == texts[i]
      && Step(texts, Run(texts, TypingState(i, 0, false), len - 1)).delay == 2000
      && Run(texts, TypingState(i, 0, false), len) == TypingState(i, len, true)
      && Run(texts, TypingState(i, 0, false), 2 * len) == TypingState((i + 1) % |texts|, 0, false)
  {
    var len := |texts[i]|;
    var start := TypingState(i, 0, false);
    TypingPhase(texts, i, 0, len - 1);
    TypingPhase(texts, i, 0, len);
    DeletingPhase(texts, i, len, len);
    RunAdd(texts, start, len, len);
  }

  /** Typing counts code units, not characters: the tick that types the
      22nd code unit of the last text shows its emoji's high surrogate alone,
      and only the next tick completes the emoji. */
  lemma HalfEmojiShown()
    ensures Step(TypingTexts, TypingState(4, 21, false)).shown == TypingTexts[4][..22]
    ensures Step(TypingTexts, TypingState(4, 21, false)).shown[21] == 0xD83E
    ensures Step(TypingTexts, TypingState(4, 21, false)).delay == 100
    ensures Step(TypingTexts, TypingState(4, 22, false)).shown == TypingTexts[4]
    ensures Step(TypingTexts, TypingState(4, 22, false)).delay == 2000
  {
    EmojiText();
  }

  /** The total length of the texts `k` and above, in code units. */
  function LengthFrom(texts: seq<seq<CodeUnit>>, k: nat): nat
    requires k <= |texts|
    decreases |texts| - k
  {
    if k == |texts| then 0 else |texts[k]| + LengthFrom(texts, k + 1)
  }

  /** Cycling from text `i` on is one full cycle of text `i` followed by
      cycling from the next text on. */
  lemma CycleSplit(texts: seq<seq<CodeUnit>>, i: nat)
    requires NonEmptyTexts(texts) && i < |texts|
    ensures Valid(texts, TypingState(i, 0, false))
    ensures Valid(texts, TypingState(NextIndex(i, |texts|), 0, false))
    ensures Run(texts, TypingState(i, 0, false), 2 * LengthFrom(texts, i)) ==
            Run(texts, TypingState(NextIndex(i, |texts|), 0, false), 2 * LengthFrom(texts, i + 1))
  {
    var s0 := TypingState(i, 0, false);
    var len := |texts[i]|;
    FullCycle(texts, i);
    RunAdd(texts, s0, 2 * len, 2 * LengthFrom(texts, i + 1));
    NextIndexIsMod(i, |texts|);
  }

  /** The index after `i` among `n` texts, wrapping after the last. */
  function NextIndex(i: nat, n: nat): nat {
    if i + 1 < n then i + 1 else 0
  }

  /** The script's `(textIndex + 1) % texts.length` is that next index. */
  lemma NextIndexIsMod(i: nat, n: nat)
    requires i < n
    ensures (i + 1) % n == NextIndex(i, n)
  {
  }

  /** The cycle through the last text ends at the first text. */
  lemma CycleLast(texts: seq<seq<CodeUnit>>)
    requires NonEmptyTexts(texts) && |texts| > 0
    ensures Valid(texts, TypingState(|texts| - 1, 0, false))
    ensures Run(texts, TypingState(|texts| - 1, 0, false), 2 * LengthFrom(texts, |texts| - 1)) == Initial
  {
    CycleSplit(texts, |texts| - 1);
    assert LengthFrom(texts, |texts|) == 0;
    assert Run(texts, Initial, 0) == Initial;
  }

  /** From the start of text `i`, typing and deleting every text from `i`
      on takes twice their total length and ends at the first text. */
  lemma {:induction false} CycleFrom(texts: seq<seq<CodeUnit>>, i: nat)
    requires NonEmptyTexts(texts) && i < |texts|
    ensures Valid(texts, TypingState(i, 0, false))
    ensures Run(texts, TypingState(i, 0, false), 2 * LengthFrom(texts, i)) == Initial
    decreases |texts| - i
  {
    if i + 1 < |texts| {
      CycleSplit(texts, i);
      CycleFrom(texts, i + 1);
    } else {
      CycleLast(texts);
    }
  }

  /** The page's effect is periodic: after 288 ticks, twice the 144 code
      units of all five texts together, it is back in its initial state. */
  lemma Period()
    ensures NonEmptyTexts(TypingTexts) && Valid(TypingTexts, Initial)
    ensures Run(TypingTexts, Initial, 288) == Initial
  {
    TextsNonEmpty();
    AsciiTextLengths();
    EmojiText();
    assert LengthFrom(TypingTexts, 5) == 0;
    assert LengthFrom(TypingTexts, 4) == 23;
    assert LengthFrom(TypingTexts, 3) == 47;
    assert LengthFrom(TypingTexts, 2) == 82;
    assert LengthFrom(TypingTexts, 1) == 117;
    assert LengthFrom(TypingTexts, 0) == 144;
    CycleFrom(TypingTexts, 0);
  }

  /** The module's typing state and its tick, for the page's timer loop.
      `texts` is the list the callback reads; the page creates the effect
      over `TypingTexts`. */
  class TypingEffect {
    const texts: seq<seq<CodeUnit>>
    var textIndex: nat
    var charIndex: int
    var isDeleting: bool

    /** The current state as a value. */
    function State(): TypingState
      reads this
    {
      TypingState(textIndex, charIndex, isDeleting)
    }

    /** No text is empty, and the state is one the effect can be in. */
    predicate Ready()
      reads this
    {
      NonEmptyTexts(texts) && Valid(texts, State())
    }

    /** The initial values of the three module-level variables. */
    constructor ()
      ensures texts == TypingTexts && State() == Initial && Ready()
    {
      texts := TypingTexts;
      textIndex, charIndex, isDeleting := 0, 0, false;
      TextsNonEmpty();
    }

    /** One call of the typing callback: returns the text it writes to the
        page and the delay it schedules the next call with. */
    method Tick() returns (shown: seq<CodeUnit>, delay: nat)
      requires Ready()
      modifies this
      ensures Ready()
      ensures State() == Step(texts, old(State())).next
      ensures shown == Step(texts, old(State())).shown
      ensures delay == Step(texts, old(State())).delay
      ensures !old(isDeleting) ==>
        charIndex == old(charIndex) + 1 && shown == texts[old(textIndex)][..charIndex]
      ensures old(isDeleting) ==>
        charIndex == old(charIndex) - 1 && shown == texts[old(textIndex)][..charIndex]
    {
      var currentText := texts[textIndex];
      if isDeleting {
        shown := Substring(currentText, 0, charIndex - 1);
        charIndex := charIndex - 1;
      } else {
        shown := Substring(currentText, 0, charIndex + 1);
        charIndex := charIndex + 1;
      }
      delay := if isDeleting then 50 else 100;
      if !isDeleting && charIndex == |currentText| {
        delay := 2000;
        isDeleting := true;
      } else if isDeleting && charIndex == 0 {
        isDeleting := false;
        textIndex := (textIndex + 1) % |texts|;
        delay := 500;
      }
    }
  }
}
