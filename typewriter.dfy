/**
 * The typing effect of assets/js/animations.js (class TypeWriter): the subtitle text
 * grows one character at a time up to the current word, waits, shrinks back to empty
 * and moves on to the next word.  One call of type() is one step; the delay it returns
 * is the timeout after which the host calls it again.
 */
module Typing {

  /** Delay between typed characters, in milliseconds (animations.js:139). */
  const TypeDelay: nat := 150
  /** Delay between deleted characters: half the typing delay (animations.js:141-143). */
  const DeleteDelay: nat := 75
  /** Pause after a word has been deleted (animations.js:151). */
  const NextWordDelay: nat := 500
  /** The pause on a whole word when the caller gives none (animations.js:117). */
  const DefaultWait: nat := 3000

  datatype TypeState = TypeState(text: string, wordIndex: nat, isDeleting: bool)

  /** The result of one type() call: the new state and the delay before the next call. */
  datatype Tick = Tick(state: TypeState, delay: nat)

  /** The word being typed: words[wordIndex % words.length] (animations.js:128-129). */
  function CurrentWord(words: seq<string>, wordIndex: nat): string
    requires |words| > 0
  {
    words[wordIndex % |words|]
  }

  /** The state invariant: the shown text is a prefix of the current word. */
  predicate Consistent(words: seq<string>, s: TypeState) {
    |words| > 0 && s.text <= CurrentWord(words, s.wordIndex)
  }

  /** JavaScript's String.prototype.substring: both ends clamped to [0, |s|], then ordered. */
  function Substring(s: string, start: int, end: int): (r: string)
    ensures start <= 0 && 0 <= end <= |s| ==> r == s[..end]
    ensures start <= 0 && end < 0 ==> r == []
    ensures start <= 0 && end > |s| ==> r == s
  {
    var a := if start < 0 then 0 else if start > |s| then |s| else start;
    var b := if end < 0 then 0 else if end > |s| then |s| else end;
    if a <= b then s[a..b] else s[b..a]
  }

  /** One call of type() (animations.js:127-155), as a function of the state before it. */
  function TypeStep(words: seq<string>, wait: nat, s: TypeState): (t: Tick)
    requires |words| > 0
    ensures Consistent(words, s) ==> Consistent(words, t.state)
  {
    var fullText := CurrentWord(words, s.wordIndex);
    var text := if s.isDeleting then Substring(fullText, 0, |s.text| - 1)
                else Substring(fullText, 0, |s.text| + 1);
    if !s.isDeleting && text == fullText then Tick(TypeState(text, s.wordIndex, true), wait)
    else if s.isDeleting && text == [] then Tick(TypeState(text, s.wordIndex + 1, false), NextWordDelay)
    else Tick(TypeState(text, s.wordIndex, s.isDeleting), if s.isDeleting then DeleteDelay else TypeDelay)
  }

  /**
   * What one step does: in typing mode the text takes one more character of the word,
   * in deleting mode it loses one; reaching the whole word switches to deleting after
   * the configured wait, reaching the empty text moves on to the next word after a
   * fixed pause.
   */
  lemma TypeStepSpec(words: seq<string>, wait: nat, s: TypeState)
    requires Consistent(words, s)
    ensures var t := TypeStep(words, wait, s); var w := CurrentWord(words, s.wordIndex);
      // typing: one more character, unless the whole word is already shown
      (!s.isDeleting && |s.text| < |w| ==> |t.state.text| == |s.text| + 1 && t.state.text <= w) &&
      (!s.isDeleting && s.text == w ==> t.state.text == s.text) &&
      // deleting: one character fewer, never below empty
      (s.isDeleting && s.text != [] ==> |t.state.text| == |s.text| - 1 && t.state.text <= s.text) &&
      (s.isDeleting && s.text == [] ==> t.state.text == []) &&
      // the switch at the whole word, with the configured wait
      (!s.isDeleting ==>
        if t.state.text == w
        then t.delay == wait && t.state.isDeleting && t.state.wordIndex == s.wordIndex
        else t.delay == TypeDelay && !t.state.isDeleting && t.state.wordIndex == s.wordIndex) &&
      // the switch at the empty text, on to the next word
      (s.isDeleting ==>
        if t.state.text == []
        then t.delay == NextWordDelay && !t.state.isDeleting && t.state.wordIndex == s.wordIndex + 1
        else t.delay == DeleteDelay && t.state.isDeleting && t.state.wordIndex == s.wordIndex)
  {
  }

  /** The state after n calls of type(). */
  function Run(words: seq<string>, wait: nat, s: TypeState, n: nat): (r: TypeState)
    requires |words| > 0
    ensures Consistent(words, s) ==> Consistent(words, r)
    decreases n
  {
    if n == 0 then s else Run(words, wait, TypeStep(words, wait, s).state, n - 1)
  }

  /**
   * From a proper prefix in typing mode, the rest of the word is typed out and deleting
   * starts: whatever the writer does afterwards, it does from the whole word in deleting mode.
   */
  lemma {:induction false} TypingPhase(words: seq<string>, wait: nat, s: TypeState, after: nat)
    requires Consistent(words, s) && !s.isDeleting
    requires |s.text| < |CurrentWord(words, s.wordIndex)|
    ensures Run(words, wait, s, |CurrentWord(words, s.wordIndex)| - |s.text| + after)
         == Run(words, wait, TypeState(CurrentWord(words, s.wordIndex), s.wordIndex, true), after)
    decreases |CurrentWord(words, s.wordIndex)| - |s.text|
  {
    var w := CurrentWord(words, s.wordIndex);
    var k := |w| - |s.text|;
    var next := TypeStep(words, wait, s).state;
    TypeStepSpec(words, wait, s);
    assert Run(words, wait, s, k + after) == Run(words, wait, next, k - 1 + after);
    if k > 1 {
      TypingPhase(words, wait, next, after);
    } else {
      assert next == TypeState(w, s.wordIndex, true);
    }
  }

  /** From a non-empty text in deleting mode, the text is deleted, then the next word starts. */
  lemma {:induction false} DeletingPhase(words: seq<string>, wait: nat, s: TypeState)
    requires Consistent(words, s) && s.isDeleting && s.text != []
    ensures Run(words, wait, s, |s.text|) == TypeState([], s.wordIndex + 1, false)
    decreases |s.text|
  {
    var next := TypeStep(words, wait, s).state;
    TypeStepSpec(words, wait, s);
    assert Run(words, wait, s, |s.text|) == Run(words, wait, next, |s.text| - 1);
    if |s.text| > 1 {
      DeletingPhase(words, wait, next);
    }
  }

  /**
   * A whole word cycle: from the empty text in typing mode on word i, after twice the
   * word's length (two calls for an empty word) the writer is back at the empty text in
   * typing mode, on word i + 1.
   */
  lemma WordCycle(words: seq<string>, wait: nat, i: nat)
    requires |words| > 0
    ensures var w := CurrentWord(words, i);
      Run(words, wait, TypeState([], i, false), if w == [] then 2 else 2 * |w|)
      == TypeState([], i + 1, false)
  {
    var w := CurrentWord(words, i);
    var s := TypeState([], i, false);
    if w == [] {
      TypeStepSpec(words, wait, s);
      var s1 := TypeStep(words, wait, s).state;
      assert s1 == TypeState([], i, true);
      TypeStepSpec(words, wait, s1);
      var s2 := TypeStep(words, wait, s1).state;
      assert s2 == TypeState([], i + 1, false);
      assert Run(words, wait, s, 2) == Run(words, wait, s1, 1) == Run(words, wait, s2, 0);
    } else {
      TypingPhase(words, wait, s, |w|);
      DeletingPhase(words, wait, TypeState(w, i, true));
    }
  }

  class TypeWriter {
    const words: seq<string>
    const wait: nat
    var text: string
    var wordIndex: nat
    var isDeleting: bool

    function State(): TypeState
      reads this
    {
      TypeState(text, wordIndex, isDeleting)
    }

    ghost predicate Valid()
      reads this
    {
      Consistent(words, State())
    }

    /** new TypeWriter(element, words, wait): the first type() call runs at once (animations.js:117-125). */
    constructor (words: seq<string>, wait: nat := DefaultWait)
      requires |words| > 0
      ensures Valid()
      ensures this.words == words && this.wait == wait
      ensures State() == TypeStep(words, wait, TypeState([], 0, false)).state
    {
      this.words := words;
      this.wait := wait;
      text := [];
      wordIndex := 0;
      isDeleting := false;
      new;
      var _ := Type();
    }

    /** One call of type(); returns the timeout before the next call (animations.js:127-155). */
    method Type() returns (delay: nat)
      requires Valid()
      modifies this
      ensures Valid()
      ensures Tick(State(), delay) == TypeStep(words, wait, old(State()))
    {
      var current := wordIndex % |words|;
      var fullText := words[current];
      if isDeleting {
        text := Substring(fullText, 0, |text| - 1);
      } else {
        text := Substring(fullText, 0, |text| + 1);
      }
      var typeSpeed := TypeDelay;
      if isDeleting {
        typeSpeed := typeSpeed / 2;
      }
      if !isDeleting && text == fullText {
        typeSpeed := wait;
        isDeleting := true;
      } else if isDeleting && text == [] {
        isDeleting := false;
        wordIndex := wordIndex + 1;
        typeSpeed := NextWordDelay;
      }
      delay := typeSpeed;
    }
  }
}
