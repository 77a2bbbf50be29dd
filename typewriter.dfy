/** The Typewriter component of script.js: an endless animation that types a
    phrase one character per tick, pauses on the full phrase, deletes it one
    character per tick and moves on to the next phrase, cycling through a fixed
    list of six phrases.

    Each call of `type` is one deterministic transition of the state
    (phraseIndex, charIndex, isDeleting, isPaused, textContent). Timer
    scheduling is reduced to the base delay each tick asks for. The transition
    and its lemmas are stated for any list of non-empty phrases; the object
    runs them over the six phrases of the page. */
module TypewriterEffect {

  /** The fixed, cyclic list of phrases of the page. */
  const Phrases: seq<string> := [
    "echo \"Hello, World!\"",
    "npm run build-something-cool",
    "git commit -m \"made it work\"",
    "sudo make me a sandwich",
    "ping reality.life",
    "./start_adventure.sh"
  ]

  /** Base delays in milliseconds before the next tick. */
  const PauseDelay := 1500
  const DeleteDelay := 40
  const TypeDelay := 80

  function Clamp(i: int, len: nat): (r: nat)
    ensures r <= len
    ensures 0 <= i <= len ==> r == i
  {
    if i < 0 then 0 else if i > len then len else i
  }

  /** JavaScript's `String.prototype.substring`: both bounds are clamped to
      [0, |s|] and swapped when given in decreasing order. */
  function Substring(s: string, start: int, end: int): (r: string)
    ensures |r| <= |s|
    ensures 0 <= start <= end <= |s| ==> r == s[start..end]
    ensures 0 <= end <= start <= |s| ==> r == s[end..start]
    ensures start <= 0 <= end <= |s| ==> r == s[..end]
    ensures 0 <= start <= |s| <= end ==> r == s[start..]
    ensures end <= 0 && start <= 0 ==> r == []
  {
    var a, b := Clamp(start, |s|), Clamp(end, |s|);
    if a <= b then s[a..b] else s[b..a]
  }

  /** A list of phrases the animation can cycle through: at least one, and
      none empty. */
  predicate ValidPhrases(phrases: seq<string>) {
    |phrases| > 0 && forall i :: 0 <= i < |phrases| ==> |phrases[i]| > 0
  }

  lemma PagePhrasesAreValid()
    ensures ValidPhrases(Phrases) && |Phrases| == 6
  {
  }

  /** A snapshot of the Typewriter object's animation state and of the
      `textContent` of its target element. */
  datatype State = State(
    phraseIndex: nat,
    charIndex: nat,
    isDeleting: bool,
    isPaused: bool,
    text: string)

  /** The state at the start of typing phrase `p`. */
  function Start(p: nat): State {
    State(p, 0, false, false, "")
  }

  /** The invariant every reachable state keeps: the phrase index is in range,
      the text shown is the first charIndex characters of the current phrase,
      a deleting state has something left to delete, a typing state has
      something left to type, and a pause happens only on the full phrase
      just before deleting it. */
  predicate Inv(phrases: seq<string>, s: State) {
    && s.phraseIndex < |phrases|
    && s.charIndex <= |phrases[s.phraseIndex]|
    && s.text == phrases[s.phraseIndex][..s.charIndex]
    && (s.isDeleting ==> 0 < s.charIndex)
    && (!s.isDeleting ==> s.charIndex < |phrases[s.phraseIndex]|)
    && (s.isPaused ==> s.isDeleting && s.charIndex == |phrases[s.phraseIndex]|)
  }

  /** One call of `type`. A paused tick stands for the paused branch together
      with its timer callback, which clears isPaused before typing again. */
  function Tick(phrases: seq<string>, s: State): (r: State)
    requires ValidPhrases(phrases) && Inv(phrases, s)
    ensures Inv(phrases, r)
  {
    var phrase := phrases[s.phraseIndex];
    if s.isPaused then
      s.(isPaused := false)
    else if s.isDeleting then
      var text := Substring(phrase, 0, s.charIndex - 1);
      if s.charIndex - 1 == 0 then
        State((s.phraseIndex + 1) % |phrases|, 0, false, false, text)
      else
        s.(charIndex := s.charIndex - 1, text := text)
    else
      var text := Substring(phrase, 0, s.charIndex + 1);
      if s.charIndex + 1 == |phrase| then
        s.(charIndex := s.charIndex + 1, text := text, isDeleting := true, isPaused := true)
      else
        s.(charIndex := s.charIndex + 1, text := text)
  }

  /** A paused tick only ends the pause. */
  lemma PausedTickOnlyResumes(phrases: seq<string>, s: State)
    requires ValidPhrases(phrases) && Inv(phrases, s) && s.isPaused
    ensures var r := Tick(phrases, s);
            && !r.isPaused
            && r.phraseIndex == s.phraseIndex && r.charIndex == s.charIndex
            && r.isDeleting == s.isDeleting && r.text == s.text
  {
  }

  /** A typing tick shows one more character of the phrase; reaching the full
      length starts both deleting and the pause. */
  lemma TypingTickAppends(phrases: seq<string>, s: State)
    requires ValidPhrases(phrases) && Inv(phrases, s) && !s.isPaused && !s.isDeleting
    ensures var r := Tick(phrases, s);
            var phrase := phrases[s.phraseIndex];
            && r.phraseIndex == s.phraseIndex
            && r.charIndex == s.charIndex + 1
            && r.text == s.text + [phrase[s.charIndex]]
            && (r.isDeleting <==> r.charIndex == |phrase|)
            && (r.isPaused <==> r.isDeleting)
  {
    var phrase := phrases[s.phraseIndex];
    assert phrase[..s.charIndex + 1] == phrase[..s.charIndex] + [phrase[s.charIndex]];
  }

  /** A deleting tick removes the last character shown; removing the last one
      ends deleting. */
  lemma DeletingTickRemoves(phrases: seq<string>, s: State)
    requires ValidPhrases(phrases) && Inv(phrases, s) && !s.isPaused && s.isDeleting
    ensures var r := Tick(phrases, s);
            && r.charIndex == s.charIndex - 1
            && r.text == s.text[..|s.text| - 1]
            && !r.isPaused
            && (r.isDeleting <==> r.charIndex > 0)
  {
  }

  /** The phrase changes only on the deleting tick that empties the text, and
      then it becomes the next phrase in cyclic order (with two or more
      phrases; the page has six). */
  lemma PhraseAdvancesOnlyWhenEmptied(phrases: seq<string>, s: State)
    requires ValidPhrases(phrases) && |phrases| > 1 && Inv(phrases, s)
    ensures var emptied := !s.isPaused && s.isDeleting && s.charIndex == 1;
            && (Tick(phrases, s).phraseIndex != s.phraseIndex <==> emptied)
            && Tick(phrases, s).phraseIndex == if emptied then (s.phraseIndex + 1) % |phrases|
                                               else s.phraseIndex
  {
  }

  /** `n` ticks in a row. */
  function Iterate(phrases: seq<string>, s: State, n: nat): (r: State)
    requires ValidPhrases(phrases) && Inv(phrases, s)
    ensures Inv(phrases, r)
    decreases n
  {
    if n == 0 then s else Iterate(phrases, Tick(phrases, s), n - 1)
  }

  lemma {:induction false} IterateAdd(phrases: seq<string>, s: State, m: nat, n: nat)
    requires ValidPhrases(phrases) && Inv(phrases, s)
    ensures Iterate(phrases, s, m + n) == Iterate(phrases, Iterate(phrases, s, m), n)
    decreases m
  {
    if m > 0 {
      IterateAdd(phrases, Tick(phrases, s), m - 1, n);
    }
  }

  /** One typing tick, as a whole state. */
  lemma TypingStep(phrases: seq<string>, s: State)
    requires ValidPhrases(phrases) && Inv(phrases, s) && !s.isPaused && !s.isDeleting
    ensures var phrase := phrases[s.phraseIndex];
            var full := s.charIndex + 1 == |phrase|;
            Tick(phrases, s)
              == State(s.phraseIndex, s.charIndex + 1, full, full, phrase[..s.charIndex + 1])
  {
  }

  /** From a typing state, the ticks still needed type out the whole phrase
      and leave it paused before deleting. */
  lemma {:induction false} TypesOutPhrase(phrases: seq<string>, s: State)
    requires ValidPhrases(phrases) && Inv(phrases, s) && !s.isPaused && !s.isDeleting
    ensures var phrase := phrases[s.phraseIndex];
            Iterate(phrases, s, |phrase| - s.charIndex)
              == State(s.phraseIndex, |phrase|, true, true, phrase)
    decreases |phrases[s.phraseIndex]| - s.charIndex
  {
    var phrase := phrases[s.phraseIndex];
    TypingStep(phrases, s);
    if s.charIndex + 1 < |phrase| {
      TypesOutPhrase(phrases, Tick(phrases, s));
    } else {
      assert phrase[..|phrase|] == phrase;
    }
  }

  /** From the start of phrase `p`, after `n` ticks (at most the phrase's
      length) exactly the first `n` characters are shown, and the animation
      turns to deleting, paused, exactly when the whole phrase is shown. */
  lemma {:induction false} TypingShowsPrefix(phrases: seq<string>, p: nat, n: nat)
    requires ValidPhrases(phrases) && p < |phrases| && n <= |phrases[p]|
    ensures var full := n == |phrases[p]|;
            Iterate(phrases, Start(p), n) == State(p, n, full, full, phrases[p][..n])
  {
    if n > 0 {
      TypingShowsPrefix(phrases, p, n - 1);
      var before := Iterate(phrases, Start(p), n - 1);
      IterateAdd(phrases, Start(p), n - 1, 1);
      TypingStep(phrases, before);
    }
  }

  /** From a deleting state, one tick per character shown empties the text
      and starts typing the next phrase. */
  lemma {:induction false} DeletesPhrase(phrases: seq<string>, s: State)
    requires ValidPhrases(phrases) && Inv(phrases, s) && !s.isPaused && s.isDeleting
    ensures Iterate(phrases, s, s.charIndex) == Start((s.phraseIndex + 1) % |phrases|)
    decreases s.charIndex
  {
    if s.charIndex > 1 {
      DeletesPhrase(phrases, Tick(phrases, s));
    }
  }

  /** The number of ticks one phrase takes: type every character, pause once,
      delete every character. */
  function PhaseTicks(phrases: seq<string>, p: nat): nat
    requires p < |phrases|
  {
    2 * |phrases[p]| + 1
  }

  /** One full phase takes the animation from the start of phrase `p` to the
      start of the next phrase. */
  lemma PhaseEndsAtNextPhrase(phrases: seq<string>, p: nat)
    requires ValidPhrases(phrases) && p < |phrases|
    ensures Iterate(phrases, Start(p), PhaseTicks(phrases, p)) == Start((p + 1) % |phrases|)
  {
    var phrase := phrases[p];
    var full := State(p, |phrase|, true, true, phrase);
    TypesOutPhrase(phrases, Start(p));
    var resumed := Tick(phrases, full);
    DeletesPhrase(phrases, resumed);
    IterateAdd(phrases, full, 1, |phrase|);
    IterateAdd(phrases, Start(p), |phrase|, |phrase| + 1);
  }

  /** The ticks the first `k` phases take together. */
  function TicksThrough(phrases: seq<string>, k: nat): nat
    requires k <= |phrases|
  {
    if k == 0 then 0 else TicksThrough(phrases, k - 1) + PhaseTicks(phrases, k - 1)
  }

  /** After the first `k` phases the animation is at the start of phrase `k`;
      after all of them it is back at the start of the first phrase. */
  lemma {:induction false} CyclesThroughPhrases(phrases: seq<string>, k: nat)
    requires ValidPhrases(phrases) && k <= |phrases|
    ensures Iterate(phrases, Start(0), TicksThrough(phrases, k))
            == Start(if k == |phrases| then 0 else k)
  {
    if k > 0 {
      CyclesThroughPhrases(phrases, k - 1);
      PhaseEndsAtNextPhrase(phrases, k - 1);
      NextIndex(k - 1, |phrases|);
      ChainTicks(phrases, Start(0), TicksThrough(phrases, k - 1), PhaseTicks(phrases, k - 1),
                 Start(k - 1), Start(if k == |phrases| then 0 else k));
    }
  }

  /** The phrase after `p` in cyclic order. */
  lemma NextIndex(p: nat, n: nat)
    requires p < n
    ensures (p + 1) % n == if p + 1 == n then 0 else p + 1
  {
  }

  /** Two runs of ticks that meet in the middle make one run. */
  lemma ChainTicks(phrases: seq<string>, s: State, m: nat, n: nat, mid: State, end: State)
    requires ValidPhrases(phrases) && Inv(phrases, s)
    requires Iterate(phrases, s, m) == mid && Iterate(phrases, mid, n) == end
    ensures Iterate(phrases, s, m + n) == end
  {
    IterateAdd(phrases, s, m, n);
  }

  /** On the page, the six phases return the animation to the start of the
      first phrase. */
  lemma PageCycleReturnsToFirstPhrase()
    ensures ValidPhrases(Phrases)
    ensures Iterate(Phrases, Start(0), TicksThrough(Phrases, 6)) == Start(0)
  {
    PagePhrasesAreValid();
    CyclesThroughPhrases(Phrases, 6);
  }

  /** The Typewriter object together with the text of its target element. */
  class Typewriter {
    var phraseIndex: nat
    var charIndex: nat
    var isDeleting: bool
    var isPaused: bool
    var textContent: string

    function Current(): State
      reads this
    {
      State(phraseIndex, charIndex, isDeleting, isPaused, textContent)
    }

    ghost predicate Valid()
      reads this
    {
      ValidPhrases(Phrases) && Inv(Phrases, Current())
    }

    /** `init` on a page that has the target element: reset the state and run
        the first tick. */
    constructor ()
      ensures Valid() && Current() == Tick(Phrases, Start(0))
    {
      phraseIndex, charIndex := 0, 0;
      isDeleting, isPaused := false, false;
      textContent := "";
      new;
      PagePhrasesAreValid();
      var _ := Type();
    }

    /** One call of `type`; returns the base delay before the next call. */
    method Type() returns (delay: nat)
      requires Valid()
      modifies this
      ensures Valid() && Current() == Tick(Phrases, old(Current()))
      ensures delay == if old(isPaused) then PauseDelay
                       else if isDeleting then DeleteDelay
                       else TypeDelay
    {
      var currentPhrase := Phrases[phraseIndex];
      if isPaused {
        isPaused := false;
        return PauseDelay;
      }
      if isDeleting {
        textContent := Substring(currentPhrase, 0, charIndex - 1);
        charIndex := charIndex - 1;
        if charIndex == 0 {
          isDeleting := false;
          phraseIndex := (phraseIndex + 1) % |Phrases|;
        }
      } else {
        textContent := Substring(currentPhrase, 0, charIndex + 1);
        charIndex := charIndex + 1;
        if charIndex == |currentPhrase| {
          isDeleting := true;
          isPaused := true;
        }
      }
      delay := if isDeleting then DeleteDelay else TypeDelay;
    }
  }
}
