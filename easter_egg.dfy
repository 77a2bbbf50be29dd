/** The EasterEgg component of script.js: a keydown listener that watches for
    the Konami code and runs an activation effect when it has been typed.

    The matcher keeps one counter into the fixed ten-key code. A key equal to
    the expected element advances the counter; the tenth correct key fires the
    activation and resets the counter; any other key resets the counter to 0
    without being tested again against the first element of the code. */
module KeySequence {

  /** The fixed target sequence of `KeyboardEvent.key` values. */
  const KonamiCode: seq<string> :=
    ["ArrowUp", "ArrowUp", "ArrowDown", "ArrowDown", "ArrowLeft",
     "ArrowRight", "ArrowLeft", "ArrowRight", "b", "a"]

  /** The effect of one key press: the new counter and whether activate ran. */
  datatype Step = Step(index: nat, fired: bool)

  /** The effect of a run of key presses: the final counter and how many
      times activate ran along the way. */
  datatype Tally = Tally(index: nat, activations: nat)

  /** One call of checkCode, on the counter alone. */
  function Next(index: nat, key: string): (r: Step)
    requires index < |KonamiCode|
    ensures r.index < |KonamiCode|
    ensures r.fired <==> index == |KonamiCode| - 1 && key == KonamiCode[index]
    ensures key == KonamiCode[index] && !r.fired ==> r.index == index + 1
    ensures key != KonamiCode[index] || r.fired ==> r.index == 0
  {
    if key == KonamiCode[index] then
      if index + 1 == |KonamiCode| then Step(0, true) else Step(index + 1, false)
    else
      Step(0, false)
  }

  /** checkCode applied to each key of `keys` in turn, from counter `index`. */
  function Run(index: nat, keys: seq<string>): (r: Tally)
    requires index < |KonamiCode|
    ensures r.index < |KonamiCode|
    decreases |keys|
  {
    if keys == [] then Tally(index, 0)
    else
      var before := Run(index, keys[..|keys| - 1]);
      var step := Next(before.index, keys[|keys| - 1]);
      Tally(step.index, before.activations + if step.fired then 1 else 0)
  }

  /** Running two batches of keys one after the other is running them together. */
  lemma {:induction false} RunAppend(index: nat, a: seq<string>, b: seq<string>)
    requires index < |KonamiCode|
    ensures var mid := Run(index, a); var rest := Run(mid.index, b);
            Run(index, a + b) == Tally(rest.index, mid.activations + rest.activations)
    decreases |b|
  {
    if b != [] {
      var b' := b[..|b| - 1];
      assert (a + b)[..|a + b| - 1] == a + b';
      assert (a + b)[|a + b| - 1] == b[|b| - 1];
      RunAppend(index, a, b');
    } else {
      assert a + b == a;
    }
  }

  /** The counter grows by at most one per key, so fewer keys than the code
      still needs can never fire the activation. */
  lemma {:induction false} ShortRunNeverFires(index: nat, keys: seq<string>)
    requires index < |KonamiCode|
    requires index + |keys| < |KonamiCode|
    ensures Run(index, keys).activations == 0
    ensures Run(index, keys).index <= index + |keys|
    decreases |keys|
  {
    if keys != [] {
      ShortRunNeverFires(index, keys[..|keys| - 1]);
    }
  }

  /** Typing the code from a fresh counter: no activation before the tenth
      key, exactly one on it, and the counter is 0 afterwards. */
  lemma {:induction false} CodePrefixAdvances(k: nat)
    requires k < |KonamiCode|
    ensures Run(0, KonamiCode[..k]) == Tally(k, 0)
  {
    if k > 0 {
      assert KonamiCode[..k][..k - 1] == KonamiCode[..k - 1];
      CodePrefixAdvances(k - 1);
    }
  }

  lemma CodeFiresOnTenthKey()
    ensures forall k :: 0 <= k < |KonamiCode| ==> Run(0, KonamiCode[..k]) == Tally(k, 0)
    ensures Run(0, KonamiCode) == Tally(0, 1)
  {
    forall k | 0 <= k < |KonamiCode|
      ensures Run(0, KonamiCode[..k]) == Tally(k, 0)
    {
      CodePrefixAdvances(k);
    }
    CodePrefixAdvances(|KonamiCode| - 1);
    assert KonamiCode[..|KonamiCode|] == KonamiCode;
  }

  /** The code with one wrong key inserted before its element `k`. Inserted
      strictly inside the code (1 <= k <= 9) it never fires; inserted in front
      (k == 0) the wrong key only resets a counter that is already 0, and the
      code that follows fires once. */
  lemma WrongKeyInserted(k: nat, wrong: string)
    requires k < |KonamiCode|
    requires wrong != KonamiCode[k]
    ensures Run(0, KonamiCode[..k] + [wrong] + KonamiCode[k..]).activations
            == if k == 0 then 1 else 0
  {
    var head, tail := KonamiCode[..k], KonamiCode[k..];
    CodePrefixAdvances(k);
    RunAppend(0, head, [wrong]);
    assert Run(k, [wrong]) == Tally(0, 0) by {
      assert [wrong][..0] == [];
    }
    RunAppend(0, head + [wrong], tail);
    if k == 0 {
      assert tail == KonamiCode;
      CodeFiresOnTenthKey();
    } else {
      ShortRunNeverFires(0, tail);
    }
  }

  /** What the counter remembers: after any keys from a fresh counter, the
      last `index` keys pressed are exactly the first `index` keys of the code. */
  lemma {:induction false} CounterIsSuffixMatch(keys: seq<string>)
    ensures var i := Run(0, keys).index;
            i <= |keys| && keys[|keys| - i..] == KonamiCode[..i]
    decreases |keys|
  {
    if keys != [] {
      var init := keys[..|keys| - 1];
      CounterIsSuffixMatch(init);
      var j := Run(0, init).index;
      var i := Run(0, keys).index;
      if i > 0 {
        assert i == j + 1 && keys[|keys| - 1] == KonamiCode[j];
        assert keys[|keys| - i..] == init[|init| - j..] + [keys[|keys| - 1]];
        assert KonamiCode[..i] == KonamiCode[..j] + [KonamiCode[j]];
      }
    }
  }

  /** The activation is sound: whenever a key press fires it, the ten keys
      that end with that press are exactly the code. */
  lemma FiringMeansCodeJustTyped(keys: seq<string>, key: string)
    requires Next(Run(0, keys).index, key).fired
    ensures |keys + [key]| >= |KonamiCode|
    ensures (keys + [key])[|keys| + 1 - |KonamiCode|..] == KonamiCode
  {
    var j := Run(0, keys).index;
    CounterIsSuffixMatch(keys);
    assert j == |KonamiCode| - 1 && key == KonamiCode[j];
    assert (keys + [key])[|keys| + 1 - |KonamiCode|..] == keys[|keys| - j..] + [key];
    assert KonamiCode == KonamiCode[..j] + [KonamiCode[j]];
  }

  /** From a reset counter, keys that are never "ArrowUp" (the first element
      of the code) leave the counter at 0. */
  lemma {:induction false} NoArrowUpStaysReset(keys: seq<string>)
    requires forall i :: 0 <= i < |keys| ==> keys[i] != KonamiCode[0]
    ensures Run(0, keys) == Tally(0, 0)
    decreases |keys|
  {
    if keys != [] {
      NoArrowUpStaysReset(keys[..|keys| - 1]);
    }
  }

  /** There is no fall-back on a mismatch: the wrong key is not tested again
      against the first element. "ArrowUp" three times leaves the counter at 0,
      and one extra "ArrowUp" before the full code means the code never fires,
      although the last ten keys pressed are exactly the code. */
  lemma MismatchIsNotRetested()
    ensures Run(0, ["ArrowUp", "ArrowUp", "ArrowUp"]) == Tally(0, 0)
    ensures (["ArrowUp"] + KonamiCode)[1..] == KonamiCode
    ensures Run(0, ["ArrowUp"] + KonamiCode) == Tally(0, 0)
  {
    var ups := ["ArrowUp", "ArrowUp", "ArrowUp"];
    assert ups[..2][..1] == ["ArrowUp"] && ups[..2][..1][..0] == [];
    assert ups[..2] == ["ArrowUp", "ArrowUp"];
    var up := ["ArrowUp"];
    assert Run(0, up) == Tally(1, 0) by { assert up[..0] == []; }
    var opening := KonamiCode[..2];
    var rest := KonamiCode[2..];
    assert Run(1, opening) == Tally(0, 0) by {
      assert opening[..1] == ["ArrowUp"] && opening[..1][..0] == [];
    }
    NoArrowUpStaysReset(rest);
    RunAppend(1, opening, rest);
    assert opening + rest == KonamiCode;
    RunAppend(0, up, KonamiCode);
  }

  /** The EasterEgg object: `currentIndex` is the counter and `activations`
      counts the runs of activate (whose visual effects are not modelled).
      `history` is the ghost record of every key seen so far. */
  class EasterEgg {
    var currentIndex: nat
    var activations: nat
    ghost var history: seq<string>

    /** The counter is always a valid index into the code, and the fields are
        what checkCode, replayed over the history, produces. */
    ghost predicate Valid()
      reads this
    {
      currentIndex < |KonamiCode| && Run(0, history) == Tally(currentIndex, activations)
    }

    constructor ()
      ensures Valid() && history == []
      ensures currentIndex == 0 && activations == 0
    {
      currentIndex := 0;
      activations := 0;
      history := [];
    }

    /** The keydown handler. */
    method CheckCode(key: string) returns (activated: bool)
      requires Valid()
      modifies this
      ensures Valid() && history == old(history) + [key]
      ensures Next(old(currentIndex), key) == Step(currentIndex, activated)
      ensures activations == old(activations) + if activated then 1 else 0
      ensures activated ==> |history| >= |KonamiCode|
                            && history[|history| - |KonamiCode|..] == KonamiCode
    {
      activated := false;
      if key == KonamiCode[currentIndex] {
        currentIndex := currentIndex + 1;
        if currentIndex == |KonamiCode| {
          activated := true;
          activations := activations + 1;
          currentIndex := 0;
        }
      } else {
        currentIndex := 0;
      }
      history := history + [key];
      assert history[..|history| - 1] == old(history);
      if activated {
        FiringMeansCodeJustTyped(old(history), key);
      }
    }
  }
}
