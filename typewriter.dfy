/**
  The typewriter banner: the effect that types the current title one
  character at a time, holds it, deletes it one character at a time and moves
  on to the next title. Timers are left out, so one step is one run of the
  effect that changes the state. Next is that step as a function of the state;
  the Typewriter class performs it in place on the component's three state
  variables.
 */
module Banner {

  /** The titles the banner cycles through. */
  const Texts: seq<string> := ["Software Engineer", "Web Developer"]

  /** `currentTextIndex`, `displayText` and `isDeleting`. */
  datatype BannerState = BannerState(index: nat, text: string, deleting: bool)

  /** The state the component starts in. */
  const Initial := BannerState(0, "", false)

  /** `s.substring(0, n)`: the prefix of `s` whose length is n clamped to the
      range 0 to `|s|`. */
  function JsPrefix(s: string, n: int): (r: string)
    ensures r <= s
    ensures |r| == if n <= 0 then 0 else if n >= |s| then |s| else n
  {
    if n <= 0 then "" else if n >= |s| then s else s[..n]
  }

  /** The index names a title and the shown text is a prefix of that title. */
  ghost predicate Inv(texts: seq<string>, b: BannerState) {
    b.index < |texts| && b.text <= texts[b.index]
  }

  /** One run of the effect: a fully typed title starts being deleted; a fully
      deleted one gives way to the next title; otherwise one character is
      typed or deleted. */
  function Next(texts: seq<string>, b: BannerState): (r: BannerState)
    requires b.index < |texts|
    ensures r.index < |texts|
  {
    var current := texts[b.index];
    if !b.deleting && b.text == current then b.(deleting := true)
    else if b.deleting && b.text == "" then BannerState((b.index + 1) % |texts|, b.text, false)
    else if b.deleting then b.(text := JsPrefix(current, |b.text| - 1))
    else b.(text := JsPrefix(current, |b.text| + 1))
  }

  /** n runs of the effect. */
  function Iterate(texts: seq<string>, b: BannerState, n: nat): (r: BannerState)
    requires b.index < |texts|
    ensures r.index < |texts|
  {
    if n == 0 then b else Next(texts, Iterate(texts, b, n - 1))
  }

  /** The step keeps the index in range and the shown text a prefix of the
      current title. */
  lemma NextPreservesInv(texts: seq<string>, b: BannerState)
    requires Inv(texts, b)
    ensures Inv(texts, Next(texts, b))
  {
  }

  /** What one step does, in terms of the shown text: it starts deleting a
      complete title; it moves to the following title (cyclically) once the
      text is gone; otherwise it removes the last character, or appends the
      title's next character. */
  lemma StepShape(texts: seq<string>, b: BannerState)
    requires Inv(texts, b)
    ensures var r := Next(texts, b);
      && (!b.deleting && b.text == texts[b.index] ==> r == b.(deleting := true))
      && (b.deleting && b.text == "" ==>
            r == BannerState((b.index + 1) % |texts|, "", false))
      && (b.deleting && b.text != "" ==>
            r == b.(text := b.text[..|b.text| - 1]))
      && (!b.deleting && b.text != texts[b.index] ==>
            |b.text| < |texts[b.index]| && r == b.(text := b.text + [texts[b.index][|b.text|]]))
  {
    var current := texts[b.index];
    if !b.deleting && b.text != current {
      assert |b.text| < |current|;
      assert current[..|b.text| + 1] == current[..|b.text|] + [current[|b.text|]];
    }
  }

  /** Running m steps and then n more is running m + n steps. */
  lemma {:induction false} IterateAdd(texts: seq<string>, b: BannerState, m: nat, n: nat)
    requires b.index < |texts|
    ensures Iterate(texts, b, m + n) == Iterate(texts, Iterate(texts, b, m), n)
  {
    if n > 0 {
      IterateAdd(texts, b, m, n - 1);
    }
  }

  /** Typing: from an empty text, k steps show the first k characters. */
  lemma {:induction false} TypeUp(texts: seq<string>, i: nat, k: nat)
    requires i < |texts| && k <= |texts[i]|
    ensures Iterate(texts, BannerState(i, "", false), k) == BannerState(i, texts[i][..k], false)
  {
    if k > 0 {
      TypeUp(texts, i, k - 1);
      assert texts[i][..k - 1] != texts[i] by {
        assert |texts[i][..k - 1]| < |texts[i]|;
      }
    }
  }

  /** Deleting: from a complete title, k steps remove the last k characters. */
  lemma {:induction false} DeleteDown(texts: seq<string>, i: nat, k: nat)
    requires i < |texts| && k <= |texts[i]|
    ensures Iterate(texts, BannerState(i, texts[i], true), k)
      == BannerState(i, texts[i][..|texts[i]| - k], true)
  {
    if k > 0 {
      DeleteDown(texts, i, k - 1);
      assert texts[i][..|texts[i]| - (k - 1)] != "";
    } else {
      assert texts[i][..|texts[i]|] == texts[i];
    }
  }

  /** A full cycle for one title: from the empty text, typing it, the switch
      to deleting, deleting it and the move to the next title take
      `2 * |title| + 2` steps and end on the next title with an empty text. */
  lemma Cycle(texts: seq<string>, i: nat)
    requires i < |texts|
    ensures Iterate(texts, BannerState(i, "", false), 2 * |texts[i]| + 2)
      == BannerState((i + 1) % |texts|, "", false)
  {
    var t := texts[i];
    var start := BannerState(i, "", false);
    TypeUp(texts, i, |t|);
    assert t[..|t|] == t;
    assert Iterate(texts, start, |t| + 1) == BannerState(i, t, true);
    DeleteDown(texts, i, |t|);
    assert t[..|t| - |t|] == "";
    IterateAdd(texts, start, |t| + 1, |t|);
    assert Iterate(texts, start, 2 * |t| + 1) == BannerState(i, "", true);
  }

  /** With two titles, typing and deleting both brings the banner back to the
      first title with nothing shown. */
  lemma TwoTitlePeriod(texts: seq<string>)
    requires |texts| == 2
    ensures Iterate(texts, BannerState(0, "", false), 2 * |texts[0]| + 2) == BannerState(1, "", false)
    ensures Iterate(texts, BannerState(0, "", false), 2 * |texts[0]| + 2 + 2 * |texts[1]| + 2)
      == BannerState(0, "", false)
  {
    var start := BannerState(0, "", false);
    var n0, n1 := 2 * |texts[0]| + 2, 2 * |texts[1]| + 2;
    Cycle(texts, 0);
    assert (0 + 1) % |texts| == 1;
    var second := Iterate(texts, start, n0);
    assert second == BannerState(1, "", false);
    Cycle(texts, 1);
    assert (1 + 1) % |texts| == 0;
    assert Iterate(texts, second, n1) == start;
    IterateAdd(texts, start, n0, n1);
  }

  /** The banner is periodic: after typing and deleting "Software Engineer"
      (36 steps) it is on the second title, and after typing and deleting
      "Web Developer" as well (28 more) it is back in its initial state. */
  lemma BannerPeriod()
    ensures Iterate(Texts, Initial, 36) == BannerState(1, "", false)
    ensures Iterate(Texts, Initial, 64) == Initial
  {
    TwoTitlePeriod(Texts);
  }

  class Typewriter {
    var currentTextIndex: nat
    var displayText: string
    var isDeleting: bool

    /** The three variables as one state value. */
    function State(): BannerState
      reads this
    {
      BannerState(currentTextIndex, displayText, isDeleting)
    }

    ghost predicate Valid()
      reads this
    {
      Inv(Texts, State())
    }

    /** The initial state: the first title, nothing shown yet, typing. */
    constructor()
      ensures Valid() && State() == Initial
    {
      currentTextIndex := 0;
      displayText := "";
      isDeleting := false;
    }

    /** One run of the effect, updating the state variables in place. */
    method Step()
      requires Valid()
      modifies this
      ensures Valid()
      ensures State() == Next(Texts, old(State()))
    {
      NextPreservesInv(Texts, State());
      var currentText := Texts[currentTextIndex];
      if !isDeleting && displayText == currentText {
        isDeleting := true;
        return;
      }
      if isDeleting && displayText == "" {
        isDeleting := false;
        currentTextIndex := (currentTextIndex + 1) % |Texts|;
        return;
      }
      if isDeleting {
        displayText := JsPrefix(currentText, |displayText| - 1);
      } else {
        displayText := JsPrefix(currentText, |displayText| + 1);
      }
    }
  }
}
