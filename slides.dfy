/** The slide navigator at the top of the page: one slide shown at a time, a wrapping
    index, a "next" button disabled on the last slide, and a way back to the index page
    from the first slide. */
module Slides {
  import opened JsMath

  /** A slide's inline `style.display`: empty until the navigator first sets it, then
      `"none"` or `"block"`. */
  datatype Display = Unset | Hidden | Shown

  /** The navigator's whole state: the slides' display values, `currentSlide` and
      `nextBtn.disabled`. */
  datatype Deck = Deck(slides: seq<Display>, current: int, nextDisabled: bool)

  /** What a call of `changeSlide` did: moved within the deck, sent the browser to
      `index.html`, or threw a `TypeError` part-way. */
  datatype Outcome = Moved | LeftForIndex | Threw

  /** `(n + slides.length) % slides.length` with JavaScript's remainder. */
  function Wrap(n: int, len: int): int
    requires len > 0
  {
    JsRemainder(n + len, len)
  }

  /** The deck in its one consistent shape: the current slide is the only one shown, and
      "next" is disabled exactly on the last slide. */
  predicate DeckValid(d: Deck) {
    0 <= d.current < |d.slides| &&
    d.slides[d.current] == Shown &&
    (forall i :: 0 <= i < |d.slides| && i != d.current ==> d.slides[i] != Shown) &&
    d.nextDisabled == (d.current == |d.slides| - 1)
  }

  /** `showSlide(n)`: hide the current slide, wrap the index, show the new slide and update
      the button. Indexing a slide that does not exist throws a `TypeError`, which ends the
      call with the state reached so far (the result's flag is then `false`). */
  function Show(d: Deck, n: int): (Deck, bool) {
    if !(0 <= d.current < |d.slides|) then (d, false)
    else
      var hidden := d.slides[d.current := Hidden];
      var c := Wrap(n, |d.slides|);
      if c < 0 then (Deck(hidden, c, d.nextDisabled), false)
      else (Deck(hidden[c := Shown], c, c == |d.slides| - 1), true)
  }

  /** `changeSlide(n)`: stepping back from the first slide leaves for the index page and
      touches nothing; every other step is `showSlide(currentSlide + n)`. */
  function Change(d: Deck, n: int): (Deck, Outcome) {
    if d.current == 0 && n < 0 then (d, LeftForIndex)
    else
      var (e, ok) := Show(d, d.current + n);
      (e, if ok then Moved else Threw)
  }

  /** The deck as the page loads: no display set, index 0, "next" enabled. */
  function Initial(count: nat): Deck {
    Deck(seq(count, i => Unset), 0, false)
  }

  /** For any `n` from `-len` on, the wrapped index is `n` modulo `len`, inside the deck. */
  lemma WrapInRange(n: int, len: int)
    requires len > 0 && n >= -len
    ensures Wrap(n, len) == n % len
    ensures 0 <= Wrap(n, len) < len
  {
    JsRemainderNonNegative(n + len, len);
    var q, r := n / len, n % len;
    assert n == q * len + r;
    assert n + len == (q + 1) * len + r;
    ModUnique(n + len, len, q + 1, r);
  }

  /** Below `-len` the JavaScript remainder goes negative unless `n` is a multiple of `len`. */
  lemma WrapBelowRange(n: int, len: int)
    requires len > 0 && n < -len && n % len != 0
    ensures Wrap(n, len) < 0
  {
    var k := -(n + len);
    assert Wrap(n, len) == -(k % len);
    if k % len == 0 {
      var q := k / len;
      assert k == q * len;
      assert n == (-q - 1) * len + 0;
      ModUnique(n, len, -q - 1, 0);
    }
  }

  /** On a consistent deck, `showSlide(n)` with `n >= -len` succeeds, lands on `n` modulo
      `len`, keeps the deck consistent and changes no display other than the old and the new
      slide's. */
  lemma ShowKeepsDeckValid(d: Deck, n: int)
    requires DeckValid(d) && n >= -|d.slides|
    ensures var (e, ok) := Show(d, n);
      ok && DeckValid(e) && e.current == n % |d.slides| && |e.slides| == |d.slides| &&
      e.slides[d.current] == (if e.current == d.current then Shown else Hidden) &&
      forall i :: 0 <= i < |d.slides| && i != d.current && i != e.current ==> e.slides[i] == d.slides[i]
  {
    WrapInRange(n, |d.slides|);
  }

  /** Far enough below zero the new index is negative: the old slide is hidden, no slide is
      shown, and from then on every `showSlide` throws at its first line without effect. */
  lemma ShowBelowRangeBreaksDeck(d: Deck, n: int, m: int)
    requires DeckValid(d) && n < -|d.slides| && n % |d.slides| != 0
    ensures var (e, ok) := Show(d, n);
      !ok && e.current < 0 &&
      (forall i :: 0 <= i < |e.slides| ==> e.slides[i] != Shown) &&
      Show(e, m) == (e, false)
  {
    WrapBelowRange(n, |d.slides|);
  }

  /** The page starts on slide 0 with only that slide shown; an empty deck throws at once. */
  lemma StartShowsFirstSlide(count: nat)
    ensures count > 0 ==> Show(Initial(count), 0).1 && DeckValid(Show(Initial(count), 0).0) &&
                          Show(Initial(count), 0).0.current == 0
    ensures count == 0 ==> Show(Initial(count), 0) == (Initial(count), false)
  {
    if count > 0 {
      WrapInRange(0, count);
    }
  }

  /** "Previous" on the first slide leaves the deck untouched and goes to the index page;
      "previous" elsewhere and "next" anywhere move one slide, "next" wrapping from the last
      slide to the first. */
  lemma StepsWithinDeck(d: Deck, n: int)
    requires DeckValid(d) && (n == 1 || n == -1)
    ensures d.current == 0 && n < 0 ==> Change(d, n) == (d, LeftForIndex)
    ensures !(d.current == 0 && n < 0) ==>
              Change(d, n).1 == Moved && DeckValid(Change(d, n).0) &&
              Change(d, n).0.current == (if d.current + n == |d.slides| then 0 else d.current + n)
  {
    if !(d.current == 0 && n < 0) {
      var c, len := d.current + n, |d.slides|;
      ShowKeepsDeckValid(d, c);
      if c == len {
        ModUnique(c, len, 1, 0);
      } else {
        ModUnique(c, len, 0, c);
      }
    }
  }

  class SlideDeck {
    /** The `.slide` elements' display values. */
    const slides: array<Display>
    var currentSlide: int
    /** `nextBtn.disabled`. */
    var nextDisabled: bool

    function State(): Deck
      reads this, slides
    {
      Deck(slides[..], currentSlide, nextDisabled)
    }

    /** The script's start: `currentSlide = 0`, then `showSlide(0)`. */
    constructor(count: nat)
      ensures fresh(slides) && State() == Show(Initial(count), 0).0
    {
      slides := new Display[count](i => Unset);
      currentSlide := 0;
      nextDisabled := false;
      new;
      assert State() == Initial(count);
      var ok := ShowSlide(0);
    }

    /** `updateButtons()`. */
    method UpdateButtons()
      modifies this
      ensures nextDisabled == (currentSlide == slides.Length - 1)
      ensures currentSlide == old(currentSlide)
    {
      nextDisabled := currentSlide == slides.Length - 1;
    }

    /** `showSlide(n)`; `ok` is `false` when it throws part-way. */
    method ShowSlide(n: int) returns (ok: bool)
      modifies this, slides
      ensures (State(), ok) == Show(old(State()), n)
    {
      if !(0 <= currentSlide < slides.Length) {
        return false;
      }
      slides[currentSlide] := Hidden;
      currentSlide := JsRemainder(n + slides.Length, slides.Length);
      if currentSlide < 0 {
        return false;
      }
      slides[currentSlide] := Shown;
      UpdateButtons();
      ok := true;
    }

    /** `changeSlide(n)`; leaving for the index page is reported, not performed. */
    method ChangeSlide(n: int) returns (o: Outcome)
      modifies this, slides
      ensures (State(), o) == Change(old(State()), n)
    {
      if currentSlide == 0 && n < 0 {
        return LeftForIndex;
      }
      var ok := ShowSlide(currentSlide + n);
      o := if ok then Moved else Threw;
    }
  }
}
