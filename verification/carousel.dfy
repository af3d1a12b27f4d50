/** The slide index of the image carousel (src/static/js/carousel.js). The
    DOM queries, the `transform` updates and the listener wiring are not
    modelled; the slide count and whether both buttons exist are fixed when the
    page loads. */
module Carousel {

  /** A JavaScript number as the handlers can produce it: an integer, or NaN
      once a remainder by zero has been taken. */
  datatype JsNum = Num(n: int) | NaN

  function Add(a: JsNum, b: JsNum): JsNum
  {
    if a.NaN? || b.NaN? then NaN else Num(a.n + b.n)
  }

  /** The remainder of a non-negative dividend by a positive divisor. */
  function NatRem(a: nat, m: nat): (r: nat)
    requires m > 0
    ensures r < m
    decreases a
  {
    if a < m then a else NatRem(a - m, m)
  }

  /** JavaScript `%`: the sign follows the dividend, and a zero divisor gives NaN. */
  function Rem(a: JsNum, b: JsNum): (r: JsNum)
    ensures r.Num? <==> a.Num? && b.Num? && b.n != 0
    ensures r.Num? && a.n >= 0 ==> 0 <= r.n < (if b.n < 0 then -b.n else b.n)
    ensures r.Num? && a.n < 0 ==> -(if b.n < 0 then -b.n else b.n) < r.n <= 0
  {
    if a.NaN? || b.NaN? || b.n == 0 then NaN
    else
      var m := if b.n < 0 then -b.n else b.n;
      if a.n >= 0 then Num(NatRem(a.n, m)) else Num(-(NatRem(-a.n, m) as int))
  }

  /** Rem on a dividend below twice the divisor: at most one wrap. */
  lemma RemSmall(a: int, m: int)
    requires 0 <= a < 2 * m
    ensures Rem(Num(a), Num(m)) == Num(if a < m then a else a - m)
  {
    if a >= m {
      assert NatRem(a, m) == NatRem(a - m, m);
    }
  }

  /** JavaScript's `%` truncates: `-1 % 3` is `-1`, where Euclidean `%` gives 2. */
  lemma RemTruncates()
    ensures Rem(Num(-1), Num(3)) == Num(-1)
    ensures Rem(Num(7), Num(0)) == NaN
  {
  }

  /** The next-button handler's new index. */
  function NextIndex(i: JsNum, n: nat): JsNum
  {
    Rem(Add(i, Num(1)), Num(n))
  }

  /** The prev-button handler's new index. */
  function PrevIndex(i: JsNum, n: nat): JsNum
  {
    Rem(Add(Add(i, Num(-1)), Num(n)), Num(n))
  }

  /** An index that points at a slide. */
  predicate InRange(i: JsNum, n: nat)
  {
    i.Num? && 0 <= i.n < n
  }

  /** With at least one slide, both handlers keep the index on a slide; next
      moves one forward and wraps after the last, prev moves one back and wraps
      before the first. */
  lemma StepsStayInRange(i: JsNum, n: nat)
    requires InRange(i, n)
    ensures InRange(NextIndex(i, n), n) && InRange(PrevIndex(i, n), n)
    ensures NextIndex(i, n) == Num(if i.n == n - 1 then 0 else i.n + 1)
    ensures PrevIndex(i, n) == Num(if i.n == 0 then n - 1 else i.n - 1)
  {
    RemSmall(i.n + 1, n);
    RemSmall(i.n - 1 + n, n);
  }

  /** Prev undoes next and next undoes prev. */
  lemma PrevNextInverse(i: JsNum, n: nat)
    requires InRange(i, n)
    ensures PrevIndex(NextIndex(i, n), n) == i
    ensures NextIndex(PrevIndex(i, n), n) == i
  {
    StepsStayInRange(i, n);
    StepsStayInRange(NextIndex(i, n), n);
    StepsStayInRange(PrevIndex(i, n), n);
  }

  /** With no slides, the first click turns the index into NaN and it stays NaN. */
  lemma NoSlidesGiveNaN(i: JsNum)
    ensures NextIndex(i, 0) == NaN && PrevIndex(i, 0) == NaN
    ensures NextIndex(NaN, 0) == NaN && PrevIndex(NaN, 0) == NaN
  {
  }

  /** A click on one of the two buttons. */
  datatype Click = PrevClick | NextClick

  /** The index after a run of clicks; with a button missing no handler is
      registered and clicks change nothing. */
  function AfterClicks(i: JsNum, n: nat, buttonsFound: bool, clicks: seq<Click>): JsNum
    decreases |clicks|
  {
    if |clicks| == 0 || !buttonsFound then i
    else
      var j := if clicks[0] == NextClick then NextIndex(i, n) else PrevIndex(i, n);
      AfterClicks(j, n, buttonsFound, clicks[1..])
  }

  /** With at least one slide, every run of clicks keeps the index on a slide. */
  lemma {:induction false} ClicksStayInRange(i: JsNum, n: nat, buttonsFound: bool, clicks: seq<Click>)
    requires InRange(i, n)
    ensures InRange(AfterClicks(i, n, buttonsFound, clicks), n)
    decreases |clicks|
  {
    if |clicks| > 0 && buttonsFound {
      StepsStayInRange(i, n);
      var j := if clicks[0] == NextClick then NextIndex(i, n) else PrevIndex(i, n);
      ClicksStayInRange(j, n, buttonsFound, clicks[1..]);
    }
  }

  /** With a button missing, the index stays where it started. */
  lemma {:induction false} NoButtonsNoMove(i: JsNum, n: nat, clicks: seq<Click>)
    ensures AfterClicks(i, n, false, clicks) == i
  {
  }

  /** `k` next clicks in a row. */
  function Nexts(k: nat): (cs: seq<Click>)
    ensures |cs| == k && forall j | 0 <= j < k :: cs[j] == NextClick
  {
    seq(k, _ => NextClick)
  }

  /** Up to `n` next clicks from slide `i` move `k` slides forward, wrapping
      past the last slide at most once. */
  lemma {:induction false} NextClicksAdvance(i: nat, n: nat, k: nat)
    requires i < n && k <= n
    ensures AfterClicks(Num(i), n, true, Nexts(k)) == Num(if i + k < n then i + k else i + k - n)
    decreases k
  {
    if k > 0 {
      StepsStayInRange(Num(i), n);
      var j: nat := if i == n - 1 then 0 else i + 1;
      assert Nexts(k)[1..] == Nexts(k - 1);
      NextClicksAdvance(j, n, k - 1);
    }
  }

  /** `n` next clicks bring the carousel back to the slide it showed. */
  lemma FullTurn(i: nat, n: nat)
    requires i < n
    ensures AfterClicks(Num(i), n, true, Nexts(n)) == Num(i)
  {
    NextClicksAdvance(i, n, n);
  }

  /** The carousel on one page. */
  class Slider {
    const slideCount: nat
    const buttonsFound: bool
    var currentIndex: JsNum

    /** Page load: the index starts at 0. */
    constructor(slideCount: nat, buttonsFound: bool)
      ensures this.slideCount == slideCount && this.buttonsFound == buttonsFound
      ensures currentIndex == Num(0)
    {
      this.slideCount := slideCount;
      this.buttonsFound := buttonsFound;
      currentIndex := Num(0);
    }

    /** A click on the prev button. */
    method ClickPrev()
      modifies this
      ensures currentIndex == if buttonsFound then PrevIndex(old(currentIndex), slideCount) else old(currentIndex)
    {
      if buttonsFound {
        currentIndex := Rem(Add(Add(currentIndex, Num(-1)), Num(slideCount)), Num(slideCount));
      }
    }

    /** A click on the next button. */
    method ClickNext()
      modifies this
      ensures currentIndex == if buttonsFound then NextIndex(old(currentIndex), slideCount) else old(currentIndex)
    {
      if buttonsFound {
        currentIndex := Rem(Add(currentIndex, Num(1)), Num(slideCount));
      }
    }
  }
}
