/** The statistic count-up pass (`initStatsCounter`): how one element's text
    is parsed, when an element is skipped, and how the pass updates the list
    of `.stats .num` elements. */
module Stats {
  import opened Dom
  import opened Text
  import CountUp

  /** A statistic element as the pass sees it: its text content and its
      `data-animated` attribute (absent, or whatever string the markup or an
      earlier pass put there). */
  datatype StatElement = StatElement(text: string, animated: Option<string>)

  /** What the parser reads from an element's text. */
  datatype Parsed = Parsed(target: nat, suffix: string)

  /** A count-up animation the pass starts: which element, the count it runs
      to and the suffix it appends. */
  datatype Animation = Animation(index: nat, target: nat, suffix: string)

  /** The least integer that a decimal string turns into `Infinity` under
      `Number` with round-to-nearest-even: 2^1024 - 2^970, half a unit in the
      last place above the largest finite double. */
  const InfinityBound: nat := 179769313486231580793728971405303415079934132710037826936173778980444968292764750946649017977587207096330286416692887910946555547851940402630657488671505820681908902000708383676273854845817711531764475730270069855571366959622842914819860834936475292719074168444365510704342711559699508093042880177904174497792

  /** `/\+$/.test(s)`: the string ends with a plus sign. */
  predicate EndsWithPlus(s: string) {
    |s| > 0 && s[|s| - 1] == '+'
  }

  /** The parse of one element's text: trim it, keep a trailing `+` as the
      suffix, and read the digits that remain after every other character is
      dropped (`Number(numeric || '0')`). */
  function Parse(text: string): (p: Parsed)
    ensures p.suffix == "+" || p.suffix == ""
  {
    var original := Trim(text);
    var suffix := if EndsWithPlus(original) then "+" else "";
    var numeric := KeepDigits(original);
    var digits := if numeric == "" then "0" else numeric;
    Parsed(DecimalValue(digits), suffix)
  }

  /** The target is the number spelled by the digits of the text, in order,
      every other character dropped; the trim does not matter for it. */
  lemma ParseTarget(text: string)
    ensures Parse(text).target == DecimalValue(KeepDigits(text))
  {
    TrimKeepsDigits(text);
  }

  /** The suffix is "+" exactly when the last character that is not white
      space is a plus sign, and empty otherwise. */
  lemma ParseSuffix(text: string)
    ensures Parse(text).suffix == "+" <==>
      exists j :: 0 <= j < |text| && text[j] == '+' && AllTrimmable(text[j + 1..])
    ensures Parse(text).suffix != "+" ==> Parse(text).suffix == ""
  {
    var r := Trim(text);
    var i := TrimOffset(text);
    TrimSpec(text);
    if EndsWithPlus(r) {
      var j := i + |r| - 1;
      assert text[j] == r[|r| - 1];
      assert text[j + 1..] == text[i + |r|..];
    }
    if j :| 0 <= j < |text| && text[j] == '+' && AllTrimmable(text[j + 1..]) {
      // text[j] is not trimmable, so it lies inside the trimmed part and ends it
      assert !IsTrimmable(text[j]);
      assert r[|r| - 1] == text[j];
    }
  }

  /** The target is zero, and the element is skipped, exactly when the text
      has no digit other than '0' (no digits at all included). */
  lemma ParseTargetZero(text: string)
    ensures Parse(text).target == 0 <==>
      forall k :: 0 <= k < |text| && IsDigit(text[k]) ==> text[k] == '0'
  {
    ParseTarget(text);
    KeepDigitsZeros(text);
    DecimalValueZero(KeepDigits(text));
  }

  /** Re-parsing a rendered value: when the rendering of `n` carries exactly
      the decimal digits of `n`, has white space at neither end and does not
      itself end in '+', appending a suffix and parsing gives back `n` and the
      suffix. */
  lemma ParseRendered(n: nat, rendered: string, suffix: string)
    requires KeepDigits(rendered) == ToDecimal(n)
    requires rendered != [] && !IsTrimmable(rendered[0]) && !IsTrimmable(rendered[|rendered| - 1])
    requires !EndsWithPlus(rendered)
    requires suffix == "" || suffix == "+"
    ensures Parse(rendered + suffix) == Parsed(n, suffix)
  {
    var text := rendered + suffix;
    assert text[0] == rendered[0];
    assert !IsTrimmable(text[|text| - 1]);
    assert text == [] + text + [];
    TrimOfPadded([], text, []);
    assert Trim(text) == text;
    assert EndsWithPlus(text) <==> suffix == "+";
    KeepDigitsAppend(rendered, suffix);
    assert KeepDigits(suffix) == [] by {
      if suffix == "+" {
        assert KeepDigits(suffix) == [] + KeepDigits(suffix[1..]);
      }
    }
    assert KeepDigits(text) == ToDecimal(n);
    DecimalRoundTrip(n);
  }

  lemma KeepDigitsExample()
    ensures KeepDigits("1,250+") == "1250"
  {
    assert "1,250+" == "1," + "250+";
    KeepDigitsAppend("1,", "250+");
    assert KeepDigits("1,") == "1" by {
      assert "1,"[1..] == ",";
      assert ","[1..] == "";
    }
    assert KeepDigits("250+") == "250" by {
      assert "250+"[1..] == "50+";
      assert "50+"[1..] == "0+";
      assert "0+"[1..] == "+";
      assert "+"[1..] == "";
    }
  }

  lemma DecimalValueExample()
    ensures DecimalValue("1250") == 1250
  {
    assert "1250"[..3] == "125" && "125"[..2] == "12" && "12"[..1] == "1" && "1"[..0] == "";
  }

  /** The worked example of the count-up markup: "1,250+" counts up to 1250
      and keeps its plus sign. */
  lemma ParseExamplePlus()
    ensures Parse("1,250+") == Parsed(1250, "+")
  {
    var s := "1,250+";
    assert s == [] + s + [];
    TrimOfPadded([], s, []);
    assert Trim(s) == s;
    KeepDigitsExample();
    DecimalValueExample();
  }

  /** A text whose only digit is zero gives target 0. */
  lemma ParseExampleZero()
    ensures Parse(" 0 ") == Parsed(0, "")
  {
    var z := " 0 ";
    assert z == " " + "0" + " ";
    TrimOfPadded(" ", "0", " ");
    assert Trim(z) == "0";
    assert KeepDigits("0") == "0" by {
      assert "0"[1..] == "";
    }
    assert DecimalValue("0") == 0 by {
      assert "0"[..0] == "";
    }
  }

  /** `!Number.isFinite(target) || target <= 0` is false: the element counts up. */
  predicate Qualifies(p: Parsed) {
    0 < p.target < InfinityBound
  }

  predicate IsAnimated(e: StatElement) {
    e.animated == Some("true")
  }

  /** The element is one the pass acts on: not yet animated, with a target
      that qualifies. */
  predicate Starts(e: StatElement) {
    !IsAnimated(e) && Qualifies(Parse(e.text))
  }

  /** What the `forEach` callback does to one element. An element already
      animated, or whose target does not qualify, is left as it is. Otherwise
      it is marked animated and, under reduced motion, its text becomes the
      formatted target followed by the suffix; without reduced motion its text
      is written later, by the animation frames. */
  function Step(e: StatElement, reducedMotion: bool, format: int -> string): StatElement {
    if IsAnimated(e) then e
    else
      var p := Parse(e.text);
      if !Qualifies(p) then e
      else if reducedMotion then StatElement(format(p.target) + p.suffix, Some("true"))
      else e.(animated := Some("true"))
  }

  /** One element, all cases: what changes and when. */
  lemma StepEffect(e: StatElement, reducedMotion: bool, format: int -> string)
    ensures !Starts(e) ==> Step(e, reducedMotion, format) == e
    ensures Starts(e) ==> IsAnimated(Step(e, reducedMotion, format))
    ensures Starts(e) && reducedMotion ==>
      Step(e, reducedMotion, format).text == format(Parse(e.text).target) + Parse(e.text).suffix
    ensures Starts(e) && !reducedMotion ==> Step(e, reducedMotion, format).text == e.text
  {
  }

  /** A second step on the same element changes nothing. */
  lemma StepIdempotent(e: StatElement, reducedMotion: bool, format: int -> string)
    ensures Step(Step(e, reducedMotion, format), reducedMotion, format) == Step(e, reducedMotion, format)
  {
  }

  /** Under reduced motion an element that starts shows at once the text the
      last animation frame would show. */
  lemma ReducedMotionShowsFinalFrame(e: StatElement, format: int -> string)
    requires Starts(e)
    ensures Step(e, true, format).text ==
      CountUp.FrameText(Parse(e.text).target, Parse(e.text).suffix, CountUp.DurationMs, format)
  {
    CountUp.FinalFrame(Parse(e.text).target, CountUp.DurationMs);
  }

  /** The list of elements after the pass. */
  function Pass(s: seq<StatElement>, reducedMotion: bool, format: int -> string): seq<StatElement> {
    if s == [] then []
    else Pass(s[..|s| - 1], reducedMotion, format) + [Step(s[|s| - 1], reducedMotion, format)]
  }

  /** The pass keeps the number of elements and steps each one on its own:
      no element's outcome depends on another. */
  lemma {:induction false} PassAt(s: seq<StatElement>, reducedMotion: bool, format: int -> string)
    ensures |Pass(s, reducedMotion, format)| == |s|
    ensures forall k :: 0 <= k < |s| ==> Pass(s, reducedMotion, format)[k] == Step(s[k], reducedMotion, format)
  {
    if s != [] {
      var n := |s| - 1;
      PassAt(s[..n], reducedMotion, format);
      assert forall k :: 0 <= k < n ==> s[..n][k] == s[k];
    }
  }

  /** Running the pass twice gives the same elements as running it once. */
  lemma PassIdempotent(s: seq<StatElement>, reducedMotion: bool, format: int -> string)
    ensures Pass(Pass(s, reducedMotion, format), reducedMotion, format) == Pass(s, reducedMotion, format)
  {
    var once := Pass(s, reducedMotion, format);
    PassAt(s, reducedMotion, format);
    PassAt(once, reducedMotion, format);
    forall k | 0 <= k < |s|
      ensures Pass(once, reducedMotion, format)[k] == once[k]
    {
      StepIdempotent(s[k], reducedMotion, format);
    }
  }

  /** An element showing its final value at once: the formatted target
      followed by the suffix, marked animated. */
  function ShownAtOnce(e: StatElement, format: int -> string): StatElement {
    var p := Parse(e.text);
    StatElement(format(p.target) + p.suffix, Some("true"))
  }

  /** With reduced motion, each element that starts gets the formatted
      target and its suffix as its text and is marked animated; every other
      element is left exactly as it was. */
  lemma PassReducedMotion(s: seq<StatElement>, format: int -> string)
    ensures |Pass(s, true, format)| == |s|
    ensures forall k :: 0 <= k < |s| && Starts(s[k]) ==> Pass(s, true, format)[k] == ShownAtOnce(s[k], format)
    ensures forall k :: 0 <= k < |s| && !Starts(s[k]) ==> Pass(s, true, format)[k] == s[k]
  {
    PassAt(s, true, format);
    forall k | 0 <= k < |s|
      ensures Starts(s[k]) ==> Pass(s, true, format)[k] == ShownAtOnce(s[k], format)
      ensures !Starts(s[k]) ==> Pass(s, true, format)[k] == s[k]
    {
      StepEffect(s[k], true, format);
    }
  }

  /** The animation started for element `a.index` of `s`: that element
      starts, and the animation runs to its target with its suffix. */
  predicate StartedFor(s: seq<StatElement>, a: Animation) {
    a.index < |s| && Starts(s[a.index])
    && a.target == Parse(s[a.index].text).target
    && a.suffix == Parse(s[a.index].text).suffix
  }

  /** The animations the pass starts, in the order it requests them. */
  function Requests(s: seq<StatElement>, reducedMotion: bool): seq<Animation> {
    if s == [] then []
    else
      var n := |s| - 1;
      Requests(s[..n], reducedMotion) + RequestAt(s[n], n, reducedMotion)
  }

  /** Under reduced motion no animation is started. */
  lemma {:induction false} RequestsReducedMotion(s: seq<StatElement>)
    ensures Requests(s, true) == []
  {
    if s != [] {
      RequestsReducedMotion(s[..|s| - 1]);
    }
  }

  /** Every animation started belongs to an element that starts, runs to that
      element's target with its suffix, and the animations come in element
      order. */
  lemma {:induction false} RequestsSound(s: seq<StatElement>, reducedMotion: bool)
    ensures forall k :: 0 <= k < |Requests(s, reducedMotion)| ==>
      StartedFor(s, Requests(s, reducedMotion)[k])
    ensures forall k, m :: 0 <= k < m < |Requests(s, reducedMotion)| ==>
      Requests(s, reducedMotion)[k].index < Requests(s, reducedMotion)[m].index
  {
    if s != [] {
      var n := |s| - 1;
      RequestsSound(s[..n], reducedMotion);
      var init := Requests(s[..n], reducedMotion);
      var r := Requests(s, reducedMotion);
      assert forall k :: 0 <= k < |init| ==> r[k] == init[k];
      forall k | 0 <= k < |init| ensures StartedFor(s, r[k]) && r[k].index < n {
        assert StartedFor(s[..n], init[k]);
        assert s[..n][init[k].index] == s[init[k].index];
      }
    }
  }

  /** Adding an element at the end keeps the earlier requests in place. */
  lemma RequestsPrefix(s: seq<StatElement>, k: nat, reducedMotion: bool)
    requires s != [] && k < |Requests(s[..|s| - 1], reducedMotion)|
    ensures Requests(s, reducedMotion)[k] == Requests(s[..|s| - 1], reducedMotion)[k]
  {
  }

  /** The last element, if it starts, gets the last request. */
  lemma RequestsLast(s: seq<StatElement>)
    requires s != [] && Starts(s[|s| - 1])
    ensures |Requests(s, false)| == |Requests(s[..|s| - 1], false)| + 1
    ensures Requests(s, false)[|Requests(s[..|s| - 1], false)|].index == |s| - 1
  {
  }

  /** Every element that starts gets its animation. */
  lemma {:induction false} RequestsComplete(s: seq<StatElement>, j: nat)
    requires j < |s| && Starts(s[j])
    ensures exists k :: 0 <= k < |Requests(s, false)| && Requests(s, false)[k].index == j
  {
    var n := |s| - 1;
    if j < n {
      assert s[..n][j] == s[j];
      RequestsComplete(s[..n], j);
      var k :| 0 <= k < |Requests(s[..n], false)| && Requests(s[..n], false)[k].index == j;
      RequestsPrefix(s, k, false);
    } else {
      RequestsLast(s);
    }
  }

  /** A second pass over the elements the first pass left starts nothing:
      there is no double animation. */
  lemma {:induction false} NoRequestsAfterPass(s: seq<StatElement>, reducedMotion: bool, format: int -> string)
    ensures Requests(Pass(s, reducedMotion, format), reducedMotion) == []
  {
    var once := Pass(s, reducedMotion, format);
    if s != [] {
      var n := |s| - 1;
      PassAt(s[..n], reducedMotion, format);
      assert once[..n] == Pass(s[..n], reducedMotion, format);
      NoRequestsAfterPass(s[..n], reducedMotion, format);
      StepEffect(s[n], reducedMotion, format);
    }
  }

  /** The animation `Requests` records for element `i`, if it starts one. */
  function RequestAt(e: StatElement, i: nat, reducedMotion: bool): seq<Animation> {
    if !reducedMotion && Starts(e) then [Animation(i, Parse(e.text).target, Parse(e.text).suffix)] else []
  }

  /** The `forEach` callback for the element at position `i`: returns the
      element as the callback leaves it and the animation it requests, if any. */
  method VisitElement(el: StatElement, i: nat, reducedMotion: bool, format: int -> string)
    returns (updated: StatElement, request: seq<Animation>)
    ensures updated == Step(el, reducedMotion, format)
    ensures request == RequestAt(el, i, reducedMotion)
  {
    updated, request := el, [];
    if el.animated == Some("true") {
      return;
    }
    var p := Parse(el.text);
    var target, suffix := p.target, p.suffix;
    if target >= InfinityBound || target <= 0 {
      return;
    }
    updated := el.(animated := Some("true"));
    if reducedMotion {
      updated := updated.(text := format(target) + suffix);
    } else {
      request := [Animation(i, target, suffix)];
    }
  }

  /** One more element handled: the pass and the requests over the first
      `i + 1` elements extend those over the first `i`. */
  lemma PrefixExtend(s: seq<StatElement>, i: nat, reducedMotion: bool, format: int -> string)
    requires i < |s|
    ensures Pass(s[..i + 1], reducedMotion, format)
            == Pass(s[..i], reducedMotion, format) + [Step(s[i], reducedMotion, format)]
    ensures Requests(s[..i + 1], reducedMotion)
            == Requests(s[..i], reducedMotion) + RequestAt(s[i], i, reducedMotion)
  {
    assert s[..i + 1][..i] == s[..i];
    assert s[..i + 1][i] == s[i];
  }

  /** `initStatsCounter` over the matched elements: each element is updated
      in place as `Step` says, and the animations started are returned in
      the order they were requested. */
  method RunPass(a: array<StatElement>, reducedMotion: bool, format: int -> string)
    returns (started: seq<Animation>)
    modifies a
    ensures a[..] == Pass(old(a[..]), reducedMotion, format)
    ensures started == Requests(old(a[..]), reducedMotion)
  {
    started := [];
    if a.Length == 0 {
      return;
    }
    ghost var before := a[..];
    var i := 0;
    while i < a.Length
      invariant 0 <= i <= a.Length
      invariant a[..i] == Pass(before[..i], reducedMotion, format)
      invariant forall k :: i <= k < a.Length ==> a[k] == before[k]
      invariant started == Requests(before[..i], reducedMotion)
    {
      var updated, request := VisitElement(a[i], i, reducedMotion, format);
      PrefixExtend(before, i, reducedMotion, format);
      ghost var done := a[..i];
      a[i] := updated;
      assert a[..i + 1] == done + [updated];
      started := started + request;
      i := i + 1;
    }
    assert before[..a.Length] == before;
    assert a[..a.Length] == a[..];
  }
}
