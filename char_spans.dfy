/** Per-character text reveal: `createCharSpans`, `startBlurAnimation`,
    `applyBlurAnimation` and the active-tab filter of `animateText`
    (src/js/main.js). An element's content is either plain text or the
    run of `char-NNNNN` spans that `createCharSpans` put in its place. */
module CharSpans {
  import opened Wrappers
  import opened Decimal

  const Nbsp: char := '\U{00A0}'

  /** `Math.floor(Math.random() * 100000)` lies below this bound. */
  const ClassDrawBound: nat := 100000

  /** The `options` object; only `blur` matters to the model
      (`options.blur !== false`, with both configured uses setting it to true).
      The floating-point `charDelay` is not modelled. */
  datatype Options = Options(blur: bool)

  const TitleConfig := Options(blur := true)
  const DescriptionConfig := Options(blur := true)

  /** One character span: its text, its `char-NNNNN` class, its position
      (the factor of `animationDelay = i * charDelay`) and whether the class
      `animate-char-active` has been added. */
  datatype Span = Span(text: char, className: string, position: nat, active: bool)

  datatype Content = Plain(text: string) | Split(spans: seq<Span>)

  /** `el.querySelector('span[class^="char-"]')` finds something. */
  predicate HasCharSpans(c: Content) {
    c.Split? && |c.spans| > 0
  }

  function SpansText(ss: seq<Span>): (t: string)
    ensures |t| == |ss|
    ensures forall k :: 0 <= k < |ss| ==> t[k] == ss[k].text
  {
    if ss == [] then [] else SpansText(ss[..|ss| - 1]) + [ss[|ss| - 1].text]
  }

  /** `el.textContent`. */
  function TextContent(c: Content): string {
    match c
    case Plain(t) => t
    case Split(ss) => SpansText(ss)
  }

  /** White space and line terminators as `String.prototype.trim` removes them
      (ECMAScript WhiteSpace and LineTerminator). */
  predicate IsTrimmed(c: char) {
    || c == '\t' || c == '\n' || c == '\U{000B}' || c == '\U{000C}' || c == '\r'
    || c == ' ' || c == '\U{00A0}' || c == '\U{1680}' || ('\U{2000}' <= c <= '\U{200A}')
    || c == '\U{2028}' || c == '\U{2029}' || c == '\U{202F}' || c == '\U{205F}'
    || c == '\U{3000}' || c == '\U{FEFF}'
  }

  /** Number of leading trimmable characters. */
  function LeadingSpace(s: string): (n: nat)
    ensures n <= |s|
    ensures forall k :: 0 <= k < n ==> IsTrimmed(s[k])
    ensures n < |s| ==> !IsTrimmed(s[n])
  {
    if |s| > 0 && IsTrimmed(s[0]) then 1 + LeadingSpace(s[1..]) else 0
  }

  /** Number of trailing trimmable characters. */
  function TrailingSpace(s: string): (n: nat)
    ensures n <= |s|
    ensures forall k :: |s| - n <= k < |s| ==> IsTrimmed(s[k])
    ensures n < |s| ==> !IsTrimmed(s[|s| - 1 - n])
  {
    if |s| > 0 && IsTrimmed(s[|s| - 1]) then 1 + TrailingSpace(s[..|s| - 1]) else 0
  }

  /** `s.trim()`: the slice left after removing leading and trailing
      trimmable characters. */
  function Trim(s: string): (r: string)
    ensures |r| <= |s|
    ensures r == [] <==> forall k :: 0 <= k < |s| ==> IsTrimmed(s[k])
    ensures r != [] ==> !IsTrimmed(r[0]) && !IsTrimmed(r[|r| - 1])
  {
    var i := LeadingSpace(s);
    if i == |s| then
      assert s[i..i] == [];
      []
    else
      var j := |s| - TrailingSpace(s);
      assert i < j by {
        assert !IsTrimmed(s[i]);
      }
      s[i..j]
  }

  /** What `trim` removes is trimmable characters only, from the two ends. */
  lemma TrimIsSlice(s: string)
    ensures exists i, j ::
              && 0 <= i <= j <= |s| && Trim(s) == s[i..j]
              && (forall k :: 0 <= k < i ==> IsTrimmed(s[k]))
              && (forall k :: j <= k < |s| ==> IsTrimmed(s[k]))
  {
    var i := LeadingSpace(s);
    if i == |s| {
      assert Trim(s) == s[i..i];
    } else {
      var j := |s| - TrailingSpace(s);
      assert !IsTrimmed(s[i]);
      assert Trim(s) == s[i..j];
    }
  }

  /** The text a span shows for one character: a space becomes U+00A0. */
  function SpanChar(c: char): (d: char)
    ensures d != ' '
    ensures c != ' ' ==> d == c
  {
    if c == ' ' then Nbsp else c
  }

  /** One span per code point of `t`, in order, all with class `cls`. */
  function SpansOf(t: string, cls: string): (ss: seq<Span>)
    ensures |ss| == |t|
  {
    seq(|t|, k requires 0 <= k < |t| => Span(SpanChar(t[k]), cls, k, false))
  }

  lemma SpansOfSnoc(t: string, i: nat, cls: string)
    requires i < |t|
    ensures SpansOf(t[..i + 1], cls) == SpansOf(t[..i], cls) + [Span(SpanChar(t[i]), cls, i, false)]
  {
    var a := SpansOf(t[..i + 1], cls);
    var b := SpansOf(t[..i], cls) + [Span(SpanChar(t[i]), cls, i, false)];
    assert |a| == |b|;
    forall k | 0 <= k < |a| ensures a[k] == b[k] {
    }
  }

  function ClassFor(draw: nat): (cls: string)
    ensures |cls| > 5 && cls[..5] == "char-"
  {
    "char-" + NatToString(draw)
  }

  /** The content after `createCharSpans(el, options)` with random draw `draw`. */
  function Created(c: Content, o: Options, draw: nat): Content {
    if HasCharSpans(c) || !o.blur then c
    else
      var t := Trim(TextContent(c));
      if t == [] then c else Split(SpansOf(t, ClassFor(draw)))
  }

  /** The content after `startBlurAnimation(el)`: every char span gains
      `animate-char-active`. */
  function Activated(c: Content): Content {
    match c
    case Plain(t) => c
    case Split(ss) => Split(seq(|ss|, k requires 0 <= k < |ss| => ss[k].(active := true)))
  }

  /** The content after `applyBlurAnimation(el, options)`. */
  function Applied(c: Content, o: Options, draw: nat): Content {
    if !o.blur then c
    else Activated(if HasCharSpans(c) then c else Created(c, o, draw))
  }

  /** `animateText`'s filter: an element is animated when it is not inside a
      hero tab panel, or when that panel is the active one. `parentTab` is
      `None` outside any panel and `Some(active)` inside one. */
  function InActiveTab(parentTab: Option<bool>): (animate: bool)
  {
    var isInActiveTab := parentTab.None? || parentTab.value;
    isInActiveTab || parentTab.None?
  }

  // ---------------------------------------------------------------------
  // Properties of the specification functions

  /** The three early exits of `createCharSpans`: already split, blur
      disabled, nothing left after trimming. */
  lemma CreatedGuards(c: Content, o: Options, draw: nat)
    ensures Created(c, o, draw) == c <==>
      (HasCharSpans(c) || !o.blur || Trim(TextContent(c)) == [])
  {
    if !HasCharSpans(c) && o.blur && Trim(TextContent(c)) != [] {
      assert !HasCharSpans(c) && HasCharSpans(Created(c, o, draw));
    }
  }

  /** When `createCharSpans` does its work, the element holds one span per
      code point of the trimmed text, in order, each a space-to-U+00A0 copy
      of it, all with one class beginning `char-`, none yet active; and the
      element's new text is that mapped text. */
  lemma CreatedShape(c: Content, o: Options, draw: nat)
    requires !HasCharSpans(c) && o.blur && Trim(TextContent(c)) != []
    ensures var t := Trim(TextContent(c));
      var r := Created(c, o, draw);
      && HasCharSpans(r)
      && |r.spans| == |t|
      && (forall k :: 0 <= k < |t| ==>
            r.spans[k].text == (if t[k] == ' ' then Nbsp else t[k])
            && r.spans[k].position == k && !r.spans[k].active
            && r.spans[k].className == r.spans[0].className)
      && r.spans[0].className[..5] == "char-"
      && TextContent(r) == seq(|t|, k requires 0 <= k < |t| => SpanChar(t[k]))
  {
    var t := Trim(TextContent(c));
    var r := Created(c, o, draw);
    assert r.spans == SpansOf(t, ClassFor(draw));
    assert TextContent(r) == seq(|t|, k requires 0 <= k < |t| => SpanChar(t[k]));
  }

  /** The text of a split element contains no ordinary space: every space
      became U+00A0. */
  lemma CreatedHasNoSpace(c: Content, o: Options, draw: nat)
    requires HasCharSpans(Created(c, o, draw)) && !HasCharSpans(c)
    ensures forall k :: 0 <= k < |TextContent(Created(c, o, draw))| ==>
      TextContent(Created(c, o, draw))[k] != ' '
  {
  }

  /** A split element is left alone by a second `createCharSpans`. */
  lemma CreatedIdempotent(c: Content, o: Options, d1: nat, d2: nat)
    ensures Created(Created(c, o, d1), o, d2) == Created(c, o, d1)
  {
  }

  /** Starting the animation twice is the same as starting it once, and it
      leaves the text and classes of every span as they were. */
  lemma ActivatedIdempotent(c: Content)
    ensures Activated(Activated(c)) == Activated(c)
    ensures TextContent(Activated(c)) == TextContent(c)
    ensures HasCharSpans(Activated(c)) == HasCharSpans(c)
  {
    if c.Split? {
      var a := Activated(c);
      assert SpansText(a.spans) == SpansText(c.spans);
    }
  }

  /** After `applyBlurAnimation` with blur on, every char span is active. */
  lemma AppliedAllActive(c: Content, o: Options, draw: nat)
    requires o.blur
    ensures var r := Applied(c, o, draw);
      r.Split? ==> forall k :: 0 <= k < |r.spans| ==> r.spans[k].active
  {
  }

  /** `applyBlurAnimation` is idempotent, whatever class the second call
      would have drawn. */
  lemma AppliedIdempotent(c: Content, o: Options, d1: nat, d2: nat)
    ensures Applied(Applied(c, o, d1), o, d2) == Applied(c, o, d1)
  {
    if o.blur {
      var m := if HasCharSpans(c) then c else Created(c, o, d1);
      ActivatedIdempotent(m);
      if !HasCharSpans(m) {
        // Nothing was split: the second call's creation step finds the same
        // trimmed text and declines again.
        assert Created(Activated(m), o, d2) == Activated(m);
      }
    }
  }

  /** The filter of `animateText`: an element is animated exactly when it is
      outside every hero panel or inside the active one. */
  lemma InActiveTabExactly(parentTab: Option<bool>)
    ensures InActiveTab(parentTab) <==> (parentTab == None || parentTab == Some(true))
  {
  }

  // ---------------------------------------------------------------------
  // The element, updated in place

  class TextElement {
    var content: Content

    constructor(text: string)
      ensures content == Plain(text)
    {
      content := Plain(text);
    }

    /** `createCharSpans(el, options)`: clears the element and appends one
        span per code point of the trimmed text. */
    method CreateCharSpans(o: Options, draw: nat)
      requires draw < ClassDrawBound
      modifies this
      ensures content == Created(old(content), o, draw)
    {
      if HasCharSpans(content) {
        return;
      }
      if !o.blur {
        return;
      }
      var cls := ClassFor(draw);
      var text := Trim(TextContent(content));
      if text == [] {
        return;
      }
      content := Split([]);
      var i := 0;
      while i < |text|
        invariant 0 <= i <= |text|
        invariant content == Split(SpansOf(text[..i], cls))
      {
        SpansOfSnoc(text, i, cls);
        content := Split(content.spans + [Span(SpanChar(text[i]), cls, i, false)]);
        i := i + 1;
      }
      assert text[..i] == text;
    }

    /** `startBlurAnimation(el)`: adds `animate-char-active` to each span. */
    method StartBlurAnimation()
      modifies this
      ensures content == Activated(old(content))
    {
      if content.Plain? {
        return;
      }
      ghost var before := content.spans;
      var i := 0;
      while i < |content.spans|
        invariant content.Split? && |content.spans| == |before|
        invariant 0 <= i <= |content.spans|
        invariant forall k :: 0 <= k < i ==> content.spans[k] == before[k].(active := true)
        invariant forall k :: i <= k < |content.spans| ==> content.spans[k] == before[k]
      {
        content := Split(content.spans[i := content.spans[i].(active := true)]);
        i := i + 1;
      }
    }

    /** `applyBlurAnimation(el, options)`. */
    method ApplyBlurAnimation(o: Options, draw: nat)
      requires draw < ClassDrawBound
      modifies this
      ensures content == Applied(old(content), o, draw)
    {
      if !o.blur {
        return;
      }
      if !HasCharSpans(content) {
        CreateCharSpans(o, draw);
      }
      StartBlurAnimation();
    }
  }

  /** No element occurs twice (what `querySelectorAll` returns). */
  ghost predicate Distinct(els: seq<TextElement>) {
    forall i, j :: 0 <= i < j < |els| ==> els[i] != els[j]
  }

  /** The two parts of a list without repetitions have none either. */
  lemma DistinctParts(a: seq<TextElement>, b: seq<TextElement>)
    requires Distinct(a + b)
    ensures Distinct(a) && Distinct(b)
    ensures forall i, j :: 0 <= i < |a| && 0 <= j < |b| ==> a[i] != b[j]
  {
    var all := a + b;
    forall i, j | 0 <= i < j < |a| ensures a[i] != a[j] {
      assert a[i] == all[i] && a[j] == all[j];
    }
    forall i, j | 0 <= i < j < |b| ensures b[i] != b[j] {
      assert b[i] == all[|a| + i] && b[j] == all[|a| + j];
    }
    forall i, j | 0 <= i < |a| && 0 <= j < |b| ensures a[i] != b[j] {
      assert a[i] == all[i] && b[j] == all[|a| + j];
    }
  }

  /** `els.forEach((el) => applyBlurAnimation(el, o))`, the `k`-th call
      drawing `draws[k]`. */
  method ApplyToAll(els: seq<TextElement>, o: Options, draws: seq<nat>)
    requires Distinct(els)
    requires |draws| == |els|
    requires forall k :: 0 <= k < |draws| ==> draws[k] < ClassDrawBound
    modifies set e | e in els
    ensures forall k :: 0 <= k < |els| ==> els[k].content == Applied(old(els[k].content), o, draws[k])
  {
    ghost var before := seq(|els|, k requires 0 <= k < |els| reads els => els[k].content);
    var i := 0;
    while i < |els|
      invariant 0 <= i <= |els|
      invariant forall k :: 0 <= k < i ==> els[k].content == Applied(before[k], o, draws[k])
      invariant forall k :: i <= k < |els| ==> els[k].content == before[k]
    {
      els[i].ApplyBlurAnimation(o, draws[i]);
      i := i + 1;
    }
  }

  /** One element found by `animateText`'s selector, with the active flag of
      the hero panel around it, if any. */
  datatype Target = Target(el: TextElement, parentTab: Option<bool>)

  /** `animateText(selector, options)`: with blur enabled, applies the blur
      animation to every found element that passes the active-tab filter and
      leaves the others alone. */
  method AnimateText(targets: seq<Target>, o: Options, draws: seq<nat>)
    requires forall i, j :: 0 <= i < j < |targets| ==> targets[i].el != targets[j].el
    requires |draws| == |targets|
    requires forall k :: 0 <= k < |draws| ==> draws[k] < ClassDrawBound
    modifies set t | t in targets :: t.el
    ensures forall k :: 0 <= k < |targets| ==>
      targets[k].el.content ==
        if o.blur && InActiveTab(targets[k].parentTab)
        then Applied(old(targets[k].el.content), o, draws[k])
        else old(targets[k].el.content)
  {
    if |targets| == 0 {
      return;
    }
    if !o.blur {
      return;
    }
    ghost var before := seq(|targets|, k requires 0 <= k < |targets| reads set t | t in targets :: t.el => targets[k].el.content);
    var i := 0;
    while i < |targets|
      invariant 0 <= i <= |targets|
      invariant forall k :: 0 <= k < i ==>
        targets[k].el.content ==
          if InActiveTab(targets[k].parentTab) then Applied(before[k], o, draws[k]) else before[k]
      invariant forall k :: i <= k < |targets| ==> targets[k].el.content == before[k]
    {
      if InActiveTab(targets[i].parentTab) {
        targets[i].el.ApplyBlurAnimation(o, draws[i]);
      }
      i := i + 1;
    }
  }
}
