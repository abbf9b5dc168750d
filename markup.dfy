/** Reading a checklist back out of its HTML rendering
    (`extract_checklist_from_html`, app.py:80-97). The program runs
    `re.findall` with the pattern

      <div class="checklist-item ([^"]+)">\s*<span class="checkmark">([^<]+)</span>\s*<span>([^<]+)</span>\s*</div>

    Every repetition in it is followed by a character the repeated class
    excludes (a `"`, a `<`, or a non-space), so a match at a given position
    is unique and greedy: no backtracking can find another. `MatchAt` is
    that match and `FindAll` is the left-to-right scan of `findall`. */
module ChecklistMarkup {
  import opened Text
  import opened Options
  import opened Checklist
  import opened FallbackMode

  /** The three groups of one match: class, checkmark and detail. */
  datatype Capture = Capture(cssClass: string, checkmark: string, detail: string)

  /** What follows `lit` in `s`, when `s` starts with it. */
  function AfterLiteral(s: string, lit: string): (r: Option<string>)
    ensures r.Some? ==> |r.value| == |s| - |lit|
  {
    if lit <= s then Some(s[|lit|..]) else None
  }

  /** The length of the longest prefix of `s` without the character `c`. */
  function RunWithout(s: string, c: char): (n: nat)
    ensures n <= |s|
  {
    if s != [] && s[0] != c then 1 + RunWithout(s[1..], c) else 0
  }

  /** `[^c]+` at the start of `s`: the greedy run and what follows it. */
  function TakeRun(s: string, c: char): (r: Option<(string, string)>)
    ensures r.Some? ==> |r.value.1| < |s|
  {
    var n := RunWithout(s, c);
    if n == 0 then None else Some((s[..n], s[n..]))
  }

  /** The match of the item pattern at the start of `s`, with the text
      after it, if there is one: the opening tag and its class, then the
      checkmark span, then the detail span and the closing tag. */
  function MatchAt(s: string): (r: Option<(Capture, string)>)
    ensures r.Some? ==> |r.value.1| < |s|
  {
    var a := AfterLiteral(s, ItemOpen);
    if a.None? then None else
    var cls := TakeRun(a.value, '"');
    if cls.None? then None else
    var b := AfterLiteral(cls.value.1, TagEnd);
    if b.None? then None else
    var m := MatchCheckmark(SkipSpaces(b.value));
    if m.None? then None else
    Some((Capture(cls.value.0, m.value.0, m.value.1), m.value.2))
  }

  /** `<span class="checkmark">([^<]+)</span>\s*` and the rest of the
      pattern: the checkmark, the detail and the text after the match. */
  function MatchCheckmark(s: string): (r: Option<(string, string, string)>)
    ensures r.Some? ==> |r.value.2| < |s|
  {
    var c := AfterLiteral(s, CheckmarkOpen);
    if c.None? then None else
    var mark := TakeRun(c.value, '<');
    if mark.None? then None else
    var d := AfterLiteral(mark.value.1, SpanClose);
    if d.None? then None else
    var m := MatchDetail(SkipSpaces(d.value));
    if m.None? then None else
    Some((mark.value.0, m.value.0, m.value.1))
  }

  /** `<span>([^<]+)</span>\s*</div>`: the detail and the text after it. */
  function MatchDetail(s: string): (r: Option<(string, string)>)
    ensures r.Some? ==> |r.value.1| < |s|
  {
    var e := AfterLiteral(s, SpanOpen);
    if e.None? then None else
    var detail := TakeRun(e.value, '<');
    if detail.None? then None else
    var f := AfterLiteral(detail.value.1, SpanClose);
    if f.None? then None else
    var g := AfterLiteral(SkipSpaces(f.value), DivClose);
    if g.None? then None else
    Some((detail.value.0, g.value))
  }

  /** `re.findall`: try the pattern at each position from the left; after
      a match, go on from its end, otherwise from the next character. */
  function FindAll(s: string): seq<Capture>
    decreases |s|
  {
    if s == [] then []
    else
      match MatchAt(s)
      case Some((capture, rest)) => [capture] + FindAll(rest)
      case None => FindAll(s[1..])
  }

  /** The items `extract_checklist_from_html` returns: none for a missing or
      empty document, otherwise one per match in document order, the match
      index as id, and identified when "identified" occurs in the class. */
  function ExtractedItems(html: Option<string>): (r: seq<ItemValue>)
    ensures IdsArePositions(r)
    ensures html.None? || html.value == [] ==> r == []
  {
    if html.None? || html.value == [] then []
    else
      var matches := FindAll(html.value);
      seq(|matches|, i requires 0 <= i < |matches| =>
        ItemValue(matches[i].detail, Contains(matches[i].cssClass, "identified"), i))
  }

  /** `extract_checklist_from_html`: one fresh item per match. */
  method ExtractChecklistFromHtml(html: Option<string>) returns (checklist: seq<Item>)
    ensures forall i :: 0 <= i < |checklist| ==> fresh(checklist[i])
    ensures Snapshot(checklist) == ExtractedItems(html)
  {
    if html.None? || html.value == [] {
      return [];
    }
    var matches := FindAll(html.value);
    var values := seq(|matches|, i requires 0 <= i < |matches| =>
      ItemValue(matches[i].detail, Contains(matches[i].cssClass, "identified"), i));
    checklist := Materialize(values);
  }

  // =====================================================================
  // Reading back what `create_html_checklist` writes

  /** What the pattern captures from the block of one item. */
  function CaptureOf(item: ItemValue): Capture {
    Capture(CssClass(item.identified), Checkmark(item.identified), item.detail)
  }

  function CapturesOf(items: seq<ItemValue>): (r: seq<Capture>)
    ensures |r| == |items|
    ensures forall k :: 0 <= k < |items| ==> r[k] == CaptureOf(items[k])
  {
    if items == [] then [] else [CaptureOf(items[0])] + CapturesOf(items[1..])
  }

  /** A detail the pattern reads back whole: `[^<]+` stops at a `<`. */
  predicate Readable(detail: string) {
    detail != [] && '<' !in detail
  }

  /** Both classes the renderer writes contain "identified": "not-identified"
      does too, so the substring test reads every item as identified. */
  lemma ClassReadsIdentified(identified: bool)
    ensures Contains(CssClass(identified), "identified")
  {
    if identified {
      assert OccursAt("identified", "identified", 0);
    } else {
      assert CssClass(false) == "not-" + "identified" + "";
      OccursBetween("not-", "identified", "");
    }
  }

  // ---------------------------------------------------------------------
  // The scanner on known text

  lemma AfterLiteralOf(lit: string, rest: string)
    ensures AfterLiteral(lit + rest, lit) == Some(rest)
  {
    assert (lit + rest)[..|lit|] == lit;
    assert (lit + rest)[|lit|..] == rest;
  }

  lemma {:induction false} RunWithoutOf(w: string, c: char, rest: string)
    requires c !in w && (rest == [] || rest[0] == c)
    ensures RunWithout(w + rest, c) == |w|
  {
    if w == [] {
      assert w + rest == rest;
    } else {
      assert (w + rest)[0] == w[0] && (w + rest)[1..] == w[1..] + rest;
      RunWithoutOf(w[1..], c, rest);
    }
  }

  lemma TakeRunOf(w: string, c: char, rest: string)
    requires w != [] && c !in w && (rest == [] || rest[0] == c)
    ensures TakeRun(w + rest, c) == Some((w, rest))
  {
    RunWithoutOf(w, c, rest);
    assert (w + rest)[..|w|] == w && (w + rest)[|w|..] == rest;
  }

  /** The block of one item, written out piece by piece from the right. */
  lemma ItemHtmlPieces(item: ItemValue, rest: string)
    ensures ItemHtml(item) + rest
      == ItemOpen + (CssClass(item.identified) + (TagEnd + (CheckmarkOpen + (Checkmark(item.identified)
         + (SpanClose + (SpanOpen + (item.detail + (SpanClose + (DivClose + rest)))))))))
  {
    var o, c, d := OpeningTag(item.identified), CheckmarkSpan(item.identified), DetailSpan(item.detail);
    var x := DivClose + rest;
    AppendAssociates(o + c + d, DivClose, rest);
    AppendAssociates(o + c, d, x);
    AppendAssociates(o, c, d + x);
    AppendAssociates(SpanOpen + item.detail, SpanClose, x);
    AppendAssociates(SpanOpen, item.detail, SpanClose + x);
    var y := d + x;
    AppendAssociates(CheckmarkOpen + Checkmark(item.identified), SpanClose, y);
    AppendAssociates(CheckmarkOpen, Checkmark(item.identified), SpanClose + y);
    var z := c + y;
    AppendAssociates(ItemOpen + CssClass(item.identified), TagEnd, z);
    AppendAssociates(ItemOpen, CssClass(item.identified), TagEnd + z);
  }

  /** A text that starts with a tag has no leading whitespace to skip. */
  lemma NoSpacesBeforeTag(lit: string, rest: string)
    requires lit != [] && lit[0] == '<'
    ensures SkipSpaces(lit + rest) == lit + rest
  {
    assert (lit + rest)[0] == '<';
  }

  lemma MatchDetailOf(detail: string, rest: string)
    requires Readable(detail)
    ensures MatchDetail(SpanOpen + (detail + (SpanClose + (DivClose + rest)))) == Some((detail, rest))
  {
    var r9 := DivClose + rest;
    var r8 := SpanClose + r9;
    var r7 := detail + r8;
    AfterLiteralOf(SpanOpen, r7);
    TakeRunOf(detail, '<', r8);
    AfterLiteralOf(SpanClose, r9);
    NoSpacesBeforeTag(DivClose, rest);
    AfterLiteralOf(DivClose, rest);
  }

  lemma MatchCheckmarkOf(mark: string, detail: string, rest: string)
    requires Readable(mark) && Readable(detail)
    ensures var r6 := SpanOpen + (detail + (SpanClose + (DivClose + rest)));
      MatchCheckmark(CheckmarkOpen + (mark + (SpanClose + r6))) == Some((mark, detail, rest))
  {
    var r6 := SpanOpen + (detail + (SpanClose + (DivClose + rest)));
    var r5 := SpanClose + r6;
    AfterLiteralOf(CheckmarkOpen, mark + r5);
    TakeRunOf(mark, '<', r5);
    AfterLiteralOf(SpanClose, r6);
    NoSpacesBeforeTag(SpanOpen, detail + (SpanClose + (DivClose + rest)));
    MatchDetailOf(detail, rest);
  }

  lemma MatchOpeningOf(cls: string, r3: string, mark: string, detail: string, rest: string)
    requires cls != [] && '"' !in cls
    requires SkipSpaces(r3) == r3
    requires MatchCheckmark(r3) == Some((mark, detail, rest))
    ensures MatchAt(ItemOpen + (cls + (TagEnd + r3))) == Some((Capture(cls, mark, detail), rest))
  {
    var r2 := TagEnd + r3;
    AfterLiteralOf(ItemOpen, cls + r2);
    TakeRunOf(cls, '"', r2);
    AfterLiteralOf(TagEnd, r3);
    MatchAtFrom(ItemOpen + (cls + r2), cls + r2, cls, r2, r3, mark, detail, rest);
  }

  /** `MatchAt` from the outcome of each of its steps. */
  lemma MatchAtFrom(s: string, a: string, cls: string, r2: string, r3: string,
                    mark: string, detail: string, rest: string)
    requires AfterLiteral(s, ItemOpen) == Some(a)
    requires TakeRun(a, '"') == Some((cls, r2))
    requires AfterLiteral(r2, TagEnd) == Some(r3)
    requires SkipSpaces(r3) == r3
    requires MatchCheckmark(r3) == Some((mark, detail, rest))
    ensures MatchAt(s) == Some((Capture(cls, mark, detail), rest))
  {
  }

  /** The class and the checkmark the renderer writes end their runs
      where the pattern expects. */
  lemma RenderedPiecesReadable(identified: bool)
    ensures CssClass(identified) != [] && '"' !in CssClass(identified)
    ensures Readable(Checkmark(identified))
  {
  }

  /** The pattern matches an item block whole and captures its class,
      checkmark and detail, when the detail is readable. */
  lemma MatchItemBlock(item: ItemValue, rest: string)
    requires Readable(item.detail)
    ensures MatchAt(ItemHtml(item) + rest) == Some((CaptureOf(item), rest))
  {
    var cls, mark := CssClass(item.identified), Checkmark(item.identified);
    var r4 := mark + (SpanClose + (SpanOpen + (item.detail + (SpanClose + (DivClose + rest)))));
    var r3 := CheckmarkOpen + r4;
    RenderedPiecesReadable(item.identified);
    MatchCheckmarkOf(mark, item.detail, rest);
    NoSpacesBeforeTag(CheckmarkOpen, r4);
    MatchOpeningOf(cls, r3, mark, item.detail, rest);
    ItemHtmlPieces(item, rest);
  }

  lemma FindAllItemBlock(item: ItemValue, rest: string)
    requires Readable(item.detail)
    ensures FindAll(ItemHtml(item) + rest) == [CaptureOf(item)] + FindAll(rest)
  {
    MatchItemBlock(item, rest);
  }

  /** The item blocks read back as their captures, in order. */
  lemma {:induction false} FindAllItems(items: seq<ItemValue>, rest: string)
    requires forall k :: 0 <= k < |items| ==> Readable(items[k].detail)
    ensures FindAll(ItemsHtml(items) + rest) == CapturesOf(items) + FindAll(rest)
  {
    if items == [] {
      assert ItemsHtml(items) + rest == rest;
      assert CapturesOf(items) + FindAll(rest) == FindAll(rest);
    } else {
      var tail := ItemsHtml(items[1..]);
      AppendAssociates(ItemHtml(items[0]), tail, rest);
      FindAllItemBlock(items[0], tail + rest);
      FindAllItems(items[1..], rest);
      AppendAssociates([CaptureOf(items[0])], CapturesOf(items[1..]), FindAll(rest));
      assert CapturesOf(items) == [CaptureOf(items[0])] + CapturesOf(items[1..]);
    }
  }

  lemma NotPrefixAt(p: string, s: string, j: int)
    requires 0 <= j < |p| && j < |s| && s[j] != p[j]
    ensures !(p <= s)
  {
  }

  /** The scanner moves on by one character where no match starts. */
  lemma FindAllStep(s: string)
    requires s != [] && !(ItemOpen <= s)
    ensures FindAll(s) == FindAll(s[1..])
  {
    assert MatchAt(s) == None;
  }

  /** No match starts inside text without a `<`. */
  lemma {:induction false} FindAllSkipsText(t: string, rest: string)
    requires '<' !in t
    ensures FindAll(t + rest) == FindAll(rest)
  {
    if t == [] {
      assert t + rest == rest;
    } else {
      var s := t + rest;
      assert s[0] == t[0] && s[1..] == t[1..] + rest;
      NotPrefixAt(ItemOpen, s, 0);
      FindAllStep(s);
      FindAllSkipsText(t[1..], rest);
    }
  }

  /** No match starts at a tag that differs from the item opening at
      position `j`, nor inside it when it holds no other `<`. */
  lemma FindAllSkipsTag(t: string, rest: string, j: nat)
    requires 0 < j < |t| && j < |ItemOpen| && t[j] != ItemOpen[j]
    requires '<' !in t[1..]
    ensures FindAll(t + rest) == FindAll(rest)
  {
    var s := t + rest;
    assert s[j] == t[j];
    NotPrefixAt(ItemOpen, s, j);
    FindAllStep(s);
    assert s[1..] == t[1..] + rest;
    FindAllSkipsText(t[1..], rest);
  }

  lemma RightNested(a1: string, a2: string, b1: string, b2: string, c: string, d: string,
                    e1: string, e2: string, rest: string)
    ensures (a1 + a2) + (b1 + b2) + c + d + (e1 + e2) + rest
      == a1 + (a2 + (b1 + (b2 + (c + (d + (e1 + (e2 + rest)))))))
  {
  }

  /** The header as its tags and the text between them. */
  lemma HeaderPieces(rest: string)
    ensures ChecklistHeader + rest
      == ContainerTag + (ContainerAttributes + (StyleOpen + (ItemRule + (IdentifiedStyle
         + (NotIdentifiedStyle + (CheckmarkRule + (StyleClose + rest)))))))
  {
    RightNested(ContainerTag, ContainerAttributes, StyleOpen, ItemRule, IdentifiedStyle,
                NotIdentifiedStyle, CheckmarkRule, StyleClose, rest);
  }

  // No `<` occurs in the text between the header's tags. The header's
  // literals are kept in short pieces and each piece gets its own small
  // lemma, because one membership test over the whole concatenated header
  // makes the solver unfold every character at once and exceeds the
  // resource budget; the pieces are joined with `NoTagIn`.

  lemma NoTagIn(a: string, b: string)
    requires '<' !in a && '<' !in b
    ensures '<' !in a + b
  {
  }

  lemma ContainerIdUntagged() ensures '<' !in ContainerId {}
  lemma ContainerColorsUntagged() ensures '<' !in ContainerColors {}
  lemma ContainerBoxUntagged() ensures '<' !in ContainerBox {}

  lemma ContainerAttributesUntagged()
    ensures '<' !in ContainerAttributes
  {
    ContainerIdUntagged();
    ContainerColorsUntagged();
    ContainerBoxUntagged();
    NoTagIn(ContainerId, ContainerColors);
    NoTagIn(ContainerId + ContainerColors, ContainerBox);
  }

  lemma ItemLayoutUntagged() ensures '<' !in ItemLayout {}
  lemma ItemSpacingUntagged() ensures '<' !in ItemSpacing {}
  lemma ItemTransitionUntagged() ensures '<' !in ItemTransition {}

  lemma ItemRuleUntagged()
    ensures '<' !in ItemRule
  {
    ItemLayoutUntagged();
    ItemSpacingUntagged();
    ItemTransitionUntagged();
    NoTagIn(ItemLayout, ItemSpacing);
    NoTagIn(ItemLayout + ItemSpacing, ItemTransition);
  }

  lemma IdentifiedColorsUntagged() ensures '<' !in IdentifiedColors {}
  lemma IdentifiedTextUntagged() ensures '<' !in IdentifiedText {}

  lemma IdentifiedStyleUntagged()
    ensures '<' !in IdentifiedStyle
  {
    IdentifiedColorsUntagged();
    IdentifiedTextUntagged();
    NoTagIn(IdentifiedColors, IdentifiedText);
  }

  lemma NotIdentifiedColorsUntagged() ensures '<' !in NotIdentifiedColors {}
  lemma NotIdentifiedTextUntagged() ensures '<' !in NotIdentifiedText {}

  lemma NotIdentifiedStyleUntagged()
    ensures '<' !in NotIdentifiedStyle
  {
    NotIdentifiedColorsUntagged();
    NotIdentifiedTextUntagged();
    NoTagIn(NotIdentifiedColors, NotIdentifiedText);
  }

  lemma CheckmarkRuleUntagged() ensures '<' !in CheckmarkRule {}

  // The header's tags differ from the item opening early on.

  lemma ContainerTagShape()
    ensures |ContainerTag| > 5 && ContainerTag[5] != ItemOpen[5] && '<' !in ContainerTag[1..]
  {
  }

  lemma StyleOpenShape()
    ensures |StyleOpen| > 1 && StyleOpen[1] != ItemOpen[1] && '<' !in StyleOpen[1..]
  {
  }

  lemma StyleCloseShape()
    ensures |StyleClose| > 1 && StyleClose[1] != ItemOpen[1] && '<' !in StyleClose[1..]
  {
  }

  /** The container tag and the style block hold no item. */
  lemma FindAllSkipsHeader(rest: string)
    ensures FindAll(ChecklistHeader + rest) == FindAll(rest)
  {
    var x6 := StyleClose + rest;
    var x5 := CheckmarkRule + x6;
    var x4 := NotIdentifiedStyle + x5;
    var x3 := IdentifiedStyle + x4;
    var x2 := ItemRule + x3;
    var x1 := StyleOpen + x2;
    var x0 := ContainerAttributes + x1;
    assert FindAll(x6) == FindAll(rest) by {
      StyleCloseShape();
      FindAllSkipsTag(StyleClose, rest, 1);
    }
    assert FindAll(x5) == FindAll(x6) by {
      CheckmarkRuleUntagged();
      FindAllSkipsText(CheckmarkRule, x6);
    }
    assert FindAll(x4) == FindAll(x5) by {
      NotIdentifiedStyleUntagged();
      FindAllSkipsText(NotIdentifiedStyle, x5);
    }
    assert FindAll(x3) == FindAll(x4) by {
      IdentifiedStyleUntagged();
      FindAllSkipsText(IdentifiedStyle, x4);
    }
    assert FindAll(x2) == FindAll(x3) by {
      ItemRuleUntagged();
      FindAllSkipsText(ItemRule, x3);
    }
    assert FindAll(x1) == FindAll(x2) by {
      StyleOpenShape();
      FindAllSkipsTag(StyleOpen, x2, 1);
    }
    assert FindAll(x0) == FindAll(x1) by {
      ContainerAttributesUntagged();
      FindAllSkipsText(ContainerAttributes, x1);
    }
    assert FindAll(ContainerTag + x0) == FindAll(x0) by {
      ContainerTagShape();
      FindAllSkipsTag(ContainerTag, x0, 5);
    }
    HeaderPieces(rest);
  }

  lemma DivCloseShape()
    ensures |DivClose| > 1 && DivClose[1] != ItemOpen[1] && '<' !in DivClose[1..]
  {
  }

  /** The closing tag holds no item. */
  lemma FindAllDivClose()
    ensures FindAll(DivClose) == []
  {
    DivCloseShape();
    FindAllSkipsTag(DivClose, [], 1);
    assert DivClose + [] == DivClose;
  }

  /** `create_html_checklist` output reads back as one capture per item. */
  lemma FindAllChecklistHtml(items: seq<ItemValue>)
    requires forall k :: 0 <= k < |items| ==> Readable(items[k].detail)
    ensures FindAll(ChecklistHtml(items)) == CapturesOf(items)
  {
    var body := ItemsHtml(items);
    FindAllSkipsHeader(body + DivClose);
    FindAllItems(items, DivClose);
    FindAllDivClose();
    FindAllOfParts(ChecklistHeader, body, DivClose, CapturesOf(items));
  }

  lemma FindAllOfParts(head: string, body: string, tail: string, captures: seq<Capture>)
    requires FindAll(head + (body + tail)) == FindAll(body + tail)
    requires FindAll(body + tail) == captures + FindAll(tail)
    requires FindAll(tail) == []
    ensures FindAll(head + body + tail) == captures
  {
    AppendAssociates(head, body, tail);
    assert captures + [] == captures;
  }

  /** Round trip: parsing the rendered checklist keeps every readable
      detail, in order, with ids 0..n-1, but reads every item as
      identified, because "not-identified" contains "identified". */
  lemma RoundTrip(items: seq<ItemValue>)
    requires forall k :: 0 <= k < |items| ==> Readable(items[k].detail)
    ensures var r := ExtractedItems(Some(ChecklistHtml(items)));
      |r| == |items|
      && forall k :: 0 <= k < |items| ==> r[k] == ItemValue(items[k].detail, true, k)
  {
    var html := ChecklistHtml(items);
    FindAllChecklistHtml(items);
    assert html != [] by {
      assert |ChecklistHeader| > 0;
    }
    forall k | 0 <= k < |items| ensures Contains(CaptureOf(items[k]).cssClass, "identified") {
      ClassReadsIdentified(items[k].identified);
    }
  }

  /** The round trip gives the checklist back exactly when its ids are its
      positions and every item was already identified. */
  lemma RoundTripIdentityIff(items: seq<ItemValue>)
    requires forall k :: 0 <= k < |items| ==> Readable(items[k].detail)
    ensures ExtractedItems(Some(ChecklistHtml(items))) == items
      <==> IdsArePositions(items) && AllIdentified(items)
  {
    var r := ExtractedItems(Some(ChecklistHtml(items)));
    RoundTrip(items);
    if IdsArePositions(items) && AllIdentified(items) {
      assert forall k :: 0 <= k < |items| ==> items[k] == ItemValue(items[k].detail, true, k);
    }
    if r == items {
      assert forall k :: 0 <= k < |items| ==> items[k] == r[k];
    }
  }
}
