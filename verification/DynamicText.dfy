/**
  The SQL text after materialisation: the original text with all markers replaced
  at once, although the running code replaces them one after another in a text
  that already holds rendered sites.
 */
module DynamicText {
  import opened DynamicBlocks
  import opened DynamicInput
  import opened DynamicMaterialization
  import opened KeyOrder
  import opened TextSearch
  import opened Wrappers

  /* ---- texts with gaps ---- */

  datatype Piece = Literal(text: string) | Gap(site: nat)

  function PieceText(piece: Piece, texts: seq<string>): string {
    match piece case Literal(text) => text case Gap(k) => if k < |texts| then texts[k] else ""
  }

  /** The pieces with every gap filled at once. */
  function Render(pieces: seq<Piece>, texts: seq<string>): string {
    if pieces == [] then "" else PieceText(pieces[0], texts) + Render(pieces[1..], texts)
  }

  /** The gap stands at one place. */
  ghost predicate GapOnce(pieces: seq<Piece>, k: nat) {
    exists i :: GapAt(pieces, k, i)
  }

  predicate GapAt(pieces: seq<Piece>, k: nat, i: int) {
    0 <= i < |pieces| && pieces[i] == Gap(k) && forall j :: 0 <= j < |pieces| && j != i ==> pieces[j] != Gap(k)
  }

  /** The marker cannot overlap another occurrence of itself. */
  ghost predicate Borderless(marker: string) {
    marker != "" && forall d :: 0 < d < |marker| ==> marker[d..] != marker[..|marker| - d]
  }

  lemma {:induction false} RenderAppends(some: seq<Piece>, more: seq<Piece>, texts: seq<string>)
    ensures Render(some + more, texts) == Render(some, texts) + Render(more, texts)
  {
    if some == [] {
      assert some + more == more;
    } else {
      RenderAppends(some[1..], more, texts);
      assert (some + more)[1..] == some[1..] + more;
    }
  }

  lemma RenderSplits(pieces: seq<Piece>, texts: seq<string>, i: nat)
    requires i < |pieces|
    ensures Render(pieces, texts) ==
              Render(pieces[..i], texts) + PieceText(pieces[i], texts) + Render(pieces[i + 1..], texts)
  {
    var rest := pieces[i..];
    assert pieces == pieces[..i] + rest && rest[1..] == pieces[i + 1..];
    RenderAppends(pieces[..i], rest, texts);
  }

  lemma {:induction false} RenderIgnores(pieces: seq<Piece>, texts: seq<string>, k: nat, text: string)
    requires k < |texts| && forall j :: 0 <= j < |pieces| ==> pieces[j] != Gap(k)
    ensures Render(pieces, texts[k := text]) == Render(pieces, texts)
  {
    if pieces != [] {
      RenderIgnores(pieces[1..], texts, k, text);
    }
  }

  /** Around a gap the text does not depend on what fills it. */
  lemma GapSplits(pieces: seq<Piece>, texts: seq<string>, k: nat, text: string, i: nat)
    requires k < |texts| && GapAt(pieces, k, i)
    ensures Render(pieces, texts) == Render(pieces[..i], texts) + texts[k] + Render(pieces[i + 1..], texts)
    ensures Render(pieces, texts[k := text]) == Render(pieces[..i], texts) + text + Render(pieces[i + 1..], texts)
  {
    RenderSplits(pieces, texts, i);
    RenderSplits(pieces, texts[k := text], i);
    RenderIgnores(pieces[..i], texts, k, text);
    RenderIgnores(pieces[i + 1..], texts, k, text);
  }

  /** A marker known to stand somewhere is the occurrence that is replaced. */
  lemma ReplacedThere(dialect: Dialect, left: string, marker: string, right: string, text: string)
    requires Borderless(marker) && ReplaceMarker(dialect, left + marker + right, marker, text).Some?
    ensures ReplaceMarker(dialect, left + marker + right, marker, text) == Some(left + text + right)
  {
    var sql, at := left + marker + right, |left|;
    var result := ReplaceMarker(dialect, sql, marker, text).value;
    MarkerReplaced(dialect, sql, marker, text, result);
    var k: nat :| OnlyAt(sql, marker, k) && result == sql[..k] + text + sql[k + |marker|..];
    assert At(sql, marker, at);
    assert k <= at < k + |marker|;
    if k < at {
      NoOverlap(sql, marker, k, at);
    }
    assert sql[..at] == left && sql[at + |marker|..] == right;
  }

  lemma NoOverlap(sql: string, marker: string, k: nat, at: nat)
    requires At(sql, marker, k) && At(sql, marker, at) && k < at < k + |marker|
    ensures !Borderless(marker)
  {
    var d, n := at - k, |marker|;
    assert marker[d..] == sql[at..k + n] by {
      assert marker == sql[k..k + n];
    }
    assert marker[..n - d] == sql[at..k + n] by {
      assert marker == sql[at..at + n];
    }
  }

  /** Replacing one marker fills its gap. */
  lemma GapFilled(dialect: Dialect, pieces: seq<Piece>, texts: seq<string>, k: nat, text: string)
    requires k < |texts| && Borderless(texts[k]) && GapOnce(pieces, k)
    requires ReplaceMarker(dialect, Render(pieces, texts), texts[k], text).Some?
    ensures ReplaceMarker(dialect, Render(pieces, texts), texts[k], text) == Some(Render(pieces, texts[k := text]))
  {
    var i: nat :| GapAt(pieces, k, i);
    GapSplits(pieces, texts, k, text, i);
    ReplacedThere(dialect, Render(pieces[..i], texts), texts[k], Render(pieces[i + 1..], texts), text);
  }

  /* ---- the sites of one input ---- */

  function SiteMarkers(sites: seq<Site>): (markers: seq<string>)
    ensures |markers| == |sites|
  {
    if sites == [] then [] else SiteMarkers(sites[..|sites| - 1]) + [sites[|sites| - 1].marker]
  }

  function TextOf(site: Site, e: Elaboration, at: nat): string {
    match e case Done(trees) => SiteText(site, trees, at) case Stuck(_, _) => ""
  }

  /** What the sites of an input render, placed after `at` parameters. */
  function SiteTexts(dialect: Dialect, input: Input, sites: seq<Site>, value: Value, at: nat): (texts: seq<string>)
    ensures |texts| == |sites|
  {
    if sites == [] then []
    else
      var n := |sites| - 1;
      SiteTexts(dialect, input, sites[..n], value, at)
          + [TextOf(sites[n], ElaborateSite(input, sites[n], dialect, value), at)]
  }

  ghost predicate Marked(pieces: seq<Piece>, first: nat, markers: seq<string>) {
    forall k :: 0 <= k < |markers| ==> Borderless(markers[k]) && GapOnce(pieces, first + k)
  }

  lemma DrawFromText<T>(absorbed: Option<seq<T>>, site: Site, e: Elaboration, end: nat, at: nat)
    requires DrawFrom(absorbed, site, e, end, at).Drawn?
    ensures DrawFrom(absorbed, site, e, end, at).text == TextOf(site, e, at)
  {
  }

  lemma SpliceText<T>(dialect: Dialect, marker: string, expected: Option<nat>, sql: string, drawing: Drawing<T>,
                      text: string)
    requires Splice(dialect, marker, expected, sql, drawing).Advanced? && (drawing.Drawn? ==> drawing.text == text)
    ensures ReplaceMarker(dialect, sql, marker, text) ==
              Some(Splice(dialect, marker, expected, sql, drawing).progress.sql)
  {
  }

  lemma DrawAtText<T>(target: Target<T>, site: Site, e: Elaboration, start: nat, before: seq<T>, end: nat, at: nat)
    requires end == start + |Emission(e)| && at == target.offset + start
             && DrawAt(target, site, e, start, before).Drawn?
    ensures DrawAt(target, site, e, start, before).text == TextOf(site, e, at)
  {
    assert DrawAt(target, site, e, start, before) ==
             DrawFrom(Absorb(target, before, start, Emission(e)), site, e, end, at);
    DrawFromText(Absorb(target, before, start, Emission(e)), site, e, end, at);
  }

  lemma StepSplices<T>(target: Target<T>, input: Input, site: Site, value: Value, start: nat, expected: Option<nat>,
                       before: Progress<T>, e: Elaboration)
    requires e == ElaborateSite(input, site, target.dialect, value)
    ensures SiteStep(target, input, site, value, start, expected, before) ==
            Splice(target.dialect, site.marker, expected, before.sql, DrawAt(target, site, e, start, before.operands))
  {
  }

  lemma SplicedText<T>(target: Target<T>, site: Site, e: Elaboration, start: nat, before: seq<T>, expected: Option<nat>,
                       sql: string, end: nat, at: nat)
    requires end == start + |Emission(e)| && at == target.offset + start
    requires Splice(target.dialect, site.marker, expected, sql, DrawAt(target, site, e, start, before)).Advanced?
    ensures ReplaceMarker(target.dialect, sql, site.marker, TextOf(site, e, at)) ==
            Some(Splice(target.dialect, site.marker, expected, sql,
                        DrawAt(target, site, e, start, before)).progress.sql)
  {
    var drawing := DrawAt(target, site, e, start, before);
    if drawing.Drawn? {
      DrawAtText(target, site, e, start, before, end, at);
    }
    SpliceText(target.dialect, site.marker, expected, sql, drawing, TextOf(site, e, at));
  }

  lemma StepText<T>(target: Target<T>, input: Input, site: Site, value: Value, start: nat, expected: Option<nat>,
                    before: Progress<T>, at: nat, e: Elaboration, end: nat)
    requires SiteStep(target, input, site, value, start, expected, before).Advanced? && at == target.offset + start
             && end == start + |Emission(e)|
    requires e == ElaborateSite(input, site, target.dialect, value)
    ensures ReplaceMarker(target.dialect, before.sql, site.marker, TextOf(site, e, at)) ==
            Some(SiteStep(target, input, site, value, start, expected, before).progress.sql)
  {
    StepSplices(target, input, site, value, start, expected, before, e);
    SplicedText(target, site, e, start, before.operands, expected, before.sql, end, at);
  }

  lemma Substituted(head: seq<string>, texts: seq<string>, marker: string, text: string, tail: seq<string>,
                    marked: seq<string>, k: nat)
    requires marked == head + texts + ([marker] + tail) && k == |head| + |texts|
    ensures k < |marked| && marked[k] == marker && marked[k := text] == head + (texts + [text]) + tail
  {
  }

  /** One more site replaced in a text that already holds the earlier ones. */
  lemma FillNext(dialect: Dialect, pieces: seq<Piece>, marked: seq<string>, k: nat, text: string, between: string,
                 after: string)
    requires k < |marked| && Borderless(marked[k]) && GapOnce(pieces, k) && between == Render(pieces, marked)
    requires ReplaceMarker(dialect, between, marked[k], text) == Some(after)
    ensures after == Render(pieces, marked[k := text])
  {
    GapFilled(dialect, pieces, marked, k, text);
  }

  lemma StepsSplit<T>(target: Target<T>, input: Input, sites: seq<Site>, n: nat, value: Value, start: nat,
                      before: Progress<T>)
    requires |sites| == n + 1 && SiteSteps(target, input, sites, value, start, before).Advanced?
    ensures var between := SiteSteps(target, input, sites[..n], value, start, before);
            between.Advanced? &&
            SiteSteps(target, input, sites, value, start, before) ==
                SiteStep(target, input, sites[n], value, start, between.end, between.progress)
  {
  }

  lemma {:induction false} SitesFill<T>(target: Target<T>, input: Input, sites: seq<Site>, value: Value, start: nat,
                                        before: Progress<T>, at: nat,
                                        pieces: seq<Piece>, head: seq<string>, tail: seq<string>)
    requires SiteSteps(target, input, sites, value, start, before).Advanced? && at == target.offset + start
    requires Marked(pieces, |head|, SiteMarkers(sites))
             && before.sql == Render(pieces, head + SiteMarkers(sites) + tail)
    ensures SiteSteps(target, input, sites, value, start, before).progress.sql ==
            Render(pieces, head + SiteTexts(target.dialect, input, sites, value, at) + tail)
    decreases |sites|
  {
    if sites != [] {
      var n := |sites| - 1;
      var marker, markers := sites[n].marker, SiteMarkers(sites[..n]);
      var texts := SiteTexts(target.dialect, input, sites[..n], value, at);
      var e := ElaborateSite(input, sites[n], target.dialect, value);
      var k := |head| + n;
      MarkedSplits(pieces, |head|, markers, marker, k);
      Regrouped(head, markers, marker, tail);
      StepsSplit(target, input, sites, n, value, start, before);
      SitesFill(target, input, sites[..n], value, start, before, at, pieces, head, [marker] + tail);
      var between := SiteSteps(target, input, sites[..n], value, start, before);
      StepText(target, input, sites[n], value, start, between.end, between.progress, at, e, start + |Emission(e)|);
      var marked := head + texts + ([marker] + tail);
      Substituted(head, texts, marker, TextOf(sites[n], e, at), tail, marked, k);
      FillNext(target.dialect, pieces, marked, k, TextOf(sites[n], e, at), between.progress.sql,
               SiteSteps(target, input, sites, value, start, before).progress.sql);
    }
  }

  lemma Regrouped(head: seq<string>, some: seq<string>, one: string, tail: seq<string>)
    ensures head + (some + [one]) + tail == head + some + ([one] + tail) == (head + some) + [one] + tail
  {
  }

  lemma MarkedSplits(pieces: seq<Piece>, first: nat, markers: seq<string>, marker: string, k: nat)
    requires Marked(pieces, first, markers + [marker]) && k == first + |markers|
    ensures Marked(pieces, first, markers) && Borderless(marker) && GapOnce(pieces, k)
  {
    var all := markers + [marker];
    assert all[|markers|] == marker;
    forall k | 0 <= k < |markers| ensures Borderless(markers[k]) && GapOnce(pieces, first + k) {
      assert all[k] == markers[k];
    }
  }

  /* ---- all inputs ---- */

  function Markers(inputs: seq<Input>): seq<string> {
    if inputs == [] then [] else Markers(inputs[..|inputs| - 1]) + SiteMarkers(inputs[|inputs| - 1].sites)
  }

  function InputTexts(dialect: Dialect, input: Input, values: map<string, Value>, at: nat): seq<string> {
    match InputValue(dialect, input, values)
    case Err(_) => []
    case Ok(value) => SiteTexts(dialect, input, input.sites, value, at)
  }

  /** How many parameters stand before the block of the next input. */
  function StartAfter(dialect: Dialect, inputs: seq<Input>, values: map<string, Value>, offset: nat, fixed: nat): nat {
    offset + (fixed + |Blocks(AllDrafts(dialect, inputs, values))|)
  }

  /** What all sites render, each input's placeholders counting from its own block. */
  function AllTexts(dialect: Dialect, inputs: seq<Input>, values: map<string, Value>, offset: nat,
                    fixed: nat): seq<string>
  {
    if inputs == [] then []
    else
      var n := |inputs| - 1;
      AllTexts(dialect, inputs[..n], values, offset, fixed)
      + InputTexts(dialect, inputs[n], values, StartAfter(dialect, inputs[..n], values, offset, fixed))
  }

  lemma InputFill<T>(target: Target<T>, input: Input, values: map<string, Value>, before: Progress<T>, at: nat,
                     pieces: seq<Piece>, head: seq<string>, tail: seq<string>)
    requires InputStep(target, input, values, before).Ok? && at == target.offset + |before.operands|
    requires Marked(pieces, |head|, SiteMarkers(input.sites))
             && before.sql == Render(pieces, head + SiteMarkers(input.sites) + tail)
    ensures InputStep(target, input, values, before).value.sql ==
              Render(pieces, head + InputTexts(target.dialect, input, values, at) + tail)
    ensures |InputTexts(target.dialect, input, values, at)| == |input.sites|
  {
    SitesFill(target, input, input.sites, InputValue(target.dialect, input, values).value, |before.operands|, before,
              at, pieces, head, tail);
  }

  lemma MarkedParts(pieces: seq<Piece>, first: nat, some: seq<string>, more: seq<string>)
    requires Marked(pieces, first, some + more)
    ensures Marked(pieces, first, some) && Marked(pieces, first + |some|, more)
  {
    var all := some + more;
    forall k | 0 <= k < |some| ensures Borderless(some[k]) && GapOnce(pieces, first + k) {
      assert all[k] == some[k];
    }
    forall k | 0 <= k < |more| ensures Borderless(more[k]) && GapOnce(pieces, first + |some| + k) {
      assert all[|some| + k] == more[k];
    }
  }

  lemma InputsSplit<T>(target: Target<T>, inputs: seq<Input>, n: nat, values: map<string, Value>, before: Progress<T>)
    requires |inputs| == n + 1 && Materialize(target, inputs, values, before).Ok?
    ensures var between := Materialize(target, inputs[..n], values, before);
            between.Ok?
                && Materialize(target, inputs, values, before) == InputStep(target, inputs[n], values, between.value)
  {
  }

  lemma BlocksEnd<T(!new)>(target: Target<T>, inputs: seq<Input>, values: map<string, Value>, before: Progress<T>)
    requires Reflexive(target) && Materialize(target, inputs, values, before).Ok?
    ensures |Materialize(target, inputs, values, before).value.operands| ==
              |before.operands| + |Blocks(AllDrafts(target.dialect, inputs, values))|
  {
    MaterializedVector(target, inputs, values, before);
  }

  lemma AllTextsNext(dialect: Dialect, inputs: seq<Input>, n: nat, values: map<string, Value>, offset: nat, fixed: nat,
                     at: nat)
    requires |inputs| == n + 1 && at == StartAfter(dialect, inputs[..n], values, offset, fixed)
    ensures AllTexts(dialect, inputs, values, offset, fixed) ==
              AllTexts(dialect, inputs[..n], values, offset, fixed) + InputTexts(dialect, inputs[n], values, at)
  {
  }

  lemma MarkersNext(inputs: seq<Input>, n: nat, tail: seq<string>)
    requires |inputs| == n + 1
    ensures Markers(inputs) == Markers(inputs[..n]) + SiteMarkers(inputs[n].sites)
    ensures Markers(inputs) + tail == Markers(inputs[..n]) + (SiteMarkers(inputs[n].sites) + tail)
  {
    Grouped3(Markers(inputs[..n]), SiteMarkers(inputs[n].sites), tail);
  }

  /** One more input filled in a text that already holds the earlier ones. */
  lemma FillNextInput<T>(target: Target<T>, input: Input, values: map<string, Value>, between: Progress<T>, at: nat,
                         pieces: seq<Piece>,
                         texts: seq<string>, more: seq<string>, tail: seq<string>, all: seq<string>)
    requires InputStep(target, input, values, between).Ok? && at == target.offset + |between.operands|
    requires more == SiteMarkers(input.sites) && Marked(pieces, |texts|, more)
             && between.sql == Render(pieces, texts + (more + tail))
    requires all == texts + InputTexts(target.dialect, input, values, at)
    ensures InputStep(target, input, values, between).value.sql == Render(pieces, all + tail)
            && |all| == |texts| + |more|
  {
    Grouped3(texts, more, tail);
    InputFill(target, input, values, between, at, pieces, texts, tail);
  }

  lemma InputsFillStep<T(!new)>(target: Target<T>, inputs: seq<Input>, n: nat, values: map<string, Value>,
                                before: Progress<T>, pieces: seq<Piece>,
                                tail: seq<string>, fixed: nat, some: seq<string>, more: seq<string>, half: seq<string>,
                                    filled: seq<string>)
    requires Reflexive(target) && |inputs| == n + 1 && Materialize(target, inputs, values, before).Ok?
             && Materialize(target, inputs[..n], values, before).Ok?
    requires fixed == |before.operands| && some == AllTexts(target.dialect, inputs[..n], values, target.offset, fixed)
    requires more == SiteMarkers(inputs[n].sites) && Marked(pieces, |some|, more) && half == some + (more + tail)
    requires Materialize(target, inputs[..n], values, before).value.sql == Render(pieces, half)
    requires filled == AllTexts(target.dialect, inputs, values, target.offset, fixed) + tail
    ensures Materialize(target, inputs, values, before).value.sql == Render(pieces, filled)
  {
    InputsSplit(target, inputs, n, values, before);
    BlocksEnd(target, inputs[..n], values, before);
    var between := Materialize(target, inputs[..n], values, before).value;
    var at := StartAfter(target.dialect, inputs[..n], values, target.offset, fixed);
    AllTextsNext(target.dialect, inputs, n, values, target.offset, fixed, at);
    FillNextInput(target, inputs[n], values, between, at, pieces, some, more, tail,
                  some + InputTexts(target.dialect, inputs[n], values, at));
  }

  /**
    What holds before the last input: the markers of the earlier ones stand for
    themselves, and those of the last one join the tail.
   */
  lemma BeforeLast(pieces: seq<Piece>, inputs: seq<Input>, n: nat, tail: seq<string>, marked: seq<string>)
    requires |inputs| == n + 1 && Marked(pieces, 0, Markers(inputs)) && marked == Markers(inputs) + tail
    ensures var earlier, more := Markers(inputs[..n]), SiteMarkers(inputs[n].sites);
            Marked(pieces, 0, earlier) && Marked(pieces, |earlier|, more) && marked == earlier + (more + tail)
  {
    MarkersNext(inputs, n, tail);
    MarkedParts(pieces, 0, Markers(inputs[..n]), SiteMarkers(inputs[n].sites));
  }

  lemma {:induction false} InputsFill<T(!new)>(target: Target<T>, inputs: seq<Input>, values: map<string, Value>,
                                               before: Progress<T>, pieces: seq<Piece>, tail: seq<string>,
                                               fixed: nat, marked: seq<string>, filled: seq<string>)
    requires Reflexive(target) && Materialize(target, inputs, values, before).Ok? && fixed == |before.operands|
    requires Marked(pieces, 0, Markers(inputs)) && marked == Markers(inputs) + tail
             && before.sql == Render(pieces, marked)
    requires filled == AllTexts(target.dialect, inputs, values, target.offset, fixed) + tail
    ensures Materialize(target, inputs, values, before).value.sql == Render(pieces, filled)
    decreases |inputs|
  {
    if inputs == [] {
      assert marked == filled;
    } else {
      var n := |inputs| - 1;
      var some, more := AllTexts(target.dialect, inputs[..n], values, target.offset, fixed),
          SiteMarkers(inputs[n].sites);
      BeforeLast(pieces, inputs, n, tail, marked);
      InputsSplit(target, inputs, n, values, before);
      InputsFill(target, inputs[..n], values, before, pieces, more + tail, fixed, marked, some + (more + tail));
      ValuesFound(target, inputs[..n], values, before);
      TextsCounted(target.dialect, inputs[..n], values, target.offset, fixed);
      InputsFillStep(target, inputs, n, values, before, pieces, tail, fixed, some, more, some + (more + tail), filled);
    }
  }

  lemma ValuesFound<T>(target: Target<T>, inputs: seq<Input>, values: map<string, Value>, before: Progress<T>)
    requires Materialize(target, inputs, values, before).Ok?
    ensures forall i :: 0 <= i < |inputs| ==> InputValue(target.dialect, inputs[i], values).Ok?
  {
    forall i | 0 <= i < |inputs| ensures InputValue(target.dialect, inputs[i], values).Ok? {
      ValueFound(target, inputs, values, before, i);
    }
  }

  lemma Grouped3(a: seq<string>, b: seq<string>, c: seq<string>)
    ensures a + b + c == a + (b + c)
  {
  }

  /**
    All at once: when the markers stand at gaps of the original text and cannot
    overlap themselves, a successful materialisation returns the original text
    with every gap filled by what its site renders, whatever is rendered.
   */
  lemma SqlFilled<T(!new)>(target: Target<T>, inputs: seq<Input>, values: map<string, Value>, before: Progress<T>,
                           pieces: seq<Piece>)
    requires Reflexive(target) && Materialize(target, inputs, values, before).Ok?
    requires Marked(pieces, 0, Markers(inputs)) && before.sql == Render(pieces, Markers(inputs))
    ensures Materialize(target, inputs, values, before).value.sql ==
            Render(pieces, AllTexts(target.dialect, inputs, values, target.offset, |before.operands|))
  {
    var texts := AllTexts(target.dialect, inputs, values, target.offset, |before.operands|);
    assert Markers(inputs) + [] == Markers(inputs) && texts + [] == texts;
    InputsFill(target, inputs, values, before, pieces, [], |before.operands|, Markers(inputs), texts);
  }

  lemma {:induction false} SiteTextAt(dialect: Dialect, input: Input, sites: seq<Site>, value: Value, at: nat, j: nat)
    requires j < |sites|
    ensures SiteTexts(dialect, input, sites, value, at)[j] ==
              TextOf(sites[j], ElaborateSite(input, sites[j], dialect, value), at)
    decreases |sites|
  {
    if j < |sites| - 1 {
      SiteTextAt(dialect, input, sites[..|sites| - 1], value, at, j);
    }
  }

  lemma {:induction false} TextsCounted(dialect: Dialect, inputs: seq<Input>, values: map<string, Value>, offset: nat,
                                        fixed: nat)
    requires forall i :: 0 <= i < |inputs| ==> InputValue(dialect, inputs[i], values).Ok?
    ensures |AllTexts(dialect, inputs, values, offset, fixed)| == |Markers(inputs)|
    decreases |inputs|
  {
    if inputs != [] {
      TextsCounted(dialect, inputs[..|inputs| - 1], values, offset, fixed);
    }
  }

  lemma TextPlacedLast(dialect: Dialect, inputs: seq<Input>, n: nat, values: map<string, Value>, offset: nat,
                       fixed: nat, j: nat, k: nat, at: nat)
    requires |inputs| == n + 1 && InputValue(dialect, inputs[n], values).Ok? && j < |inputs[n].sites|
    requires k == |AllTexts(dialect, inputs[..n], values, offset, fixed)| + j
             && at == StartAfter(dialect, inputs[..n], values, offset, fixed)
    ensures var texts := AllTexts(dialect, inputs, values, offset, fixed);
            && k < |texts|
            && texts[k] ==
                 TextOf(inputs[n].sites[j],
                        ElaborateSite(inputs[n], inputs[n].sites[j], dialect,
                                      InputValue(dialect, inputs[n], values).value), at)
  {
    AllTextsNext(dialect, inputs, n, values, offset, fixed, at);
    SiteTextAt(dialect, inputs[n], inputs[n].sites, InputValue(dialect, inputs[n], values).value, at, j);
  }

  lemma TextKept(dialect: Dialect, inputs: seq<Input>, n: nat, values: map<string, Value>, offset: nat, fixed: nat,
                 k: nat, at: nat)
    requires |inputs| == n + 1 && k < |AllTexts(dialect, inputs[..n], values, offset, fixed)|
    requires at == StartAfter(dialect, inputs[..n], values, offset, fixed)
    ensures k < |AllTexts(dialect, inputs, values, offset, fixed)|
    ensures AllTexts(dialect, inputs, values, offset, fixed)[k] ==
              AllTexts(dialect, inputs[..n], values, offset, fixed)[k]
  {
    AllTextsNext(dialect, inputs, n, values, offset, fixed, at);
  }

  /** The gap of the j-th site of the i-th input is filled with that site's text, placed at the input's own block. */
  lemma {:induction false} TextPlaced(dialect: Dialect, inputs: seq<Input>, values: map<string, Value>, offset: nat,
                                      fixed: nat, i: nat, j: nat, k: nat, start: nat, at: nat, e: Elaboration)
    requires forall i :: 0 <= i < |inputs| ==> InputValue(dialect, inputs[i], values).Ok?
    requires i < |inputs| && j < |inputs[i].sites| && k == |Markers(inputs[..i])| + j
    requires start == BlockStart(dialect, inputs, values, fixed, i) && at == offset + start
    requires e == ElaborateSite(inputs[i], inputs[i].sites[j], dialect, InputValue(dialect, inputs[i], values).value)
    ensures k < |AllTexts(dialect, inputs, values, offset, fixed)|
    ensures AllTexts(dialect, inputs, values, offset, fixed)[k] == TextOf(inputs[i].sites[j], e, at)
    decreases |inputs|
  {
    var n := |inputs| - 1;
    TextsCounted(dialect, inputs[..n], values, offset, fixed);
    if i == n {
      LastStart(dialect, inputs, n, values, offset, fixed, start);
      TextPlacedLast(dialect, inputs, n, values, offset, fixed, j, k, at);
    } else {
      assert inputs[..n][..i] == inputs[..i];
      EarlierStart(dialect, inputs, n, values, fixed, i);
      TextPlaced(dialect, inputs[..n], values, offset, fixed, i, j, k, start, at, e);
      TextKept(dialect, inputs, n, values, offset, fixed, k, StartAfter(dialect, inputs[..n], values, offset, fixed));
    }
  }

  lemma LastStart(dialect: Dialect, inputs: seq<Input>, n: nat, values: map<string, Value>, offset: nat, fixed: nat,
                  start: nat)
    requires |inputs| == n + 1 && start == BlockStart(dialect, inputs, values, fixed, n)
    ensures offset + start == StartAfter(dialect, inputs[..n], values, offset, fixed)
  {
    assert AllDrafts(dialect, inputs, values)[..n] == AllDrafts(dialect, inputs[..n], values);
  }

  lemma EarlierStart(dialect: Dialect, inputs: seq<Input>, n: nat, values: map<string, Value>, fixed: nat, i: nat)
    requires |inputs| == n + 1 && i < n
    ensures BlockStart(dialect, inputs, values, fixed, i) == BlockStart(dialect, inputs[..n], values, fixed, i)
  {
    assert AllDrafts(dialect, inputs, values)[..n] == AllDrafts(dialect, inputs[..n], values);
  }
}
