/**
  The JavaScript materialiser beside the native one: on values the native one
  accepts it produces the same SQL text and the same operand values, or it fails
  for one of three reasons: no contract, no marker, or a site that binds other
  arrays and objects than the first one.
 */
module DynamicMirror {
  import opened DynamicAgreement
  import opened DynamicBlocks
  import opened DynamicInput
  import opened DynamicMaterialization
  import opened KeyOrder
  import opened Wrappers

  /* ---- elaborations ---- */

  /** No object, at any depth, has keys that the two renderers visit in different orders; ASCII keys never do. */
  predicate KeysAlike(value: Value) {
    match value
    case Object(entries) => Uncrossed(entries.Keys) && forall key :: key in entries ==> KeysAlike(entries[key])
    case Array(items) => forall i :: 0 <= i < |items| ==> KeysAlike(items[i])
    case _ => true
  }

  /** Where the native elaboration completes, the JavaScript one is the same. */
  ghost predicate Mirrors(script: Elaboration, native: Elaboration) {
    native.Done? ==> script == native
  }

  lemma {:induction false} ChainMirrors(script: seq<Elaboration>, native: seq<Elaboration>)
    requires |script| == |native| && forall i :: 0 <= i < |native| ==> Mirrors(script[i], native[i])
    ensures Mirrors(Chain(script), Chain(native))
  {
    if native != [] {
      var n := |native| - 1;
      ChainMirrors(script[..n], native[..n]);
    }
  }

  lemma OperatorMirrors(input: Input, field: Field, siteField: SiteField, name: string, operand: Value, path: InputPath)
    ensures Mirrors(ElaborateOperator(input, field, siteField, JavaScript, name, operand, path),
                    ElaborateOperator(input, field, siteField, Native, name, operand, path))
  {
  }

  lemma PartsMirror(input: Input, field: Field, siteField: SiteField, entries: map<string, Value>, names: seq<string>,
                    path: InputPath)
    requires forall name :: name in names ==> name in entries
    ensures Mirrors(Chain(OperatorParts(input, field, siteField, JavaScript, entries, names, path)),
                    Chain(OperatorParts(input, field, siteField, Native, entries, names, path)))
  {
    var script := OperatorParts(input, field, siteField, JavaScript, entries, names, path);
    var native := OperatorParts(input, field, siteField, Native, entries, names, path);
    forall i | 0 <= i < |names| ensures Mirrors(script[i], native[i]) {
      OperatorMirrors(input, field, siteField, names[i], entries[names[i]], path + [Key(names[i])]);
    }
    ChainMirrors(script, native);
  }

  lemma OperatorsMirror(input: Input, field: Field, siteField: SiteField, operators: Value, path: InputPath)
    requires KeysAlike(operators)
    ensures Mirrors(ElaborateOperators(input, field, siteField, JavaScript, operators, path),
                    ElaborateOperators(input, field, siteField, Native, operators, path))
  {
    if operators.Object? {
      var entries := operators.entries;
      KeysSortAlike(entries.Keys);
      ChainOfParts(input, field, siteField, JavaScript, entries, path);
      ChainOfParts(input, field, siteField, Native, entries, path);
      PartsMirror(input, field, siteField, entries, Sorted(Native, entries.Keys), path);
    }
  }

  lemma {:induction false} EntryMirrors(input: Input, site: Site, key: string, value: Value, path: InputPath)
    requires KeysAlike(value)
    ensures Mirrors(ElaborateEntry(input, site, JavaScript, key, value, path),
                    ElaborateEntry(input, site, Native, key, value, path))
    decreases value, 2
  {
    if key == "and" || key == "or" {
      if value.Array? {
        var script :=
            seq(|value.items|,
                i requires 0 <= i < |value.items| =>
                    Elaborate(input, site, JavaScript, value.items[i], path + [Key(key), Index(i)]));
        var native :=
            seq(|value.items|,
                i requires 0 <= i < |value.items| =>
                    Elaborate(input, site, Native, value.items[i], path + [Key(key), Index(i)]));
        forall i | 0 <= i < |value.items| ensures Mirrors(script[i], native[i]) {
          PredicateMirrors(input, site, value.items[i], path + [Key(key), Index(i)]);
        }
        ChainMirrors(script, native);
      }
    } else if key == "not" {
      PredicateMirrors(input, site, value, path + [Key(key)]);
    } else if FindField(input.fields, key).Some? && FindSiteField(site.fields, key).Some? {
      OperatorsMirror(input, FindField(input.fields, key).value, FindSiteField(site.fields, key).value, value,
                      path + [Key(key)]);
    }
  }

  lemma {:induction false} PredicateMirrors(input: Input, site: Site, value: Value, path: InputPath)
    requires KeysAlike(value)
    ensures Mirrors(Elaborate(input, site, JavaScript, value, path), Elaborate(input, site, Native, value, path))
    decreases value, 1
  {
    if value.Object? {
      KeysSortAlike(value.entries.Keys);
      ChainOfEntries(input, site, JavaScript, value, path);
      ChainOfEntries(input, site, Native, value, path);
      var keys := Sorted(Native, value.entries.Keys);
      var script := EntryParts(input, site, JavaScript, value.entries, keys, path);
      var native := EntryParts(input, site, Native, value.entries, keys, path);
      forall i | 0 <= i < |keys| ensures Mirrors(script[i], native[i]) {
        EntryMirrors(input, site, keys[i], value.entries[keys[i]], path);
      }
      ChainMirrors(script, native);
    }
  }

  lemma SiteMirrors(input: Input, site: Site, value: Value)
    requires KeysAlike(value)
    ensures Mirrors(ElaborateSite(input, site, JavaScript, value), ElaborateSite(input, site, Native, value))
  {
    if input.kind.Predicate? {
      PredicateMirrors(input, site, value, [Key(input.path)]);
    }
  }

  /* ---- the operand vectors ---- */

  function Slots(client: Client, operands: seq<Bound>): (slots: seq<Slot>)
    ensures |slots| == |operands|
  {
    if operands == [] then []
    else
      var n := |operands| - 1;
      Slots(client, operands[..n]) + [SlotOf(client, operands[n])]
  }

  lemma {:induction false} SlotsOneMore(client: Client, operands: seq<Bound>, operand: Bound)
    ensures Slots(client, operands + [operand]) == Slots(client, operands) + [SlotOf(client, operand)]
  {
    assert (operands + [operand])[..|operands|] == operands;
  }

  lemma {:induction false} SlotAt(client: Client, operands: seq<Bound>, k: nat)
    requires k < |operands|
    ensures Slots(client, operands)[k] == SlotOf(client, operands[k])
    decreases |operands|
  {
    if k < |operands| - 1 {
      SlotAt(client, operands[..|operands| - 1], k);
    }
  }

  predicate SameObject(client: Client, existing: Bound, operand: Bound) {
    Reference(operand.value) ==> client.heap(existing.path) == client.heap(operand.path)
  }

  /** Arrays and objects that are reused are the same ones. */
  predicate InPlaceAt(client: Client, items: seq<Bound>, cursor: nat, operands: seq<Bound>) {
    operands == [] ||
    var n := |operands| - 1;
    InPlaceAt(client, items, cursor, operands[..n])
        && (cursor + n < |items| ==> SameObject(client, items[cursor + n], operands[n]))
  }

  lemma {:induction false} AbsorbGrows(items: seq<Bound>, cursor: nat, operands: seq<Bound>)
    requires cursor <= |items| && Absorb(NATIVE, items, cursor, operands).Some?
    ensures var after := Absorb(NATIVE, items, cursor, operands).value;
            items <= after && |after| == if cursor + |operands| > |items| then cursor + |operands| else |items|
    decreases |operands|
  {
    if operands != [] {
      AbsorbGrows(items, cursor, operands[..|operands| - 1]);
    }
  }

  /**
    Where the native vector absorbs operands, the JavaScript vector behind the fixed
    prefix does so exactly if they are in place.
   */
  lemma {:induction false} AbsorbMirrors(fixed: nat, client: Client, native: seq<Bound>, script: seq<Slot>, start: nat,
                                         at: nat, operands: seq<Bound>)
    requires fixed <= |native| && script == Slots(client, native[fixed..]) && at == fixed + start <= |native|
    requires Absorb(NATIVE, native, at, operands).Some?
    ensures fixed <= |Absorb(NATIVE, native, at, operands).value|
    ensures Absorb(Script(fixed, client), script, start, operands) ==
            if InPlaceAt(client, native, at, operands) then
                Some(Slots(client, Absorb(NATIVE, native, at, operands).value[fixed..])) else None
    decreases |operands|
  {
    if operands != [] {
      var n := |operands| - 1;
      AbsorbMirrors(fixed, client, native, script, start, at, operands[..n]);
      AbsorbGrows(native, at, operands[..n]);
      var before := Absorb(NATIVE, native, at, operands[..n]).value;
      var own := before[fixed..];
      if at + n == |before| {
        assert (before + [operands[n]])[fixed..] == own + [operands[n]];
        SlotsOneMore(client, own, operands[n]);
      } else {
        assert before[at + n] == native[at + n] && SameOperand(native[at + n], operands[n]);
        SlotAt(client, own, start + n);
      }
    }
  }

  /* ---- one site ---- */

  /** The script vector holds the values of the native one without its fixed prefix. */
  ghost predicate ShadowOf(fixed: nat, client: Client, script: seq<Slot>, native: seq<Bound>) {
    fixed <= |native| && script == Slots(client, native[fixed..])
  }

  ghost predicate ProgressShadow(fixed: nat, client: Client, script: Progress<Slot>, native: Progress<Bound>) {
    script.sql == native.sql && ShadowOf(fixed, client, script.operands, native.operands)
  }

  ghost predicate DrawShadow(fixed: nat, client: Client, script: Drawing<Slot>, native: Drawing<Bound>) {
    native.Drawn? && script.Drawn? && script.text == native.text && native.end == fixed + script.end
        && ShadowOf(fixed, client, script.operands, native.operands)
  }

  ghost predicate EndShadow(fixed: nat, script: Option<nat>, native: Option<nat>) {
    script.Some? == native.Some? && (native.Some? ==> native.value == fixed + script.value)
  }

  ghost predicate AdvanceShadow(fixed: nat, client: Client, script: Advance<Slot>, native: Advance<Bound>) {
    native.Advanced? && script.Advanced? && ProgressShadow(fixed, client, script.progress, native.progress)
        && EndShadow(fixed, script.end, native.end)
  }

  lemma DrawAtFrom<T>(target: Target<T>, site: Site, e: Elaboration, start: nat, before: seq<T>, operands: seq<Bound>,
                      absorbed: Option<seq<T>>, end: nat, at: nat)
    requires operands == Emission(e) && absorbed == Absorb(target, before, start, operands)
    requires end == start + |operands| && at == target.offset + start
    ensures DrawAt(target, site, e, start, before) == DrawFrom(absorbed, site, e, end, at)
  {
  }

  lemma DrawMirrors(fixed: nat, client: Client, site: Site, e: Elaboration, native: seq<Bound>, script: seq<Slot>,
                    start: nat, at: nat)
    requires ShadowOf(fixed, client, script, native) && fixed + start == at <= |native|
             && DrawAt(NATIVE, site, e, at, native).Drawn?
    ensures var drawing := DrawAt(Script(fixed, client), site, e, start, script);
            if InPlaceAt(client, native, at, Emission(e)) then
                DrawShadow(fixed, client, drawing, DrawAt(NATIVE, site, e, at, native))
            else drawing == Refused(Disagreement)
  {
    AbsorbMirrors(fixed, client, native, script, start, at, Emission(e));
    var absorbed, absorbed' := Absorb(NATIVE, native, at, Emission(e)),
        Absorb(Script(fixed, client), script, start, Emission(e));
    var end', end := start + |Emission(e)|, at + |Emission(e)|;
    DrawAtFrom(NATIVE, site, e, at, native, Emission(e), absorbed, end, at);
    DrawAtFrom(Script(fixed, client), site, e, start, script, Emission(e), absorbed', end', at);
  }

  lemma SpliceMirrors(fixed: nat, client: Client, marker: string, sql: string, expected: Option<nat>,
                      expected': Option<nat>, native: Drawing<Bound>, script: Drawing<Slot>)
    requires EndShadow(fixed, expected', expected) && DrawShadow(fixed, client, script, native)
             && Splice(Native, marker, expected, sql, native).Advanced?
    ensures var advance := Splice(JavaScript, marker, expected', sql, script);
            if marker != "" then AdvanceShadow(fixed, client, advance, Splice(Native, marker, expected, sql, native))
            else advance.Halted?
  {
    if marker == "" {
      EmptyMarker(sql);
    }
  }

  lemma StepMirrors(fixed: nat, client: Client, input: Input, site: Site, value: Value, start: nat, at: nat,
                    expected: Option<nat>, expected': Option<nat>, native: Progress<Bound>, script: Progress<Slot>)
    requires KeysAlike(value) && ProgressShadow(fixed, client, script, native) && EndShadow(fixed, expected', expected)
    requires fixed + start == at <= |native.operands|
             && SiteStep(NATIVE, input, site, value, at, expected, native).Advanced?
    ensures var step := SiteStep(Script(fixed, client), input, site, value, start, expected', script);
            if InPlaceAt(client, native.operands, at, Emission(ElaborateSite(input, site, Native, value)))
                && site.marker != ""
            then AdvanceShadow(fixed, client, step, SiteStep(NATIVE, input, site, value, at, expected, native))
            else step.Halted?
  {
    var e := ElaborateSite(input, site, Native, value);
    var drawing := DrawAt(NATIVE, site, e, at, native.operands);
    SiteMirrors(input, site, value);
    DrawMirrors(fixed, client, site, e, native.operands, script.operands, start, at);
    if InPlaceAt(client, native.operands, at, Emission(e)) {
      SpliceMirrors(fixed, client, site.marker, native.sql, expected, expected', drawing,
                    DrawAt(Script(fixed, client), site, e, start, script.operands));
    }
  }

  /* ---- the sites of one input ---- */

  ghost predicate SameObjects(client: Client, first: seq<Bound>, operands: seq<Bound>) {
    forall k :: 0 <= k < |operands| && k < |first| ==> SameObject(client, first[k], operands[k])
  }

  lemma {:induction false} InPlaceBehind(client: Client, before: seq<Bound>, first: seq<Bound>, cursor: nat,
                                         operands: seq<Bound>)
    requires cursor == |before|
    ensures InPlaceAt(client, before + first, cursor, operands) <==> SameObjects(client, first, operands)
    decreases |operands|
  {
    if operands != [] {
      var n := |operands| - 1;
      InPlaceBehind(client, before, first, cursor, operands[..n]);
    }
  }

  /** The site has a marker, and binds the array or object that the first site binds at each operand place. */
  ghost predicate Portable(client: Client, input: Input, first: Site, site: Site, value: Value) {
    site.marker != ""
        && SameObjects(client, Emission(ElaborateSite(input, first, Native, value)),
                       Emission(ElaborateSite(input, site, Native, value)))
  }

  ghost predicate AllPortable(client: Client, input: Input, sites: seq<Site>, value: Value) {
    forall j :: 0 <= j < |sites| ==> Portable(client, input, sites[0], sites[j], value)
  }

  lemma {:induction false} BindNative(operands: seq<Bound>)
    ensures Bind(NATIVE, operands) == operands
  {
    if operands != [] {
      BindNative(operands[..|operands| - 1]);
    }
  }

  /** After some sites the native vector ends with the first site's operands. */
  lemma SitesVector(input: Input, sites: seq<Site>, value: Value, before: Progress<Bound>, start: nat)
    requires start == |before.operands| && SiteSteps(NATIVE, input, sites, value, start, before).Advanced?
    ensures SiteSteps(NATIVE, input, sites, value, start, before).progress.operands ==
            before.operands + if sites == [] then [] else Emission(ElaborateSite(input, sites[0], Native, value))
  {
    if sites != [] {
      NativeReflexive();
      SitesShareBlock(NATIVE, input, sites, value, before);
      SiteElaborationAt(Native, input, sites, value, 0);
      BindNative(Emission(ElaborateSite(input, sites[0], Native, value)));
    }
  }

  /** One more site is in place exactly when its operands stand where the first site's do. */
  lemma NextInPlace(client: Client, input: Input, sites: seq<Site>, n: nat, value: Value, before: seq<Bound>,
                    between: seq<Bound>, at: nat)
    requires n < |sites| && at == |before|
    requires between == before + if n == 0 then [] else Emission(ElaborateSite(input, sites[0], Native, value))
    ensures InPlaceAt(client, between, at, Emission(ElaborateSite(input, sites[n], Native, value)))
            && sites[n].marker != "" <==>
            Portable(client, input, sites[0], sites[n], value)
  {
    var first := Emission(ElaborateSite(input, sites[0], Native, value));
    var operands := Emission(ElaborateSite(input, sites[n], Native, value));
    InPlaceBehind(client, before, if n == 0 then [] else first, at, operands);
  }

  lemma {:induction false} SitesMirror(fixed: nat, client: Client, input: Input, sites: seq<Site>, value: Value,
                                       start: nat, at: nat,
                                       native: Progress<Bound>, script: Progress<Slot>)
    requires KeysAlike(value) && ProgressShadow(fixed, client, script, native)
             && fixed + start == at == |native.operands|
    requires SiteSteps(NATIVE, input, sites, value, at, native).Advanced?
    ensures var steps := SiteSteps(Script(fixed, client), input, sites, value, start, script);
            if AllPortable(client, input, sites, value) then
                AdvanceShadow(fixed, client, steps, SiteSteps(NATIVE, input, sites, value, at, native))
            else steps.Halted?
    decreases |sites|
  {
    if sites != [] {
      var n := |sites| - 1;
      SitesMirror(fixed, client, input, sites[..n], value, start, at, native, script);
      var between := SiteSteps(NATIVE, input, sites[..n], value, at, native);
      SitesVector(input, sites[..n], value, native, at);
      NextInPlace(client, input, sites, n, value, native.operands, between.progress.operands, at);
      PortableNext(client, input, sites, n, value);
      if AllPortable(client, input, sites[..n], value) {
        var between' := SiteSteps(Script(fixed, client), input, sites[..n], value, start, script);
        StepMirrors(fixed, client, input, sites[n], value, start, at, between.end, between'.end, between.progress,
                    between'.progress);
      }
    }
  }

  lemma PortableNext(client: Client, input: Input, sites: seq<Site>, n: nat, value: Value)
    requires |sites| == n + 1
    ensures AllPortable(client, input, sites, value) <==>
              AllPortable(client, input, sites[..n], value) && Portable(client, input, sites[0], sites[n], value)
  {
    if AllPortable(client, input, sites[..n], value) && Portable(client, input, sites[0], sites[n], value) {
      forall j | 0 <= j < |sites| ensures Portable(client, input, sites[0], sites[j], value) {
        assert j < n ==> sites[..n][j] == sites[j] && sites[..n][0] == sites[0];
      }
    }
    if AllPortable(client, input, sites, value) {
      forall j | 0 <= j < n ensures Portable(client, input, sites[..n][0], sites[..n][j], value) {
        assert sites[..n][j] == sites[j] && sites[..n][0] == sites[0];
      }
    }
  }

  /* ---- all inputs ---- */

  /** The input has a contract, and its sites are portable. */
  ghost predicate InputPortable(input: Input, values: map<string, Value>, client: Client) {
    (input.path, input.kind) in client.contracts
    && (InputValue(Native, input, values).Ok? ==>
        AllPortable(client, input, input.sites, InputValue(Native, input, values).value))
  }

  lemma InputMirrors(fixed: nat, client: Client, input: Input, values: map<string, Value>, native: Progress<Bound>,
                     script: Progress<Slot>)
    requires (forall path :: path in values ==> KeysAlike(values[path]))
             && ProgressShadow(fixed, client, script, native)
    requires InputStep(NATIVE, input, values, native).Ok?
    ensures var r := InputStep(Script(fixed, client), input, values, script);
            if InputPortable(input, values, client) then
                r.Ok? && ProgressShadow(fixed, client, r.value, InputStep(NATIVE, input, values, native).value)
            else r.Err?
  {
    var value := InputValue(Native, input, values).value;
    SitesMirror(fixed, client, input, input.sites, value, |script.operands|, |native.operands|, native, script);
  }

  /**
    The two materialisers agree: on keys that sort alike, when the native one
    succeeds after its fixed parameters, the JavaScript one, counting from their
    number, succeeds exactly when every input is portable, and then it returns the
    same SQL text and the values of the same operands.
   */
  lemma {:induction false} ScriptMatchesNative(inputs: seq<Input>, values: map<string, Value>, sql: string,
                                               parameters: seq<Bound>, client: Client)
    requires forall path :: path in values ==> KeysAlike(values[path])
    requires Materialize(NATIVE, inputs, values, Progress(sql, parameters)).Ok?
    ensures var script := Materialize(Script(|parameters|, client), inputs, values, Progress(sql, []));
            && (script.Ok? <==> forall i :: 0 <= i < |inputs| ==> InputPortable(inputs[i], values, client))
            && (script.Ok? ==>
                ProgressShadow(|parameters|, client, script.value,
                               Materialize(NATIVE, inputs, values, Progress(sql, parameters)).value))
    decreases |inputs|
  {
    if inputs == [] {
      assert parameters[|parameters|..] == [];
    } else {
      var n := |inputs| - 1;
      ScriptMatchesNative(inputs[..n], values, sql, parameters, client);
      var between := Materialize(Script(|parameters|, client), inputs[..n], values, Progress(sql, []));
      if between.Ok? {
        InputMirrors(|parameters|, client, inputs[n], values,
                     Materialize(NATIVE, inputs[..n], values, Progress(sql, parameters)).value, between.value);
        assert forall i :: 0 <= i < |inputs| ==> i == n || inputs[i] == inputs[..n][i];
      } else {
        var i :| 0 <= i < n && !InputPortable(inputs[..n][i], values, client);
        assert inputs[..n][i] == inputs[i];
      }
    }
  }

  /** Sites whose operator kinds go together are portable, if they have markers. */
  lemma AgreeingSitesPortable(client: Client, input: Input, value: Value, before: Progress<Bound>)
    requires AllAgree(Native, input.sites) && (forall j :: 0 <= j < |input.sites| ==> input.sites[j].marker != "")
    requires SiteSteps(NATIVE, input, input.sites, value, |before.operands|, before).Advanced?
    ensures AllPortable(client, input, input.sites, value)
  {
    forall j | 0 <= j < |input.sites| ensures Portable(client, input, input.sites[0], input.sites[j], value) {
      NativeReflexive();
      SitesShareBlock(NATIVE, input, input.sites, value, before);
      SiteElaborationAt(Native, input, input.sites, value, 0);
      SiteElaborationAt(Native, input, input.sites, value, j);
      var es, done := SiteElaborations(Native, input, input.sites, value),
          SiteSteps(NATIVE, input, input.sites, value, |before.operands|, before);
      EachFits(NATIVE, es, |before.operands|, |Emission(es[0])|, done.progress.operands, 0);
      EachFits(NATIVE, es, |before.operands|, |Emission(es[0])|, done.progress.operands, j);
      SiteFollows(input, input.sites[0], input.sites[j], Native, value);
    }
  }
}
