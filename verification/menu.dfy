/**
  The menu rules shared by the vanilla controller and the React layer: roving
  focus over the menu items, which providers a menu shows, how the
  comma-separated `data-prompt-open-in` attribute is read, how labels, role
  and context fall back to configuration, and what choosing a provider does.
 */
module Menu {
  import opened Js
  import Uri
  import opened Providers

  // ---------------------------------------------------------------------------
  // Roving focus
  // ---------------------------------------------------------------------------

  /**
    The item to focus after a navigation key, from the index of the focused
    item (`-1` when focus is outside the menu) among `n` items.
   */
  function NextIndex(idx: int, n: int, backward: bool): (r: int)
    requires n >= 1 && -1 <= idx < n
    ensures 0 <= r < n
  {
    if backward then (if idx <= 0 then n - 1 else idx - 1)
    else (if idx >= n - 1 then 0 else idx + 1)
  }

  /** Forward from the last item wraps to the first; backward from the first, or from outside, wraps to the last. */
  lemma NextIndexWraps(n: int)
    requires n >= 1
    ensures NextIndex(n - 1, n, false) == 0
    ensures NextIndex(0, n, true) == n - 1
    ensures NextIndex(-1, n, true) == n - 1
    ensures NextIndex(-1, n, false) == 0
  {
  }

  /** Forward is rotation by one, and backward rotation by minus one, modulo the item count. */
  lemma NextIndexIsRotation(idx: int, n: int)
    requires n >= 1 && 0 <= idx < n
    ensures NextIndex(idx, n, false) == (idx + 1) % n
    ensures NextIndex(idx, n, true) == (idx + n - 1) % n
  {
    if idx + 1 == n {
      ModShift(0, n);
    } else {
      ModSmall(idx + 1, n);
    }
    if idx == 0 {
      ModSmall(n - 1, n);
    } else {
      ModShift(idx - 1, n);
    }
  }

  lemma ModSmall(x: int, n: int)
    requires 0 <= x < n
    ensures x % n == x
  {
  }

  lemma ModShift(x: int, n: int)
    requires 0 <= x < n
    ensures (x + n) % n == x
  {
    assert x + n == 1 * n + x;
  }

  /** One step forward and one back (or back then forward) returns to the same item. */
  lemma NextIndexInverse(idx: int, n: int)
    requires n >= 1 && 0 <= idx < n
    ensures NextIndex(NextIndex(idx, n, false), n, true) == idx
    ensures NextIndex(NextIndex(idx, n, true), n, false) == idx
  {
  }

  datatype Key = Escape | Tab | ArrowDown | ArrowUp | OtherKey

  datatype KeyOutcome = Dismiss | MoveFocus(index: int) | Ignore

  /** Where focus goes after a key: back to the trigger, to a menu item, or nowhere new. */
  datatype Focus = FocusTrigger | FocusItem(index: nat) | KeepFocus

  /** Where an outside-click listener sees a click land: the menu, the menu's own trigger, or anywhere else. */
  datatype ClickSpot = InPopover | OnOwnTrigger | Outside

  /**
    The keydown handler: Escape dismisses the menu, Tab and the arrow keys move
    focus (Shift+Tab and ArrowUp backwards), everything else is ignored, and so
    is navigation in a menu without items.
   */
  function OnKey(key: Key, shift: bool, focused: int, items: nat): (r: KeyOutcome)
    requires -1 <= focused < items
    ensures r.Dismiss? <==> key == Escape
    ensures r.MoveFocus? ==> 0 <= r.index < items
    ensures r.MoveFocus? <==> key in {Tab, ArrowDown, ArrowUp} && items > 0
  {
    match key
    case Escape => Dismiss
    case OtherKey => Ignore
    case _ =>
      if items == 0 then Ignore
      else MoveFocus(NextIndex(focused, items, key == ArrowUp || (key == Tab && shift)))
  }

  /** Which way each key moves: ArrowUp and Shift+Tab go back, ArrowDown and Tab go forward. */
  lemma OnKeyDirections(shift: bool, focused: int, items: nat)
    requires 1 <= items && -1 <= focused < items
    ensures OnKey(ArrowUp, shift, focused, items) == MoveFocus(NextIndex(focused, items, true))
    ensures OnKey(ArrowDown, shift, focused, items) == MoveFocus(NextIndex(focused, items, false))
    ensures OnKey(Tab, shift, focused, items) == MoveFocus(NextIndex(focused, items, shift))
  {
  }

  // ---------------------------------------------------------------------------
  // The providers a menu shows
  // ---------------------------------------------------------------------------

  /** Defaults first, then the caller's custom providers. */
  function AllProviders(customs: Option<seq<Provider>>): (r: seq<Provider>)
    ensures |r| >= 4 && r[..4] == DefaultProviders
  {
    DefaultProviders + (if customs.Some? then customs.value else [])
  }

  /** For each requested id, the first provider carrying it; ids nobody carries are dropped. */
  function Pick(ids: seq<JsString>, all: seq<Provider>): (r: seq<Provider>)
    ensures |r| <= |ids|
  {
    if ids == [] then []
    else
      var found := Find(all, ids[0]);
      (if found.Some? then [found.value] else []) + Pick(ids[1..], all)
  }

  /** The shown list: everything without an `openIn` list, else the picked providers in list order. */
  function ShownProviders(openIn: Option<seq<JsString>>, customs: Option<seq<Provider>>): (r: seq<Provider>)
    ensures openIn.None? ==> r == AllProviders(customs)
    ensures openIn.Some? ==> |r| <= |openIn.value|
  {
    if openIn.None? then AllProviders(customs) else Pick(openIn.value, AllProviders(customs))
  }

  function Ids(ps: seq<Provider>): (r: seq<JsString>)
    ensures |r| == |ps|
    ensures forall k | 0 <= k < |ps| :: r[k] == ps[k].id
  {
    seq(|ps|, k requires 0 <= k < |ps| => ps[k].id)
  }

  /** The requested ids that some provider carries, in request order. */
  function Known(ids: seq<JsString>, all: seq<Provider>): (r: seq<JsString>)
    ensures |r| <= |ids|
  {
    if ids == [] then []
    else (if HasId(all, ids[0]) then [ids[0]] else []) + Known(ids[1..], all)
  }

  /**
    The picked list carries exactly the known requested ids, in request order,
    and each entry is the first provider of the full list with its id.
   */
  lemma {:induction false} PickSpec(ids: seq<JsString>, all: seq<Provider>)
    ensures Ids(Pick(ids, all)) == Known(ids, all)
    ensures forall k | 0 <= k < |Pick(ids, all)| :: Find(all, Pick(ids, all)[k].id) == Some(Pick(ids, all)[k])
  {
    if ids != [] {
      PickSpec(ids[1..], all);
      var found := Find(all, ids[0]);
      var head: seq<Provider> := if found.Some? then [found.value] else [];
      var rest := Pick(ids[1..], all);
      assert Pick(ids, all) == head + rest;
      assert Ids(head + rest) == Ids(head) + Ids(rest);
      assert Ids(head) == (if HasId(all, ids[0]) then [ids[0]] else []);
      assert forall k | 0 <= k < |head| :: Find(all, head[k].id) == Some(head[k]) by {
        if found.Some? {
          FindIsFirst(all, found.value);
        }
      }
      FindAppend(all, head, rest);
    }
  }

  /** What `Find` returns is found again by its own id. */
  lemma FindIsFirst(all: seq<Provider>, p: Provider)
    requires exists i | 0 <= i < |all| :: all[i] == p && forall j | 0 <= j < i :: all[j].id != p.id
    ensures Find(all, p.id) == Some(p)
  {
    var i :| 0 <= i < |all| && all[i] == p && forall j | 0 <= j < i :: all[j].id != p.id;
    var k := FindIndex(all, p.id).value;
    assert k == i;
  }

  lemma FindAppend(all: seq<Provider>, head: seq<Provider>, rest: seq<Provider>)
    requires forall k | 0 <= k < |head| :: Find(all, head[k].id) == Some(head[k])
    requires forall k | 0 <= k < |rest| :: Find(all, rest[k].id) == Some(rest[k])
    ensures forall k | 0 <= k < |head + rest| :: Find(all, (head + rest)[k].id) == Some((head + rest)[k])
  {
    forall k | 0 <= k < |head + rest|
      ensures Find(all, (head + rest)[k].id) == Some((head + rest)[k])
    {
      if k < |head| {
        assert (head + rest)[k] == head[k];
      } else {
        assert (head + rest)[k] == rest[k - |head|];
      }
    }
  }

  /** An `openIn` list of unknown ids only, or an empty one, shows no provider at all. */
  lemma EmptyOpenInShowsNothing(customs: Option<seq<Provider>>)
    ensures ShownProviders(Some([]), customs) == []
  {
  }

  /** Without a custom list the shown list is the four defaults. */
  lemma NoOpenInShowsDefaults()
    ensures ShownProviders(None, None) == DefaultProviders
  {
    assert DefaultProviders + [] == DefaultProviders;
  }

  /**
    A custom provider reusing a default's id is shadowed in the menu, because
    the search runs over defaults first, while link lookup prefers the custom
    provider.  Choosing the shown entry still opens the custom link.
   */
  lemma ShadowedCustomProvider(prompt: JsString, build: JsString -> JsString)
    requires Uri.WellFormed(prompt)
    ensures var mine := Provider(Claude.id, Str("My Claude"), Str("★"), Custom(build));
      && ShownProviders(Some([Claude.id]), Some([mine])) == [Claude]
      && GetProviderUrl(Claude.id, prompt, Some([mine])) == Some(build(prompt))
  {
    var mine := Provider(Claude.id, Str("My Claude"), Str("★"), Custom(build));
    var all := AllProviders(Some([mine]));
    assert all[0] == Claude;
    assert Find(all, Claude.id) == Some(Claude);
    assert Pick([Claude.id], all) == [Claude] + Pick([], all);
    assert Find([mine], Claude.id) == Some(mine);
  }

  // ---------------------------------------------------------------------------
  // The `data-prompt-open-in` attribute
  // ---------------------------------------------------------------------------

  const Comma: Unit := 0x2C

  function TrimAll(parts: seq<JsString>): (r: seq<JsString>)
    ensures |r| == |parts|
    ensures forall k | 0 <= k < |parts| :: r[k] == Trim(parts[k])
  {
    seq(|parts|, k requires 0 <= k < |parts| => Trim(parts[k]))
  }

  /**
    The ids a target asks for: its attribute split at commas with each entry
    trimmed, or the configured list when the attribute is absent or empty.
   */
  function ParseOpenIn(attribute: Option<JsString>, configured: Option<seq<JsString>>): (r: Option<seq<JsString>>)
    ensures !Truthy(attribute) ==> r == configured
    ensures Truthy(attribute) ==> r.Some? && |r.value| >= 1
    ensures Truthy(attribute) ==> forall k | 0 <= k < |r.value| :: Trimmed(r.value[k])
  {
    if Truthy(attribute) then Some(TrimAll(Split(attribute.value, Comma))) else configured
  }

  /** Writing trimmed, comma-free ids joined by commas reads them back. */
  lemma ParseOpenInJoin(ids: seq<JsString>, configured: Option<seq<JsString>>)
    requires |ids| >= 1
    requires forall k | 0 <= k < |ids| :: Trimmed(ids[k]) && Comma !in ids[k]
    requires Join(ids, [Comma]) != []
    ensures ParseOpenIn(Some(Join(ids, [Comma])), configured) == Some(ids)
  {
    var attribute := Join(ids, [Comma]);
    SplitJoin(ids, Comma);
    assert Split(attribute, Comma) == ids;
    forall k | 0 <= k < |ids| ensures TrimAll(ids)[k] == ids[k] {
      TrimTrimmed(ids[k]);
    }
    assert TrimAll(ids) == ids;
  }

  /** Whitespace around the entries is dropped: " claude , gemini" reads as two ids. */
  lemma ParseOpenInExample()
    ensures ParseOpenIn(Some(Str(" claude ") + [Comma] + Str(" gemini")), None) == Some([Str("claude"), Str("gemini")])
  {
    ExampleSplit();
    ExampleTrimFirst();
    ExampleTrimSecond();
    ParseTwo(Str(" claude "), Str(" gemini"), Str("claude"), Str("gemini"));
  }

  lemma ParseTwo(first: JsString, second: JsString, a: JsString, b: JsString)
    requires Trim(first) == a && Trim(second) == b
    requires Split(first + [Comma] + second, Comma) == [first, second]
    ensures ParseOpenIn(Some(first + [Comma] + second), None) == Some([a, b])
  {
    TrimAllPair(first, second);
  }

  lemma TrimAllPair(first: JsString, second: JsString)
    ensures TrimAll([first, second]) == [Trim(first), Trim(second)]
  {
  }

  lemma ExampleTrimFirst()
    ensures Trim(Str(" claude ")) == Str("claude")
  {
    assert Str(" claude ") == Str(" ") + Str("claude") + Str(" ");
    TrimPadded(Str(" "), Str("claude"), Str(" "));
  }

  lemma ExampleTrimSecond()
    ensures Trim(Str(" gemini")) == Str("gemini")
  {
    assert Str(" gemini") == Str(" ") + Str("gemini") + [];
    TrimPadded(Str(" "), Str("gemini"), []);
  }

  lemma ExampleSplit()
    ensures Split(Str(" claude ") + [Comma] + Str(" gemini"), Comma) == [Str(" claude "), Str(" gemini")]
  {
    var first := Str(" claude ");
    var second := Str(" gemini");
    assert Comma !in first && Comma !in second;
    SplitJoin([first, second], Comma);
    assert Join([first, second], [Comma]) == first + [Comma] + second;
  }

  // ---------------------------------------------------------------------------
  // Labels, role and context
  // ---------------------------------------------------------------------------

  const DefaultLabel: JsString := Str("Prompt")
  const AriaSuffix: JsString := Str(" — send to AI")

  /** The trigger's caption: the target's own action text, else the configured label, else "Prompt". */
  function TriggerLabel(action: Option<JsString>, configured: Option<JsString>): (r: JsString)
    ensures r != []
    ensures Truthy(action) ==> r == action.value
    ensures !Truthy(action) && Truthy(configured) ==> r == configured.value
    ensures !Truthy(action) && !Truthy(configured) ==> r == DefaultLabel
  {
    Or(action, Or(configured, Some(DefaultLabel))).value
  }

  /** The trigger's accessible name. */
  function AriaLabel(caption: JsString): (r: JsString)
    ensures |r| == |caption| + |AriaSuffix| && r[..|caption|] == caption && r[|caption|..] == AriaSuffix
  {
    caption + AriaSuffix
  }

  /** The accessible name determines the visible caption: two triggers are told apart by name exactly when by caption. */
  lemma {:induction false} AriaLabelInjective(a: JsString, b: JsString)
    ensures AriaLabel(a) == AriaLabel(b) <==> a == b
  {
    if AriaLabel(a) == AriaLabel(b) {
      assert |a| == |b|;
      assert a == AriaLabel(a)[..|a|];
      assert b == AriaLabel(b)[..|b|];
    }
  }

  /**
    A role or context: the target's attribute, else the configured default,
    else absent.  Empty strings count as absent at every step.
   */
  function Fallback(attribute: Option<JsString>, configured: Option<JsString>): (r: Option<JsString>)
    ensures r.Some? ==> r.value != []
    ensures Truthy(attribute) ==> r == attribute
    ensures !Truthy(attribute) && Truthy(configured) ==> r == configured
    ensures r.None? <==> !Truthy(attribute) && !Truthy(configured)
  {
    Or(attribute, Or(configured, None))
  }

  // ---------------------------------------------------------------------------
  // Choosing a provider
  // ---------------------------------------------------------------------------

  datatype Effect =
    | OpenTab(url: JsString)
    | CopyText(text: JsString)
    | ShowToast(message: JsString)

  const ToastMessage: JsString := Str("Prompt copied — paste it in the chat")

  /** The copy item's caption before and after copying, and what the live region then announces. */
  const CopyCaption: JsString := Str("Copy prompt")
  const CopiedCaption: JsString := Str("✓ Copied!")
  const CopiedAnnouncement: JsString := Str("Prompt copied to clipboard")

  /** `if (url) window.open(url)`: nothing for no link or an empty one. */
  function OpenIfAny(url: Option<JsString>): (r: seq<Effect>)
    ensures |r| <= 1
    ensures r != [] <==> Truthy(url)
    ensures r != [] ==> r[0] == OpenTab(url.value) && url.value != []
  {
    if Truthy(url) then [OpenTab(url.value)] else []
  }

  /**
    Deep link when the encoded prompt fits; otherwise copy the prompt and open
    the provider with an empty prompt.
   */
  function DeepLinkOrCopy(prompt: JsString, id: JsString, customs: Option<seq<Provider>>): (r: seq<Effect>)
    requires Uri.WellFormed(prompt)
    ensures Copies(r) <==> !CanUseDeepLink(prompt, None)
    ensures !CanUseDeepLink(prompt, None) ==> r[0] == CopyText(prompt)
    ensures forall k | 0 <= k < |r| :: !r[k].ShowToast?
    ensures forall k | 0 <= k < |r| :: r[k].OpenTab? ==> r[k].url != []
    ensures forall k | 0 <= k < |r| :: r[k].OpenTab? ==> Some(r[k].url) == GetProviderUrl(id, LinkedPrompt(prompt), customs)
    ensures Truthy(GetProviderUrl(id, LinkedPrompt(prompt), customs)) <==> exists k | 0 <= k < |r| :: r[k].OpenTab?
    ensures |r| == (if CanUseDeepLink(prompt, None) then 0 else 1)
                 + (if Truthy(GetProviderUrl(id, LinkedPrompt(prompt), customs)) then 1 else 0)
  {
    if CanUseDeepLink(prompt, None) then
      var open := OpenIfAny(GetProviderUrl(id, prompt, customs));
      assert !Copies(open);
      open
    else
      var open := OpenIfAny(GetProviderUrl(id, [], customs));
      var r := [CopyText(prompt)] + open;
      assert r[0].CopyText?;
      assert open != [] ==> r[1] == open[0];
      r
  }

  /** The prompt the opened link carries: the prompt itself when it passes the gate, otherwise none. */
  function LinkedPrompt(prompt: JsString): (r: JsString)
    requires Uri.WellFormed(prompt)
    ensures Uri.WellFormed(r)
    ensures r == prompt || r == []
  {
    if CanUseDeepLink(prompt, None) then prompt else []
  }

  /** The vanilla menu item also shows a toast once the prompt is on the clipboard. */
  function ItemEffects(prompt: JsString, id: JsString, customs: Option<seq<Provider>>): (r: seq<Effect>)
    requires Uri.WellFormed(prompt)
  {
    var base := DeepLinkOrCopy(prompt, id, customs);
    if CanUseDeepLink(prompt, None) then base else base + [ShowToast(ToastMessage)]
  }

  predicate Copies(effects: seq<Effect>) {
    exists k | 0 <= k < |effects| :: effects[k].CopyText?
  }

  /** The shape of what a choice does, in both branches. */
  lemma DispatchShape(prompt: JsString, id: JsString, customs: Option<seq<Provider>>)
    requires Uri.WellFormed(prompt)
    ensures var r := ItemEffects(prompt, id, customs);
      && (Copies(r) <==> !CanUseDeepLink(prompt, None))
      && (!CanUseDeepLink(prompt, None) ==> r[0] == CopyText(prompt) && r[|r| - 1] == ShowToast(ToastMessage))
      && (forall k | 0 <= k < |r| :: r[k].OpenTab? ==> r[k].url != [])
      && (forall k | 0 <= k < |r| :: r[k].OpenTab? ==>
            Some(r[k].url) == GetProviderUrl(id, LinkedPrompt(prompt), customs))
      && (Truthy(GetProviderUrl(id, LinkedPrompt(prompt), customs))
          <==> exists k | 0 <= k < |r| :: r[k].OpenTab?)
      && |r| == (if CanUseDeepLink(prompt, None) then 0 else 2)
                + (if Truthy(GetProviderUrl(id, LinkedPrompt(prompt), customs)) then 1 else 0)
  {
    var r := ItemEffects(prompt, id, customs);
    if !CanUseDeepLink(prompt, None) {
      assert r[0] == CopyText(prompt);
      ToastOpensNothing(DeepLinkOrCopy(prompt, id, customs), ToastMessage);
    } else {
      assert !Copies(r);
    }
  }

  /** A toast appended after the effects opens no tab of its own. */
  lemma ToastOpensNothing(base: seq<Effect>, message: JsString)
    ensures var r := base + [ShowToast(message)];
      && (forall k | 0 <= k < |r| :: r[k].OpenTab? ==> k < |base| && r[k] == base[k])
      && ((exists k | 0 <= k < |r| :: r[k].OpenTab?) <==> exists k | 0 <= k < |base| :: base[k].OpenTab?)
  {
    var r := base + [ShowToast(message)];
    if exists k | 0 <= k < |base| :: base[k].OpenTab? {
      var k :| 0 <= k < |base| && base[k].OpenTab?;
      assert r[k] == base[k];
    }
  }

  /** The React hook does the same as the vanilla item, less the toast. */
  lemma ReactDropsOnlyTheToast(prompt: JsString, id: JsString, customs: Option<seq<Provider>>)
    requires Uri.WellFormed(prompt)
    ensures ItemEffects(prompt, id, customs)
         == DeepLinkOrCopy(prompt, id, customs) + (if CanUseDeepLink(prompt, None) then [] else [ShowToast(ToastMessage)])
  {
  }

  /**
    For a default provider the prompt always arrives whole: either on the
    clipboard, or in the opened link, whose text after the provider's prefix
    decodes back to the prompt.  Without a deep link the bare prefix is opened.
   */
  lemma DefaultProviderDelivers(prompt: JsString, i: nat)
    requires Uri.WellFormed(prompt) && i < 4
    ensures var p := DefaultProviders[i];
      var r := DeepLinkOrCopy(prompt, p.id, None);
      && |r| >= 1
      && (CanUseDeepLink(prompt, None) ==>
            r == [OpenTab(p.url.prefix + Uri.Encode(prompt))]
            && Uri.Decode(r[0].url[|p.url.prefix|..]) == Some(prompt))
      && (!CanUseDeepLink(prompt, None) ==> r == [CopyText(prompt), OpenTab(p.url.prefix)])
  {
    DefaultTable();
    var p := DefaultProviders[i];
    assert Find(DefaultProviders, p.id) == Some(p) by {
      assert FindIndex(DefaultProviders, p.id) == Some(i);
    }
    Uri.DecodeEncode(prompt);
    assert Uri.Encode([]) == [];
    assert p.url.prefix != [];
    assert (p.url.prefix + Uri.Encode(prompt))[|p.url.prefix|..] == Uri.Encode(prompt);
    assert p.url.prefix + Uri.Encode([]) == p.url.prefix;
  }
}
