/**
  `PromptButton`, the React component: which options it hands to `usePrompt`,
  and how its open, copied and announcement state answers the trigger, the
  keys, outside clicks, the copy item, the 500 ms timer, the provider items and
  unmounting.  React's rendering is not modelled; each handler is a transition
  on the component state, with any awaited clipboard write already resolved.
 */
module Button {
  import opened Js
  import Uri
  import Content
  import Prompt
  import opened Providers
  import opened Menu
  import Hook
  import Controller

  /** The `PromptProvider` context value; `copyLabel` is carried but the button never reads it. */
  datatype ContextValue = ContextValue(
    openIn: Option<seq<JsString>>,
    defaultRole: Option<JsString>,
    defaultContext: Option<JsString>,
    defaultInstruction: Option<JsString>,
    customProviders: Option<seq<Provider>>,
    copyLabel: Option<JsString>)

  /** The props that reach the hook or the trigger; `None` is a prop left undefined. */
  datatype Props = Props(
    content: Hook.ContentSource,
    role: Option<JsString>,
    context: Option<JsString>,
    instruction: Option<JsString>,
    openIn: Option<seq<JsString>>,
    caption: Option<JsString>)

  /** The options handed to `usePrompt`: each prop with the context's value behind it through `??`. */
  function HookOptions(props: Props, ctx: ContextValue): (r: Hook.PromptOptions)
    ensures r.content == props.content && r.customProviders == ctx.customProviders
    ensures r.role == (if props.role.Some? then props.role else ctx.defaultRole)
    ensures r.context == (if props.context.Some? then props.context else ctx.defaultContext)
    ensures r.instruction == (if props.instruction.Some? then props.instruction else ctx.defaultInstruction)
    ensures r.openIn == (if props.openIn.Some? then props.openIn else ctx.openIn)
  {
    Hook.PromptOptions(props.content,
                       Coalesce(props.role, ctx.defaultRole),
                       Coalesce(props.context, ctx.defaultContext),
                       Coalesce(props.instruction, ctx.defaultInstruction),
                       Coalesce(props.openIn, ctx.openIn),
                       ctx.customProviders)
  }

  /** The trigger caption: the `label` prop, `"Prompt"` only when it is undefined. */
  function Caption(props: Props): (r: JsString)
    ensures props.caption.None? ==> r == DefaultLabel
    ensures props.caption.Some? ==> r == props.caption.value
  {
    if props.caption.Some? then props.caption.value else DefaultLabel
  }

  /**
    An empty prop still wins: the context's default is not consulted, and
    prompt assembly then drops the empty part, so an empty `role` prop gives
    the prompt with no role at all even when the context has one.
   */
  lemma EmptyPropWins(props: Props, ctx: ContextValue)
    requires props.role == Some([])
    ensures HookOptions(props, ctx).role == Some([])
    ensures Hook.PromptOf(HookOptions(props, ctx)) == Hook.PromptOf(HookOptions(props.(role := None), ctx.(defaultRole := None)))
  {
    var o := HookOptions(props, ctx);
    var config := Prompt.PromptConfig(Hook.ResolveContent(o.content), o.role, o.context, o.instruction);
    Prompt.EmptyPartsAreAbsent(config);
  }

  /**
    Where the React button and the vanilla controller part ways: the vanilla
    `||` skips an empty attribute for the configured default, the React `??`
    keeps it; the same holds for the caption.
   */
  lemma PrecedenceDiffersFromVanilla(configured: JsString)
    requires configured != []
    ensures Fallback(Some([]), Some(configured)) == Some(configured)
    ensures Coalesce(Some([]), Some(configured)) == Some([])
    ensures TriggerLabel(Some([]), None) == DefaultLabel
    ensures Caption(Props(Hook.Literal([]), None, None, None, None, Some([]))) == []
  {
  }

  // ---------------------------------------------------------------------------
  // Component state
  // ---------------------------------------------------------------------------

  /**
    `isOpen`, `copied` and `announcement`; the pending 500 ms timers by id, the
    id in `copyTimerRef`, the next id to hand out, and whether the component is
    still mounted.
   */
  datatype ButtonState = ButtonState(
    isOpen: bool,
    copied: bool,
    announcement: JsString,
    pending: set<nat>,
    latest: Option<nat>,
    nextTimer: nat,
    mounted: bool)

  const Initial: ButtonState := ButtonState(false, false, [], {}, None, 0, true)

  /**
    The announcement is the copy message exactly while the item shows as
    copied; while mounted and copied a reset is still pending; timer ids are
    fresh.
   */
  predicate Valid(s: ButtonState) {
    && (s.copied <==> s.announcement == CopiedAnnouncement)
    && (s.copied && s.mounted ==> s.pending != {})
    && (forall t | t in s.pending :: t < s.nextTimer)
    && (s.latest.Some? ==> s.latest.value < s.nextTimer)
  }

  lemma InitialValid()
    ensures Valid(Initial)
  {
  }

  /** The copy item's caption. */
  function CopyLabel(s: ButtonState): (r: JsString)
    ensures r == CopiedCaption <==> s.copied
    ensures r == CopyCaption <==> !s.copied
  {
    assert CopiedCaption[0] != CopyCaption[0];
    if s.copied then CopiedCaption else CopyCaption
  }

  /** The trigger's click toggles the menu; opening it moves focus to the first item. */
  function Toggle(s: ButtonState): (r: (ButtonState, Focus))
    ensures r.0.isOpen == !s.isOpen
    ensures r.0 == s.(isOpen := r.0.isOpen)
    ensures r.1 == (if r.0.isOpen then FocusItem(0) else KeepFocus)
  {
    (s.(isOpen := !s.isOpen), if s.isOpen then KeepFocus else FocusItem(0))
  }

  lemma ToggleTwice(s: ButtonState)
    ensures Toggle(Toggle(s).0).0 == s
  {
  }

  /**
    The keydown listener, present only while open; `items` counts the copy item
    and the listed providers, `focused` is the focused item's index or `-1`.
   */
  function Key(s: ButtonState, key: Key, shift: bool, focused: int, items: nat): (r: (ButtonState, Focus))
    requires s.isOpen ==> -1 <= focused < items
    ensures !s.isOpen ==> r == (s, KeepFocus)
    ensures s.isOpen && key == Escape ==> r == (s.(isOpen := false), FocusTrigger)
    ensures key != Escape ==> r.0 == s
  {
    if !s.isOpen then (s, KeepFocus)
    else
      match OnKey(key, shift, focused, items)
      case Dismiss => (s.(isOpen := false), FocusTrigger)
      case MoveFocus(k) => (s, FocusItem(k))
      case Ignore => (s, KeepFocus)
  }

  /** The React and vanilla menus move focus identically for the same number of items. */
  lemma SameKeysAsVanilla(s: ButtonState, v: Controller.State, key: Key, shift: bool, focused: int)
    requires s.isOpen && v.active.Some?
    requires -1 <= focused < Controller.ItemCount(v.active.value)
    ensures Key(s, key, shift, focused, Controller.ItemCount(v.active.value)).1
         == Controller.KeyDown(v, key, shift, focused).1
  {
  }

  /** The capture-phase click listener, present only while open: a click outside closes. */
  function ClickOutside(s: ButtonState, spot: ClickSpot): (r: ButtonState)
    ensures r.isOpen <==> s.isOpen && spot != Outside
    ensures r == s.(isOpen := r.isOpen)
  {
    if s.isOpen && spot == Outside then s.(isOpen := false) else s
  }

  /** What a copy click produces: the new state, the effects, and the argument `onCopy` receives. */
  datatype CopyOutcome = CopyOutcome(state: ButtonState, effects: seq<Effect>, reported: JsString)

  /** The state change of `handleCopy` once the copy has finished: copied, announced, a new timer in the ref. */
  function AfterCopy(s: ButtonState): (r: ButtonState)
    ensures r.copied && r.announcement == CopiedAnnouncement && r.isOpen == s.isOpen
    ensures r.pending == s.pending + {s.nextTimer} && r.latest == Some(s.nextTimer)
  {
    s.(copied := true, announcement := CopiedAnnouncement,
       pending := s.pending + {s.nextTimer}, latest := Some(s.nextTimer), nextTimer := s.nextTimer + 1)
  }

  /**
    `handleCopy` as written: `copy()` puts `getPrompt()` on the clipboard,
    which reads the ref now, but `onCopy` receives the memoised `prompt`.  The
    memo's dependencies are the props, and a ref object never changes, so for
    a ref the memo keeps what the ref held at the first render, `rendered`.
   */
  function HandleCopyAsWritten(s: ButtonState, props: Props, ctx: ContextValue, rendered: Hook.ContentSource): (r: CopyOutcome)
    ensures r.state == AfterCopy(s)
    ensures r.effects == [CopyText(Hook.PromptOf(HookOptions(props, ctx)))]
  {
    var options := HookOptions(props, ctx);
    CopyOutcome(AfterCopy(s), [CopyText(Hook.PromptOf(options))], Hook.PromptOf(options.(content := rendered)))
  }

  /** `handleCopy` reporting the prompt it copied. */
  function HandleCopy(s: ButtonState, props: Props, ctx: ContextValue): (r: CopyOutcome)
    ensures r.state == AfterCopy(s)
    ensures r.effects == [CopyText(r.reported)]
    ensures r.reported == Hook.PromptOf(HookOptions(props, ctx))
  {
    var prompt := Hook.PromptOf(HookOptions(props, ctx));
    CopyOutcome(AfterCopy(s), [CopyText(prompt)], prompt)
  }

  /**
    A button whose content is a ref to an element rendered in the same commit,
    holding some short clean text such as "Hi": at the first render the ref is
    still empty, so as written `onCopy` hears of a prompt with empty content
    while the clipboard gets the one with the text; the two differ in length
    by exactly the text's length.
   */
  lemma CopyReportsStalePrompt(s: ButtonState, ctx: ContextValue, text: JsString)
    requires text != [] && Trimmed(text) && LF !in text && |text| <= Content.DefaultMaxLength
    ensures var node := Content.Element({}, {}, [Content.Text(text)]);
      var props := Props(Hook.Ref(Some(node)), None, None, None, None, None);
      var r := HandleCopyAsWritten(s, props, ctx, Hook.Ref(None));
      && r.effects == [CopyText(HandleCopy(s, props, ctx).reported)]
      && |r.reported| + |text| == |HandleCopy(s, props, ctx).reported|
  {
    var node := Content.Element({}, {}, [Content.Text(text)]);
    var options := HookOptions(Props(Hook.Ref(Some(node)), None, None, None, None, None), ctx);
    var config := Prompt.PromptConfig([], options.role, options.context, options.instruction);
    RefPrompts(ctx, text);
    ContentOnlyLength(config, text);
  }

  /** The two prompts of the example: with the element's text, and with the empty ref. */
  lemma RefPrompts(ctx: ContextValue, text: JsString)
    requires Trimmed(text) && LF !in text && |text| <= Content.DefaultMaxLength
    ensures var node := Content.Element({}, {}, [Content.Text(text)]);
      var options := HookOptions(Props(Hook.Ref(Some(node)), None, None, None, None, None), ctx);
      var config := Prompt.PromptConfig([], options.role, options.context, options.instruction);
      && Hook.PromptOf(options) == Prompt.BuildPrompt(config.(content := text))
      && Hook.PromptOf(options.(content := Hook.Ref(None))) == Prompt.BuildPrompt(config)
  {
    TextResolves(text);
  }

  /** Filling in clean text lengthens a prompt with empty content by exactly that text. */
  lemma ContentOnlyLength(config: Prompt.PromptConfig, text: JsString)
    requires Trimmed(text) && LF !in text && |text| <= Content.DefaultMaxLength
    requires config.content == []
    ensures |Prompt.BuildPrompt(config)| + |text| == |Prompt.BuildPrompt(config.(content := text))|
  {
    TextResolves(text);
    Prompt.ContentLength(config, text);
  }

  /** An element holding only clean text resolves to that text, which cleaning keeps, as it keeps the empty text. */
  lemma TextResolves(text: JsString)
    requires Trimmed(text) && LF !in text && |text| <= Content.DefaultMaxLength
    ensures Hook.ResolveContent(Hook.Ref(Some(Content.Element({}, {}, [Content.Text(text)])))) == text
    ensures Prompt.CleanContent(text) == text && Prompt.CleanContent([]) == []
  {
    Content.ExtractSingleText(text);
    Content.PostProcessPlain(text, Content.DefaultMaxLength);
    Content.PostProcessIsCleanContent(text);
    EmptyIsClean();
  }

  lemma EmptyIsClean()
    ensures Prompt.CleanContent([]) == []
  {
  }

  /** The 500 ms timer `t` firing: uncopy, close and clear the announcement, unless unmounted. */
  function Fire(s: ButtonState, t: nat): (r: ButtonState)
    requires t in s.pending
    ensures r.pending == s.pending - {t}
    ensures s.mounted ==> !r.copied && !r.isOpen && r.announcement == []
    ensures !s.mounted ==> r == s.(pending := r.pending)
  {
    var rest := s.pending - {t};
    if s.mounted then s.(copied := false, isOpen := false, announcement := [], pending := rest)
    else s.(pending := rest)
  }

  /** `handleOpenIn`: the hook's dispatch, then the menu closes at once. */
  function OpenIn(s: ButtonState, props: Props, ctx: ContextValue, id: JsString): (r: (ButtonState, seq<Effect>))
    requires Uri.WellFormed(Hook.PromptOf(HookOptions(props, ctx)))
    ensures !r.0.isOpen && r.0 == s.(isOpen := false)
    ensures r.1 == Hook.OpenInProvider(HookOptions(props, ctx), id)
  {
    (s.(isOpen := false), Hook.OpenInProvider(HookOptions(props, ctx), id))
  }

  /** The unmount cleanup clears the timer in the ref, which is only the latest one. */
  function Unmount(s: ButtonState): (r: ButtonState)
    ensures !r.mounted
    ensures r.pending == (if s.latest.Some? then s.pending - {s.latest.value} else s.pending)
  {
    s.(mounted := false, pending := if s.latest.Some? then s.pending - {s.latest.value} else s.pending)
  }

  // ---------------------------------------------------------------------------
  // Properties of the transitions
  // ---------------------------------------------------------------------------

  /** Every handler keeps the state valid. */
  lemma TransitionsValid(s: ButtonState, t: nat, spot: ClickSpot,
                         key: Key, shift: bool, focused: int, items: nat)
    requires Valid(s)
    ensures Valid(Toggle(s).0) && Valid(ClickOutside(s, spot)) && Valid(Unmount(s))
    ensures Valid(AfterCopy(s))
    ensures t in s.pending ==> Valid(Fire(s, t))
    ensures (s.isOpen ==> -1 <= focused < items) ==> Valid(Key(s, key, shift, focused, items).0)
  {
    assert CopiedAnnouncement != [];
  }

  /**
    A copy followed by its own timer: the item reads as copied and the
    announcement is made, then both are reset and the menu is closed; the
    other pending timers are untouched.
   */
  lemma CopyThenReset(s: ButtonState)
    requires Valid(s) && s.isOpen && s.mounted
    ensures var copied := AfterCopy(s);
      && copied.isOpen && CopyLabel(copied) == CopiedCaption && copied.announcement == CopiedAnnouncement
      && s.nextTimer in copied.pending
      && var reset := Fire(copied, s.nextTimer);
         !reset.isOpen && CopyLabel(reset) == CopyCaption && reset.announcement == [] && reset.pending == s.pending
  {
    assert s.nextTimer !in s.pending;
  }

  /** Unmounting right after a single copy leaves no timer pending. */
  lemma UnmountAfterCopy(s: ButtonState)
    requires Valid(s) && s.pending == {}
    ensures Unmount(AfterCopy(s)).pending == {}
  {
  }

  /** Two copies within 500 ms: the ref holds only the second timer, so unmounting leaves the first one pending. */
  lemma UnmountKeepsEarlierTimer(s: ButtonState)
    requires Valid(s)
    ensures var twice := AfterCopy(AfterCopy(s));
      s.nextTimer in Unmount(twice).pending
  {
  }

  /** Choosing a provider closes the menu, and the clipboard is used exactly when the prompt does not fit a link. */
  lemma ChoosingCloses(s: ButtonState, props: Props, ctx: ContextValue, id: JsString)
    requires Uri.WellFormed(Hook.PromptOf(HookOptions(props, ctx)))
    ensures var r := OpenIn(s, props, ctx, id);
      && !r.0.isOpen
      && (Copies(r.1) <==> !CanUseDeepLink(Hook.PromptOf(HookOptions(props, ctx)), None))
  {
  }
}
