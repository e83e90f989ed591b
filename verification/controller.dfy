/**
  The vanilla controller as an abstract state machine.

  The page is a sequence of target elements (flat, not nested), each with its
  classes, attributes and children as a content tree.  The controller state
  holds the module variables (style, live-region and toast singletons, the
  active popover, the instance list), the document-level listeners, and counts
  of the nodes it adds to `<head>` and `<body>`.  A popover opened on a wide
  screen is a child of its target; on a narrow one it goes to the body with a
  backdrop.  Asynchronous continuations (after the clipboard write, the 500 ms
  auto-close, the deferred click-listener registration) are applied as
  separate, immediate events.
 */
module Controller {
  import opened Js
  import Uri
  import Content
  import Prompt
  import opened Providers
  import opened Menu

  /** `window.PromptThisConfig` (`labelText` is its `label`); the theme only selects style text and is not modelled. */
  datatype Config = Config(
    openIn: Option<seq<JsString>>,
    labelText: Option<JsString>,
    defaultRole: Option<JsString>,
    defaultContext: Option<JsString>,
    customProviders: Option<seq<Provider>>)

  const NoConfig: Config := Config(None, None, None, None, None)

  /** A page element that may carry `data-prompt`. */
  datatype Target = Target(classes: set<JsString>, attributes: map<JsString, JsString>, children: seq<Content.Node>)

  datatype Listener = KeyDownCapture | ClickOutsideCapture

  const PopoverListeners: multiset<Listener> := multiset{KeyDownCapture, ClickOutsideCapture}

  /** The open menu: whose it is, the prompt it was built for, what it lists, and where it lives. */
  datatype OpenMenu = OpenMenu(owner: nat, prompt: JsString, shown: seq<Provider>, copyOnly: bool, copied: bool, inBody: bool)

  datatype State = State(
    config: Config,
    targets: seq<Target>,
    styleEl: bool,
    liveRegion: bool,
    toastEl: bool,
    headStyles: nat,
    bodyLiveRegions: nat,
    bodyToasts: nat,
    bodyBackdrops: nat,
    bodyPopovers: nat,
    announcement: JsString,
    toastText: JsString,
    toastVisible: bool,
    toastTimer: nat,
    active: Option<OpenMenu>,
    listeners: multiset<Listener>,
    instances: seq<nat>)

  const TargetMark: JsString := Str("data-promptthis-target")
  const DataPrompt: JsString := Str("data-prompt")
  const ActionAttribute: JsString := Str("data-prompt-action")
  const RoleAttribute: JsString := Str("data-prompt-role")
  const ContextAttribute: JsString := Str("data-prompt-context")
  const CopyOnlyAttribute: JsString := Str("data-prompt-copy-only")
  const OpenInAttribute: JsString := Str("data-prompt-open-in")
  const PopoverAttribute: JsString := Str("data-promptthis-popover")
  const ItemAttribute: JsString := Str("data-promptthis-item")
  const ItemIconAttribute: JsString := Str("data-promptthis-item-icon")
  const RoleName: JsString := Str("role")
  const TabIndex: JsString := Str("tabindex")

  /** The page before the script runs: nothing injected, nothing open. */
  function Fresh(config: Config, targets: seq<Target>): State {
    State(config, targets, false, false, false, 0, 0, 0, 0, 0, [], [], false, 0, None, multiset{}, [])
  }

  function Attribute(t: Target, name: JsString): (r: Option<JsString>)
    ensures r.Some? <==> name in t.attributes
  {
    if name in t.attributes then Some(t.attributes[name]) else None
  }

  predicate Marked(t: Target) {
    TargetMark in t.attributes
  }

  /** The target as a content tree, which is what `extractContent` reads. */
  function AsNode(t: Target): Content.Node {
    Content.Element(t.classes, t.attributes.Keys, t.children)
  }

  // ---------------------------------------------------------------------------
  // Injected nodes
  // ---------------------------------------------------------------------------

  function CaptionOf(n: Content.Node): JsString {
    if n.Element? && |n.children| == 2 && n.children[1].Element? && |n.children[1].children| == 1
       && n.children[1].children[0].Text?
    then n.children[1].children[0].data
    else []
  }

  /** The trigger button `initElement` appends. */
  predicate IsTrigger(n: Content.Node) {
    n == Content.TriggerButton(CaptionOf(n))
  }

  function Item(icon: seq<Content.Node>, caption: JsString): Content.Node {
    Content.Element({}, {ItemAttribute, RoleName, TabIndex},
                    [Content.Element({}, {ItemIconAttribute}, icon), Content.Element({}, {}, [Content.Text(caption)])])
  }

  function CopyItem(copied: bool): Content.Node {
    Item([Content.Element({}, {}, [])], if copied then CopiedCaption else CopyCaption)
  }

  function ProviderItems(shown: seq<Provider>): (r: seq<Content.Node>)
    ensures |r| == |shown|
  {
    seq(|shown|, k requires 0 <= k < |shown| => Item([Content.Text(shown[k].icon)], shown[k].name))
  }

  /** The popover element `createPopover` builds. */
  function PopoverNode(m: OpenMenu): Content.Node {
    Content.Element({}, {PopoverAttribute, RoleName}, [CopyItem(m.copied)] + (if m.copyOnly then [] else ProviderItems(m.shown)))
  }

  /** The number of menu items: the copy item, then one per shown provider unless copy-only. */
  function ItemCount(m: OpenMenu): (n: nat)
    ensures n >= 1
  {
    1 + (if m.copyOnly then 0 else |m.shown|)
  }

  // ---------------------------------------------------------------------------
  // The invariant
  // ---------------------------------------------------------------------------

  /** The popover node expected among the children of target `i`, if any. */
  function PopoverAt(s: State, i: nat): Option<Content.Node> {
    if s.active.Some? && !s.active.value.inBody && s.active.value.owner == i
    then Some(PopoverNode(s.active.value)) else None
  }

  /** The children end with the library's trigger, followed by the popover when one is open here. */
  predicate Decorated(t: Target, popover: Option<Content.Node>) {
    match popover
    case None => |t.children| >= 1 && IsTrigger(t.children[|t.children| - 1])
    case Some(p) => |t.children| >= 2 && IsTrigger(t.children[|t.children| - 2]) && t.children[|t.children| - 1] == p
  }

  predicate InstancesOk(s: State) {
    && (forall k | 0 <= k < |s.instances| :: s.instances[k] < |s.targets|)
    && (forall j, k | 0 <= j < k < |s.instances| :: s.instances[j] != s.instances[k])
    && (forall i | 0 <= i < |s.targets| :: Marked(s.targets[i]) <==> i in s.instances)
  }

  predicate DecorationsOk(s: State) {
    forall i | 0 <= i < |s.targets| && Marked(s.targets[i]) :: Decorated(s.targets[i], PopoverAt(s, i))
  }

  predicate SingletonsOk(s: State) {
    && s.headStyles == (if s.styleEl then 1 else 0)
    && s.bodyLiveRegions == (if s.liveRegion then 1 else 0)
    && s.bodyToasts == (if s.toastEl then 1 else 0)
  }

  predicate PopoverOk(s: State) {
    && (s.active.Some? ==> s.active.value.owner in s.instances)
    && s.bodyPopovers == (if s.active.Some? && s.active.value.inBody then 1 else 0)
    && s.bodyBackdrops == s.bodyPopovers
    && s.listeners == (if s.active.Some? then PopoverListeners else multiset{})
  }

  /**
    Every reachable state: the instances are exactly the marked targets, each
    decorated with its trigger; one style element, live region and toast at
    most, each matching its module variable; and the popover nodes, backdrop
    and document listeners present exactly while a menu is active.
   */
  predicate Valid(s: State) {
    InstancesOk(s) && DecorationsOk(s) && SingletonsOk(s) && PopoverOk(s)
  }

  lemma FreshValid(config: Config, targets: seq<Target>)
    requires forall i | 0 <= i < |targets| :: !Marked(targets[i])
    ensures Valid(Fresh(config, targets))
  {
  }

  /** An element carrying the popover attribute, as every menu `createPopover` builds does. */
  predicate IsPopover(n: Content.Node) {
    n.Element? && PopoverAttribute in n.attributes
  }

  /** The target's last child is a popover. */
  predicate EndsWithPopover(t: Target) {
    |t.children| >= 1 && IsPopover(t.children[|t.children| - 1])
  }

  lemma PopoverKeys()
    ensures PopoverAttribute != Content.TriggerAttribute && PopoverAttribute != Str("type") && PopoverAttribute != Str("aria-label")
  {
    assert PopoverAttribute[16] != Content.TriggerAttribute[16];
    assert |PopoverAttribute| != |Str("type")| && |PopoverAttribute| != |Str("aria-label")|;
  }

  /** A decorated target ends with a popover exactly when the active menu sits beside its trigger. */
  lemma EndsWithPopoverIffOpen(s: State, i: nat)
    requires Valid(s) && i < |s.targets| && Marked(s.targets[i])
    ensures EndsWithPopover(s.targets[i]) <==> PopoverAt(s, i).Some?
  {
    var t := s.targets[i];
    assert Decorated(t, PopoverAt(s, i));
    if PopoverAt(s, i).None? {
      PopoverKeys();
      assert t.children[|t.children| - 1] == Content.TriggerButton(CaptionOf(t.children[|t.children| - 1]));
    }
  }

  /**
    In a valid state the library's popover is in one place at most: as the
    last child of one decorated target, or in the body, never both; it is
    somewhere exactly while a menu is active, and so are the two listeners.
   */
  lemma AtMostOnePopover(s: State)
    requires Valid(s)
    ensures forall i, j | 0 <= i < |s.targets| && 0 <= j < |s.targets| && Marked(s.targets[i]) && Marked(s.targets[j])
              && EndsWithPopover(s.targets[i]) && EndsWithPopover(s.targets[j]) :: i == j
    ensures s.bodyPopovers <= 1
    ensures s.bodyPopovers == 1 ==> forall i | 0 <= i < |s.targets| && Marked(s.targets[i]) :: !EndsWithPopover(s.targets[i])
    ensures s.active.Some? <==>
              s.bodyPopovers == 1 || exists i | 0 <= i < |s.targets| :: Marked(s.targets[i]) && EndsWithPopover(s.targets[i])
    ensures |s.listeners| == (if s.active.Some? then 2 else 0)
  {
    forall i | 0 <= i < |s.targets| && Marked(s.targets[i]) ensures EndsWithPopover(s.targets[i]) <==> PopoverAt(s, i).Some? {
      EndsWithPopoverIffOpen(s, i);
    }
    if s.active.Some? && !s.active.value.inBody {
      var o := s.active.value.owner;
      assert Marked(s.targets[o]) && EndsWithPopover(s.targets[o]);
    }
  }

  /** The children the page itself gave the target: everything before the trigger and the popover beside it. */
  function OwnContent(t: Target, popover: Option<Content.Node>): (r: seq<Content.Node>)
    ensures Decorated(t, popover) ==> |t.children| == |r| + (if popover.Some? then 2 else 1)
    ensures Decorated(t, popover) ==> r == t.children[..|r|]
  {
    var tail := if popover.Some? then 2 else 1;
    if |t.children| >= tail then t.children[..|t.children| - tail] else t.children
  }

  /** Target `k` as the page sees it: its classes, attributes and own children, decoration aside. */
  function PageView(s: State, k: nat): (set<JsString>, map<JsString, JsString>, seq<Content.Node>)
    requires k < |s.targets|
  {
    var t := s.targets[k];
    (t.classes, t.attributes, if Marked(t) then OwnContent(t, PopoverAt(s, k)) else t.children)
  }

  /** Every target looks the same to the page in `s` and in `r`. */
  predicate SamePage(s: State, r: State) {
    |r.targets| == |s.targets| && forall k | 0 <= k < |s.targets| :: PageView(r, k) == PageView(s, k)
  }

  // ---------------------------------------------------------------------------
  // Singletons
  // ---------------------------------------------------------------------------

  function InjectStyles(s: State): (r: State)
    ensures r.styleEl
    ensures SingletonsOk(s) ==> SingletonsOk(r)
  {
    if s.styleEl then s else s.(styleEl := true, headStyles := s.headStyles + 1)
  }

  function Announce(s: State, message: JsString): (r: State)
    ensures r.liveRegion && r.announcement == message
    ensures SingletonsOk(s) ==> SingletonsOk(r)
  {
    var t := if s.liveRegion then s else s.(liveRegion := true, bodyLiveRegions := s.bodyLiveRegions + 1);
    t.(announcement := message)
  }

  /**
    `showToast`: create the toast once, set its text and make it visible,
    cancel the pending toast timer and start a new one. Timers are named by
    the number of toasts shown so far; `toastTimer` is the one still pending.
   */
  function DisplayToast(s: State, message: JsString): (r: State)
    ensures r.toastEl && r.toastVisible && r.toastText == message
    ensures r.toastTimer > s.toastTimer
    ensures SingletonsOk(s) ==> SingletonsOk(r)
  {
    var t := if s.toastEl then s else s.(toastEl := true, bodyToasts := s.bodyToasts + 1);
    t.(toastText := message, toastVisible := true, toastTimer := s.toastTimer + 1)
  }

  /**
    The toast timer `timer` firing. A timer that a later `showToast` cleared
    never fires, so only the pending one hides the toast.
   */
  function ToastTimeout(s: State, timer: nat): (r: State)
    ensures r.toastEl == s.toastEl && r.toastText == s.toastText
    ensures timer == s.toastTimer ==> !r.toastVisible
    ensures timer != s.toastTimer ==> r == s
  {
    if timer == s.toastTimer then s.(toastVisible := false) else s
  }

  /**
    A toast shown again keeps its new text visible through every timer
    started before it; the timer started with it hides it.
   */
  lemma ToastShownAgainStays(s: State, first: JsString, second: JsString, timer: nat)
    requires timer <= DisplayToast(s, first).toastTimer
    ensures var r := DisplayToast(DisplayToast(s, first), second);
      && ToastTimeout(r, timer).toastVisible
      && ToastTimeout(r, timer).toastText == second
      && !ToastTimeout(r, r.toastTimer).toastVisible
  {
  }

  // ---------------------------------------------------------------------------
  // Opening and closing the menu
  // ---------------------------------------------------------------------------

  /** `closeActivePopover`: run the listener cleanup, remove the popover and backdrop, forget the menu. */
  function ClosePopover(s: State): (r: State)
    ensures r.active.None?
    ensures s.active.None? ==> r == s
    ensures r.instances == s.instances && r.config == s.config && |r.targets| == |s.targets|
  {
    if s.active.None? then s
    else
      var m := s.active.value;
      var listeners := s.listeners - PopoverListeners;
      if m.inBody then
        s.(active := None, listeners := listeners,
           bodyPopovers := if s.bodyPopovers > 0 then s.bodyPopovers - 1 else 0,
           bodyBackdrops := if s.bodyBackdrops > 0 then s.bodyBackdrops - 1 else 0)
      else if m.owner < |s.targets| && |s.targets[m.owner].children| > 0 then
        var t := s.targets[m.owner];
        s.(active := None, listeners := listeners,
           targets := s.targets[m.owner := t.(children := t.children[..|t.children| - 1])])
      else s.(active := None, listeners := listeners)
  }

  lemma ClosePopoverValid(s: State)
    requires Valid(s)
    ensures Valid(ClosePopover(s))
    ensures ClosePopover(s).listeners == multiset{}
    ensures ClosePopover(s).bodyPopovers == 0 && ClosePopover(s).bodyBackdrops == 0
    ensures forall i | 0 <= i < |s.targets| && !(s.active.Some? && s.active.value.owner == i) ::
              ClosePopover(s).targets[i] == s.targets[i]
  {
    if s.active.Some? {
      var r := ClosePopover(s);
      var m := s.active.value;
      if !m.inBody {
        assert Marked(s.targets[m.owner]);
        forall i | 0 <= i < |r.targets| && Marked(r.targets[i]) ensures Decorated(r.targets[i], PopoverAt(r, i)) {
          if i == m.owner {
            RemovedPopover(s.targets[i], PopoverNode(m));
          } else {
            assert r.targets[i] == s.targets[i];
            assert PopoverAt(s, i).None?;
          }
        }
      } else {
        forall i | 0 <= i < |r.targets| && Marked(r.targets[i]) ensures Decorated(r.targets[i], PopoverAt(r, i)) {
          assert PopoverAt(s, i).None?;
        }
      }
    }
  }

  /** Closing takes exactly the popover off its owner's children; nothing else about any target changes. */
  lemma ClosePopoverFrame(s: State)
    requires Valid(s)
    ensures |ClosePopover(s).targets| == |s.targets|
    ensures forall i | 0 <= i < |s.targets| && !(s.active.Some? && s.active.value.owner == i) ::
              ClosePopover(s).targets[i] == s.targets[i]
    ensures s.active.Some? && !s.active.value.inBody ==>
              var o := s.active.value.owner;
              && s.targets[o] == ClosePopover(s).targets[o].(children := s.targets[o].children)
              && s.targets[o].children == ClosePopover(s).targets[o].children + [PopoverNode(s.active.value)]
    ensures s.active.Some? && s.active.value.inBody ==> ClosePopover(s).targets == s.targets
  {
    if s.active.Some? && !s.active.value.inBody {
      var o := s.active.value.owner;
      assert Marked(s.targets[o]) && Decorated(s.targets[o], PopoverAt(s, o));
    }
  }

  /**
    `createPopover`: close whatever is open, build the menu, put it next to the
    trigger (or in the body with a backdrop on a narrow screen) and listen for
    keys and outside clicks.
   */
  function CreatePopover(s: State, i: nat, prompt: JsString, shown: seq<Provider>, copyOnly: bool, narrow: bool): (r: State)
    ensures r.active == Some(OpenMenu(i, prompt, shown, copyOnly, false, narrow))
  {
    var c := ClosePopover(s);
    var m := OpenMenu(i, prompt, shown, copyOnly, false, narrow);
    var withMenu := c.(active := Some(m), listeners := c.listeners + PopoverListeners);
    if narrow then withMenu.(bodyBackdrops := c.bodyBackdrops + 1, bodyPopovers := c.bodyPopovers + 1)
    else if i < |c.targets| then
      var t := c.targets[i];
      withMenu.(targets := c.targets[i := t.(children := t.children + [PopoverNode(m)])])
    else withMenu
  }

  /** Opening a menu changes no target but the owner, and the owner only by the popover appended on a wide screen. */
  lemma CreatePopoverFrame(s: State, i: nat, prompt: JsString, shown: seq<Provider>, copyOnly: bool, narrow: bool)
    requires i < |s.targets|
    ensures var c := ClosePopover(s);
      var r := CreatePopover(s, i, prompt, shown, copyOnly, narrow);
      && |r.targets| == |s.targets|
      && (forall j | 0 <= j < |s.targets| && (narrow || j != i) :: r.targets[j] == c.targets[j])
      && (!narrow ==> r.targets[i] == c.targets[i].(children := c.targets[i].children + [PopoverNode(r.active.value)]))
  {
  }

  /** Opening a menu keeps the invariant: the previous one is gone first, so one popover and two listeners remain. */
  lemma CreatePopoverValid(s: State, i: nat, prompt: JsString, shown: seq<Provider>, copyOnly: bool, narrow: bool)
    requires Valid(s) && i in s.instances
    ensures Valid(CreatePopover(s, i, prompt, shown, copyOnly, narrow))
    ensures CreatePopover(s, i, prompt, shown, copyOnly, narrow).listeners == PopoverListeners
    ensures !narrow ==> PopoverAt(CreatePopover(s, i, prompt, shown, copyOnly, narrow), i).Some?
    ensures narrow ==> CreatePopover(s, i, prompt, shown, copyOnly, narrow).bodyPopovers == 1
  {
    ClosePopoverValid(s);
    var c := ClosePopover(s);
    var r := CreatePopover(s, i, prompt, shown, copyOnly, narrow);
    assert c.listeners + PopoverListeners == PopoverListeners;
    if !narrow {
      forall j | 0 <= j < |r.targets| && Marked(r.targets[j]) ensures Decorated(r.targets[j], PopoverAt(r, j)) {
        assert PopoverAt(c, j).None?;
        if j == i {
          AppendedPopover(c.targets[i], PopoverNode(r.active.value));
        } else {
          assert r.targets[j] == c.targets[j];
        }
      }
    } else {
      forall j | 0 <= j < |r.targets| && Marked(r.targets[j]) ensures Decorated(r.targets[j], PopoverAt(r, j)) {
        assert PopoverAt(c, j).None?;
      }
    }
  }

  /** A popover appended after the trigger. */
  lemma AppendedPopover(t: Target, p: Content.Node)
    requires Decorated(t, None)
    ensures Decorated(t.(children := t.children + [p]), Some(p))
    ensures OwnContent(t.(children := t.children + [p]), Some(p)) == OwnContent(t, None)
  {
    assert (t.children + [p])[..|t.children| - 1] == t.children[..|t.children| - 1];
  }

  /** The open popover replaced by another. */
  lemma ReplacedPopover(t: Target, q: Content.Node, p: Content.Node)
    requires Decorated(t, Some(q))
    ensures Decorated(t.(children := t.children[..|t.children| - 1] + [p]), Some(p))
    ensures OwnContent(t.(children := t.children[..|t.children| - 1] + [p]), Some(p)) == OwnContent(t, Some(q))
  {
    assert (t.children[..|t.children| - 1] + [p])[..|t.children| - 2] == t.children[..|t.children| - 2];
  }

  /** The open popover removed. */
  lemma RemovedPopover(t: Target, q: Content.Node)
    requires Decorated(t, Some(q))
    ensures Decorated(t.(children := t.children[..|t.children| - 1]), None)
    ensures OwnContent(t.(children := t.children[..|t.children| - 1]), None) == OwnContent(t, Some(q))
  {
    assert t.children[..|t.children| - 1][..|t.children| - 2] == t.children[..|t.children| - 2];
  }

  // ---------------------------------------------------------------------------
  // init
  // ---------------------------------------------------------------------------

  /** The target as `initElement` leaves it: marked, with the trigger appended after its own children. */
  function Decorate(t: Target, config: Config): (r: Target)
    ensures Marked(r) && r.classes == t.classes
    ensures |r.children| == |t.children| + 1 && r.children[..|t.children|] == t.children
    ensures IsTrigger(r.children[|t.children|])
    ensures CaptionOf(r.children[|t.children|]) == TriggerLabel(Attribute(t, ActionAttribute), config.labelText)
  {
    var caption := TriggerLabel(Attribute(t, ActionAttribute), config.labelText);
    assert CaptionOf(Content.TriggerButton(caption)) == caption;
    t.(attributes := t.attributes[TargetMark := []], children := t.children + [Content.TriggerButton(caption)])
  }

  /**
    The trigger's `aria-label`. The node model records attribute names only,
    so the value is taken from the caption, which the source sets from the
    same `label`.
   */
  function AccessibleName(trigger: Content.Node): JsString {
    AriaLabel(CaptionOf(trigger))
  }

  /**
    The decorated target's trigger names the target's own action when it has
    one, both visibly and in its accessible name, which begins with the
    caption; two targets' triggers have the same accessible name exactly when
    they have the same caption.
   */
  lemma DecoratedTriggerNames(t: Target, u: Target, config: Config)
    ensures var tr := Decorate(t, config).children[|t.children|];
            var ur := Decorate(u, config).children[|u.children|];
      && CaptionOf(tr) != []
      && AccessibleName(tr)[..|CaptionOf(tr)|] == CaptionOf(tr)
      && (Truthy(Attribute(t, ActionAttribute)) ==>
            CaptionOf(tr) == Attribute(t, ActionAttribute).value
            && AccessibleName(tr) == Attribute(t, ActionAttribute).value + AriaSuffix)
      && (AccessibleName(tr) == AccessibleName(ur) <==> CaptionOf(tr) == CaptionOf(ur))
  {
    var tr := Decorate(t, config).children[|t.children|];
    var ur := Decorate(u, config).children[|u.children|];
    AriaLabelInjective(CaptionOf(tr), CaptionOf(ur));
  }

  /** `initElement`: mark the target, append its trigger, record the instance. */
  function InitElement(s: State, i: nat): (r: State)
    requires i < |s.targets|
    ensures r.instances == s.instances + [i]
    ensures |r.targets| == |s.targets|
    ensures r == s.(targets := r.targets, instances := r.instances)
  {
    s.(targets := s.targets[i := Decorate(s.targets[i], s.config)], instances := s.instances + [i])
  }

  /** `root.querySelectorAll("[data-prompt]")`: `root` lists the targets inside a container, `None` is the document. */
  predicate Selected(s: State, root: Option<set<nat>>, i: nat)
    requires i < |s.targets|
  {
    (root.None? || i in root.value) && DataPrompt in s.targets[i].attributes
  }

  function InitFrom(s: State, root: Option<set<nat>>, i: nat): (r: State)
    requires i <= |s.targets|
    ensures |r.targets| == |s.targets|
    ensures r == s.(targets := r.targets, instances := r.instances)
    decreases |s.targets| - i
  {
    if i == |s.targets| then s
    else
      var next := if Selected(s, root, i) && !Marked(s.targets[i]) then InitElement(s, i) else s;
      InitFrom(next, root, i + 1)
  }

  /** `init(container?)`: inject the styles once, then initialize every selected, unmarked target in document order. */
  function Init(s: State, root: Option<set<nat>>): (r: State)
    ensures r.styleEl
  {
    InitFrom(InjectStyles(s), root, 0)
  }

  lemma MarkKeysDiffer()
    ensures TargetMark != DataPrompt
  {
    assert |TargetMark| != |DataPrompt|;
  }

  lemma InitElementValid(s: State, i: nat)
    requires Valid(s) && i < |s.targets| && !Marked(s.targets[i])
    ensures Valid(InitElement(s, i))
    ensures Marked(InitElement(s, i).targets[i])
    ensures forall j | 0 <= j < |s.targets| && j != i :: InitElement(s, i).targets[j] == s.targets[j]
    ensures DataPrompt in InitElement(s, i).targets[i].attributes <==> DataPrompt in s.targets[i].attributes
  {
    MarkKeysDiffer();
    var r := InitElement(s, i);
    assert i !in s.instances;
    assert PopoverAt(s, i).None?;
    forall j | 0 <= j < |r.targets| && Marked(r.targets[j]) ensures Decorated(r.targets[j], PopoverAt(r, j)) {
      if j != i {
        assert r.targets[j] == s.targets[j];
      }
    }
  }

  /** Initializing from position `i` keeps the invariant, leaves earlier targets alone and marks every later selected one. */
  lemma InitFromSpec(s: State, root: Option<set<nat>>, i: nat)
    requires Valid(s) && i <= |s.targets|
    ensures Valid(InitFrom(s, root, i))
    ensures forall j | 0 <= j < i :: InitFrom(s, root, i).targets[j] == s.targets[j]
    ensures forall j | i <= j < |s.targets| ::
              (DataPrompt in InitFrom(s, root, i).targets[j].attributes <==> DataPrompt in s.targets[j].attributes)
              && (Selected(s, root, j) ==> Marked(InitFrom(s, root, i).targets[j]))
              && (!Selected(s, root, j) || Marked(s.targets[j]) ==> InitFrom(s, root, i).targets[j] == s.targets[j])
              && (Selected(s, root, j) && !Marked(s.targets[j]) ==> InitFrom(s, root, i).targets[j] == Decorate(s.targets[j], s.config))
  {
    InitFromValid(s, root, i);
    InitFromTargets(s, root, i);
  }

  lemma {:induction false} InitFromValid(s: State, root: Option<set<nat>>, i: nat)
    requires Valid(s) && i <= |s.targets|
    ensures Valid(InitFrom(s, root, i))
    decreases |s.targets| - i
  {
    if i < |s.targets| {
      var next := if Selected(s, root, i) && !Marked(s.targets[i]) then InitElement(s, i) else s;
      if Selected(s, root, i) && !Marked(s.targets[i]) {
        InitElementValid(s, i);
      }
      InitFromValid(next, root, i + 1);
    }
  }

  lemma InitFromTargets(s: State, root: Option<set<nat>>, i: nat)
    requires i <= |s.targets|
    ensures forall j | 0 <= j < i :: InitFrom(s, root, i).targets[j] == s.targets[j]
    ensures forall j | i <= j < |s.targets| ::
              (DataPrompt in InitFrom(s, root, i).targets[j].attributes <==> DataPrompt in s.targets[j].attributes)
              && (Selected(s, root, j) ==> Marked(InitFrom(s, root, i).targets[j]))
              && (!Selected(s, root, j) || Marked(s.targets[j]) ==> InitFrom(s, root, i).targets[j] == s.targets[j])
              && (Selected(s, root, j) && !Marked(s.targets[j]) ==> InitFrom(s, root, i).targets[j] == Decorate(s.targets[j], s.config))
  {
    forall j | 0 <= j < |s.targets|
      ensures j < i ==> InitFrom(s, root, i).targets[j] == s.targets[j]
      ensures i <= j ==> InitFromAt(s, root, i, j)
    {
      if j < i {
        InitFromBefore(s, root, i, j);
      } else {
        InitFromAtHolds(s, root, i, j);
      }
    }
  }

  /** What initializing from position `i` does to a target at or after `i`. */
  predicate InitFromAt(s: State, root: Option<set<nat>>, i: nat, j: nat)
    requires i <= j < |s.targets|
  {
    var t := InitFrom(s, root, i).targets[j];
    && (DataPrompt in t.attributes <==> DataPrompt in s.targets[j].attributes)
    && (Selected(s, root, j) ==> Marked(t))
    && (!Selected(s, root, j) || Marked(s.targets[j]) ==> t == s.targets[j])
    && (Selected(s, root, j) && !Marked(s.targets[j]) ==> t == Decorate(s.targets[j], s.config))
  }

  /** One step of `InitFrom`: the target at `i` is the only one it may change. */
  function InitStep(s: State, root: Option<set<nat>>, i: nat): (r: State)
    requires i < |s.targets|
    ensures |r.targets| == |s.targets| && r.config == s.config
    ensures forall j | 0 <= j < |s.targets| && j != i :: r.targets[j] == s.targets[j]
    ensures r.targets[i] == if Selected(s, root, i) && !Marked(s.targets[i]) then Decorate(s.targets[i], s.config) else s.targets[i]
    ensures InitFrom(s, root, i) == InitFrom(r, root, i + 1)
  {
    if Selected(s, root, i) && !Marked(s.targets[i]) then InitElement(s, i) else s
  }

  lemma {:induction false} InitFromBefore(s: State, root: Option<set<nat>>, i: nat, j: nat)
    requires j < i <= |s.targets|
    ensures InitFrom(s, root, i).targets[j] == s.targets[j]
    decreases |s.targets| - i
  {
    if i < |s.targets| {
      var next := InitStep(s, root, i);
      InitFromBefore(next, root, i + 1, j);
    }
  }

  lemma {:induction false} InitFromAtHolds(s: State, root: Option<set<nat>>, i: nat, j: nat)
    requires i <= j < |s.targets|
    ensures InitFromAt(s, root, i, j)
    decreases |s.targets| - i
  {
    var next := InitStep(s, root, i);
    if j == i {
      InitFromBefore(next, root, i + 1, i);
      MarkKeysDiffer();
    } else {
      InitFromAtHolds(next, root, i + 1, j);
      assert Selected(next, root, j) == Selected(s, root, j);
    }
  }

  /** With every selected target from `i` on already marked, there is nothing left to do. */
  lemma {:induction false} InitFromDone(s: State, root: Option<set<nat>>, i: nat)
    requires i <= |s.targets|
    requires forall j | i <= j < |s.targets| :: Selected(s, root, j) ==> Marked(s.targets[j])
    ensures InitFrom(s, root, i) == s
    decreases |s.targets| - i
  {
    if i < |s.targets| {
      InitFromDone(s, root, i + 1);
    }
  }

  /** `init` keeps the invariant and marks every selected target. */
  lemma InitValid(s: State, root: Option<set<nat>>)
    requires Valid(s)
    ensures Valid(Init(s, root))
    ensures forall j | 0 <= j < |s.targets| && (root.None? || j in root.value) && DataPrompt in s.targets[j].attributes ::
              j in Init(s, root).instances
  {
    var t := InjectStyles(s);
    InjectStylesValid(s);
    InitFromValid(t, root, 0);
    InitFromTargets(t, root, 0);
    var r := Init(s, root);
    assert t.targets == s.targets;
    forall j | 0 <= j < |s.targets| && (root.None? || j in root.value) && DataPrompt in s.targets[j].attributes
      ensures j in r.instances
    {
      assert Selected(t, root, j);
      assert Marked(r.targets[j]);
    }
  }

  lemma InjectStylesValid(s: State)
    requires Valid(s)
    ensures Valid(InjectStyles(s))
  {
    var r := InjectStyles(s);
    assert r.targets == s.targets && r.instances == s.instances && r.active == s.active;
  }

  /** A second `init` over the same root finds every target already marked and changes nothing. */
  lemma InitIdempotent(s: State, root: Option<set<nat>>)
    requires Valid(s)
    ensures Init(Init(s, root), root) == Init(s, root)
  {
    var s1 := Init(s, root);
    InitFromSpec(InjectStyles(s), root, 0);
    assert InjectStyles(s1) == s1;
    InitFromDone(s1, root, 0);
  }

  // ---------------------------------------------------------------------------
  // Clicking a trigger
  // ---------------------------------------------------------------------------

  /** The prompt a trigger click builds from the target as it currently is. */
  function ClickPrompt(s: State, i: nat): JsString
    requires i < |s.targets|
  {
    var t := s.targets[i];
    var instruction := Or(Attribute(t, DataPrompt), None);
    var role := Fallback(Attribute(t, RoleAttribute), s.config.defaultRole);
    var context := Fallback(Attribute(t, ContextAttribute), s.config.defaultContext);
    var content := Content.ExtractContent(true, AsNode(t), Content.NoOptions);
    Prompt.BuildPrompt(Prompt.PromptConfig(content, role, context, instruction))
  }

  /** The providers the target's menu lists. */
  function ClickShown(s: State, i: nat): seq<Provider>
    requires i < |s.targets|
  {
    ShownProviders(ParseOpenIn(Attribute(s.targets[i], OpenInAttribute), s.config.openIn), s.config.customProviders)
  }

  /** The trigger's click handler as written: the prompt is read before the open menu is closed. */
  function TriggerClickAsWritten(s: State, i: nat, narrow: bool): (r: State)
    requires i < |s.targets|
    ensures r.active.Some? && r.active.value.owner == i
  {
    CreatePopover(s, i, ClickPrompt(s, i), ClickShown(s, i), CopyOnlyAttribute in s.targets[i].attributes, narrow)
  }

  /** The trigger's click handler with the open menu closed before the prompt is read. */
  function TriggerClick(s: State, i: nat, narrow: bool): (r: State)
    requires i < |s.targets|
    ensures r.active.Some? && r.active.value.owner == i
  {
    var c := ClosePopover(s);
    CreatePopover(s, i, ClickPrompt(c, i), ClickShown(s, i), CopyOnlyAttribute in s.targets[i].attributes, narrow)
  }

  lemma TriggerClickValid(s: State, i: nat, narrow: bool)
    requires Valid(s) && i in s.instances
    ensures Valid(TriggerClick(s, i, narrow))
    ensures Valid(TriggerClickAsWritten(s, i, narrow))
  {
    var c := ClosePopover(s);
    CreatePopoverValid(s, i, ClickPrompt(c, i), ClickShown(s, i), CopyOnlyAttribute in s.targets[i].attributes, narrow);
    CreatePopoverValid(s, i, ClickPrompt(s, i), ClickShown(s, i), CopyOnlyAttribute in s.targets[i].attributes, narrow);
  }

  /** The page's own children of a decorated, closed target: everything before the trigger. */
  function OwnChildren(t: Target): seq<Content.Node>
    requires |t.children| >= 1
  {
    t.children[..|t.children| - 1]
  }

  /** The prompt the page's own content gives, with the library's nodes left out. */
  function OwnPrompt(s: State, i: nat): JsString
    requires i < |s.targets| && |s.targets[i].children| >= 1
  {
    var t := s.targets[i];
    ClickPrompt(s.(targets := s.targets[i := t.(children := OwnChildren(t))]), i)
  }

  lemma ClickPromptIgnoresTrigger(s: State, i: nat)
    requires Valid(s) && i in s.instances && PopoverAt(s, i).None?
    ensures |s.targets[i].children| >= 1
    ensures ClickPrompt(s, i) == OwnPrompt(s, i)
  {
    var t := s.targets[i];
    var own := OwnChildren(t);
    var trigger := t.children[|t.children| - 1];
    assert t.children == own + [trigger];
    Content.TriggerButtonExcluded(true, t.classes, t.attributes.Keys, own, CaptionOf(trigger));
  }

  /**
    The menu built by a click always carries the prompt of the page's own
    content: neither the trigger nor an open menu leaks into it.
   */
  lemma TriggerClickPrompt(s: State, i: nat, narrow: bool)
    requires Valid(s) && i in s.instances
    ensures |s.targets[i].children| >= 1
    ensures var c := ClosePopover(s);
      && |c.targets[i].children| >= 1
      && TriggerClick(s, i, narrow).active.value.prompt == OwnPrompt(c, i)
  {
    ClosePopoverValid(s);
    ClickPromptIgnoresTrigger(ClosePopover(s), i);
  }

  // ---------------------------------------------------------------------------
  // The popover's own text leaks into the prompt as written
  // ---------------------------------------------------------------------------

  /** A single copy-only target asking for "Explain" about the text "Hi". */
  const ExampleTarget: Target := Target({}, map[DataPrompt := Str("Explain"), CopyOnlyAttribute := []], [Content.Text(Str("Hi"))])

  function ExamplePage(): State {
    Fresh(NoConfig, [ExampleTarget])
  }

  lemma ExampleFacts()
    ensures TargetMark != DataPrompt && TargetMark != CopyOnlyAttribute
    ensures PopoverAttribute != Content.TriggerAttribute && RoleName != Content.TriggerAttribute
    ensures ItemAttribute != Content.TriggerAttribute && TabIndex != Content.TriggerAttribute
    ensures ItemIconAttribute != Content.TriggerAttribute
  {
    assert |TargetMark| != |DataPrompt| && |TargetMark| != |CopyOnlyAttribute|;
    assert PopoverAttribute[16] != Content.TriggerAttribute[16];
    assert |RoleName| != |Content.TriggerAttribute|;
    assert |ItemAttribute| != |Content.TriggerAttribute| && |TabIndex| != |Content.TriggerAttribute|;
    assert |ItemIconAttribute| != |Content.TriggerAttribute|;
  }

  /** Nodes with no classes whose attributes avoid the trigger attribute are never excluded. */
  lemma NotExcluded(attributes: set<JsString>)
    requires Content.TriggerAttribute !in attributes
    ensures !Content.Selects(Content.DefaultExclude, {}, attributes)
  {
    assert Content.DefaultExclude.alternatives[0] == Content.Class(Str("promptthis-btn"));
    assert Content.DefaultExclude.alternatives[1] == Content.Attribute(Content.TriggerAttribute);
  }

  /** The copy-only popover survives exclusion whole, so its caption is part of the extracted text. */
  lemma CopyOnlyPopoverText(m: OpenMenu)
    requires m.copyOnly && !m.copied
    ensures !Content.Matches(Content.DefaultExclude, PopoverNode(m))
    ensures Content.TextOf(Content.Prune(Content.DefaultExclude, PopoverNode(m))) == CopyCaption
  {
    ExampleFacts();
    NotExcluded({PopoverAttribute, RoleName});
    NotExcluded({ItemAttribute, RoleName, TabIndex});
    NotExcluded({ItemIconAttribute});
    Content.NothingSelectsBareElement(Content.DefaultExclude);
    var svg := Content.Element({}, {}, []);
    var icon := Content.Element({}, {ItemIconAttribute}, [svg]);
    var caption := Content.Element({}, {}, [Content.Text(CopyCaption)]);
    var item := CopyItem(false);
    assert Content.Clean(Content.DefaultExclude, svg);
    assert Content.CleanAll(Content.DefaultExclude, [svg]);
    assert Content.Clean(Content.DefaultExclude, icon);
    assert Content.CleanAll(Content.DefaultExclude, [Content.Text(CopyCaption)]);
    assert Content.Clean(Content.DefaultExclude, caption);
    assert Content.CleanAll(Content.DefaultExclude, [icon, caption]);
    assert Content.Clean(Content.DefaultExclude, item);
    assert PopoverNode(m) == Content.Element({}, {PopoverAttribute, RoleName}, [item]);
    assert Content.CleanAll(Content.DefaultExclude, [item]);
    Content.PruneClean(Content.DefaultExclude, PopoverNode(m));
    assert Content.TextOfAll([svg]) == [];
    assert Content.TextOfAll([Content.Text(CopyCaption)]) == CopyCaption;
    assert Content.TextOfAll([icon, caption]) == Content.TextOf(icon) + Content.TextOfAll([caption]);
    assert Content.TextOfAll([item]) == Content.TextOf(item);
  }

  /** The extracted text of a target whose open menu sits after its trigger: the page's own text, then the menu's. */
  lemma ExtractWithMenu(t: Target, own: seq<Content.Node>, trigger: Content.Node, popover: Content.Node)
    requires t.children == own + [trigger] + [popover]
    requires IsTrigger(trigger) && !Content.Matches(Content.DefaultExclude, popover)
    ensures Content.ExtractContent(true, AsNode(t), Content.NoOptions)
         == Content.PostProcess(Content.TextOf(Content.Prune(Content.DefaultExclude, Content.Element(t.classes, t.attributes.Keys, own)))
                                + Content.TextOf(Content.Prune(Content.DefaultExclude, popover)), Content.DefaultMaxLength)
  {
    var sel := Content.DefaultExclude;
    assert sel.alternatives[1] == Content.Attribute(Content.TriggerAttribute);
    assert Content.Matches(sel, trigger);
    Content.ExcludedChildContributesNothing(sel, t.classes, t.attributes.Keys, own, trigger, [popover]);
    Content.AppendedKeptChild(sel, t.classes, t.attributes.Keys, own, popover);
  }

  /** The example page after `init`: its one target decorated, nothing open. */
  lemma ExampleInit()
    ensures LikeExampleInit(Init(ExamplePage(), None))
  {
    var s0 := ExamplePage();
    FreshValid(NoConfig, s0.targets);
    assert Selected(InjectStyles(s0), None, 0);
    InitFromSpec(InjectStyles(s0), None, 0);
    InitValid(s0, None);
  }

  /** "Hi" is already clean: trimmed, without line feeds and short. */
  lemma HiIsClean()
    ensures Content.PostProcess(Str("Hi"), Content.DefaultMaxLength) == Str("Hi")
    ensures Content.PostProcess(Str("Hi") + CopyCaption, Content.DefaultMaxLength) == Str("Hi") + CopyCaption
    ensures Prompt.CleanContent(Str("Hi")) == Str("Hi")
    ensures Prompt.CleanContent(Str("Hi") + CopyCaption) == Str("Hi") + CopyCaption
  {
    var hi := Str("Hi");
    assert Trimmed(hi) && LF !in hi;
    Content.PostProcessPlain(hi, Content.DefaultMaxLength);
    var leaked := hi + CopyCaption;
    assert leaked[0] == 'H' as int && leaked[|leaked| - 1] == 't' as int;
    assert Trimmed(leaked);
    assert LF !in leaked;
    Content.PostProcessPlain(leaked, Content.DefaultMaxLength);
    Content.PostProcessIsCleanContent(hi);
    Content.PostProcessIsCleanContent(leaked);
  }

  /** The example target as `init` leaves it: extracting gives "Hi". */
  lemma ExampleClosedText(d: Target)
    requires d == Decorate(ExampleTarget, NoConfig)
    ensures Content.ExtractContent(true, AsNode(d), Content.NoOptions) == Str("Hi")
  {
    HiIsClean();
    DecoratedSingleText(ExampleTarget, NoConfig, Str("Hi"));
  }

  /** A decorated target holding one text node extracts to that text, post-processed: the trigger adds nothing. */
  lemma DecoratedSingleText(t: Target, config: Config, text: JsString)
    requires t.children == [Content.Text(text)]
    ensures Content.ExtractContent(true, AsNode(Decorate(t, config)), Content.NoOptions)
         == Content.PostProcess(text, Content.DefaultMaxLength)
  {
    var d := Decorate(t, config);
    var caption := TriggerLabel(Attribute(t, ActionAttribute), config.labelText);
    assert d.children == t.children + [Content.TriggerButton(caption)];
    assert Content.CleanAll(Content.DefaultExclude, t.children) by {
      assert t.children[1..] == [];
    }
    Content.SingleTextOf(text);
    Content.ExtractClean(d.classes, d.attributes.Keys, t.children);
    Content.TriggerButtonExcluded(true, d.classes, d.attributes.Keys, t.children, caption);
  }

  /** The example target's own children contribute "Hi", whatever element holds them. */
  lemma ExampleOwnText(cl: set<JsString>, at: set<JsString>)
    ensures Content.TextOf(Content.Prune(Content.DefaultExclude, Content.Element(cl, at, ExampleTarget.children))) == Str("Hi")
  {
    var own := ExampleTarget.children;
    Content.NothingSelectsBareElement(Content.DefaultExclude);
    assert Content.CleanAll(Content.DefaultExclude, own);
    Content.PruneAllClean(Content.DefaultExclude, own);
    assert Content.TextOfAll(own) == Str("Hi") + Content.TextOfAll([]);
  }

  /** With its copy-only menu open beside the trigger, the example target extracts to "Hi" and the copy caption. */
  lemma ExampleOpenText(d: Target, m: OpenMenu)
    requires d == Decorate(ExampleTarget, NoConfig) && m.copyOnly && !m.copied
    ensures Content.ExtractContent(true, AsNode(d.(children := d.children + [PopoverNode(m)])), Content.NoOptions)
         == Str("Hi") + CopyCaption
  {
    var own := ExampleTarget.children;
    var t := d.(children := d.children + [PopoverNode(m)]);
    assert d.children == own + [d.children[1]];
    assert t.children == own + [d.children[1]] + [PopoverNode(m)];
    CopyOnlyPopoverText(m);
    ExtractWithMenu(t, own, d.children[1], PopoverNode(m));
    ExampleOwnText(t.classes, t.attributes.Keys);
    HiIsClean();
  }

  /** The example page as `init` leaves it, or any state that looks the same: its one target decorated, nothing open. */
  predicate LikeExampleInit(s1: State) {
    s1.active.None? && 0 in s1.instances && s1.targets == [Decorate(ExampleTarget, NoConfig)]
  }

  /** After one click on the example trigger its copy-only menu sits beside the trigger, and closing it restores the target. */
  lemma ExampleFirstClick(s1: State, s2: State)
    requires LikeExampleInit(s1) && s2 == TriggerClickAsWritten(s1, 0, false)
    ensures var d := Decorate(ExampleTarget, NoConfig);
      && |s2.targets| == 1 && s2.active.Some? && s2.active.value.copyOnly && !s2.active.value.copied
      && s2.targets[0] == d.(children := d.children + [PopoverNode(s2.active.value)])
      && ClosePopover(s2).targets[0] == d
  {
    ExampleFacts();
    var d := s1.targets[0];
    assert s2.targets[0] == d.(children := d.children + [PopoverNode(s2.active.value)]);
    assert ClosePopover(s2).targets[0].children == (d.children + [PopoverNode(s2.active.value)])[..|d.children|];
  }

  /**
    Clicking the trigger of the example target twice on a wide screen: the
    second menu's prompt carries the first menu's "Copy prompt" caption, eleven
    code units longer than the prompt the corrected handler builds.  The page
    after `init` is such a state, by `ExampleInit`.
   */
  lemma ReclickLeaksMenuText(s1: State)
    requires LikeExampleInit(s1)
    ensures var s2 := TriggerClickAsWritten(s1, 0, false);
      && TriggerClickAsWritten(s2, 0, false).active.value.prompt != TriggerClick(s2, 0, false).active.value.prompt
      && |TriggerClickAsWritten(s2, 0, false).active.value.prompt|
         == |TriggerClick(s2, 0, false).active.value.prompt| + |CopyCaption|
  {
    var s2 := TriggerClickAsWritten(s1, 0, false);
    ExampleReclickTexts(s1, s2);
    ReclickFromTexts(s2, 0, false, Str("Hi"), CopyCaption);
  }

  /** With the first menu open, the example target reads "Hi" plus the menu's caption, and "Hi" once the menu is closed. */
  lemma ExampleReclickTexts(s1: State, s2: State)
    requires LikeExampleInit(s1) && s2 == TriggerClickAsWritten(s1, 0, false)
    ensures ReclickSetup(s2, 0, Str("Hi") + CopyCaption, Str("Hi"))
  {
    ExampleFirstClick(s1, s2);
    var d := Decorate(ExampleTarget, NoConfig);
    ExampleClosedText(d);
    ExampleOpenText(d, s2.active.value);
    HiIsClean();
  }

  /** Closing the open menu changes only the children of target `i`, whose extracted text is clean either way. */
  ghost predicate ReclickSetup(s: State, i: nat, openText: JsString, closedText: JsString) {
    && i < |s.targets| && i < |ClosePopover(s).targets|
    && ClosePopover(s).targets[i].attributes == s.targets[i].attributes && ClosePopover(s).config == s.config
    && Content.ExtractContent(true, AsNode(ClosePopover(s).targets[i]), Content.NoOptions) == closedText
    && Content.ExtractContent(true, AsNode(s.targets[i]), Content.NoOptions) == openText
    && Prompt.CleanContent(closedText) == closedText && Prompt.CleanContent(openText) == openText
  }

  /**
    When closing the open menu changes only the children of target `i`, and
    the target's clean text with the menu is its text without it followed by
    `extra`, the handler as written builds a prompt exactly `extra` longer.
   */
  lemma ReclickFromTexts(s: State, i: nat, narrow: bool, closedText: JsString, extra: JsString)
    requires ReclickSetup(s, i, closedText + extra, closedText)
    ensures |TriggerClickAsWritten(s, i, narrow).active.value.prompt|
         == |TriggerClick(s, i, narrow).active.value.prompt| + |extra|
    ensures extra != [] ==> TriggerClickAsWritten(s, i, narrow).active.value.prompt != TriggerClick(s, i, narrow).active.value.prompt
  {
    ClickPromptsFromText(s, ClosePopover(s), i, closedText + extra, closedText);
  }

  /**
    Two states whose target `i` differs only in its children build prompts
    that differ in length exactly as their extracted, already clean texts do.
   */
  lemma ClickPromptsFromText(s: State, c: State, i: nat, openText: JsString, closedText: JsString)
    requires i < |s.targets| && i < |c.targets|
    requires c.targets[i].attributes == s.targets[i].attributes && c.config == s.config
    requires Content.ExtractContent(true, AsNode(c.targets[i]), Content.NoOptions) == closedText
    requires Content.ExtractContent(true, AsNode(s.targets[i]), Content.NoOptions) == openText
    requires Prompt.CleanContent(closedText) == closedText && Prompt.CleanContent(openText) == openText
    ensures |ClickPrompt(s, i)| + |closedText| == |ClickPrompt(c, i)| + |openText|
  {
    var t := s.targets[i];
    var config := Prompt.PromptConfig(closedText, Fallback(Attribute(t, RoleAttribute), s.config.defaultRole),
                                      Fallback(Attribute(t, ContextAttribute), s.config.defaultContext),
                                      Or(Attribute(t, DataPrompt), None));
    assert ClickPrompt(c, i) == Prompt.BuildPrompt(config);
    assert ClickPrompt(s, i) == Prompt.BuildPrompt(config.(content := openText));
    Prompt.ContentLength(config, openText);
  }


  /**
    A click that reaches the trigger of target `j`: the capture-phase
    outside-click listener of a menu open elsewhere closes it first, then the
    handler as written runs.  A menu open at `j` itself is not closed by the
    listener, because the click lands on its own trigger.
   */
  function TriggerPress(s: State, j: nat, narrow: bool): (r: State)
    requires j < |s.targets|
    ensures r.active.Some? && r.active.value.owner == j
  {
    var c := if s.active.Some? && s.active.value.owner != j then ClosePopover(s) else s;
    TriggerClickAsWritten(c, j, narrow)
  }

  /** The leak needs a re-click on the same trigger with the menu beside it; every other click builds the right prompt. */
  lemma TriggerPressPrompt(s: State, j: nat, narrow: bool)
    requires Valid(s) && j in s.instances
    requires PopoverAt(s, j).None?
    ensures TriggerPress(s, j, narrow).active.value.prompt == TriggerClick(s, j, narrow).active.value.prompt
  {
    var c := ClosePopover(s);
    ClosePopoverValid(s);
    if s.active.Some? && s.active.value.owner == j {
      assert s.active.value.inBody;
    }
    assert c.targets[j] == s.targets[j];
    ClickPromptIgnoresTrigger(s, j);
    ClickPromptIgnoresTrigger(c, j);
  }

  // ---------------------------------------------------------------------------
  // Inside the open menu
  // ---------------------------------------------------------------------------

  /**
    The capture-phase keydown listener; `focused` is the index of the focused
    item among the menu items, `-1` when focus is elsewhere.  Without an open
    menu there is no listener.
   */
  function KeyDown(s: State, key: Key, shift: bool, focused: int): (r: (State, Focus))
    requires s.active.Some? ==> -1 <= focused < ItemCount(s.active.value)
    ensures s.active.None? || key == OtherKey ==> r == (s, KeepFocus)
    ensures s.active.Some? && key == Escape ==> r == (ClosePopover(s), FocusTrigger)
    ensures s.active.Some? && key in {Tab, ArrowDown, ArrowUp} ==>
              r.0 == s && r.1.FocusItem? && r.1.index < ItemCount(s.active.value)
  {
    if s.active.None? then (s, KeepFocus)
    else
      match OnKey(key, shift, focused, ItemCount(s.active.value))
      case Dismiss => (ClosePopover(s), FocusTrigger)
      case MoveFocus(k) => (s, FocusItem(k))
      case Ignore => (s, KeepFocus)
  }

  lemma KeyDownValid(s: State, key: Key, shift: bool, focused: int)
    requires Valid(s) && (s.active.Some? ==> -1 <= focused < ItemCount(s.active.value))
    ensures Valid(KeyDown(s, key, shift, focused).0)
  {
    ClosePopoverValid(s);
  }

  /** ArrowDown then ArrowUp (or Tab then Shift+Tab) brings focus back to the item it left. */
  lemma KeyDownRoundTrip(s: State, focused: nat)
    requires s.active.Some? && focused < ItemCount(s.active.value)
    ensures var down := KeyDown(s, ArrowDown, false, focused).1;
      down.FocusItem? && KeyDown(s, ArrowUp, false, down.index).1 == FocusItem(focused)
    ensures var tab := KeyDown(s, Tab, false, focused).1;
      tab.FocusItem? && KeyDown(s, Tab, true, tab.index).1 == FocusItem(focused)
  {
    NextIndexInverse(focused, ItemCount(s.active.value));
  }

  /**
    The capture-phase click listener, and the backdrop's click handler on a
    narrow screen (the backdrop lies outside both popover and trigger): a click
    outside closes the menu, any other is left alone.
   */
  function ClickOutside(s: State, spot: ClickSpot): (r: State)
    ensures spot == Outside ==> r.active.None?
    ensures spot != Outside || s.active.None? ==> r == s
  {
    if spot == Outside then ClosePopover(s) else s
  }

  lemma ClickOutsideValid(s: State, spot: ClickSpot)
    requires Valid(s)
    ensures Valid(ClickOutside(s, spot))
    ensures spot == Outside ==> ClickOutside(s, spot).listeners == multiset{}
  {
    ClosePopoverValid(s);
  }

  /**
    The click on the `k`-th provider item, with the clipboard write already
    resolved: the effects of the choice, the menu closed, and the toast shown
    when the prompt was copied instead of linked.
   */
  function ItemClick(s: State, k: nat): (r: (State, seq<Effect>))
    requires s.active.Some? && !s.active.value.copyOnly && k < |s.active.value.shown|
    requires Uri.WellFormed(s.active.value.prompt)
    ensures r.0.active.None?
    ensures r.1 == ItemEffects(s.active.value.prompt, s.active.value.shown[k].id, s.config.customProviders)
  {
    var m := s.active.value;
    var effects := ItemEffects(m.prompt, m.shown[k].id, s.config.customProviders);
    var closed := ClosePopover(s);
    (if CanUseDeepLink(m.prompt, None) then closed else DisplayToast(closed, ToastMessage), effects)
  }

  /** Choosing a provider keeps the invariant, and the toast appears exactly when the prompt is copied. */
  lemma ItemClickValid(s: State, k: nat)
    requires Valid(s) && s.active.Some? && !s.active.value.copyOnly && k < |s.active.value.shown|
    requires Uri.WellFormed(s.active.value.prompt)
    ensures Valid(ItemClick(s, k).0)
    ensures var r := ItemClick(s, k);
      && (Copies(r.1) ==> r.0.toastVisible && r.0.toastText == ToastMessage)
      && (!Copies(r.1) ==> r.0.toastVisible == s.toastVisible && r.0.toastText == s.toastText)
  {
    ClosePopoverValid(s);
    ToastValid(ClosePopover(s), ToastMessage);
    var m := s.active.value;
    DispatchShape(m.prompt, m.shown[k].id, s.config.customProviders);
  }

  /** Showing the toast touches only the toast singleton. */
  lemma ToastValid(s: State, message: JsString)
    requires Valid(s)
    ensures Valid(DisplayToast(s, message))
  {
    var r := DisplayToast(s, message);
    assert r.targets == s.targets && r.instances == s.instances && r.active == s.active;
  }

  /**
    The copy item's click, with the clipboard write already resolved: the item
    now reads as copied and the live region announces it.  The close 500 ms
    later is `AutoClose`.
   */
  function CopyClick(s: State): (r: (State, seq<Effect>))
    requires s.active.Some?
    ensures r.1 == [CopyText(s.active.value.prompt)]
    ensures r.0.active == Some(s.active.value.(copied := true))
    ensures r.0.announcement == CopiedAnnouncement && r.0.liveRegion
  {
    var m := s.active.value;
    var done := m.(copied := true);
    var targets :=
      if !m.inBody && m.owner < |s.targets| && |s.targets[m.owner].children| > 0 then
        var t := s.targets[m.owner];
        s.targets[m.owner := t.(children := t.children[..|t.children| - 1] + [PopoverNode(done)])]
      else s.targets;
    (Announce(s.(active := Some(done), targets := targets), CopiedAnnouncement), [CopyText(m.prompt)])
  }

  /** Copying keeps the invariant; on a wide screen the menu beside the trigger now shows the copied caption. */
  lemma CopyClickValid(s: State)
    requires Valid(s) && s.active.Some?
    ensures var r := CopyClick(s).0;
      && Valid(r)
      && (!s.active.value.inBody ==> PopoverAt(r, s.active.value.owner) == Some(PopoverNode(r.active.value)))
      && PopoverNode(r.active.value).children[0] == CopyItem(true)
  {
    CopyClickDecorated(s);
    var r := CopyClick(s).0;
    assert forall j | 0 <= j < |r.targets| :: Marked(r.targets[j]) == Marked(s.targets[j]);
  }

  /** The copy click swaps the open popover for its copied version and leaves every other target alone. */
  lemma CopyClickDecorated(s: State)
    requires Valid(s) && s.active.Some?
    ensures DecorationsOk(CopyClick(s).0)
    ensures |CopyClick(s).0.targets| == |s.targets|
    ensures forall j | 0 <= j < |s.targets| :: CopyClick(s).0.targets[j].attributes == s.targets[j].attributes
  {
    var m := s.active.value;
    var r := CopyClick(s).0;
    if !m.inBody {
      assert Marked(s.targets[m.owner]);
      forall j | 0 <= j < |r.targets| && Marked(r.targets[j]) ensures Decorated(r.targets[j], PopoverAt(r, j)) {
        if j == m.owner {
          ReplacedPopover(s.targets[j], PopoverNode(m), PopoverNode(r.active.value));
        } else {
          assert r.targets[j] == s.targets[j];
        }
      }
    } else {
      forall j | 0 <= j < |r.targets| && Marked(r.targets[j]) ensures Decorated(r.targets[j], PopoverAt(r, j)) {
        assert r.targets[j] == s.targets[j];
      }
    }
  }

  /** Closing the menu takes away only the popover: every target looks the same to the page. */
  lemma ClosePopoverKeepsPage(s: State)
    requires Valid(s)
    ensures SamePage(s, ClosePopover(s))
  {
    ClosePopoverValid(s);
    ClosePopoverFrame(s);
    var r := ClosePopover(s);
    forall k | 0 <= k < |s.targets| ensures PageView(r, k) == PageView(s, k) {
      if s.active.Some? && !s.active.value.inBody && s.active.value.owner == k {
        RemovedPopover(s.targets[k], PopoverNode(s.active.value));
      } else {
        assert r.targets[k] == s.targets[k] && PopoverAt(r, k) == PopoverAt(s, k);
      }
    }
  }

  /** Opening a menu adds only the popover: every target looks the same to the page. */
  lemma CreatePopoverKeepsPage(s: State, i: nat, prompt: JsString, shown: seq<Provider>, copyOnly: bool, narrow: bool)
    requires Valid(s) && i in s.instances
    ensures SamePage(s, CreatePopover(s, i, prompt, shown, copyOnly, narrow))
  {
    ClosePopoverKeepsPage(s);
    CreatePopoverValid(s, i, prompt, shown, copyOnly, narrow);
    CreatePopoverFrame(s, i, prompt, shown, copyOnly, narrow);
    ClosePopoverValid(s);
    var c := ClosePopover(s);
    var r := CreatePopover(s, i, prompt, shown, copyOnly, narrow);
    forall k | 0 <= k < |s.targets| ensures PageView(r, k) == PageView(c, k) {
      assert PopoverAt(c, k).None?;
      if !narrow && k == i {
        AppendedPopover(c.targets[k], PopoverNode(r.active.value));
      } else {
        assert r.targets[k] == c.targets[k] && PopoverAt(r, k).None?;
      }
    }
  }

  /** Marking the menu as copied swaps the popover only: every target looks the same to the page. */
  lemma CopyClickKeepsPage(s: State)
    requires Valid(s) && s.active.Some?
    ensures SamePage(s, CopyClick(s).0)
  {
    CopyClickValid(s);
    var r := CopyClick(s).0;
    var m := s.active.value;
    forall k | 0 <= k < |s.targets| ensures PageView(r, k) == PageView(s, k) {
      if !m.inBody && m.owner == k {
        ReplacedPopover(s.targets[k], PopoverNode(m), PopoverNode(r.active.value));
      } else {
        assert r.targets[k] == s.targets[k] && PopoverAt(r, k) == PopoverAt(s, k);
      }
    }
  }

  /** The timer set by the copy click: close whatever menu is active when it fires. */
  function AutoClose(s: State): (r: State)
    ensures r.active.None?
  {
    ClosePopover(s)
  }

  /**
    The timer holds no reference to the menu that set it: a menu opened within
    the 500 ms after a copy is closed by the earlier menu's timer.
   */
  lemma AutoCloseClosesNewerMenu(s: State, j: nat, narrow: bool)
    requires Valid(s) && s.active.Some? && j in s.instances
    ensures var next := TriggerClick(CopyClick(s).0, j, narrow);
      && next.active.Some? && next.active.value.owner == j && !next.active.value.copied
      && AutoClose(next).active.None?
  {
  }

  // ---------------------------------------------------------------------------
  // destroy
  // ---------------------------------------------------------------------------

  /** An instance's cleanup: remove the trigger (the last child of a closed target) and the mark. */
  function Unmark(t: Target): (r: Target)
    ensures !Marked(r)
  {
    t.(attributes := t.attributes - {TargetMark},
       children := if |t.children| > 0 then t.children[..|t.children| - 1] else t.children)
  }

  /** The cleanups of the recorded instances, in order. */
  function CleanupAll(targets: seq<Target>, instances: seq<nat>): (r: seq<Target>)
    ensures |r| == |targets|
    decreases |instances|
  {
    if instances == [] then targets
    else
      var i := instances[0];
      CleanupAll(if i < |targets| then targets[i := Unmark(targets[i])] else targets, instances[1..])
  }

  /** With distinct instances each recorded target is cleaned up once and the others are untouched. */
  lemma {:induction false} CleanupAllSpec(targets: seq<Target>, instances: seq<nat>)
    requires forall j, k | 0 <= j < k < |instances| :: instances[j] != instances[k]
    ensures forall j | 0 <= j < |targets| ::
              CleanupAll(targets, instances)[j] == (if j in instances then Unmark(targets[j]) else targets[j])
    decreases |instances|
  {
    if instances != [] {
      var i := instances[0];
      var rest := instances[1..];
      var next := if i < |targets| then targets[i := Unmark(targets[i])] else targets;
      assert forall k | 0 <= k < |rest| :: rest[k] == instances[k + 1];
      assert i !in rest;
      CleanupAllSpec(next, rest);
      forall j | 0 <= j < |targets|
        ensures CleanupAll(targets, instances)[j] == (if j in instances then Unmark(targets[j]) else targets[j])
      {
        assert j in instances <==> j == i || j in rest;
      }
    }
  }

  /** `destroy`: close the menu, run every instance's cleanup, remove the style, live region and toast. */
  function Destroy(s: State): (r: State)
    ensures r.instances == [] && r.active.None? && r.config == s.config && |r.targets| == |s.targets|
  {
    var c := ClosePopover(s);
    c.(targets := CleanupAll(c.targets, c.instances), instances := [],
       styleEl := false, headStyles := Removed(c.headStyles, c.styleEl),
       liveRegion := false, bodyLiveRegions := Removed(c.bodyLiveRegions, c.liveRegion), announcement := [],
       toastEl := false, bodyToasts := Removed(c.bodyToasts, c.toastEl), toastText := [], toastVisible := false)
  }

  /** The count of a kind of node after removing the one the module variable refers to, if any. */
  function Removed(count: nat, present: bool): nat {
    if present && count > 0 then count - 1 else count
  }

  /** `destroy` leaves a valid state with nothing of the library left in the document. */
  lemma DestroyValid(s: State)
    requires Valid(s)
    ensures var r := Destroy(s);
      && Valid(r)
      && (forall j | 0 <= j < |r.targets| :: !Marked(r.targets[j]))
      && r.headStyles == 0 && r.bodyLiveRegions == 0 && r.bodyToasts == 0
      && r.bodyPopovers == 0 && r.bodyBackdrops == 0 && r.listeners == multiset{}
  {
    ClosePopoverValid(s);
    var c := ClosePopover(s);
    CleanupAllSpec(c.targets, c.instances);
  }

  /** The cleanup undoes the decoration of a target that was not marked before. */
  lemma UnmarkDecorate(t: Target, config: Config)
    requires !Marked(t)
    ensures Unmark(Decorate(t, config)) == t
  {
    var d := Decorate(t, config);
    assert d.children[..|t.children|] == t.children;
    assert d.attributes - {TargetMark} == t.attributes;
  }

  /** On a page the script has not touched, `destroy` after `init` restores the page exactly. */
  lemma DestroyUndoesInit(config: Config, targets: seq<Target>, root: Option<set<nat>>)
    requires forall j | 0 <= j < |targets| :: !Marked(targets[j])
    ensures Destroy(Init(Fresh(config, targets), root)) == Fresh(config, targets)
  {
    var s0 := Fresh(config, targets);
    FreshValid(config, targets);
    var s := InjectStyles(s0);
    InitFromSpec(s, root, 0);
    var s1 := Init(s0, root);
    InitValid(s0, root);
    CleanupAllSpec(s1.targets, s1.instances);
    var r := Destroy(s1);
    forall j | 0 <= j < |targets| ensures r.targets[j] == targets[j] {
      if Selected(s, root, j) {
        UnmarkDecorate(targets[j], config);
      } else {
        assert j !in s1.instances;
      }
    }
  }

  /** `init` after `destroy` starts over: one style element again and the selected targets decorated anew. */
  lemma InitAfterDestroy(s: State, root: Option<set<nat>>)
    requires Valid(s)
    ensures var r := Init(Destroy(s), root);
      && Valid(r) && r.headStyles == 1
      && forall j | 0 <= j < |s.targets| && (root.None? || j in root.value) && DataPrompt in Destroy(s).targets[j].attributes ::
           j in r.instances
  {
    DestroyValid(s);
    InitValid(Destroy(s), root);
  }
}
