# promptthis, modelled in Dafny

promptthis puts a "Prompt" button on page elements. Pressing it opens a small
menu:

- "Copy prompt" puts an assembled prompt on the clipboard.
- Each AI provider item (Claude, ChatGPT, Gemini, Perplexity or a custom one)
  opens the provider's chat with the prompt. The prompt travels in the URL
  when it is short enough; otherwise it is copied and the provider's bare
  page is opened.

The prompt is made of four parts: an optional role, an optional context, the
element's text in a fenced block, and an instruction.

This project models the core of that behaviour as pure functions over
immutable data and proves properties about them:

| module | file | models |
|---|---|---|
| `Js` | js.dfy | JavaScript strings as UTF-16 code units, `trim`, the `\n{3,}` collapse, `split`/`join`, and the `||`/`??` operators on optional strings |
| `Uri` | uri.dfy | `encodeURIComponent` as UTF-8 octets (RFC 3629 section 3) percent-encoded as in RFC 3986 section 2.1, with a decoder as its partner |
| `Prompt` | prompt.dfy | `cleanContent` and `buildPrompt` |
| `Content` | content.dfy | `extractContent` over an immutable element tree with an exclusion selector |
| `Providers` | providers.dfy | the default provider table, `getProviderUrl` and the deep-link gate `canUseDeepLink` |
| `Position` | position.dfy | `positionPopover` over exact real geometry |
| `Menu` | menu.dfy | menu rules shared by the vanilla and React front ends: the roving-focus index, the provider filter, `data-prompt-open-in` parsing, label defaulting and deep-link-or-copy dispatch |
| `Controller` | controller.dfy | the vanilla script's global state: singletons, the active popover and its document listeners, the instances, decorated targets, and `init`, `createPopover`, `closeActivePopover` and `destroy` |
| `Hook` | hook.dfy | the React `usePrompt` hook |
| `Button` | button.dfy | the React `PromptButton`: prop-over-context precedence and its open/copied/timer state machine |

Side effects appear as data. Opening a tab, writing the clipboard and showing
a toast are `Menu.Effect` values that a handler returns. The page elements the
vanilla controller decorates are `Controller.Target` records. The DOM nodes it
creates are counted.

## Model

| member | source | states |
|---|---|---|
| Prompt.CleanContent | packages/core/src/prompt.ts:11-19 | content that normalises to at most 12000 code units is returned whole; longer content becomes its first 12000 units plus the truncation marker, so the result never exceeds 12000 units plus the marker |
| Prompt.BuildPrompt | packages/core/src/prompt.ts:21-33 | assembles the prompt; what it promises is stated by Prompt.BuildPromptLayout (the joined layout), StartsWithRole, EndsWithInstruction, ContainsContentBlock, EmptyPartsAreAbsent and SegmentOrder |
| Prompt.NormalizeFacts | packages/core/src/prompt.ts:12 | trimming and collapsing leaves no whitespace at either end and no run of three newlines, and removes only whitespace and surplus newlines: the text without newlines equals the trimmed input without newlines |
| Prompt.CleanContentFacts | packages/core/src/prompt.ts:11-19 | cleaned content is trimmed; untruncated content has no run of three newlines; truncated content is exactly a 12000-unit prefix of the normalised text followed by the marker, and that prefix has no run of three newlines |
| Prompt.MarkerFacts | packages/core/src/prompt.ts:16 | the truncation marker is 34 code units long, starts with a newline and ends with a non-whitespace `]` |
| Prompt.CleanContentIdempotent | packages/core/src/prompt.ts:11-19 | cleaning already-cleaned content changes nothing, including content that was truncated |
| Prompt.Instruction | packages/core/src/prompt.ts:30 | a non-empty instruction is used verbatim; a missing or empty one becomes "Help me with the above content." |
| Prompt.BuildPromptLayout | packages/core/src/prompt.ts:21-33 | the prompt is the present parts, role and then context, each followed by a blank line, then the fenced block around the cleaned content, a blank line, and the instruction |
| Prompt.ContentLength | packages/core/src/prompt.ts:27-28 | swapping the content changes the prompt's length by exactly the change in cleaned-content length, so the rest of the prompt is independent of the content |
| Prompt.StartsWithRole | packages/core/src/prompt.ts:24-32 | a non-empty role is a prefix of the prompt |
| Prompt.EndsWithInstruction | packages/core/src/prompt.ts:30-32 | the prompt ends with the instruction, or with the default when the instruction is missing or empty |
| Prompt.ContainsContentBlock | packages/core/src/prompt.ts:27-28 | the block made of the opening fence, the cleaned content and the closing fence occurs in the prompt |
| Prompt.EmptyPartsAreAbsent | packages/core/src/prompt.ts:24-30 | an empty role, context or instruction gives the same prompt as a missing one, so no empty placeholder is produced |
| Prompt.SegmentOrder | packages/core/src/prompt.ts:24-32 | with role and context present, the role starts the prompt, the context follows it after a blank line, then the content block, and the instruction ends the prompt |
| Prompt.ContentBlockBlankLines | packages/core/src/prompt.ts:28 | the fenced block of non-empty untruncated content has no run of three newlines; the block of empty content does have one |
| Content.ExtractContent | packages/core/src/content.ts:12-28 | without a document the result is empty |
| Content.Prune | packages/core/src/content.ts:19-20 | an element stays an element with its classes and attributes; Content.PruneCleans, PruneClean and PruneIdempotent state that removal leaves no excluded subtree, keeps clean trees and is idempotent |
| Content.PruneAll | packages/core/src/content.ts:19-20 | removal never adds children; Content.PruneAllAppend states that it distributes over concatenation |
| Content.PostProcess | packages/core/src/content.ts:22-27 | trim, collapse and truncate; Content.PostProcessShape, Truncation, PostProcessPlain and PostProcessIsCleanContent state the result's shape and its agreement with `cleanContent` |
| Content.Defaults | packages/core/src/content.ts:6-17 | no options means the exclusion selector `.promptthis-btn,[data-promptthis-trigger]` and a 12000-unit limit |
| Content.PruneCleans | packages/core/src/content.ts:19-20 | after removal no excluded subtree is left |
| Content.PruneClean | packages/core/src/content.ts:19-20 | removal leaves a tree without excluded subtrees unchanged |
| Content.PruneIdempotent | packages/core/src/content.ts:19-20 | removing excluded subtrees twice is the same as once |
| Content.PruneAllAppend | packages/core/src/content.ts:19-20 | removal over a list of children distributes over concatenation |
| Content.ExcludedChildContributesNothing | packages/core/src/content.ts:19-22 | an excluded child adds no text: the element's text is the text of the children before and after it |
| Content.AppendedKeptChild | packages/core/src/content.ts:19-22 | a child the selector does not match adds exactly its own pruned text at the end |
| Content.TriggerButtonExcluded | packages/core/src/content.ts:7-22 | a trigger button appended to an element leaves the extracted text as it was without it |
| Content.ExampleKeepThis | packages/core/src/content.ts:19-27 | a paragraph holding clean text such as "Keep this" next to a trigger button extracts to exactly that text, whatever the button says |
| Content.PostProcessIsCleanContent | packages/core/src/content.ts:22-27 | with the 12000 limit, post-processing equals `cleanContent` |
| Content.Truncation | packages/core/src/content.ts:25-27 | processed text within the limit is returned without a marker; longer text is cut to the limit and the marker is added |
| Content.PostProcessShape | packages/core/src/content.ts:22-27 | with a positive limit the result is trimmed, and without truncation it has no run of three newlines |
| Content.PostProcessPlain | packages/core/src/content.ts:22-27 | trimmed text without newlines that fits the limit passes through unchanged |
| Content.ExtractClean | packages/core/src/content.ts:16-27 | an element with nothing to exclude extracts to the post-processed concatenation of its children's text |
| Providers.DefaultTable | packages/core/src/providers.ts:8-35 | there are four defaults, in the order claude, chatgpt, gemini, perplexity; ids are distinct, names and icons non-empty, and each link is built from a fixed prefix |
| Providers.DefaultUrls | packages/core/src/providers.ts:9-34 | each default's link is its prefix followed by the encoded prompt |
| Providers.ProviderUrl | packages/core/src/providers.ts:9-34 | a prefixed provider's link begins with its prefix |
| Providers.FindIndex | packages/core/src/providers.ts:44-45 | an index exists exactly when some provider has the id, and it points at one that does |
| Providers.Find | packages/core/src/providers.ts:44-45 | the search finds a provider exactly when one has the id, and it is the first with it |
| Providers.LookupOrder | packages/core/src/providers.ts:39-47 | the link comes from the first custom provider with the id; only when no custom provider has it does it come from the default with it |
| Providers.LookupNone | packages/core/src/providers.ts:39-47 | lookup gives null exactly when the id is in neither the custom list nor the defaults |
| Providers.GetProviderUrl | packages/core/src/providers.ts:39-47 | the lookup; Providers.LookupOrder and LookupNone state its custom-first order and when it gives null |
| Providers.CustomOverridesDefault | packages/core/src/providers.ts:44 | a custom provider with a default's id takes over that id's link |
| Providers.UnknownHasNoUrl | packages/core/src/providers.ts:46 | an id nobody carries has no link |
| Providers.DeepLinkCost | packages/core/src/providers.ts:51-56 | a prompt that passes the gate has raw length plus two per space within the threshold, so it also has raw length within it; a prompt of at most a ninth of the threshold always passes |
| Providers.DeepLinkUnreserved | packages/core/src/providers.ts:51-56 | for a prompt of unreserved characters only, the gate holds exactly when its length is within the threshold |
| Providers.DeepLinkDefault | packages/core/src/providers.ts:49-53 | the default threshold is 1800 |
| Providers.CanUseDeepLink | packages/core/src/providers.ts:51-56 | the gate; Providers.DeepLinkCost, DeepLinkUnreserved and DeepLinkMonotone state what passing it means for the raw prompt |
| Providers.DeepLinkMonotone | packages/core/src/providers.ts:55 | if a prompt passes the gate, so does any well-formed substring of it |
| Providers.SpacesAreEscaped | packages/core/src/providers.ts:55 | every space counts as escaped |
| Providers.ShortPromptPasses | packages/core/src/providers.ts:51-56 | "Hello world" passes the default gate |
| Providers.LongPromptFails | packages/core/src/providers.ts:51-56 | twenty thousand letters fail the default gate |
| Providers.SpaceyPromptFails | packages/core/src/providers.ts:51-56 | six thousand spaces fail the default gate |
| Uri.DecodeEncode | packages/core/src/providers.ts:13 | percent-decoding undoes `encodeURIComponent` on every well-formed string |
| Uri.Encode | packages/core/src/providers.ts:55 | `encodeURIComponent`; Uri.DecodeEncode, EncodeInjective, EncodeAppend and EncodeLength state its round trip, injectivity, concatenation and length bounds |
| Uri.EncodeInjective | packages/core/src/providers.ts:13 | distinct well-formed strings encode differently |
| Uri.EncodeAppend | packages/core/src/providers.ts:55 | encoding distributes over concatenation of well-formed strings |
| Uri.EncodeLength | packages/core/src/providers.ts:55 | the encoded length is at least the raw length plus two per escaped code point, and at most nine times the raw length; for ASCII it is exactly the raw length plus two per escaped character |
| Uri.EncodeUnreserved | packages/core/src/providers.ts:55 | a string of unreserved characters encodes to itself |
| Uri.EncodeInfix | packages/core/src/providers.ts:55 | a string encodes to no more than any well-formed string that contains it |
| Position.PositionPopover | packages/core/src/position.ts:10-44 | without a window the popover is untouched; with one, its data-side and data-align are the returned pair; its size is never changed |
| Position.SideRule | packages/core/src/position.ts:20-34 | the side is top exactly when the popover plus padding does not fit below and the space above exceeds the space below |
| Position.NeverTopWithoutRoom | packages/core/src/position.ts:32 | with no more space above than below, the side is bottom |
| Position.AlignRule | packages/core/src/position.ts:21-38 | align is start exactly when the trigger's right edge minus the popover's width is below the padding |
| Position.Independence | packages/core/src/position.ts:22-38 | the side depends only on vertical inputs, the align only on the right edge and width, and the viewport width is never read |
| Position.TallerStaysOnTop | packages/core/src/position.ts:30-34 | a popover placed on top stays on top when it grows taller |
| Position.AttributesMatchResult | packages/core/src/position.ts:40-43 | the written attributes name the returned side and align |
| Position.NoWindowDefault | packages/core/src/position.ts:16-18 | without a window the result is bottom/end |
| Position.Scenarios | packages/core/src/__tests__/position.test.ts:34-86 | at 1024×768 with a 200×150 popover, the five corner and edge cases give bottom/end, top, start, top/start and bottom/end |
| Position.CustomOffset | packages/core/src/__tests__/position.test.ts:88-103 | a larger offset flips a bottom placement to top |
| Position.ZeroSize | packages/core/src/__tests__/position.test.ts:136-143 | a zero-size trigger and popover give bottom/start |
| Position.CustomPadding | packages/core/src/__tests__/position.test.ts:105-126 | a trigger near the left edge aligns to start with the default padding and to end with zero padding |
| Menu.NextIndex | packages/vanilla/src/promptthis.ts:366-374 | the next index from any position in [-1, n) is in [0, n) |
| Menu.NextIndexWraps | packages/vanilla/src/promptthis.ts:367-374 | forward from the last item wraps to the first; backward from the first, or from no focus, wraps to the last; forward from no focus is the first |
| Menu.NextIndexIsRotation | packages/vanilla/src/promptthis.ts:367-374 | from a focused item, forward and backward are rotations by one modulo n |
| Menu.NextIndexInverse | packages/vanilla/src/promptthis.ts:367-374 | one step forward and one back, in either order, return to the same item |
| Menu.OnKey | packages/vanilla/src/promptthis.ts:353-377 | Escape dismisses; Tab and the arrows move focus to an item in range when there are items; any other key, or no items, leaves focus alone |
| Menu.OnKeyDirections | packages/vanilla/src/promptthis.ts:360-374 | ArrowUp and Shift+Tab go backward; ArrowDown and Tab go forward |
| Menu.AllProviders | packages/vanilla/src/promptthis.ts:444-447 | the candidate list starts with the four defaults |
| Menu.ShownProviders | packages/vanilla/src/promptthis.ts:448-452 | without an id list all candidates are shown; with one, at most one provider per listed id |
| Menu.PickSpec | packages/vanilla/src/promptthis.ts:448-452 | the shown providers' ids are the listed ids that some candidate carries, in list order, and each shown provider is the first candidate with its id |
| Menu.Pick | packages/vanilla/src/promptthis.ts:448-452 | at most one provider per listed id; Menu.PickSpec states list order, first match and dropped unknown ids |
| Menu.EmptyOpenInShowsNothing | packages/vanilla/src/promptthis.ts:448-452 | an empty id list shows no providers |
| Menu.NoOpenInShowsDefaults | packages/vanilla/src/promptthis.ts:444-452 | with no list and no custom providers, exactly the defaults are shown |
| Menu.ShadowedCustomProvider | packages/vanilla/src/promptthis.ts:444-452 | a custom provider reusing a default's id is hidden behind the default in the menu, while the link lookup uses the custom one |
| Menu.ParseOpenIn | packages/vanilla/src/promptthis.ts:439-442 | a missing or empty attribute falls back to the configured list; otherwise the result is a non-empty list of trimmed ids |
| Menu.ParseOpenInJoin | packages/vanilla/src/promptthis.ts:439-442 | parsing a comma-joined list of trimmed, comma-free ids gives back that list |
| Menu.ParseOpenInExample | packages/vanilla/src/promptthis.ts:440-441 | " claude , gemini" parses to claude and gemini |
| Menu.TriggerLabel | packages/vanilla/src/promptthis.ts:415-416 | the label is the action attribute if non-empty, else the configured label if non-empty, else "Prompt"; it is never empty |
| Menu.AriaLabel | packages/vanilla/src/promptthis.ts:417 | the accessible name is the label followed by " — send to AI"; its meaning for the trigger is Controller.DecoratedTriggerNames |
| Menu.AriaLabelInjective | packages/vanilla/src/promptthis.ts:417 | two accessible names are equal exactly when their captions are |
| Menu.Fallback | packages/vanilla/src/promptthis.ts:428-434 | an attribute value is used if non-empty, else the configured default if non-empty, else nothing; a present value is never empty |
| Menu.OpenIfAny | packages/vanilla/src/promptthis.ts:327-331 | a tab opens exactly when the link is non-empty |
| Menu.DeepLinkOrCopy | packages/react/src/use-prompt.ts:53-67 | the prompt is copied exactly when it fails the gate, and then first; no toast; every opened tab is the link looked up for the prompt when it passes the gate and for the empty prompt otherwise, and a tab opens exactly when that link is non-empty; there is no other effect, so at most one copy and one tab |
| Menu.ItemEffects | packages/vanilla/src/promptthis.ts:324-336 | the vanilla item's effects; Menu.DispatchShape and ReactDropsOnlyTheToast state them |
| Menu.DispatchShape | packages/vanilla/src/promptthis.ts:324-336 | the prompt is copied exactly when it fails the gate, first, with the toast last; every opened tab is the link looked up for the prompt when it passes the gate and for the empty prompt otherwise, and a tab opens exactly when that link is non-empty; there is no other effect: one copy and one toast when the gate fails, and at most one tab |
| Menu.ReactDropsOnlyTheToast | packages/react/src/use-prompt.ts:53-67 | the hook's dispatch is the vanilla one without the final toast |
| Menu.DefaultProviderDelivers | packages/vanilla/src/promptthis.ts:324-334 | for a default provider, the deep link decodes back to the prompt; without a deep link, the prompt is copied and the bare prefix is opened |
| Controller.FreshValid | packages/vanilla/src/promptthis.ts:194-208 | the state before any `init` is consistent |
| Controller.AtMostOnePopover | packages/vanilla/src/promptthis.ts:271-405 | in a consistent state a popover ends at most one decorated target, never while one is in the body, and the body holds at most one; a popover is in one of those places exactly while a menu is active, and the two listeners are attached exactly then |
| Controller.EndsWithPopoverIffOpen | packages/vanilla/src/promptthis.ts:342-350 | a decorated target ends with a popover exactly when the active menu was placed beside its trigger |
| Controller.InjectStyles | packages/vanilla/src/promptthis.ts:214-225 | after the call there is a style element, and still at most one |
| Controller.Announce | packages/vanilla/src/promptthis.ts:254-257 | the live region exists, there is at most one, and it holds the message |
| Controller.DisplayToast | packages/vanilla/src/promptthis.ts:236-252 | the toast exists, there is at most one, it is visible with the message, and a new timer replaces the pending one |
| Controller.ToastTimeout | packages/vanilla/src/promptthis.ts:248-251 | only the pending timer hides the toast, which is kept with its text; a cleared timer changes nothing |
| Controller.ToastShownAgainStays | packages/vanilla/src/promptthis.ts:243-252 | a toast shown twice stays visible, with the second text, through every timer started before the second show, and its own timer hides it |
| Controller.ClosePopover | packages/vanilla/src/promptthis.ts:259-265 | no popover is active afterwards; with none active the state is unchanged; instances and config are kept |
| Controller.ClosePopoverValid | packages/vanilla/src/promptthis.ts:259-265 | closing keeps the state consistent, detaches both listeners, removes popover and backdrop, and leaves every other target as it was; what happens to the owner is Controller.ClosePopoverFrame |
| Controller.ClosePopoverFrame | packages/vanilla/src/promptthis.ts:259-265 | closing takes exactly the popover, its last child, off the owner, which keeps its classes and attributes; every other target is unchanged, and a menu in the body leaves all targets unchanged |
| Controller.ClosePopoverKeepsPage | packages/vanilla/src/promptthis.ts:259-265 | closing leaves every target's classes, attributes and own children, everything before its trigger, as they were |
| Controller.CreatePopover | packages/vanilla/src/promptthis.ts:271-405 | the new menu is the active one, owned by the pressed target |
| Controller.CreatePopoverValid | packages/vanilla/src/promptthis.ts:278-398 | opening keeps the state consistent and attaches exactly the two listeners; a wide screen puts the popover in the target, a narrow one puts it in the body; which targets change is Controller.CreatePopoverFrame |
| Controller.CreatePopoverFrame | packages/vanilla/src/promptthis.ts:278-350 | after the old menu is closed, a wide screen appends the new popover to the owner's children and changes no other target; a narrow screen changes no target |
| Controller.CreatePopoverKeepsPage | packages/vanilla/src/promptthis.ts:271-398 | opening a menu leaves every target's classes, attributes and own children as they were |
| Controller.Decorate | packages/vanilla/src/promptthis.ts:410-457 | the target is marked, its classes and existing children are kept, and a trigger is appended last whose caption is the label of lines 415-416 |
| Controller.DecoratedTriggerNames | packages/vanilla/src/promptthis.ts:415-425 | the trigger's caption is never empty and is the target's action when it has one; its accessible name begins with that caption (the action followed by " — send to AI" when there is one); two triggers share an accessible name exactly when they share a caption |
| Controller.InitElement | packages/vanilla/src/promptthis.ts:407-465 | the target's index is appended to the instances and nothing else changes but the targets |
| Controller.InitElementValid | packages/vanilla/src/promptthis.ts:407-465 | decorating an unmarked target keeps the state consistent, marks it, leaves other targets alone and keeps its `data-prompt` |
| Controller.InitFromSpec | packages/vanilla/src/promptthis.ts:470-474 | the scan keeps the state consistent; every selected target ends up marked; unselected or already-marked ones are untouched; the rest are decorated |
| Controller.Init | packages/vanilla/src/promptthis.ts:467-475 | a style element exists afterwards; Controller.InitValid and InitIdempotent state what the scan registers and that it is idempotent |
| Controller.InitFrom | packages/vanilla/src/promptthis.ts:470-474 | the scan changes only the targets and the instances; Controller.InitFromSpec states its effect on each target |
| Controller.InitValid | packages/vanilla/src/promptthis.ts:467-475 | `init` keeps the state consistent and registers every `data-prompt` target under the root |
| Controller.InitIdempotent | packages/vanilla/src/promptthis.ts:470-473 | a second `init` over the same root changes nothing |
| Controller.TriggerClick | packages/vanilla/src/promptthis.ts:427-455 | the corrected order of the click handler, the open menu closed before the prompt is read (first row of the findings); pressing a trigger leaves its target's menu active |
| Controller.TriggerClickValid | packages/vanilla/src/promptthis.ts:427-455 | pressing a registered trigger keeps the state consistent, both in the handler as written and in the corrected order |
| Controller.TriggerClickPrompt | packages/vanilla/src/promptthis.ts:428-436 | in the corrected order (first row of the findings) the menu's prompt is built from the target's own content without the trigger; as written this fails on a wide-screen re-click |
| Controller.ClickPromptIgnoresTrigger | packages/vanilla/src/promptthis.ts:435 | with no popover inside the target, the extracted text ignores the appended trigger |
| Controller.ClickPrompt | packages/vanilla/src/promptthis.ts:428-436 | the prompt read from a target; Controller.TriggerClickPrompt and ClickPromptIgnoresTrigger state what it is built from |
| Controller.ClickShown | packages/vanilla/src/promptthis.ts:438-452 | the listed providers; Menu.ParseOpenIn, ShownProviders and PickSpec state the parse and the filter |
| Controller.TriggerPress | packages/vanilla/src/promptthis.ts:381-455 | a click on a trigger, after the capture listener closes a menu open elsewhere, leaves that target's menu active; Controller.TriggerPressPrompt states its prompt |
| Controller.TriggerPressPrompt | packages/vanilla/src/promptthis.ts:381-455 | when the pressed target holds no popover, the capture listener's early close does not change the prompt |
| Controller.KeyDown | packages/vanilla/src/promptthis.ts:353-378 | with no menu, or another key, nothing happens; Escape closes and returns focus to the trigger; navigation keys move focus to an item in range and leave the state alone |
| Controller.KeyDownValid | packages/vanilla/src/promptthis.ts:353-378 | key handling keeps the state consistent |
| Controller.KeyDownRoundTrip | packages/vanilla/src/promptthis.ts:360-375 | ArrowDown then ArrowUp, and Tab then Shift+Tab, return focus to the item it left |
| Controller.ClickOutside | packages/vanilla/src/promptthis.ts:381-391 | a click outside popover and trigger closes the menu; any other click changes nothing |
| Controller.ClickOutsideValid | packages/vanilla/src/promptthis.ts:381-391 | such a click keeps the state consistent, and a click outside leaves no listeners |
| Controller.ItemClick | packages/vanilla/src/promptthis.ts:324-336 | choosing a provider closes the menu and yields that provider's dispatch |
| Controller.ItemClickValid | packages/vanilla/src/promptthis.ts:324-336 | the state stays consistent; the toast shows the copy message exactly when the dispatch copied; otherwise the toast is unchanged |
| Controller.CopyClick | packages/vanilla/src/promptthis.ts:301-306 | the copy item copies the menu's prompt, the menu shows "copied", and the live region announces it |
| Controller.CopyClickValid | packages/vanilla/src/promptthis.ts:301-306 | the state stays consistent and the copy item's caption is "✓ Copied!" in the popover on the page |
| Controller.CopyClickKeepsPage | packages/vanilla/src/promptthis.ts:301-306 | the copy click leaves every target's classes, attributes and own children as they were |
| Controller.AutoCloseClosesNewerMenu | packages/vanilla/src/promptthis.ts:305 | a menu opened within half a second of a copy is closed by the earlier menu's timer |
| Controller.AutoClose | packages/vanilla/src/promptthis.ts:305 | no menu is active after the timer fires |
| Controller.Unmark | packages/vanilla/src/promptthis.ts:459-462 | the target is no longer marked |
| Controller.UnmarkDecorate | packages/vanilla/src/promptthis.ts:410-462 | removing the decoration restores the target exactly |
| Controller.CleanupAllSpec | packages/vanilla/src/promptthis.ts:479 | running every instance's cleanup unmarks exactly the registered targets |
| Controller.CleanupAll | packages/vanilla/src/promptthis.ts:459-479 | every target is still there; Controller.CleanupAllSpec states which are unmarked |
| Controller.Destroy | packages/vanilla/src/promptthis.ts:477-487 | the instances are emptied, no menu is active, and the config is kept |
| Controller.DestroyValid | packages/vanilla/src/promptthis.ts:477-487 | after `destroy` the state is consistent, no target is marked, and there are no style element, live region, toast, popover, backdrop or listeners |
| Controller.DestroyUndoesInit | packages/vanilla/src/promptthis.ts:467-487 | `destroy` after `init` on a fresh page restores the fresh page |
| Controller.InitAfterDestroy | packages/vanilla/src/promptthis.ts:467-487 | `init` after `destroy` recreates exactly one style element and registers every `data-prompt` target |
| Controller.TriggerClickAsWritten | packages/vanilla/src/promptthis.ts:427-455 | pressing a trigger, with content extracted before the old popover closes, leaves its target's menu active |
| Controller.ReclickLeaksMenuText | packages/vanilla/src/promptthis.ts:427-455 | on the example page as `init` leaves it, pressing the copy-only trigger twice, as written, builds a second prompt that differs from the corrected order's and is longer by the "Copy prompt" caption |
| Controller.ReclickFromTexts | packages/vanilla/src/promptthis.ts:427-455 | whenever closing the open menu removes only some text `extra` from the target's clean extracted text, the handler as written builds a prompt exactly `extra` longer than the corrected order, and a different one when `extra` is non-empty |
| Controller.ExampleInit | packages/vanilla/src/promptthis.ts:467-475 | `init` on a page with one copy-only `data-prompt` target decorates and registers that target and opens no menu |
| Hook.ResolveContent | packages/react/src/use-prompt.ts:21-27 | text is taken as is; an element's content is trimmed; a ref without an element gives the empty string |
| Hook.PromptOf | packages/react/src/use-prompt.ts:33-49 | the prompt for the resolved content; Hook.RefAgreesWithText and EmptyRefIsEmptyText state it for both kinds of content |
| Hook.RefAgreesWithText | packages/react/src/use-prompt.ts:25-36 | a ref to an element gives the same prompt as the element's own text |
| Hook.EmptyRefIsEmptyText | packages/react/src/use-prompt.ts:26-36 | a ref without an element gives the prompt for empty content |
| Hook.ProvidersOf | packages/react/src/use-prompt.ts:38-44 | without `openIn`, defaults then custom providers; with it, the known ids in order, each the first provider with that id |
| Hook.SameProvidersAsVanilla | packages/react/src/use-prompt.ts:38-44 | the hook lists the same providers as the vanilla menu for the same list |
| Hook.OpenInProvider | packages/react/src/use-prompt.ts:53-67 | the prompt is copied exactly when it fails the gate, and then first; no toast; every opened tab is the link looked up, custom providers first, for the prompt when it passes the gate and for the empty prompt otherwise, and a tab opens exactly when that link is non-empty; there is no other effect, so at most one copy and one tab |
| Hook.SameDispatchAsVanilla | packages/react/src/use-prompt.ts:53-67 | the hook's effects are the vanilla item's effects minus the toast |
| Button.HookOptions | packages/react/src/prompt-button.tsx:54-61 | each prop wins when defined, even when empty; only an undefined prop takes the context value; custom providers come from the context |
| Button.Caption | packages/react/src/prompt-button.tsx:34 | the caption is the `label` prop, and "Prompt" only when it is undefined |
| Button.EmptyPropWins | packages/react/src/prompt-button.tsx:56 | an empty role prop overrides the context's role and yields the prompt without any role |
| Button.PrecedenceDiffersFromVanilla | packages/react/src/prompt-button.tsx:34-59 | an empty value falls back to the configured one in the vanilla script but wins in React |
| Button.InitialValid | packages/react/src/prompt-button.tsx:42-47 | the first render's state is consistent |
| Button.CopyLabel | packages/react/src/prompt-button.tsx:185 | the copy caption is "✓ Copied!" exactly when copied, "Copy prompt" otherwise |
| Button.Toggle | packages/react/src/prompt-button.tsx:143-163 | a trigger click flips the open state and nothing else; opening focuses the first item |
| Button.ToggleTwice | packages/react/src/prompt-button.tsx:163 | two trigger clicks restore the state |
| Button.Key | packages/react/src/prompt-button.tsx:109-140 | keys do nothing while closed; Escape closes and focuses the trigger; no other key changes the state |
| Button.SameKeysAsVanilla | packages/react/src/prompt-button.tsx:118-136 | the button moves focus exactly as the vanilla menu does |
| Button.ClickOutside | packages/react/src/prompt-button.tsx:92-106 | the menu stays open exactly when it was open and the click was not outside |
| Button.AfterCopy | packages/react/src/prompt-button.tsx:72-79 | copy sets copied and the announcement and starts a timer, which becomes the one unmount clears |
| Button.HandleCopy | packages/react/src/prompt-button.tsx:70-80 | the clipboard and `onCopy` receive the same prompt, the one built at the time of the click |
| Button.HandleCopyAsWritten | packages/react/src/prompt-button.tsx:70-80 | the clipboard receives the prompt built at click time |
| Button.CopyReportsStalePrompt | packages/react/src/prompt-button.tsx:74 | for a ref filled after the first render with any short, trimmed, single-line text such as "Hi", the clipboard gets the prompt with that text while `onCopy` gets one shorter by exactly the text's length |
| Button.Fire | packages/react/src/prompt-button.tsx:75-79 | a mounted button's timer clears copied, open and the announcement; after unmount it only retires itself |
| Button.OpenIn | packages/react/src/prompt-button.tsx:82-89 | choosing a provider closes the menu and yields the hook's dispatch |
| Button.Unmount | packages/react/src/prompt-button.tsx:63-68 | unmount cancels only the most recent timer |
| Button.TransitionsValid | packages/react/src/prompt-button.tsx:42-151 | every transition keeps the button's state consistent |
| Button.CopyThenReset | packages/react/src/prompt-button.tsx:70-80 | copy then its timer ends closed, not copied, with no announcement |
| Button.UnmountAfterCopy | packages/react/src/prompt-button.tsx:63-79 | unmount right after a single copy leaves no timer pending |
| Button.UnmountKeepsEarlierTimer | packages/react/src/prompt-button.tsx:66-75 | after two copies, unmount leaves the first timer pending |
| Button.ChoosingCloses | packages/react/src/prompt-button.tsx:82-89 | choosing a provider closes the menu, and the clipboard is used exactly when the prompt fails the deep-link gate |

## Left out

- Content.ExtractContent: the element is an immutable tree of text and element nodes with classes and attributes. Its text is the concatenation of the text nodes. `innerText` layout rules, such as line breaks for blocks and hidden elements, are not modelled. Selectors are limited to lists of class and attribute alternatives, which is all the default selector uses.
- Cloning is implicit: the tree is immutable, so the caller's element cannot change.
- Position.PositionPopover: geometry uses exact reals. JavaScript's double rounding is not modelled.
- Lone surrogates make `encodeURIComponent` throw. Every member that encodes, including `Providers.GetProviderUrl`, `Providers.CanUseDeepLink`, `Controller.ItemClick`, `Hook.OpenInProvider` and `Button.OpenIn`, requires a well-formed prompt instead of modelling the exception. Truncation at 12000 code units can split a surrogate pair and produce such a prompt.
- `window.open`, the clipboard, `requestAnimationFrame` focus, and the style, SVG and theme strings are not modelled. Opening a tab, copying and showing a toast are returned as effects. A clipboard failure, including the fallback in clipboard.ts, is not modelled; clipboard.ts is not part of this model.
- Asynchronous continuations, such as the code after `await copyToClipboard` and the `.then` of the copy-then-open path, are applied at once.
- Controller.CreatePopover: the click-outside listener, registered after a zero-delay timeout, counts as attached at once. So the case where cleanup runs before the timer fires and the listener is left behind is not modelled.
- Controller.AutoClose: the 500 ms timer after a copy is an explicit event that closes whatever menu is active. The source never cancels it, and `Controller.AutoCloseClosesNewerMenu` shows the consequence. The 2500 ms toast timer, by contrast, is cleared by the next `showToast`; `Controller.ToastTimeout` takes the timer's id and only the pending one hides the toast.
- Controller.AccessibleName: element nodes record attribute names, not values, so the trigger's `aria-label` value is computed from its caption. Line 417 and line 424 both take it from the same `label`.
- Controller.Unmark: it assumes the trigger is still the target's last child, because page changes made after `init` are not modelled.
- Nested targets are not modelled: a `data-prompt` element inside another target is treated as a separate target.
- The popover's provider items carry icon and name text. Only the copy-only example works out the extracted text, in `Controller.ReclickLeaksMenuText`.
- `getConfig` reads a global that can change at any time. The model fixes the configuration when the state is created.
- React rendering, memoisation, effects scheduling and context plumbing are not modelled. `provider.tsx` is a passthrough of its props into the context, and its `copyLabel` is never read by the button. The memoised `prompt` appears only where it matters, in `Button.HandleCopyAsWritten`.
- Button.ClickOutside: the React handler also needs both refs set. While the menu is open they always are, so that check is not modelled.
- Button.OpenIn: the `onOpen` callback that `handleOpenIn` calls with the provider id is not modelled; it is the caller's code and returns nothing the button uses.
- AtMostOnePopover: the page's own children inside a target are not inspected, so an element the page itself wrote with the popover attribute is not counted; the lemma speaks of the popover that ends a decorated target and the one in the body.
- `mergeProviders`, `createProvider` and a provider's `formatPrompt` are exported from packages/core/src/index.ts but not defined in providers.ts. They are not modelled.
- The tests expect three default providers and a deep-link threshold of 16000. The source has four and 1800, and the model follows the source.
- The tests expect a custom provider to replace a default of the same id in the shown list. The source shows the default, as `Menu.ShadowedCustomProvider` states.
- prompt-button.test.tsx tests features that prompt-button.tsx does not have. The model follows the component.
- The demo site and the build and test configuration are not modelled.

## Findings

| source | as written | input that shows it | evidently intended | confidence | as-written member | corrected member |
|---|---|---|---|---|---|---|
| packages/vanilla/src/promptthis.ts:427-455 | the trigger's click handler extracts the target's text (line 435) before `createPopover` closes the open popover (line 278), and on a wide screen that popover sits inside the target without matching the exclusion selector | a copy-only target containing "Hi", pressed twice: the second prompt contains "HiCopy prompt", as `Controller.ReclickLeaksMenuText` shows; `Controller.TriggerClickPrompt` proves the corrected order builds the prompt from the target's own content | the menu's own text never enters the prompt | high, not executed | Controller.TriggerClickAsWritten | Controller.TriggerClick |
| packages/react/src/prompt-button.tsx:70-80 | `onCopy` receives the memoised `prompt` of the hook (use-prompt.ts lines 33-36), computed when the ref was still empty and never recomputed, because the ref object does not change; the clipboard receives `getPrompt()` | a button whose content ref points at an element holding a short clean text such as "Hi", filled after the first render: the clipboard gets the prompt with the text, while `onCopy` gets the prompt without it, shorter by the text's length, as `Button.CopyReportsStalePrompt` shows | `onCopy` receives the text that was copied | medium, not executed | Button.HandleCopyAsWritten | Button.HandleCopy |
