/**
  `usePrompt`, the React hook: the prompt assembled from a string or from the
  element a ref points to, the providers to list, and the deep-link-or-copy
  choice, all with the options the caller passes.

  Every result is a function of the options, with the ref's element as it is
  when the result is computed; when React computes it is the button's concern.
 */
module Hook {
  import opened Js
  import Uri
  import Content
  import Prompt
  import opened Providers
  import opened Menu

  /** The `content` option: literal text, or a ref whose `current` element may be missing. */
  datatype ContentSource = Literal(text: JsString) | Ref(current: Option<Content.Node>)

  datatype PromptOptions = PromptOptions(
    content: ContentSource,
    role: Option<JsString>,
    context: Option<JsString>,
    instruction: Option<JsString>,
    openIn: Option<seq<JsString>>,
    customProviders: Option<seq<Provider>>)

  /**
    `resolveContent`: text is taken as it is; an element is extracted with the
    default options, so its text arrives already trimmed; a ref with no
    element gives the empty string.
   */
  function ResolveContent(content: ContentSource): (r: JsString)
    ensures content.Literal? ==> r == content.text
    ensures content.Ref? ==> Trimmed(r)
    ensures content.Ref? && content.current.None? ==> r == []
  {
    match content
    case Literal(text) => text
    case Ref(current) =>
      if current.None? then []
      else
        var node := current.value;
        var pruned := Content.TextOf(Content.Prune(Content.DefaultExclude, node));
        Content.PostProcessShape(pruned, Content.DefaultMaxLength);
        Content.ExtractContent(true, node, Content.NoOptions)
  }

  /** The hook's `prompt`, and what `getPrompt` returns: the assembled prompt for the resolved content. */
  function PromptOf(options: PromptOptions): JsString {
    Prompt.BuildPrompt(Prompt.PromptConfig(ResolveContent(options.content), options.role, options.context, options.instruction))
  }

  /**
    An element and its own text give the same prompt: extraction cleans the
    text once and assembly cleans it again, and cleaning is idempotent.
   */
  lemma RefAgreesWithText(options: PromptOptions, node: Content.Node)
    ensures PromptOf(options.(content := Ref(Some(node))))
         == PromptOf(options.(content := Literal(Content.TextOf(Content.Prune(Content.DefaultExclude, node)))))
  {
    var text := Content.TextOf(Content.Prune(Content.DefaultExclude, node));
    Content.PostProcessIsCleanContent(text);
    Prompt.CleanContentIdempotent(text);
    var resolved := ResolveContent(Ref(Some(node)));
    assert resolved == Prompt.CleanContent(text) by {
      Content.Defaults(true, node);
    }
    var config := Prompt.PromptConfig(text, options.role, options.context, options.instruction);
    Prompt.SameCleanSamePrompt(config, resolved);
  }

  /** A ref with no element gives the prompt for empty content. */
  lemma EmptyRefIsEmptyText(options: PromptOptions)
    ensures PromptOf(options.(content := Ref(None))) == PromptOf(options.(content := Literal([])))
  {
  }

  /**
    The hook's `providers`: without `openIn`, the defaults followed by the
    custom providers; with it, the first provider for each listed id, in list
    order, ids nobody carries dropped.
   */
  function ProvidersOf(options: PromptOptions): (r: seq<Provider>)
    ensures options.openIn.None? ==> r == AllProviders(options.customProviders)
    ensures options.openIn.Some? ==>
              Ids(r) == Known(options.openIn.value, AllProviders(options.customProviders))
              && forall k | 0 <= k < |r| :: Find(AllProviders(options.customProviders), r[k].id) == Some(r[k])
  {
    var all := AllProviders(options.customProviders);
    if options.openIn.Some? then
      PickSpec(options.openIn.value, all);
      ShownProviders(options.openIn, options.customProviders)
    else ShownProviders(options.openIn, options.customProviders)
  }

  /**
    `openIn(providerId)`: deep link when the encoded prompt fits, otherwise copy
    and open the provider's page with an empty prompt.  The custom list is
    consulted first; an unknown id opens nothing.
   */
  function OpenInProvider(options: PromptOptions, id: JsString): (r: seq<Effect>)
    requires Uri.WellFormed(PromptOf(options))
    ensures var prompt := PromptOf(options);
      && (Copies(r) <==> !CanUseDeepLink(prompt, None))
      && (!CanUseDeepLink(prompt, None) ==> r[0] == CopyText(prompt))
      && (forall k | 0 <= k < |r| :: !r[k].ShowToast?)
      && (forall k | 0 <= k < |r| :: r[k].OpenTab? ==> r[k].url != [])
      && (forall k | 0 <= k < |r| :: r[k].OpenTab? ==>
            Some(r[k].url) == GetProviderUrl(id, LinkedPrompt(prompt), options.customProviders))
      && (Truthy(GetProviderUrl(id, LinkedPrompt(prompt), options.customProviders))
          <==> exists k | 0 <= k < |r| :: r[k].OpenTab?)
      && |r| == (if CanUseDeepLink(prompt, None) then 0 else 1)
                + (if Truthy(GetProviderUrl(id, LinkedPrompt(prompt), options.customProviders)) then 1 else 0)
  {
    DeepLinkOrCopy(PromptOf(options), id, options.customProviders)
  }

  /**
    The hook and the vanilla menu item agree on everything but the toast: for
    the same prompt and custom list the effects differ only by the vanilla
    toast after a copy.
   */
  lemma SameDispatchAsVanilla(options: PromptOptions, id: JsString)
    requires Uri.WellFormed(PromptOf(options))
    ensures var prompt := PromptOf(options);
      ItemEffects(prompt, id, options.customProviders)
      == OpenInProvider(options, id) + (if CanUseDeepLink(prompt, None) then [] else [ShowToast(ToastMessage)])
  {
    ReactDropsOnlyTheToast(PromptOf(options), id, options.customProviders);
  }

  /**
    The hook lists the same providers the vanilla controller shows for a target
    with no `data-prompt-open-in`, given the same configured list and custom
    providers.
   */
  lemma SameProvidersAsVanilla(options: PromptOptions)
    ensures ProvidersOf(options) == ShownProviders(ParseOpenIn(None, options.openIn), options.customProviders)
  {
  }
}
