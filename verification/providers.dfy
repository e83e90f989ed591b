/**
  The provider table, provider lookup and the deep-link length gate.

  A provider's `url` is a function of the prompt.  The four defaults build it as
  a fixed prefix followed by the percent-encoded prompt; a caller-supplied
  provider may use any total function.
 */
module Providers {
  import opened Js
  import Uri

  datatype UrlRule =
    | Prefixed(prefix: JsString)
    | Custom(build: JsString -> JsString)

  datatype Provider = Provider(id: JsString, name: JsString, icon: JsString, url: UrlRule)

  const Claude: Provider :=
    Provider(Str("claude"), Str("Claude"), Str("✦"), Prefixed(Str("https://claude.ai/new?q=")))
  const ChatGpt: Provider :=
    Provider(Str("chatgpt"), Str("ChatGPT"), Str("◆"), Prefixed(Str("https://chatgpt.com/?q=")))
  const Gemini: Provider :=
    Provider(Str("gemini"), Str("Gemini"), Str("▲"), Prefixed(Str("https://gemini.google.com/app?q=")))
  const Perplexity: Provider :=
    Provider(Str("perplexity"), Str("Perplexity"), Str("◈"), Prefixed(Str("https://www.perplexity.ai/search/?q=")))

  const DefaultProviders: seq<Provider> := [Claude, ChatGpt, Gemini, Perplexity]

  const DefaultMaxEncodedLength: int := 1800

  /** `provider.url(prompt)`; the prompt must be encodable. */
  function ProviderUrl(p: Provider, prompt: JsString): (r: JsString)
    requires Uri.WellFormed(prompt)
    ensures p.url.Prefixed? ==> |r| >= |p.url.prefix| && r[..|p.url.prefix|] == p.url.prefix
  {
    match p.url
    case Prefixed(prefix) => prefix + Uri.Encode(prompt)
    case Custom(build) => build(prompt)
  }

  predicate HasId(ps: seq<Provider>, id: JsString) {
    exists i | 0 <= i < |ps| :: ps[i].id == id
  }

  /** The position of the first provider carrying the id. */
  function FindIndex(ps: seq<Provider>, id: JsString): (r: Option<nat>)
    ensures r.Some? <==> HasId(ps, id)
    ensures r.Some? ==> r.value < |ps| && ps[r.value].id == id
                        && forall j | 0 <= j < r.value :: ps[j].id != id
  {
    if ps == [] then None
    else if ps[0].id == id then Some(0)
    else
      var r := FindIndex(ps[1..], id);
      assert HasId(ps, id) ==> HasId(ps[1..], id) by {
        if HasId(ps, id) {
          var i :| 0 <= i < |ps| && ps[i].id == id;
          assert ps[1..][i - 1].id == id;
        }
      }
      if r.Some? then Some(r.value + 1) else None
  }

  /** `Array.prototype.find` by id: the first provider carrying the id. */
  function Find(ps: seq<Provider>, id: JsString): (r: Option<Provider>)
    ensures r.Some? <==> HasId(ps, id)
    ensures r.Some? ==> exists i | 0 <= i < |ps| ::
              ps[i] == r.value && ps[i].id == id && forall j | 0 <= j < i :: ps[j].id != id
  {
    var k := FindIndex(ps, id);
    if k.Some? then Some(ps[k.value]) else None
  }

  /**
    `getProviderUrl(id, prompt, customs)`: the first custom provider with the
    id, else the default with it, else nothing (`null`).
   */
  function GetProviderUrl(id: JsString, prompt: JsString, customs: Option<seq<Provider>>): (r: Option<JsString>)
    requires Uri.WellFormed(prompt)
  {
    var custom := if customs.Some? then Find(customs.value, id) else None;
    var provider := if custom.Some? then custom else Find(DefaultProviders, id);
    if provider.Some? then Some(ProviderUrl(provider.value, prompt)) else None
  }

  /** `canUseDeepLink(prompt, maxEncodedLength = 1800)`. */
  function CanUseDeepLink(prompt: JsString, maxEncodedLength: Option<int>): (r: bool)
    requires Uri.WellFormed(prompt)
  {
    |Uri.Encode(prompt)| <= Coalesce(maxEncodedLength, Some(DefaultMaxEncodedLength)).value
  }

  // ---------------------------------------------------------------------------
  // The default table
  // ---------------------------------------------------------------------------

  /** Four defaults in a fixed order, distinct ids, each with a name and an icon. */
  lemma DefaultTable()
    ensures |DefaultProviders| == 4
    ensures DefaultProviders[0].id == Str("claude") && DefaultProviders[1].id == Str("chatgpt")
    ensures DefaultProviders[2].id == Str("gemini") && DefaultProviders[3].id == Str("perplexity")
    ensures forall i | 0 <= i < 4 :: DefaultProviders[i].name != [] && DefaultProviders[i].icon != []
    ensures forall i, j | 0 <= i < j < 4 :: DefaultProviders[i].id != DefaultProviders[j].id
    ensures forall i | 0 <= i < 4 :: DefaultProviders[i].url.Prefixed?
  {
    assert DefaultProviders[0].id[1] != DefaultProviders[1].id[1];
    assert DefaultProviders[0].id[0] != DefaultProviders[2].id[0];
    assert DefaultProviders[0].id[0] != DefaultProviders[3].id[0];
    assert DefaultProviders[1].id[0] != DefaultProviders[2].id[0];
    assert DefaultProviders[1].id[0] != DefaultProviders[3].id[0];
    assert DefaultProviders[2].id[0] != DefaultProviders[3].id[0];
  }

  /** Each default link is its own prefix followed by the encoded prompt. */
  lemma DefaultUrls(prompt: JsString)
    requires Uri.WellFormed(prompt)
    ensures GetProviderUrl(Str("claude"), prompt, None) == Some(Str("https://claude.ai/new?q=") + Uri.Encode(prompt))
    ensures GetProviderUrl(Str("chatgpt"), prompt, None) == Some(Str("https://chatgpt.com/?q=") + Uri.Encode(prompt))
    ensures GetProviderUrl(Str("gemini"), prompt, None) == Some(Str("https://gemini.google.com/app?q=") + Uri.Encode(prompt))
    ensures GetProviderUrl(Str("perplexity"), prompt, None)
         == Some(Str("https://www.perplexity.ai/search/?q=") + Uri.Encode(prompt))
  {
    DefaultTable();
    assert Find(DefaultProviders, Str("claude")) == Some(Claude);
    assert Find(DefaultProviders, Str("chatgpt")) == Some(ChatGpt);
    assert Find(DefaultProviders, Str("gemini")) == Some(Gemini);
    assert Find(DefaultProviders, Str("perplexity")) == Some(Perplexity);
  }

  // ---------------------------------------------------------------------------
  // Lookup
  // ---------------------------------------------------------------------------

  predicate CustomHasId(customs: Option<seq<Provider>>, id: JsString) {
    customs.Some? && HasId(customs.value, id)
  }

  /**
    Custom providers come first: the link of the first custom provider with the
    id, and only when none has it, the default's.
   */
  lemma LookupOrder(id: JsString, prompt: JsString, customs: Option<seq<Provider>>)
    requires Uri.WellFormed(prompt)
    ensures CustomHasId(customs, id) ==> exists i | 0 <= i < |customs.value| ::
              customs.value[i].id == id
              && (forall j | 0 <= j < i :: customs.value[j].id != id)
              && GetProviderUrl(id, prompt, customs) == Some(ProviderUrl(customs.value[i], prompt))
    ensures !CustomHasId(customs, id) && HasId(DefaultProviders, id) ==> exists i | 0 <= i < 4 ::
              DefaultProviders[i].id == id
              && GetProviderUrl(id, prompt, customs) == Some(ProviderUrl(DefaultProviders[i], prompt))
  {
    if CustomHasId(customs, id) {
      var k := FindIndex(customs.value, id).value;
      assert GetProviderUrl(id, prompt, customs) == Some(ProviderUrl(customs.value[k], prompt));
    } else if HasId(DefaultProviders, id) {
      var k := FindIndex(DefaultProviders, id).value;
      assert GetProviderUrl(id, prompt, customs) == Some(ProviderUrl(DefaultProviders[k], prompt));
    }
  }

  /** Lookup yields nothing exactly when neither the custom list nor the defaults have the id. */
  lemma LookupNone(id: JsString, prompt: JsString, customs: Option<seq<Provider>>)
    requires Uri.WellFormed(prompt)
    ensures GetProviderUrl(id, prompt, customs).None? <==> !CustomHasId(customs, id) && !HasId(DefaultProviders, id)
  {
  }

  /** A custom provider sharing a default's id replaces it in lookup. */
  lemma CustomOverridesDefault(prompt: JsString, build: JsString -> JsString)
    requires Uri.WellFormed(prompt)
    ensures var mine := Provider(Str("claude"), Str("My Claude"), Str("★"), Custom(build));
      GetProviderUrl(Str("claude"), prompt, Some([mine])) == Some(build(prompt))
  {
    var mine := Provider(Str("claude"), Str("My Claude"), Str("★"), Custom(build));
    assert Find([mine], Str("claude")) == Some(mine);
  }

  /** An unknown id with no custom providers has no link. */
  lemma UnknownHasNoUrl(prompt: JsString)
    requires Uri.WellFormed(prompt)
    ensures GetProviderUrl(Str("unknown"), prompt, None) == None
  {
    var unknown := Str("unknown");
    assert unknown[0] == 0x75;
    assert !HasId(DefaultProviders, unknown) by {
      forall i | 0 <= i < |DefaultProviders| ensures DefaultProviders[i].id != unknown {
        assert DefaultProviders[i].id[0] != 0x75;
      }
    }
  }

  // ---------------------------------------------------------------------------
  // The deep-link gate
  // ---------------------------------------------------------------------------

  /** The number of code units equal to `u`. */
  function Count(s: JsString, u: Unit): (n: nat)
    ensures n <= |s|
  {
    if s == [] then 0 else (if s[0] == u then 1 else 0) + Count(s[1..], u)
  }

  lemma {:induction false} SpacesAreEscaped(s: JsString)
    ensures Count(s, 0x20) <= Uri.Escaped(s)
  {
    if s != [] {
      SpacesAreEscaped(s[1..]);
    }
  }

  /**
    The gate passes only prompts that fit before encoding, and every space
    costs three units: the raw length plus twice the spaces must fit.
   */
  lemma DeepLinkCost(prompt: JsString, maxEncodedLength: int)
    requires Uri.WellFormed(prompt)
    ensures CanUseDeepLink(prompt, Some(maxEncodedLength)) ==> |prompt| + 2 * Count(prompt, 0x20) <= maxEncodedLength
    ensures CanUseDeepLink(prompt, Some(maxEncodedLength)) ==> |prompt| <= maxEncodedLength
    ensures 9 * |prompt| <= maxEncodedLength ==> CanUseDeepLink(prompt, Some(maxEncodedLength))
  {
    Uri.EncodeLength(prompt);
    SpacesAreEscaped(prompt);
  }

  /** For text made only of characters left unescaped the gate is a plain length test. */
  lemma DeepLinkUnreserved(prompt: JsString, maxEncodedLength: int)
    requires forall i | 0 <= i < |prompt| :: Uri.Unreserved(prompt[i])
    ensures Uri.WellFormed(prompt)
    ensures CanUseDeepLink(prompt, Some(maxEncodedLength)) <==> |prompt| <= maxEncodedLength
  {
    Uri.EncodeUnreserved(prompt);
  }

  /** Leaving the threshold out means 1800. */
  lemma DeepLinkDefault(prompt: JsString)
    requires Uri.WellFormed(prompt)
    ensures CanUseDeepLink(prompt, None) == CanUseDeepLink(prompt, Some(1800))
  {
  }

  /** Any well-formed piece of a prompt that passes the gate passes it too. */
  lemma DeepLinkMonotone(x: JsString, a: JsString, y: JsString, maxEncodedLength: Option<int>)
    requires Uri.WellFormed(x) && Uri.WellFormed(a) && Uri.WellFormed(y)
    ensures Uri.WellFormed(x + a + y)
    ensures CanUseDeepLink(x + a + y, maxEncodedLength) ==> CanUseDeepLink(a, maxEncodedLength)
  {
    Uri.EncodeInfix(x, a, y);
  }

  /** Short text passes. */
  lemma ShortPromptPasses()
    ensures Uri.WellFormed(Str("Hello world")) && CanUseDeepLink(Str("Hello world"), None)
  {
    var hello := Str("Hello world");
    BmpWellFormed(hello);
    DeepLinkCost(hello, 1800);
  }

  /** 20000 letters do not pass: the raw length alone exceeds the threshold. */
  lemma LongPromptFails()
    ensures var long := seq(20000, _ => 0x41 as Unit);
      Uri.WellFormed(long) && !CanUseDeepLink(long, None)
  {
    var long := seq(20000, _ => 0x41 as Unit);
    BmpWellFormed(long);
    DeepLinkCost(long, 1800);
  }

  /** 6000 spaces do not pass: each costs three units once encoded. */
  lemma SpaceyPromptFails()
    ensures var spacey := seq(6000, _ => 0x20 as Unit);
      Uri.WellFormed(spacey) && !CanUseDeepLink(spacey, None)
  {
    var spacey := seq(6000, _ => 0x20 as Unit);
    BmpWellFormed(spacey);
    DeepLinkCost(spacey, 1800);
  }

  lemma {:induction false} BmpWellFormed(s: JsString)
    requires forall i | 0 <= i < |s| :: s[i] < 0xD800
    ensures Uri.WellFormed(s)
  {
    if s != [] {
      BmpWellFormed(s[1..]);
    }
  }
}
