/**
  `extractContent` of the core package.

  The element is an immutable tree.  Excluded descendants are pruned from a copy
  (so the caller's tree is never changed), the text of what is left is the
  concatenation of its text nodes, and that text goes through the same trim,
  collapse and truncate steps as prompt assembly, with the length limit as a
  parameter.  Selectors are the small class/attribute language the default
  exclusion uses; general CSS matching is not modelled.
 */
module Content {
  import opened Js
  import Prompt

  datatype Node =
    | Text(data: JsString)
    | Element(classes: set<JsString>, attributes: set<JsString>, children: seq<Node>)

  /** A selector list: `.name`, `[name]`, and comma-separated alternatives. */
  datatype Selector =
    | Class(name: JsString)
    | Attribute(name: JsString)
    | AnyOf(alternatives: seq<Selector>)

  datatype ExtractOptions = ExtractOptions(maxLength: Option<int>, excludeSelector: Option<Selector>)

  const DefaultMaxLength: int := 12000
  const TruncationMarker: JsString := Str("\n[Content truncated for length...]")
  const TriggerAttribute: JsString := Str("data-promptthis-trigger")

  /** `.promptthis-btn,[data-promptthis-trigger]`. */
  const DefaultExclude: Selector := AnyOf([Class(Str("promptthis-btn")), Attribute(TriggerAttribute)])

  const NoOptions: ExtractOptions := ExtractOptions(None, None)

  /** An element matches when its classes and attributes satisfy the selector; text never matches. */
  predicate Matches(sel: Selector, n: Node) {
    n.Element? && Selects(sel, n.classes, n.attributes)
  }

  predicate Selects(sel: Selector, classes: set<JsString>, attributes: set<JsString>)
    decreases sel
  {
    match sel
    case Class(c) => c in classes
    case Attribute(a) => a in attributes
    case AnyOf(alts) => exists i | 0 <= i < |alts| :: Selects(alts[i], classes, attributes)
  }

  /** `textContent`: the text nodes of the tree, in document order. */
  function TextOf(n: Node): JsString
    decreases n
  {
    match n
    case Text(d) => d
    case Element(_, _, cs) => TextOfAll(cs)
  }

  function TextOfAll(cs: seq<Node>): JsString
    decreases cs
  {
    if cs == [] then [] else TextOf(cs[0]) + TextOfAll(cs[1..])
  }

  /**
    The copy with every matching descendant removed.  `querySelectorAll` looks
    only below the element, so the element itself is never removed.
   */
  function Prune(sel: Selector, n: Node): (r: Node)
    ensures r.Element? == n.Element?
    ensures r.Element? ==> r.classes == n.classes && r.attributes == n.attributes
    decreases n
  {
    match n
    case Text(_) => n
    case Element(cl, at, cs) => Element(cl, at, PruneAll(sel, cs))
  }

  function PruneAll(sel: Selector, cs: seq<Node>): (r: seq<Node>)
    ensures |r| <= |cs|
    decreases cs
  {
    if cs == [] then []
    else if Matches(sel, cs[0]) then PruneAll(sel, cs[1..])
    else [Prune(sel, cs[0])] + PruneAll(sel, cs[1..])
  }

  /** No descendant matches the selector. */
  predicate Clean(sel: Selector, n: Node)
    decreases n
  {
    match n
    case Text(_) => true
    case Element(_, _, cs) => CleanAll(sel, cs)
  }

  predicate CleanAll(sel: Selector, cs: seq<Node>)
    decreases cs
  {
    cs == [] || (!Matches(sel, cs[0]) && Clean(sel, cs[0]) && CleanAll(sel, cs[1..]))
  }

  /** The trim, collapse and truncate steps, with the limit as a parameter. */
  function PostProcess(text: JsString, maxLength: int): (r: JsString)
  {
    var t := CollapseNewlines(Trim(text));
    if |t| > maxLength then Substring0(t, maxLength) + TruncationMarker else t
  }

  /** `extractContent(element, options)`; `hasDocument` is false outside a browser. */
  function ExtractContent(hasDocument: bool, element: Node, options: ExtractOptions): (r: JsString)
    ensures !hasDocument ==> r == []
  {
    if !hasDocument then []
    else
      var maxLength := Coalesce(options.maxLength, Some(DefaultMaxLength)).value;
      var exclude := Coalesce(options.excludeSelector, Some(DefaultExclude)).value;
      PostProcess(TextOf(Prune(exclude, element)), maxLength)
  }

  /** An element with no classes and no attributes matches no selector. */
  lemma {:induction false} NothingSelectsBareElement(sel: Selector)
    ensures !Selects(sel, {}, {})
    decreases sel
  {
    if sel.AnyOf? {
      forall i | 0 <= i < |sel.alternatives|
        ensures !Selects(sel.alternatives[i], {}, {})
      {
        NothingSelectsBareElement(sel.alternatives[i]);
      }
    }
  }

  // ---------------------------------------------------------------------------
  // Pruning
  // ---------------------------------------------------------------------------

  lemma {:induction false} TextOfAllAppend(a: seq<Node>, b: seq<Node>)
    ensures TextOfAll(a + b) == TextOfAll(a) + TextOfAll(b)
    decreases |a|
  {
    if a == [] {
      assert a + b == b;
    } else {
      assert (a + b)[1..] == a[1..] + b;
      TextOfAllAppend(a[1..], b);
    }
  }

  /** After pruning no descendant matches. */
  lemma {:induction false} PruneCleans(sel: Selector, n: Node)
    ensures Clean(sel, Prune(sel, n))
    decreases n
  {
    if n.Element? {
      PruneAllCleans(sel, n.children);
    }
  }

  lemma {:induction false} PruneAllCleans(sel: Selector, cs: seq<Node>)
    ensures CleanAll(sel, PruneAll(sel, cs))
    decreases cs
  {
    if cs != [] {
      PruneAllCleans(sel, cs[1..]);
      if !Matches(sel, cs[0]) {
        PruneCleans(sel, cs[0]);
        var r := PruneAll(sel, cs);
        assert r[0] == Prune(sel, cs[0]);
        assert r[1..] == PruneAll(sel, cs[1..]);
        assert Matches(sel, r[0]) == Matches(sel, cs[0]);
      }
    }
  }

  /** A tree with nothing to exclude is copied unchanged. */
  lemma {:induction false} PruneClean(sel: Selector, n: Node)
    requires Clean(sel, n)
    ensures Prune(sel, n) == n
    decreases n
  {
    if n.Element? {
      PruneAllClean(sel, n.children);
    }
  }

  lemma {:induction false} PruneAllClean(sel: Selector, cs: seq<Node>)
    requires CleanAll(sel, cs)
    ensures PruneAll(sel, cs) == cs
    decreases cs
  {
    if cs != [] {
      PruneClean(sel, cs[0]);
      PruneAllClean(sel, cs[1..]);
      assert [cs[0]] + cs[1..] == cs;
    }
  }

  /** Pruning twice is pruning once. */
  lemma PruneIdempotent(sel: Selector, n: Node)
    ensures Prune(sel, Prune(sel, n)) == Prune(sel, n)
  {
    PruneCleans(sel, n);
    PruneClean(sel, Prune(sel, n));
  }

  lemma {:induction false} PruneAllAppend(sel: Selector, a: seq<Node>, b: seq<Node>)
    ensures PruneAll(sel, a + b) == PruneAll(sel, a) + PruneAll(sel, b)
    decreases |a|
  {
    if a == [] {
      assert a + b == b;
    } else {
      assert (a + b)[1..] == a[1..] + b;
      PruneAllAppend(sel, a[1..], b);
    }
  }

  /**
    An excluded subtree contributes nothing: taking out an excluded child, text
    and all, does not change the pruned text of its parent.
   */
  lemma ExcludedChildContributesNothing(sel: Selector, cl: set<JsString>, at: set<JsString>,
                                        before: seq<Node>, excluded: Node, after: seq<Node>)
    requires Matches(sel, excluded)
    ensures TextOf(Prune(sel, Element(cl, at, before + [excluded] + after)))
         == TextOf(Prune(sel, Element(cl, at, before + after)))
  {
    PruneAllAppend(sel, before + [excluded], after);
    PruneAllAppend(sel, before, [excluded]);
    PruneAllAppend(sel, before, after);
    assert PruneAll(sel, [excluded]) == PruneAll(sel, []) == [];
    assert PruneAll(sel, before) + [] == PruneAll(sel, before);
    assert PruneAll(sel, before + [excluded] + after) == PruneAll(sel, before + after);
  }

  // ---------------------------------------------------------------------------
  // The extracted text
  // ---------------------------------------------------------------------------

  /** The default options: limit 12000 and the trigger-button exclusion. */
  lemma Defaults(hasDocument: bool, element: Node)
    ensures ExtractContent(hasDocument, element, NoOptions)
         == ExtractContent(hasDocument, element, ExtractOptions(Some(12000), Some(DefaultExclude)))
  {
  }

  /**
    With the default limit the post-processing is exactly prompt assembly's
    `cleanContent`: the two modules keep separate constants but agree.
   */
  lemma PostProcessIsCleanContent(text: JsString)
    ensures PostProcess(text, DefaultMaxLength) == Prompt.CleanContent(text)
  {
    assert TruncationMarker == Prompt.TruncationMarker;
  }

  /**
    Truncation: text within the limit is returned without a marker; longer text
    is cut to exactly `maxLength` code units followed by the marker.
   */
  lemma Truncation(text: JsString, maxLength: int)
    ensures var t := CollapseNewlines(Trim(text));
      var r := PostProcess(text, maxLength);
      && (|t| <= maxLength ==> r == t)
      && (|t| > maxLength >= 0 ==>
            |r| == maxLength + |TruncationMarker|
            && r[..maxLength] == t[..maxLength]
            && r[maxLength..] == TruncationMarker)
      && (maxLength < 0 ==> r == TruncationMarker)
  {
  }

  /**
    With a positive limit the result has no whitespace at either end and its
    text before any marker has no run of three line feeds.
   */
  lemma PostProcessShape(text: JsString, maxLength: int)
    requires maxLength > 0
    ensures Trimmed(PostProcess(text, maxLength))
    ensures var r := PostProcess(text, maxLength);
      NoTripleNewline(if |r| <= maxLength then r else r[..maxLength])
  {
    Prompt.NormalizeFacts(text);
    assert CollapseNewlines(Trim(text)) == Prompt.Normalize(text);
    TruncatedShape(Prompt.Normalize(text), maxLength);
  }

  /** The truncation step keeps a trimmed text free of triple line feeds trimmed, and free of them before the marker. */
  lemma TruncatedShape(t: JsString, maxLength: int)
    requires maxLength > 0 && Trimmed(t) && NoTripleNewline(t)
    ensures var r := if |t| > maxLength then Substring0(t, maxLength) + TruncationMarker else t;
      && Trimmed(r)
      && NoTripleNewline(if |r| <= maxLength then r else r[..maxLength])
  {
    if |t| > maxLength {
      var r := Substring0(t, maxLength) + TruncationMarker;
      assert TruncationMarker[|TruncationMarker| - 1] == ']' as int;
      Prompt.PrefixNoTriple(t, maxLength);
      assert r[..maxLength] == t[..maxLength];
      assert r[0] == t[0];
    }
  }

  /** A child that is kept adds its own pruned text after that of the children before it. */
  lemma AppendedKeptChild(sel: Selector, cl: set<JsString>, at: set<JsString>, children: seq<Node>, kept: Node)
    requires !Matches(sel, kept)
    ensures TextOf(Prune(sel, Element(cl, at, children + [kept])))
         == TextOf(Prune(sel, Element(cl, at, children))) + TextOf(Prune(sel, kept))
  {
    PruneAllAppend(sel, children, [kept]);
    assert PruneAll(sel, [kept]) == [Prune(sel, kept)] + PruneAll(sel, []);
    TextOfAllAppend(PruneAll(sel, children), [Prune(sel, kept)]);
    assert TextOfAll([Prune(sel, kept)]) == TextOf(Prune(sel, kept)) + TextOfAll([]);
    assert Prune(sel, Element(cl, at, children + [kept])).children == PruneAll(sel, children) + [Prune(sel, kept)];
  }

  /** Text that is already trimmed, free of line feeds and short enough passes through unchanged. */
  lemma PostProcessPlain(text: JsString, maxLength: int)
    requires Trimmed(text) && LF !in text && |text| <= maxLength
    ensures PostProcess(text, maxLength) == text
  {
    TrimTrimmed(text);
    assert NoTripleNewline(text);
    CollapseIdentity(text, 0);
  }

  /** With nothing to exclude below the element, its whole text is post-processed. */
  lemma ExtractClean(classes: set<JsString>, attributes: set<JsString>, children: seq<Node>)
    requires CleanAll(DefaultExclude, children)
    ensures ExtractContent(true, Element(classes, attributes, children), NoOptions)
         == PostProcess(TextOfAll(children), DefaultMaxLength)
  {
    PruneAllClean(DefaultExclude, children);
  }

  /** A bare element holding one text node extracts to that text, post-processed. */
  lemma ExtractSingleText(text: JsString)
    ensures ExtractContent(true, Element({}, {}, [Text(text)]), NoOptions) == PostProcess(text, DefaultMaxLength)
  {
    SingleTextOf(text);
    assert CleanAll(DefaultExclude, [Text(text)]) by {
      assert [Text(text)][1..] == [];
      assert !Matches(DefaultExclude, Text(text)) && Clean(DefaultExclude, Text(text));
    }
    ExtractClean({}, {}, [Text(text)]);
  }

  lemma SingleTextOf(text: JsString)
    ensures TextOfAll([Text(text)]) == text
  {
    assert TextOfAll([Text(text)]) == text + TextOfAll([]);
  }

  // ---------------------------------------------------------------------------
  // The trigger button the vanilla controller injects
  // ---------------------------------------------------------------------------

  /** The injected trigger: a button carrying the trigger attribute, with an icon and a caption. */
  function TriggerButton(caption: JsString): Node {
    Element({}, {TriggerAttribute, Str("type"), Str("aria-label")},
            [Element({}, {}, []), Element({}, {}, [Text(caption)])])
  }

  /**
    The trigger button appended to a target never leaks its caption into the
    extracted content under the default options.
   */
  lemma TriggerButtonExcluded(hasDocument: bool, cl: set<JsString>, at: set<JsString>,
                              children: seq<Node>, caption: JsString)
    ensures ExtractContent(hasDocument, Element(cl, at, children + [TriggerButton(caption)]), NoOptions)
         == ExtractContent(hasDocument, Element(cl, at, children), NoOptions)
  {
    var trigger := TriggerButton(caption);
    assert Matches(Attribute(TriggerAttribute), trigger);
    assert DefaultExclude.alternatives[1] == Attribute(TriggerAttribute);
    assert Matches(DefaultExclude, trigger);
    ExcludedChildContributesNothing(DefaultExclude, cl, at, children, trigger, []);
    assert children + [trigger] + [] == children + [trigger];
    assert children + [] == children;
  }

  /**
    The test page: a paragraph to keep, such as "Keep this", and a trigger
    button to drop, such as one reading "Remove me".  A kept text that is
    already clean comes out as it is.
   */
  lemma ExampleKeepThis(keepText: JsString, dropText: JsString)
    requires Trimmed(keepText) && LF !in keepText && |keepText| <= DefaultMaxLength
    ensures ExtractContent(true,
              Element({}, {}, [Element({}, {}, [Text(keepText)]),
                               Element({}, {TriggerAttribute}, [Text(dropText)])]),
              NoOptions)
         == keepText
  {
    var keep := Element({}, {}, [Text(keepText)]);
    var drop := Element({}, {TriggerAttribute}, [Text(dropText)]);
    assert DefaultExclude.alternatives[1] == Attribute(TriggerAttribute);
    assert Matches(DefaultExclude, drop);
    ExcludedChildContributesNothing(DefaultExclude, {}, {}, [keep], drop, []);
    assert [keep] + [drop] + [] == [keep, drop];
    assert [keep] + [] == [keep];
    KeptParagraph(keepText);
    PostProcessPlain(keepText, DefaultMaxLength);
  }

  /** A bare element around a bare element around one text node prunes to that text. */
  lemma KeptParagraph(text: JsString)
    ensures TextOf(Prune(DefaultExclude, Element({}, {}, [Element({}, {}, [Text(text)])]))) == text
  {
    var keep := Element({}, {}, [Text(text)]);
    NothingSelectsBareElement(DefaultExclude);
    assert CleanAll(DefaultExclude, [Text(text)]) by {
      assert [Text(text)][1..] == [];
    }
    assert CleanAll(DefaultExclude, [keep]) by {
      assert [keep][1..] == [];
    }
    PruneAllClean(DefaultExclude, [keep]);
    SingleTextOf(text);
    assert TextOfAll([keep]) == TextOf(keep) + TextOfAll([]);
  }
}
