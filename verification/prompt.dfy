/**
  Prompt assembly of the core package: `cleanContent` and `buildPrompt`.

  The content is trimmed, every run of three or more line feeds becomes two, and
  text longer than 12000 code units is cut to its first 12000 followed by a fixed
  marker.  The prompt is the role, the context, a fenced content block and the
  instruction, joined by blank lines, with absent or empty role and context
  left out and an absent or empty instruction replaced by a default.
 */
module Prompt {
  import opened Js

  const MaxContentLength: int := 12000
  const DefaultInstruction: JsString := Str("Help me with the above content.")
  const TruncationMarker: JsString := Str("\n[Content truncated for length...]")
  const Separator: JsString := Str("\n\n")
  const BlockOpen: JsString := Str("---\nHere is the content:\n\n")
  const BlockClose: JsString := Str("\n\n---")

  datatype PromptConfig = PromptConfig(
    content: JsString,
    role: Option<JsString>,
    context: Option<JsString>,
    instruction: Option<JsString>)

  /** Trim, then collapse runs of line feeds: the text before any truncation. */
  function Normalize(raw: JsString): JsString {
    CollapseNewlines(Trim(raw))
  }

  /** `cleanContent`. */
  function CleanContent(raw: JsString): (r: JsString)
    ensures |Normalize(raw)| <= MaxContentLength ==> r == Normalize(raw)
    ensures |Normalize(raw)| > MaxContentLength ==>
              r == Normalize(raw)[..MaxContentLength] + TruncationMarker
    ensures |r| <= MaxContentLength + |TruncationMarker|
  {
    var text := Normalize(raw);
    if |text| > MaxContentLength then Substring0(text, MaxContentLength) + TruncationMarker
    else text
  }

  /** The fenced block that carries the cleaned content. */
  function ContentBlock(content: JsString): JsString {
    BlockOpen + content + BlockClose
  }

  /** `config.instruction || DEFAULT_INSTRUCTION`. */
  function Instruction(instruction: Option<JsString>): (r: JsString)
    ensures Truthy(instruction) ==> r == instruction.value
    ensures !Truthy(instruction) ==> r == DefaultInstruction
  {
    Or(instruction, Some(DefaultInstruction)).value
  }

  /** The parts pushed by `buildPrompt`, in order. */
  function Parts(config: PromptConfig): seq<JsString> {
    (if Truthy(config.role) then [config.role.value] else [])
    + (if Truthy(config.context) then [config.context.value] else [])
    + [ContentBlock(CleanContent(config.content)), Instruction(config.instruction)]
  }

  /** `buildPrompt`. */
  function BuildPrompt(config: PromptConfig): JsString {
    Join(Parts(config), Separator)
  }

  // ---------------------------------------------------------------------------
  // The cleaned content
  // ---------------------------------------------------------------------------

  lemma MarkerFacts()
    ensures |TruncationMarker| == 34
    ensures TruncationMarker[0] == LF
    ensures TruncationMarker[|TruncationMarker| - 1] == ']' as int
    ensures !IsWhitespace(TruncationMarker[|TruncationMarker| - 1])
  {
  }

  /** The text before truncation is trimmed and holds no run of three line feeds. */
  lemma NormalizeFacts(raw: JsString)
    ensures Trimmed(Normalize(raw))
    ensures NoTripleNewline(Normalize(raw))
    ensures WithoutNewlines(Normalize(raw)) == WithoutNewlines(Trim(raw))
  {
    CollapseTrimmed(Trim(raw));
    CollapseNoTriple(Trim(raw), 0);
    CollapseKeepsText(Trim(raw), 0);
  }

  lemma PrefixNoTriple(s: JsString, n: nat)
    requires NoTripleNewline(s) && n <= |s|
    ensures NoTripleNewline(s[..n])
  {
  }

  /**
    The cleaned content has no whitespace at either end, even when truncated
    (the marker ends in `]`), and the text in front of any marker holds no run
    of three line feeds.  Only line feeds and edge whitespace are removed.
   */
  lemma CleanContentFacts(raw: JsString)
    ensures Trimmed(CleanContent(raw))
    ensures |CleanContent(raw)| <= MaxContentLength ==> NoTripleNewline(CleanContent(raw))
    ensures |CleanContent(raw)| > MaxContentLength ==>
              NoTripleNewline(CleanContent(raw)[..MaxContentLength])
              && CleanContent(raw)[MaxContentLength..] == TruncationMarker
    ensures |CleanContent(raw)| <= MaxContentLength ==>
              WithoutNewlines(CleanContent(raw)) == WithoutNewlines(Trim(raw))
  {
    NormalizeFacts(raw);
    MarkerFacts();
    var text := Normalize(raw);
    var r := CleanContent(raw);
    if |text| > MaxContentLength {
      PrefixNoTriple(text, MaxContentLength);
      assert r[..MaxContentLength] == text[..MaxContentLength];
      assert r[0] == text[0];
    }
  }

  /** Appending after a triple-free prefix leaves the prefix untouched by the collapse. */
  lemma CollapseAfterClean(a: JsString, b: JsString)
    requires NoTripleNewline(a)
    ensures CollapseNewlines(a + b) == a + CollapseFrom(b, RunAfter(a, 0))
  {
    CollapseAppend(a, b, 0);
    CollapseIdentity(a, 0);
  }

  /**
    Cleaning is idempotent, also for truncated text.  The content reaches
    `buildPrompt` already cleaned by `extractContent` in both integrations, so
    this is why the content block holds the extracted text unchanged.
   */
  lemma CleanContentIdempotent(raw: JsString)
    ensures CleanContent(CleanContent(raw)) == CleanContent(raw)
  {
    var r := CleanContent(raw);
    CleanContentFacts(raw);
    NormalizeFacts(raw);
    TrimTrimmed(r);
    if |r| <= MaxContentLength {
      CollapseIdentity(r, 0);
    } else {
      var a := r[..MaxContentLength];
      assert r == a + TruncationMarker;
      MarkerFacts();
      CollapseAfterClean(a, TruncationMarker);
      CollapseKeepsLast(TruncationMarker, RunAfter(a, 0));
      assert Normalize(r) == a + CollapseFrom(TruncationMarker, RunAfter(a, 0));
      assert Normalize(r)[..MaxContentLength] == a;
    }
  }

  // ---------------------------------------------------------------------------
  // The assembled prompt
  // ---------------------------------------------------------------------------

  /** The role and context segments, each followed by a separator. */
  function Head(config: PromptConfig): JsString {
    (if Truthy(config.role) then config.role.value + Separator else [])
    + (if Truthy(config.context) then config.context.value + Separator else [])
  }

  /** Each part followed by the separator. */
  function Terminated(parts: seq<JsString>, sep: JsString): JsString
    decreases |parts|
  {
    if parts == [] then [] else parts[0] + sep + Terminated(parts[1..], sep)
  }

  /** Joining after leading parts: each leading part is followed by one separator. */
  lemma {:induction false} JoinAfter(head: seq<JsString>, tail: seq<JsString>, sep: JsString)
    requires |tail| >= 1
    ensures Join(head + tail, sep) == Terminated(head, sep) + Join(tail, sep)
    decreases |head|
  {
    if head == [] {
      assert head + tail == tail;
    } else {
      assert (head + tail)[1..] == head[1..] + tail;
      JoinAfter(head[1..], tail, sep);
    }
  }

  function HeadParts(config: PromptConfig): seq<JsString> {
    (if Truthy(config.role) then [config.role.value] else [])
    + (if Truthy(config.context) then [config.context.value] else [])
  }

  lemma HeadTerminated(config: PromptConfig)
    ensures Head(config) == Terminated(HeadParts(config), Separator)
  {
    var h := HeadParts(config);
    if Truthy(config.role) && Truthy(config.context) {
      assert h[1..] == [config.context.value];
      assert Terminated(h[1..][1..], Separator) == [];
    } else if Truthy(config.role) || Truthy(config.context) {
      assert |h| == 1;
      assert Terminated(h[1..], Separator) == [];
    }
  }

  /**
    The layout of the prompt: optional role and context, each followed by a
    blank line, then the content block, a blank line and the instruction.
   */
  lemma BuildPromptLayout(config: PromptConfig)
    ensures BuildPrompt(config)
         == Head(config) + ContentBlock(CleanContent(config.content)) + Separator + Instruction(config.instruction)
  {
    var block := ContentBlock(CleanContent(config.content));
    var instr := Instruction(config.instruction);
    assert Parts(config) == HeadParts(config) + [block, instr];
    JoinLast(HeadParts(config), block, instr, Separator);
    HeadTerminated(config);
  }

  /** Joining leading parts and a final pair: one separator after each part but the last. */
  lemma JoinLast(head: seq<JsString>, block: JsString, instr: JsString, sep: JsString)
    ensures Join(head + [block, instr], sep) == Terminated(head, sep) + block + sep + instr
  {
    JoinAfter(head, [block, instr], sep);
    assert Join([block, instr], sep) == block + sep + instr by {
      assert [block, instr][1..] == [instr];
    }
  }

  /** Prompts that differ only in their content differ in length exactly as their cleaned contents do. */
  lemma ContentLength(config: PromptConfig, other: JsString)
    ensures |BuildPrompt(config.(content := other))| + |CleanContent(config.content)|
         == |BuildPrompt(config)| + |CleanContent(other)|
  {
    BuildPromptLayout(config);
    BuildPromptLayout(config.(content := other));
    assert Head(config) == Head(config.(content := other));
  }

  /** Contents that clean to the same text give the same prompt. */
  lemma SameCleanSamePrompt(config: PromptConfig, other: JsString)
    requires CleanContent(other) == CleanContent(config.content)
    ensures BuildPrompt(config.(content := other)) == BuildPrompt(config)
  {
    assert Parts(config.(content := other)) == Parts(config);
  }

  /** A non-empty role opens the prompt. */
  lemma StartsWithRole(config: PromptConfig)
    requires Truthy(config.role)
    ensures config.role.value <= BuildPrompt(config)
  {
    BuildPromptLayout(config);
  }

  /** The prompt ends with the instruction, or with the default one when it is absent or empty. */
  lemma EndsWithInstruction(config: PromptConfig)
    ensures var r := BuildPrompt(config);
      |r| >= |Instruction(config.instruction)|
      && r[|r| - |Instruction(config.instruction)|..] == Instruction(config.instruction)
    ensures Truthy(config.instruction) ==> Instruction(config.instruction) == config.instruction.value
    ensures !Truthy(config.instruction) ==> Instruction(config.instruction) == DefaultInstruction
  {
    BuildPromptLayout(config);
    Framed(BuildPrompt(config), Head(config), ContentBlock(CleanContent(config.content)), Separator, Instruction(config.instruction));
  }

  /** The fenced block with the cleaned content appears contiguously, right after the head. */
  lemma ContainsContentBlock(config: PromptConfig)
    ensures var r := BuildPrompt(config);
      var block := BlockOpen + CleanContent(config.content) + BlockClose;
      |Head(config)| + |block| <= |r|
      && r[|Head(config)|..|Head(config)| + |block|] == block
  {
    BuildPromptLayout(config);
    Framed(BuildPrompt(config), Head(config), ContentBlock(CleanContent(config.content)), Separator, Instruction(config.instruction));
  }

  /** Where the head, the block and the instruction sit in a laid-out prompt. */
  lemma Framed(r: JsString, head: JsString, block: JsString, sep: JsString, instr: JsString)
    requires r == head + block + sep + instr
    ensures |head| + |block| + |sep| + |instr| == |r|
    ensures r[..|head|] == head
    ensures r[|head|..|head| + |block|] == block
    ensures r[|r| - |instr|..] == instr
  {
  }

  /** An empty role or context leaves no trace: the prompt is the one built without it. */
  lemma EmptyPartsAreAbsent(config: PromptConfig)
    ensures config.role == Some([]) ==> BuildPrompt(config) == BuildPrompt(config.(role := None))
    ensures config.context == Some([]) ==> BuildPrompt(config) == BuildPrompt(config.(context := None))
    ensures config.instruction == Some([]) ==> BuildPrompt(config) == BuildPrompt(config.(instruction := None))
  {
  }

  /**
    The segments come in the order role, context, content block, instruction:
    each is found at its offset and the offsets strictly increase.
   */
  lemma SegmentOrder(config: PromptConfig)
    requires Truthy(config.role) && Truthy(config.context)
    ensures var r := BuildPrompt(config);
      var role := config.role.value;
      var context := config.context.value;
      var block := ContentBlock(CleanContent(config.content));
      var instr := Instruction(config.instruction);
      var c := |role| + |Separator|;
      var b := c + |context| + |Separator|;
      var i := b + |block| + |Separator|;
      && 0 < c < b < i
      && i + |instr| == |r|
      && r[..|role|] == role
      && r[c..c + |context|] == context
      && r[b..b + |block|] == block
      && r[i..] == instr
  {
    BuildPromptLayout(config);
    Segments(BuildPrompt(config), config.role.value, config.context.value,
             ContentBlock(CleanContent(config.content)), Instruction(config.instruction), Separator);
  }

  /** Where each piece of a four-segment prompt sits. */
  lemma Segments(r: JsString, role: JsString, context: JsString, block: JsString, instr: JsString, sep: JsString)
    requires r == (role + sep) + (context + sep) + block + sep + instr
    ensures var c := |role| + |sep|;
      var b := c + |context| + |sep|;
      var i := b + |block| + |sep|;
      && i + |instr| == |r|
      && r[..|role|] == role
      && r[c..c + |context|] == context
      && r[b..b + |block|] == block
      && r[i..] == instr
  {
  }

  // ---------------------------------------------------------------------------
  // Blank lines in the prompt
  // ---------------------------------------------------------------------------

  /** A run of three line feeds in a concatenation lies in one half, or both halves touch with line feeds. */
  lemma NoTripleAppend(a: JsString, b: JsString)
    requires NoTripleNewline(a) && NoTripleNewline(b)
    requires a == [] || b == [] || a[|a| - 1] != LF || b[0] != LF
    ensures NoTripleNewline(a + b)
  {
    var s := a + b;
    forall i | 0 <= i < |s| - 2
      ensures !(s[i] == LF && s[i + 1] == LF && s[i + 2] == LF)
    {
      if i + 2 < |a| {
        assert s[i] == a[i] && s[i + 1] == a[i + 1] && s[i + 2] == a[i + 2];
      } else if i >= |a| {
        assert s[i] == b[i - |a|] && s[i + 1] == b[i - |a| + 1] && s[i + 2] == b[i - |a| + 2];
      }
    }
  }

  lemma BlockOpenFacts()
    ensures NoTripleNewline(BlockOpen)
    ensures |BlockOpen| == 26 && BlockOpen[25] == LF && BlockOpen[24] == LF
  {
  }

  lemma BlockCloseFacts()
    ensures NoTripleNewline(BlockClose)
    ensures |BlockClose| == 5 && BlockClose[0] == LF && BlockClose[1] == LF
  {
  }

  /**
    When the cleaned content is non-empty and not truncated, the content block
    holds no run of three line feeds; an empty content leaves four in a row.
   */
  lemma ContentBlockBlankLines(raw: JsString)
    ensures var c := CleanContent(raw);
      c != [] && |c| <= MaxContentLength ==> NoTripleNewline(ContentBlock(c))
    ensures CleanContent(raw) == [] ==> !NoTripleNewline(ContentBlock(CleanContent(raw)))
  {
    var c := CleanContent(raw);
    CleanContentFacts(raw);
    if c != [] && |c| <= MaxContentLength {
      FencedClean(c);
    }
    if c == [] {
      FencedEmpty();
    }
  }

  /** Fencing a non-empty trimmed text free of triple line feeds creates none. */
  lemma FencedClean(c: JsString)
    requires c != [] && Trimmed(c) && NoTripleNewline(c)
    ensures NoTripleNewline(ContentBlock(c))
  {
    BlockOpenFacts();
    BlockCloseFacts();
    NoTripleAppend(BlockOpen, c);
    NoTripleAppend(BlockOpen + c, BlockClose);
  }

  /** The fence around nothing holds four line feeds in a row. */
  lemma FencedEmpty()
    ensures !NoTripleNewline(ContentBlock([]))
  {
    BlockOpenFacts();
    BlockCloseFacts();
    var b := ContentBlock([]);
    assert b == BlockOpen + BlockClose;
    assert b[25] == LF && b[26] == LF && b[27] == LF;
  }
}
