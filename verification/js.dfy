/**
  The slice of JavaScript value semantics the widget relies on.

  A JavaScript string is a sequence of UTF-16 code units: `length`, `substring`
  and indexing all count code units, so a `JsString` here is a `seq<Unit>`.
  Optional values (`undefined`/`null` versus a value) are `Option`s, and the
  `||` and `??` operators on optional strings are written out because they
  differ exactly on the empty string.
 */
module Js {

  /** One UTF-16 code unit. */
  type Unit = x: int | 0 <= x < 0x1_0000

  type JsString = seq<Unit>

  datatype Option<+T> = None | Some(value: T)

  const LF: Unit := 0x0A

  /** True of a Dafny string whose characters all fit in one code unit. */
  predicate Bmp(s: string) {
    forall i | 0 <= i < |s| :: s[i] as int < 0x1_0000
  }

  /** A string literal of the source, as code units (every literal there is in the BMP). */
  function Str(s: string): (r: JsString)
    requires Bmp(s)
    ensures |r| == |s|
    ensures forall i | 0 <= i < |s| :: r[i] == s[i] as int
  {
    seq(|s|, i requires 0 <= i < |s| => s[i] as int)
  }

  /** `n` line feeds. */
  function Newlines(n: nat): (r: JsString)
    ensures |r| == n
    ensures forall i | 0 <= i < n :: r[i] == LF
  {
    seq(n, i => LF)
  }

  // ---------------------------------------------------------------------------
  // Truthiness, `||` and `??`
  // ---------------------------------------------------------------------------

  /** An optional string is truthy when present and non-empty. */
  predicate Truthy(a: Option<JsString>) {
    a.Some? && |a.value| > 0
  }

  /** `a || b`: the left operand when it is truthy, otherwise the right one. */
  function Or(a: Option<JsString>, b: Option<JsString>): (r: Option<JsString>)
    ensures Truthy(a) ==> r == a
    ensures !Truthy(a) ==> r == b
  {
    if Truthy(a) then a else b
  }

  /** `a ?? b`: only a missing left operand falls back; an empty string does not. */
  function Coalesce<T>(a: Option<T>, b: Option<T>): (r: Option<T>)
    ensures a.Some? ==> r == a
    ensures a.None? ==> r == b
  {
    if a.Some? then a else b
  }

  // ---------------------------------------------------------------------------
  // `substring(0, n)`
  // ---------------------------------------------------------------------------

  /** `s.substring(0, n)`: `n` is clamped into `[0, |s|]`. */
  function Substring0(s: JsString, n: int): (r: JsString)
    ensures n <= 0 ==> r == []
    ensures 0 <= n <= |s| ==> |r| == n
    ensures n >= |s| ==> r == s
    ensures r <= s
  {
    if n <= 0 then [] else if n >= |s| then s else s[..n]
  }

  lemma Associative(x: JsString, y: JsString, z: JsString)
    ensures x + (y + z) == (x + y) + z
  {
  }

  /** Dropping a prefix of the left operand of a concatenation. */
  lemma DropAppend(a: JsString, b: JsString, n: nat)
    requires n <= |a|
    ensures (a + b)[n..] == a[n..] + b
  {
  }

  // ---------------------------------------------------------------------------
  // `trim`
  // ---------------------------------------------------------------------------

  /** The WhiteSpace and LineTerminator code units of ECMAScript: what `trim` removes. */
  predicate IsWhitespace(u: Unit) {
    || u == 0x09 || u == 0x0A || u == 0x0B || u == 0x0C || u == 0x0D
    || u == 0x20 || u == 0xA0 || u == 0x1680
    || (0x2000 <= u <= 0x200A)
    || u == 0x2028 || u == 0x2029 || u == 0x202F || u == 0x205F
    || u == 0x3000 || u == 0xFEFF
  }

  predicate AllWhitespace(s: JsString) {
    forall i | 0 <= i < |s| :: IsWhitespace(s[i])
  }

  /** Neither end of `s` is whitespace. */
  predicate Trimmed(s: JsString) {
    s == [] || (!IsWhitespace(s[0]) && !IsWhitespace(s[|s| - 1]))
  }

  /** Length of the longest all-whitespace prefix. */
  function LeadingWhitespace(s: JsString): (n: nat)
    ensures n <= |s|
    ensures AllWhitespace(s[..n])
    ensures n == |s| || !IsWhitespace(s[n])
  {
    if |s| == 0 || !IsWhitespace(s[0]) then 0
    else
      var k := LeadingWhitespace(s[1..]);
      assert s[1..][..k] == s[1..k + 1];
      k + 1
  }

  /** Length of the longest all-whitespace suffix. */
  function TrailingWhitespace(s: JsString): (n: nat)
    ensures n <= |s|
    ensures AllWhitespace(s[|s| - n..])
    ensures n == |s| || !IsWhitespace(s[|s| - n - 1])
  {
    if |s| == 0 || !IsWhitespace(s[|s| - 1]) then 0
    else
      var k := TrailingWhitespace(s[..|s| - 1]);
      assert s[..|s| - 1][|s| - 1 - k..] + [s[|s| - 1]] == s[|s| - 1 - k..];
      k + 1
  }

  /** `s.trim()`: the slice left after removing whitespace from both ends. */
  function Trim(s: JsString): (r: JsString)
    ensures Trimmed(r)
    ensures LeadingWhitespace(s) + |r| <= |s|
    ensures r == s[LeadingWhitespace(s)..LeadingWhitespace(s) + |r|]
    ensures AllWhitespace(s[..LeadingWhitespace(s)])
    ensures AllWhitespace(s[LeadingWhitespace(s) + |r|..])
  {
    var i := LeadingWhitespace(s);
    var t := s[i..];
    var j := TrailingWhitespace(t);
    TrimShape(s, i, t, j);
    t[..|t| - j]
  }

  /** The slice between a whitespace prefix of length `i` and a whitespace suffix of length `j` is trimmed. */
  lemma TrimShape(s: JsString, i: nat, t: JsString, j: nat)
    requires i <= |s| && t == s[i..] && j <= |t|
    requires i == |s| || !IsWhitespace(s[i])
    requires AllWhitespace(t[|t| - j..])
    requires j == |t| || !IsWhitespace(t[|t| - j - 1])
    ensures var r := t[..|t| - j];
      && Trimmed(r) && i + |r| <= |s| && r == s[i..i + |r|]
      && s[i + |r|..] == t[|t| - j..]
  {
    var r := t[..|t| - j];
    assert r == [] || r[0] == s[i];
  }

  /** Trimming a trimmed string changes nothing, so `trim` is idempotent. */
  lemma TrimTrimmed(s: JsString)
    requires Trimmed(s)
    ensures Trim(s) == s
  {
    if s != [] {
      assert LeadingWhitespace(s) == 0;
    }
  }

  lemma {:induction false} LeadingWhitespacePadded(a: JsString, s: JsString)
    requires AllWhitespace(a)
    requires s != [] && !IsWhitespace(s[0])
    ensures LeadingWhitespace(a + s) == |a|
    decreases |a|
  {
    if a != [] {
      assert (a + s)[1..] == a[1..] + s;
      LeadingWhitespacePadded(a[1..], s);
    }
  }

  lemma {:induction false} TrailingWhitespacePadded(s: JsString, b: JsString)
    requires AllWhitespace(b)
    requires s != [] && !IsWhitespace(s[|s| - 1])
    ensures TrailingWhitespace(s + b) == |b|
    decreases |b|
  {
    if b != [] {
      assert (s + b)[..|s + b| - 1] == s + b[..|b| - 1];
      TrailingWhitespacePadded(s, b[..|b| - 1]);
    }
  }

  /** Trimming removes exactly the whitespace padding around a non-empty trimmed string. */
  lemma TrimPadded(a: JsString, s: JsString, b: JsString)
    requires AllWhitespace(a) && AllWhitespace(b)
    requires s != [] && Trimmed(s)
    ensures Trim(a + s + b) == s
  {
    assert a + s + b == a + (s + b);
    LeadingWhitespacePadded(a, s + b);
    assert (a + s + b)[|a|..] == s + b;
    TrailingWhitespacePadded(s, b);
    assert (s + b)[..|s|] == s;
  }

  lemma TrimIdempotent(s: JsString)
    ensures Trim(Trim(s)) == Trim(s)
  {
    TrimTrimmed(Trim(s));
  }

  // ---------------------------------------------------------------------------
  // `replace(/\n{3,}/g, "\n\n")`
  // ---------------------------------------------------------------------------

  /** No three line feeds in a row. */
  predicate NoTripleNewline(s: JsString) {
    forall i | 0 <= i < |s| - 2 :: !(s[i] == LF && s[i + 1] == LF && s[i + 2] == LF)
  }

  /** `s` with its line feeds removed: the part of the text the replacement never touches. */
  function WithoutNewlines(s: JsString): (r: JsString)
    ensures |r| <= |s|
    ensures LF !in r
  {
    if s == [] then []
    else (if s[0] == LF then [] else [s[0]]) + WithoutNewlines(s[1..])
  }

  /**
    The global replacement of every run of three or more line feeds by two.
    Scanning left to right, `run` counts the line feeds already copied from the
    current run; at two, further line feeds of the run are dropped.
   */
  function CollapseFrom(s: JsString, run: nat): (r: JsString)
    requires run <= 2
    ensures |r| <= |s|
    decreases |s|
  {
    if s == [] then []
    else if s[0] != LF then [s[0]] + CollapseFrom(s[1..], 0)
    else if run == 2 then CollapseFrom(s[1..], 2)
    else [LF] + CollapseFrom(s[1..], run + 1)
  }

  function CollapseNewlines(s: JsString): (r: JsString)
    ensures |r| <= |s|
  {
    CollapseFrom(s, 0)
  }

  /** The run counter after scanning `s` from counter `run`. */
  function RunAfter(s: JsString, run: nat): (k: nat)
    requires run <= 2
    ensures k <= 2
    decreases |s|
  {
    if s == [] then run
    else if s[0] != LF then RunAfter(s[1..], 0)
    else RunAfter(s[1..], if run == 2 then 2 else run + 1)
  }

  /** Scanning is compositional: the second half continues from the first half's counter. */
  lemma {:induction false} CollapseAppend(a: JsString, b: JsString, run: nat)
    requires run <= 2
    ensures CollapseFrom(a + b, run) == CollapseFrom(a, run) + CollapseFrom(b, RunAfter(a, run))
    decreases |a|
  {
    if a == [] {
      assert a + b == b;
    } else {
      assert (a + b)[1..] == a[1..] + b;
      var next := if a[0] != LF then 0 else if run == 2 then 2 else run + 1;
      CollapseAppend(a[1..], b, next);
    }
  }

  /** A non-line-feed unit resets the counter. */
  lemma RunAfterNonNewlineEnd(a: JsString, run: nat)
    requires run <= 2
    requires a != [] && a[|a| - 1] != LF
    ensures RunAfter(a, run) == 0
    decreases |a|
  {
    if |a| > 1 {
      var next := if a[0] != LF then 0 else if run == 2 then 2 else run + 1;
      assert a[1..][|a[1..]| - 1] == a[|a| - 1];
      RunAfterNonNewlineEnd(a[1..], next);
    }
  }

  /** Text that does not start with a line feed is collapsed the same from any counter. */
  lemma CollapseFromNonNewlineStart(b: JsString, run: nat)
    requires run <= 2
    requires b == [] || b[0] != LF
    ensures CollapseFrom(b, run) == CollapseFrom(b, 0)
  {
  }

  /** A run of `k` line feeds read from counter 0 becomes `min(k, 2)` line feeds. */
  lemma {:induction false} CollapseNewlineRun(k: nat, run: nat)
    requires run <= 2
    ensures CollapseFrom(Newlines(k), run) == Newlines(if run + k <= 2 then k else 2 - run)
    ensures RunAfter(Newlines(k), run) == if run + k <= 2 then run + k else 2
    decreases k
  {
    if k > 0 {
      assert Newlines(k)[1..] == Newlines(k - 1);
      CollapseNewlineRun(k - 1, if run == 2 then 2 else run + 1);
      if run < 2 {
        assert [LF] + Newlines(if run + k <= 2 then k - 1 else 2 - run - 1)
            == Newlines(if run + k <= 2 then k else 2 - run);
      }
    }
  }

  /**
    The regular expression's effect on one run: between text that does not end
    and text that does not start with a line feed, a run of `k` line feeds
    becomes `min(k, 2)` and everything else is processed independently.
   */
  lemma CollapseRun(a: JsString, k: nat, b: JsString)
    requires a == [] || a[|a| - 1] != LF
    requires b == [] || b[0] != LF
    ensures CollapseNewlines(a + Newlines(k) + b)
         == CollapseNewlines(a) + Newlines(if k <= 2 then k else 2) + CollapseNewlines(b)
  {
    var n := Newlines(k);
    var m := Newlines(if k <= 2 then k else 2);
    Associative(a, n, b);
    CollapseAppend(a, n + b, 0);
    assert RunAfter(a, 0) == 0 by {
      if a != [] {
        RunAfterNonNewlineEnd(a, 0);
      }
    }
    CollapseAppend(n, b, 0);
    CollapseNewlineRun(k, 0);
    CollapseFromNonNewlineStart(b, RunAfter(n, 0));
    assert CollapseFrom(n + b, 0) == m + CollapseFrom(b, 0);
    Associative(CollapseFrom(a, 0), m, CollapseFrom(b, 0));
  }

  /** The result never holds three line feeds in a row. */
  lemma {:induction false} CollapseNoTriple(s: JsString, run: nat)
    requires run <= 2
    ensures NoTripleNewline(CollapseFrom(s, run))
    ensures run == 2 ==> CollapseFrom(s, run) == [] || CollapseFrom(s, run)[0] != LF
    ensures run == 1 ==> |CollapseFrom(s, run)| < 2 || CollapseFrom(s, run)[0] != LF || CollapseFrom(s, run)[1] != LF
    decreases |s|
  {
    if s != [] {
      var next := if s[0] != LF then 0 else if run == 2 then 2 else run + 1;
      CollapseNoTriple(s[1..], next);
      if s[0] == LF && run < 2 {
        CollapseNoTriple(s[1..], run + 1);
        if run == 0 {
          CollapseNoTriple(s[1..], 1);
        }
      }
    }
  }

  /** Only line feeds are ever removed: all other text survives in order. */
  lemma {:induction false} CollapseKeepsText(s: JsString, run: nat)
    requires run <= 2
    ensures WithoutNewlines(CollapseFrom(s, run)) == WithoutNewlines(s)
    decreases |s|
  {
    if s != [] {
      var next := if s[0] != LF then 0 else if run == 2 then 2 else run + 1;
      CollapseKeepsText(s[1..], next);
      var rest := CollapseFrom(s[1..], next);
      assert ([s[0]] + rest)[1..] == rest;
    }
  }

  /** Text already free of triple line feeds is left as it is (so the replacement is idempotent). */
  lemma {:induction false} CollapseIdentity(s: JsString, run: nat)
    requires run <= 2
    requires NoTripleNewline(s)
    requires run == 2 ==> s == [] || s[0] != LF
    requires run == 1 ==> |s| < 2 || s[0] != LF || s[1] != LF
    ensures CollapseFrom(s, run) == s
    decreases |s|
  {
    if s != [] {
      var next := if s[0] != LF then 0 else if run == 2 then 2 else run + 1;
      CollapseIdentity(s[1..], next);
      assert [s[0]] + s[1..] == s;
    }
  }

  lemma CollapseIdempotent(s: JsString)
    ensures CollapseNewlines(CollapseNewlines(s)) == CollapseNewlines(s)
  {
    CollapseNoTriple(s, 0);
    CollapseIdentity(CollapseNewlines(s), 0);
  }

  /** A first unit that is not a line feed is kept in front. */
  lemma CollapseKeepsFirst(s: JsString)
    requires s != [] && s[0] != LF
    ensures CollapseNewlines(s) != [] && CollapseNewlines(s)[0] == s[0]
  {
  }

  /** A last unit that is not a line feed is kept at the end. */
  lemma {:induction false} CollapseKeepsLast(s: JsString, run: nat)
    requires run <= 2
    requires s != [] && s[|s| - 1] != LF
    ensures CollapseFrom(s, run) != []
    ensures CollapseFrom(s, run)[|CollapseFrom(s, run)| - 1] == s[|s| - 1]
    decreases |s|
  {
    if |s| > 1 {
      var next := if s[0] != LF then 0 else if run == 2 then 2 else run + 1;
      assert s[1..][|s[1..]| - 1] == s[|s| - 1];
      CollapseKeepsLast(s[1..], next);
    }
  }

  /** Collapsing a trimmed text keeps it trimmed (line feeds are whitespace). */
  lemma CollapseTrimmed(s: JsString)
    requires Trimmed(s)
    ensures Trimmed(CollapseNewlines(s))
  {
    if s != [] {
      CollapseKeepsFirst(s);
      CollapseKeepsLast(s, 0);
    }
  }

  // ---------------------------------------------------------------------------
  // `split` and `join`
  // ---------------------------------------------------------------------------

  /** `parts.join(sep)`. */
  function Join(parts: seq<JsString>, sep: JsString): (r: JsString)
    decreases |parts|
  {
    if |parts| == 0 then []
    else if |parts| == 1 then parts[0]
    else parts[0] + sep + Join(parts[1..], sep)
  }

  /** `s.split(c)` for a one-unit separator: the pieces between separators, empty ones included. */
  function Split(s: JsString, c: Unit): (r: seq<JsString>)
    ensures |r| >= 1
    ensures forall k | 0 <= k < |r| :: c !in r[k]
  {
    if s == [] then [[]]
    else
      var rest := Split(s[1..], c);
      if s[0] == c then [[]] + rest
      else [[s[0]] + rest[0]] + rest[1..]
  }

  /** Joining the pieces with the separator gives the string back. */
  lemma {:induction false} JoinSplit(s: JsString, c: Unit)
    ensures Join(Split(s, c), [c]) == s
    decreases |s|
  {
    if s != [] {
      var rest := Split(s[1..], c);
      JoinSplit(s[1..], c);
      assert [s[0]] + s[1..] == s;
      if s[0] == c {
        assert Split(s, c) == [[]] + rest;
        assert ([[]] + rest)[1..] == rest;
      } else {
        var r := [[s[0]] + rest[0]] + rest[1..];
        assert r[1..] == rest[1..];
        if |rest| == 1 {
          assert Join(r, [c]) == [s[0]] + rest[0];
        } else {
          assert Join(rest, [c]) == rest[0] + [c] + Join(rest[1..], [c]);
          assert Join(r, [c]) == [s[0]] + rest[0] + [c] + Join(rest[1..], [c]);
        }
      }
    }
  }

  /** Splitting a join of separator-free pieces gives the pieces back. */
  lemma {:induction false} SplitJoin(parts: seq<JsString>, c: Unit)
    requires |parts| >= 1
    requires forall k | 0 <= k < |parts| :: c !in parts[k]
    ensures Split(Join(parts, [c]), c) == parts
    decreases |parts|, |parts[0]|
  {
    if parts[0] != [] {
      var p := parts[0];
      var tail := [p[1..]] + parts[1..];
      assert forall k | 0 <= k < |tail| :: c !in tail[k] by {
        forall k | 0 <= k < |tail| ensures c !in tail[k] {
          if k == 0 { assert forall x | x in p[1..] :: x in p; } else { assert tail[k] == parts[k]; }
        }
      }
      SplitJoin(tail, c);
      JoinDropUnit(parts, c);
      var j := Join(parts, [c]);
      assert Split(j, c) == [[j[0]] + Split(j[1..], c)[0]] + Split(j[1..], c)[1..];
      assert [p[0]] + p[1..] == p;
      ConsHead(parts);
    } else if |parts| > 1 {
      SplitJoin(parts[1..], c);
      JoinDropEmpty(parts, c);
      ConsHead(parts);
    }
  }

  lemma ConsHead(parts: seq<JsString>)
    requires |parts| >= 1
    ensures [parts[0]] + parts[1..] == parts
  {
  }

  /** A join whose first piece is not empty starts with that piece's first unit. */
  lemma JoinDropUnit(parts: seq<JsString>, c: Unit)
    requires |parts| >= 1 && parts[0] != []
    ensures var s := Join(parts, [c]);
      s != [] && s[0] == parts[0][0] && s[1..] == Join([parts[0][1..]] + parts[1..], [c])
  {
    var p := parts[0];
    var tail := [p[1..]] + parts[1..];
    var s := Join(parts, [c]);
    if |parts| == 1 {
      assert s == p;
    } else {
      var rest := Join(parts[1..], [c]);
      Associative(p, [c], rest);
      DropAppend(p, [c] + rest, 1);
      assert tail[1..] == parts[1..];
      assert Join(tail, [c]) == p[1..] + [c] + rest;
      Associative(p[1..], [c], rest);
    }
  }

  /** A join whose first piece is empty starts with the separator. */
  lemma JoinDropEmpty(parts: seq<JsString>, c: Unit)
    requires |parts| > 1 && parts[0] == []
    ensures var s := Join(parts, [c]);
      s != [] && s[0] == c && s[1..] == Join(parts[1..], [c])
  {
    var s := Join(parts, [c]);
    assert s == [c] + Join(parts[1..], [c]);
  }
}
