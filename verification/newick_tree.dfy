/** Tree construction from Newick text: comment stripping and the top-level
    acceptance check of src/tree.py (`Tree.__removeNewickComments__` and
    `Tree.__initializeNodes__`). src/tanos/tree.py:103-155 holds an identical
    copy of both methods, so this module models that file's parse entry too. */
module NewickTree {
  import opened Wrappers
  import opened Text
  import opened NewickNode

  /** A tree: an identifier and the root node it owns. */
  datatype Tree = Tree(name: string, root: Node)

  // ---------------------------------------------------------------------
  // Comment stripping
  // ---------------------------------------------------------------------

  /** src/tree.py:57-94: one left-to-right scan. A `[` deletes everything
      through the first following `]` (comments do not nest); a quote is
      copied together with everything up to the next identical quote; every
      other character is copied. An unclosed comment or quote is an error. */
  function StripComments(s: string): (r: Parse<string>)
    ensures r.Ok? ==> |r.value| <= |s|
    ensures r.Err? ==> r.error.UnterminatedComment? || r.error.UnterminatedQuote?
    decreases |s|
  {
    if s == [] then
      Ok([])
    else if s[0] == '[' then
      var k := IndexOf(s, 0, ']');
      if k == |s| then Err(UnterminatedComment) else StripComments(s[k + 1..])
    else if IsQuote(s[0]) then
      var q := s[0];
      var k := IndexOf(s, 1, q);
      if k == |s| then
        Err(UnterminatedQuote(q))
      else
        var rest :- StripComments(s[k + 1..]);
        Ok(s[..k + 1] + rest)
    else
      var rest :- StripComments(s[1..]);
      Ok([s[0]] + rest)
  }

  /** `a` can be obtained from `b` by deleting characters. */
  predicate IsSubsequence(a: string, b: string)
    decreases |b|
  {
    || a == []
    || (b != [] && ((a[0] == b[0] && IsSubsequence(a[1..], b[1..])) || IsSubsequence(a, b[1..])))
  }

  lemma {:induction false} SubsequenceOfLonger(a: string, x: string, b: string)
    requires IsSubsequence(a, b)
    ensures IsSubsequence(a, x + b)
    decreases |x|
  {
    if x == [] {
      assert x + b == b;
    } else if a != [] {
      SubsequenceOfLonger(a, x[1..], b);
      assert (x + b)[1..] == x[1..] + b;
    }
  }

  lemma {:induction false} SubsequenceSamePrefix(p: string, a: string, b: string)
    requires IsSubsequence(a, b)
    ensures IsSubsequence(p + a, p + b)
    decreases |p|
  {
    if p == [] {
      assert p + a == a && p + b == b;
    } else {
      SubsequenceSamePrefix(p[1..], a, b);
      assert (p + a)[1..] == p[1..] + a;
      assert (p + b)[1..] == p[1..] + b;
    }
  }

  /** A kept prefix: `p + a` is a subsequence of `s == p + t`. */
  lemma KeptPrefix(p: string, a: string, t: string, s: string)
    requires IsSubsequence(a, t) && s == p + t
    ensures IsSubsequence(p + a, s)
  {
    SubsequenceSamePrefix(p, a, t);
  }

  /** A deleted prefix: `a` is a subsequence of `s == p + t`. */
  lemma DeletedPrefix(p: string, a: string, t: string, s: string)
    requires IsSubsequence(a, t) && s == p + t
    ensures IsSubsequence(a, s)
  {
    SubsequenceOfLonger(a, p, t);
  }

  /** Stripping only deletes characters: the output is a subsequence of the
      input. */
  lemma {:induction false} StripIsSubsequence(s: string)
    requires StripComments(s).Ok?
    ensures IsSubsequence(StripComments(s).value, s)
    decreases |s|
  {
    if s == [] {
    } else if s[0] == '[' {
      var k := IndexOf(s, 0, ']');
      var t := s[k + 1..];
      StripIsSubsequence(t);
      assert s == s[..k + 1] + t;
      DeletedPrefix(s[..k + 1], StripComments(t).value, t, s);
    } else if IsQuote(s[0]) {
      var k := IndexOf(s, 1, s[0]);
      var t := s[k + 1..];
      StripIsSubsequence(t);
      assert s == s[..k + 1] + t;
      KeptPrefix(s[..k + 1], StripComments(t).value, t, s);
    } else {
      var t := s[1..];
      StripIsSubsequence(t);
      assert s == [s[0]] + t;
      KeptPrefix([s[0]], StripComments(t).value, t, s);
    }
  }

  /** A successful strip result with `p` in front; an error is kept. */
  function Prepend(p: string, r: Parse<string>): (r': Parse<string>)
    ensures r'.Ok? <==> r.Ok?
    ensures r.Err? ==> r' == r
    ensures r.Ok? ==> |r'.value| == |p| + |r.value|
    ensures r.Ok? ==> r'.value[..|p|] == p && r'.value[|p|..] == r.value
  {
    if r.Ok? then Ok(p + r.value) else r
  }

  lemma PrependTwice(a: string, b: string, r: Parse<string>)
    ensures Prepend(a, Prepend(b, r)) == Prepend(a + b, r)
  {
    if r.Ok? {
      assert a + (b + r.value) == (a + b) + r.value;
    }
  }

  /** A quoted span: a quote, then anything but that quote, then the quote. */
  predicate QuotedSpan(t: string) {
    && |t| >= 2
    && IsQuote(t[0])
    && t[|t| - 1] == t[0]
    && forall k | 0 < k < |t| - 1 :: t[k] != t[0]
  }

  /** A comment: `[`, anything but `]`, then `]`. */
  predicate CommentSpan(t: string) {
    && |t| >= 2
    && t[0] == '['
    && t[|t| - 1] == ']'
    && forall k | 0 <= k < |t| - 1 :: t[k] != ']'
  }

  /** A quoted span is copied verbatim, brackets included, and stripping
      carries on after it. */
  lemma StripQuotedSpan(t: string, u: string)
    requires QuotedSpan(t)
    ensures StripComments(t + u) == Prepend(t, StripComments(u))
  {
    var s := t + u;
    IndexOfFinds(s, 1, s[0], |t| - 1);
    assert s[..|t|] == t && s[|t|..] == u;
  }

  /** A comment is deleted up to and including its first `]`. */
  lemma StripCommentSpan(t: string, u: string)
    requires CommentSpan(t)
    ensures StripComments(t + u) == StripComments(u)
  {
    var s := t + u;
    IndexOfFinds(s, 0, ']', |t| - 1);
    assert s[|t|..] == u;
  }

  /** Any other character is copied. */
  lemma StripOtherChar(c: char, u: string)
    requires c != '[' && !IsQuote(c)
    ensures StripComments([c] + u) == Prepend([c], StripComments(u))
  {
    assert ([c] + u)[1..] == u;
  }

  /** Stripping works token by token: text that strips without error, followed
      by anything, strips as that text's result followed by the rest
      stripped. */
  lemma {:induction false} StripAfterClean(p: string, u: string)
    requires StripComments(p).Ok?
    ensures StripComments(p + u) == Prepend(StripComments(p).value, StripComments(u))
    decreases |p|
  {
    var s := p + u;
    if p == [] {
      assert s == u;
      if StripComments(u).Ok? {
        assert [] + StripComments(u).value == StripComments(u).value;
      }
    } else if p[0] == '[' {
      var k := IndexOf(p, 0, ']');
      IndexOfPrefix(p, u, 0, ']');
      assert s[k + 1..] == p[k + 1..] + u;
      StripAfterClean(p[k + 1..], u);
    } else if IsQuote(p[0]) {
      var k := IndexOf(p, 1, p[0]);
      IndexOfPrefix(p, u, 1, p[0]);
      assert s[0] == p[0] && s[..k + 1] == p[..k + 1];
      assert s[k + 1..] == p[k + 1..] + u;
      StripAfterClean(p[k + 1..], u);
      PrependTwice(p[..k + 1], StripComments(p[k + 1..]).value, StripComments(u));
    } else {
      assert s[0] == p[0] && s[1..] == p[1..] + u;
      StripAfterClean(p[1..], u);
      PrependTwice([p[0]], StripComments(p[1..]).value, StripComments(u));
    }
  }

  /** An opening quote and the next identical quote delimit a quoted span. */
  lemma QuotedSpanAt(s: string, k: nat)
    requires s != [] && IsQuote(s[0])
    requires k == IndexOf(s, 1, s[0]) && k < |s|
    ensures QuotedSpan(s[..k + 1])
  {
    IndexOfSkips(s, 1, s[0]);
  }

  /** After any text that strips without error, a `[` with no later `]` is
      an error. */
  lemma UnclosedCommentFails(p: string, x: string)
    requires StripComments(p).Ok?
    requires ']' !in x
    ensures StripComments(p + ['['] + x) == Err(UnterminatedComment)
  {
    var u := ['['] + x;
    assert p + ['['] + x == p + u;
    IndexOfMisses(u, 0, ']');
    StripAfterClean(p, u);
  }

  /** After any text that strips without error, a quote with no later
      identical quote is an error. */
  lemma UnclosedQuoteFails(p: string, q: char, x: string)
    requires StripComments(p).Ok?
    requires IsQuote(q) && q !in x
    ensures StripComments(p + [q] + x) == Err(UnterminatedQuote(q))
  {
    var u := [q] + x;
    assert p + [q] + x == p + u;
    IndexOfMisses(u, 1, q);
    StripAfterClean(p, u);
  }

  /** Stripping is idempotent. */
  lemma {:induction false} StripIdempotent(s: string)
    requires StripComments(s).Ok?
    ensures StripComments(StripComments(s).value) == StripComments(s)
    decreases |s|
  {
    if s == [] {
    } else if s[0] == '[' {
      var k := IndexOf(s, 0, ']');
      StripIdempotent(s[k + 1..]);
    } else if IsQuote(s[0]) {
      var q := s[0];
      var k := IndexOf(s, 1, q);
      var rest := StripComments(s[k + 1..]).value;
      StripIdempotent(s[k + 1..]);
      QuotedSpanAt(s, k);
      StripQuotedSpan(s[..k + 1], rest);
    } else {
      var rest := StripComments(s[1..]).value;
      StripIdempotent(s[1..]);
      StripOtherChar(s[0], rest);
    }
  }

  /** Text with no `[` whose quotes all close is returned unchanged. */
  lemma {:induction false} StripWithoutBrackets(s: string)
    requires '[' !in s
    requires StripComments(s).Ok?
    ensures StripComments(s) == Ok(s)
    decreases |s|
  {
    if s == [] {
    } else if IsQuote(s[0]) {
      var q := s[0];
      var k := IndexOf(s, 1, q);
      assert s == s[..k + 1] + s[k + 1..];
      StripWithoutBrackets(s[k + 1..]);
      assert s[..k + 1] + s[k + 1..] == s;
    } else {
      assert s == [s[0]] + s[1..];
      StripWithoutBrackets(s[1..]);
      assert [s[0]] + s[1..] == s;
    }
  }

  /** Text with no `[` and no quote character is returned unchanged. */
  lemma {:induction false} StripPlainText(s: string)
    requires forall k | 0 <= k < |s| :: s[k] != '[' && !IsQuote(s[k])
    ensures StripComments(s) == Ok(s)
    decreases |s|
  {
    if s != [] {
      StripPlainText(s[1..]);
      assert [s[0]] + s[1..] == s;
    }
  }

  // ---------------------------------------------------------------------
  // Tree construction
  // ---------------------------------------------------------------------

  /** Python's `str.rstrip()`: removes trailing whitespace. */
  function RStrip(s: string): (r: string)
    ensures |r| <= |s| && r == s[..|r|]
    ensures AllSpace(s[|r|..])
    ensures r == [] || !IsSpace(r[|r| - 1])
    decreases |s|
  {
    if |s| > 0 && IsSpace(s[|s| - 1]) then
      var r := RStrip(s[..|s| - 1]);
      assert s[..|s| - 1][..|r|] == s[..|r|];
      assert s[|r|..] == s[..|s| - 1][|r|..] + [s[|s| - 1]];
      r
    else s
  }

  /** The root parse stops on the last character, which is `;`. */
  predicate RootEndsOnFinalSemicolon(t: string) {
    && ParseNode(t, 0).Ok?
    && ParseNode(t, 0).value.1 + 1 == |t|
    && t[|t| - 1] == ';'
  }

  /** src/tree.py:47-55: after the root, which stopped at `index`, the text
      must hold a `;` followed by nothing but whitespace. With trailing
      whitespace already removed, that `;` must be the last character. */
  function FinalSemicolon<T>(t: string, index: nat, tree: T): (r: Parse<T>)
    requires index <= |t|
    requires t == [] || !IsSpace(t[|t| - 1])
    ensures r.Ok? <==> index + 1 == |t| && t[index] == ';'
    ensures r.Ok? ==> r.value == tree
    ensures index < |t| && t[index] != ';' ==> r == Err(ExpectedSemicolon(t[index]))
    ensures index == |t| ==> r == Err(MissingSemicolon)
  {
    if index < |t| then
      if t[index] == ';' then
        var rest := t[index + 1..];
        if |rest| > 0 && !AllSpace(rest) then Err(TrailingAfterSemicolon) else Ok(tree)
      else
        Err(ExpectedSemicolon(t[index]))
    else
      Err(MissingSemicolon)
  }

  /** src/tree.py:42-55: strip comments and trailing whitespace, parse the
      root, then demand a `;` followed by nothing but whitespace. */
  function ParseTree(name: string, text: string): (r: Parse<Tree>)
    ensures StripComments(text).Err? ==> r == Err(StripComments(text).error)
    ensures r.Ok? <==>
      StripComments(text).Ok? && RootEndsOnFinalSemicolon(RStrip(StripComments(text).value))
    ensures r.Ok? ==> r.value == Tree(name, ParseNode(RStrip(StripComments(text).value), 0).value.0)
  {
    var stripped :- StripComments(text);
    var t := RStrip(stripped);
    var p :- ParseNode(t, 0);
    FinalSemicolon(t, p.1, Tree(name, p.0))
  }
}
