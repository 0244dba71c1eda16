/** The recursive-descent Newick node parser of src/node.py
    (`Node.initializeNode` and its helpers).

    The file as written does not run; the model follows what its inline
    comments say each step does:
    - src/node.py:126 advances an undefined `i` instead of `index`; the model
      steps past the ':' as the comment there says.
    - src/node.py:131 appends to a misspelt `branch_lenth_str`; the model
      accumulates the literal in the one variable the rest of the code reads.
    - src/node.py:106 evaluates `index + 1` without storing it; the model
      resumes after the closing quote as the comment says
      (`QuotedLabelAsWritten` keeps the code as written, see its lemma).
    - src/node.py:112 (the character is not a quote) cannot be reached from
      the only caller, which tests for a quote first; `QuotedLabel` requires it.

    The parse position is threaded explicitly: every step takes the text and
    an index and returns the next index. */
module NewickNode {
  import opened Wrappers
  import opened Text

  /** A metadata value: an integer, a real number kept as its literal text,
      or a string. */
  datatype MetaValue = IntNum(n: int) | RealNum(text: string) | Str(text: string)

  type Meta = map<string, MetaValue>

  /** A tree vertex: its label (`name`), metadata and children; a leaf has
      no children. */
  datatype Node = Node(name: string, meta: Meta, children: seq<Node>)

  const BranchKey: string := "branch_length"

  /** The conditions under which the source raises `MalformedNewickTree`. */
  datatype MalformedNewick =
    | EndBeforeLabel
    | EndBeforeBranchLength
    | UnexpectedAtNodeEnd(found: char)
    | EndBeforeTerminator
    | QuotedLabelTooShort
    | UnclosedQuotedLabel
    | MissingBranchLength
    | EndInBranchLength(literal: string)
    | BadBranchLength(literal: string)
    | UnterminatedComment
    | UnterminatedQuote(quote: char)
    | TrailingAfterSemicolon
    | ExpectedSemicolon(found: char)
    | MissingSemicolon
      // Raised only by the corrected parser of module NewickNested: a `(`
      // whose children run into the `;` without a `)`.
    | MissingCloseParen

  type Parse<T> = Result<T, MalformedNewick>

  predicate IsQuote(c: char) {
    c == '\'' || c == '"'
  }

  predicate IsSign(c: char) {
    c == '+' || c == '-'
  }

  /** Characters that end an unquoted label. */
  predicate EndsLabel(c: char) {
    IsSpace(c) || c == ')' || c == ',' || c == ':' || c == ';'
  }

  /** Characters that end a branch-length literal; ':' is not one of them. */
  predicate EndsLiteral(c: char) {
    IsSpace(c) || c == ')' || c == ',' || c == ';'
  }

  /** Which characters end a scan: those ending a label or a literal. */
  datatype Terminators = LabelEnd | LiteralEnd

  predicate Ends(t: Terminators, c: char) {
    match t
    case LabelEnd => EndsLabel(c)
    case LiteralEnd => EndsLiteral(c)
  }

  /** The first index at or after `i` holding a terminator, or `|s|`. */
  function ScanTo(s: string, i: nat, t: Terminators): (j: nat)
    requires i <= |s|
    ensures i <= j <= |s|
    ensures j < |s| ==> Ends(t, s[j])
    decreases |s| - i
  {
    if i < |s| && !Ends(t, s[i]) then ScanTo(s, i + 1, t) else i
  }

  /** No character before the scan's stop is a terminator. */
  lemma {:induction false} ScanToSkips(s: string, i: nat, t: Terminators)
    requires i <= |s|
    ensures forall k | i <= k < ScanTo(s, i, t) :: !Ends(t, s[k])
    decreases |s| - i
  {
    if i < |s| && !Ends(t, s[i]) {
      ScanToSkips(s, i + 1, t);
    }
  }

  /** A scan stops at the first terminator. */
  lemma {:induction false} ScanToStopsAt(s: string, i: nat, t: Terminators, j: nat)
    requires i <= j < |s|
    requires Ends(t, s[j])
    requires forall k | i <= k < j :: !Ends(t, s[k])
    ensures ScanTo(s, i, t) == j
    decreases j - i
  {
    if i < j {
      ScanToStopsAt(s, i + 1, t, j);
    }
  }

  // ---------------------------------------------------------------------
  // Numeric literals (Python's int() and float() on the literal text)
  // ---------------------------------------------------------------------

  /** The length of the sign a literal starts with: 1 or 0. */
  function SignLength(lit: string): (a: nat)
    ensures a <= 1 && a <= |lit|
    ensures a == 1 <==> |lit| > 0 && IsSign(lit[0])
  {
    if |lit| > 0 && IsSign(lit[0]) then 1 else 0
  }

  /** `int(lit)`: an optional sign followed by one or more decimal digits. */
  function IntValue(lit: string): (r: Option<int>)
    ensures r.Some? <==> SignLength(lit) < |lit| && forall k | SignLength(lit) <= k < |lit| :: IsDigit(lit[k])
    ensures r.Some? && r.value < 0 ==> lit[0] == '-'
  {
    var a := SignLength(lit);
    DigitsValueDefined(lit, a, |lit|);
    if a == |lit| then
      None
    else
      match DigitsValue(lit, a, |lit|)
      case None => None
      case Some(v) => var n: int := v; Some(if lit[0] == '-' then -n else n)
  }

  predicate IsExponentMark(c: char) {
    c == 'e' || c == 'E'
  }

  /** Where a float literal scan is: in the whole part, in the fraction
      after the '.', just after 'e'/'E', after the exponent's sign, or in the
      exponent's digits. */
  datatype FloatPart = Whole | Fraction | ExpMark | ExpSign | ExpDigits

  /** One character of a float literal: the part and digit flag after `c`,
      or `None` when `c` cannot come next. `digit` says whether the mantissa
      holds a digit so far. */
  function FloatStep(c: char, part: FloatPart, digit: bool): Option<(FloatPart, bool)> {
    match part
    case Whole =>
      if IsDigit(c) then Some((Whole, true))
      else if c == '.' then Some((Fraction, digit))
      else None
    case Fraction =>
      if IsDigit(c) then Some((Fraction, true))
      else if IsExponentMark(c) && digit then Some((ExpMark, digit))
      else None
    case ExpMark =>
      if IsSign(c) then Some((ExpSign, digit))
      else if IsDigit(c) then Some((ExpDigits, digit))
      else None
    case ExpSign | ExpDigits =>
      if IsDigit(c) then Some((ExpDigits, digit)) else None
  }

  /** The rest of a float literal from `i` on is well formed: the mantissa
      is digits around exactly one '.' with at least one digit, and the
      exponent is optional. */
  predicate FloatFrom(lit: string, i: nat, part: FloatPart, digit: bool)
    requires i <= |lit|
    decreases |lit| - i
  {
    if i == |lit| then
      (part == Fraction && digit) || part == ExpDigits
    else
      match FloatStep(lit[i], part, digit)
      case None => false
      case Some(next) => FloatFrom(lit, i + 1, next.0, next.1)
  }

  /** `float(lit)` succeeds on a literal that contains a '.': an optional
      sign, the mantissa and an optional exponent. */
  predicate FloatSyntax(lit: string) {
    FloatFrom(lit, SignLength(lit), Whole, false)
  }

  /** The characters a number literal may hold. */
  predicate NumberChar(c: char) {
    IsDigit(c) || IsSign(c) || c == '.' || IsExponentMark(c)
  }

  /** src/node.py:136-140: a literal with a '.' is a float, otherwise an int;
      a literal that is neither is an error. */
  function NumberLiteral(lit: string): (r: Parse<MetaValue>)
    ensures lit == [] ==> r == Err(BadBranchLength(lit))
    ensures r.Err? ==> r.error == BadBranchLength(lit)
    ensures r.Ok? ==> (r.value.RealNum? <==> '.' in lit)
    ensures r.Ok? ==> r.value.IntNum? || r.value == RealNum(lit)
    ensures r.Ok? && r.value.IntNum? ==> IntValue(lit) == Some(r.value.n)
    ensures r.Ok? && r.value.RealNum? ==> FloatSyntax(lit)
  {
    if '.' in lit then
      if FloatSyntax(lit) then Ok(RealNum(lit)) else Err(BadBranchLength(lit))
    else
      match IntValue(lit)
      case Some(v) => Ok(IntNum(v))
      case None => Err(BadBranchLength(lit))
  }

  /** A float scan fails on any character that no number literal holds. */
  lemma {:induction false} FloatFromBadChar(lit: string, i: nat, part: FloatPart, digit: bool, k: nat)
    requires i <= k < |lit| && !NumberChar(lit[k])
    ensures !FloatFrom(lit, i, part, digit)
    decreases |lit| - i
  {
    match FloatStep(lit[i], part, digit)
    case None =>
    case Some(next) =>
      FloatFromBadChar(lit, i + 1, next.0, next.1, k);
  }

  /** A float scan that has seen no digit in its mantissa fails when no
      digit follows. */
  lemma {:induction false} FloatFromNoDigit(lit: string, i: nat, part: FloatPart)
    requires i <= |lit| && (part == Whole || part == Fraction)
    requires forall k | i <= k < |lit| :: !IsDigit(lit[k])
    ensures !FloatFrom(lit, i, part, false)
    decreases |lit| - i
  {
    if i < |lit| {
      match FloatStep(lit[i], part, false)
      case None =>
      case Some(next) =>
        FloatFromNoDigit(lit, i + 1, next.0);
    }
  }

  /** A literal without any digit, or holding a character that is not a
      digit, a sign, `.`, `e` or `E`, is not a number: the error names it. */
  lemma NonNumericRejected(lit: string)
    requires (forall k | 0 <= k < |lit| :: !IsDigit(lit[k])) || (exists k | 0 <= k < |lit| :: !NumberChar(lit[k]))
    ensures NumberLiteral(lit) == Err(BadBranchLength(lit))
  {
    var a := SignLength(lit);
    if exists k | 0 <= k < |lit| :: !NumberChar(lit[k]) {
      var k :| 0 <= k < |lit| && !NumberChar(lit[k]);
      assert a <= k;
      if '.' in lit {
        FloatFromBadChar(lit, a, Whole, false, k);
      } else {
        assert !IsDigit(lit[k]);
      }
    } else {
      if '.' in lit {
        FloatFromNoDigit(lit, a, Whole);
      } else if a < |lit| {
        assert !IsDigit(lit[a]);
      }
    }
  }

  // ---------------------------------------------------------------------
  // The steps of initializeNode
  // ---------------------------------------------------------------------

  /** src/node.py:93-96: skips whitespace starting at `i`. */
  function SkipWhitespace(s: string, i: nat): (j: nat)
    requires i <= |s|
    ensures i <= j <= |s|
    ensures j < |s| ==> !IsSpace(s[j])
    decreases |s| - i
  {
    if i < |s| && IsSpace(s[i]) then SkipWhitespace(s, i + 1) else i
  }

  /** Everything skipped is whitespace. */
  lemma {:induction false} SkipWhitespaceSkips(s: string, i: nat)
    requires i <= |s|
    ensures forall k | i <= k < SkipWhitespace(s, i) :: IsSpace(s[k])
    decreases |s| - i
  {
    if i < |s| && IsSpace(s[i]) {
      SkipWhitespaceSkips(s, i + 1);
    }
  }

  /** src/node.py:98-114 as the comments describe it: the label runs from the
      opening quote through the next identical quote, both quotes kept, and
      parsing resumes after the closing quote. */
  function QuotedLabel(s: string, i: nat): (r: Parse<(string, nat)>)
    requires i < |s| && IsQuote(s[i])
    ensures r.Ok? ==>
      var j := r.value.1;
      && i + 2 <= j <= |s|
      && r.value.0 == s[i..j]
      && s[j - 1] == s[i]
    ensures |s| - i < 2 <==> r == Err(QuotedLabelTooShort)
  {
    if |s| - i <= 1 then
      Err(QuotedLabelTooShort)
    else
      var k := IndexOf(s, i + 1, s[i]);
      if k < |s| then Ok((s[i..k + 1], k + 1)) else Err(UnclosedQuotedLabel)
  }

  /** The closing quote is the first one after the opening quote, and the
      label is unclosed exactly when no such quote follows. */
  lemma QuotedLabelCloses(s: string, i: nat)
    requires i < |s| && IsQuote(s[i]) && |s| - i >= 2
    ensures QuotedLabel(s, i).Ok? ==> forall k | i < k < QuotedLabel(s, i).value.1 - 1 :: s[k] != s[i]
    ensures QuotedLabel(s, i) == Err(UnclosedQuotedLabel) <==> forall k | i < k < |s| :: s[k] != s[i]
  {
    IndexOfSkips(s, i + 1, s[i]);
  }

  /** src/node.py:98-114 exactly as written: `index + 1` at line 106 is
      discarded, so the label stops before the closing quote and parsing
      resumes ON it. */
  function QuotedLabelAsWritten(s: string, i: nat): (r: Parse<(string, nat)>)
    requires i < |s| && IsQuote(s[i])
    ensures r.Ok? ==> i < r.value.1 < |s| && s[r.value.1] == s[i]
  {
    if |s| - i <= 1 then
      Err(QuotedLabelTooShort)
    else
      var k := IndexOf(s, i + 1, s[i]);
      if k < |s| then Ok((s[i..k], k)) else Err(UnclosedQuotedLabel)
  }

  /** src/node.py:116-121: the first character is taken unchecked, then the
      label extends to the next whitespace or one of `),:;`. */
  function UnquotedLabel(s: string, i: nat): (r: (string, nat))
    requires i < |s|
    ensures i < r.1 <= |s|
    ensures r.0 == s[i..r.1]
    ensures r.1 < |s| ==> EndsLabel(s[r.1])
  {
    var j := ScanTo(s, i + 1, LabelEnd);
    (s[i..j], j)
  }

  /** An unquoted label ends at the first terminator after its first
      character. */
  lemma UnquotedLabelStops(s: string, i: nat)
    requires i < |s|
    ensures forall k | i < k < UnquotedLabel(s, i).1 :: !EndsLabel(s[k])
  {
    ScanToSkips(s, i + 1, LabelEnd);
  }

  /** src/node.py:59-67: an optional quoted or unquoted label, followed by
      whitespace. */
  function LabelStep(s: string, i: nat): (r: Parse<(string, nat)>)
    requires i < |s|
    ensures r.Ok? ==> i <= r.value.1 <= |s|
    ensures r.Ok? && (s[i] == ')' || s[i] == ',' || s[i] == ':' || s[i] == ';') ==> r.value == ("", i)
  {
    if IsQuote(s[i]) then
      var p :- QuotedLabel(s, i);
      Ok((p.0, SkipWhitespace(s, p.1)))
    else if !(s[i] == ')' || s[i] == ',' || s[i] == ':' || s[i] == ';') then
      var p := UnquotedLabel(s, i);
      Ok((p.0, SkipWhitespace(s, p.1)))
    else
      Ok(("", i))
  }

  /** src/node.py:123-150: an optional `:` literal, stored under
      `branch_length`. */
  function BranchLength(s: string, i: nat): (r: Parse<(Meta, nat)>)
    requires i < |s|
    ensures r.Ok? ==> i <= r.value.1 <= |s|
    ensures r.Ok? ==> r.value.0.Keys <= {BranchKey}
    ensures r.Ok? ==> (BranchKey in r.value.0 <==> s[i] == ':')
    ensures r.Ok? && BranchKey in r.value.0 ==> r.value.0[BranchKey].IntNum? || r.value.0[BranchKey].RealNum?
    ensures s[i] != ':' ==> r == Ok((map[], i))
    ensures s[i] == ':' && SkipWhitespace(s, i + 1) == |s| ==> r == Err(MissingBranchLength)
    ensures s[i] == ':' && SkipWhitespace(s, i + 1) < |s| && ScanTo(s, SkipWhitespace(s, i + 1), LiteralEnd) == |s|
      ==> r == Err(EndInBranchLength(s[SkipWhitespace(s, i + 1)..]))
  {
    if s[i] != ':' then
      Ok((map[], i))
    else
      var k := SkipWhitespace(s, i + 1);
      if k >= |s| then
        Err(MissingBranchLength)
      else
        var m := ScanTo(s, k, LiteralEnd);
        if m >= |s| then
          Err(EndInBranchLength(s[k..]))
        else
          var lit := s[k..m];
          var v :- NumberLiteral(lit);
          Ok((map[BranchKey := v], SkipWhitespace(s, m)))
  }

  /** src/node.py:79-91: a node ends at `)` (consumed), `,` or `;` (left for
      the caller). */
  function NodeEnd(s: string, i: nat): (r: Parse<nat>)
    requires i <= |s|
    ensures r.Ok? <==> i < |s| && (s[i] == ')' || s[i] == ',' || s[i] == ';')
    ensures r.Ok? ==> r.value == if s[i] == ')' then i + 1 else i
    ensures i == |s| ==> r == Err(EndBeforeTerminator)
  {
    if i >= |s| then
      Err(EndBeforeTerminator)
    else if s[i] == ')' then
      Ok(i + 1)
    else if s[i] == ',' || s[i] == ';' then
      Ok(i)
    else
      Err(UnexpectedAtNodeEnd(s[i]))
  }

  /** Where a successful node parse may stop: on a `,` or `;`, or just past
      a `)`. */
  predicate Terminated(s: string, i: nat, e: nat) {
    || (e < |s| && (s[e] == ',' || s[e] == ';'))
    || (i < e <= |s| && s[e - 1] == ')')
  }

  /** src/node.py:72-91: the branch length and the end of the node. */
  function NodeTail(s: string, i: nat): (r: Parse<(Meta, nat)>)
    requires i <= |s|
    ensures r.Ok? ==> i <= r.value.1 <= |s|
    ensures r.Ok? ==> r.value.0.Keys <= {BranchKey}
    ensures r.Ok? ==> Terminated(s, i, r.value.1)
    ensures i == |s| ==> r == Err(EndBeforeBranchLength)
  {
    if i >= |s| then
      Err(EndBeforeBranchLength)
    else
      var b :- BranchLength(s, i);
      var e :- NodeEnd(s, b.1);
      Ok((b.0, e))
  }

  /** src/node.py:47-91: parses one node starting at `i` and returns it with
      the index of the first unconsumed character. */
  function ParseNode(s: string, i: nat): (r: Parse<(Node, nat)>)
    requires i <= |s|
    ensures r.Ok? ==> i <= r.value.1 <= |s|
    ensures r.Ok? ==> Terminated(s, i, r.value.1)
    ensures r.Ok? ==> r.value.0.meta.Keys <= {BranchKey}
    ensures SkipWhitespace(s, i) == |s| ==> r == Err(EndBeforeLabel)
    decreases |s| - i, 1
  {
    var j := SkipWhitespace(s, i);
    var c :- ParseChildren(s, j);
    if c.1 >= |s| then
      Err(EndBeforeLabel)
    else
      LabelledNode(s, c.1, c.0)
  }

  /** src/node.py:59-91: the label, branch length and end of a node whose
      children `cs` have been parsed and which continues at `k`. */
  function LabelledNode(s: string, k: nat, cs: seq<Node>): (r: Parse<(Node, nat)>)
    requires k < |s|
    ensures r.Ok? ==> k <= r.value.1 <= |s|
    ensures r.Ok? ==> Terminated(s, k, r.value.1)
    ensures r.Ok? ==> r.value.0.meta.Keys <= {BranchKey} && r.value.0.children == cs
  {
    var l :- LabelStep(s, k);
    var t :- NodeTail(s, l.1);
    Ok((Node(l.0, t.0, cs), t.1))
  }

  /** src/node.py:52-56: while the next character is `(` or `,`, consume it,
      parse one child and skip whitespace. */
  function ParseChildren(s: string, j: nat): (r: Parse<(seq<Node>, nat)>)
    requires j <= |s|
    ensures r.Ok? ==> j <= r.value.1 <= |s|
    ensures r.Ok? ==> (r.value.0 == [] <==> r.value.1 == j)
    ensures r.Ok? && r.value.0 != [] ==> s[j] == '(' || s[j] == ','
    ensures r.Ok? ==> r.value.1 == |s| || (s[r.value.1] != '(' && s[r.value.1] != ',')
    decreases |s| - j, 0
  {
    if j < |s| && (s[j] == '(' || s[j] == ',') then
      var c :- ParseNode(s, j + 1);
      var rest :- ParseChildren(s, SkipWhitespace(s, c.1));
      Ok(([c.0] + rest.0, rest.1))
    else
      Ok(([], j))
  }

  /** With the code as written, a quoted label that does close always makes
      its node fail: parsing resumes on the closing quote, which is neither
      a ':' nor a node terminator. */
  lemma AsWrittenQuotedLabelFailsNode(s: string, i: nat)
    requires i < |s| && IsQuote(s[i])
    requires QuotedLabelAsWritten(s, i).Ok?
    ensures NodeTail(s, SkipWhitespace(s, QuotedLabelAsWritten(s, i).value.1)).Err?
  {
    var k := QuotedLabelAsWritten(s, i).value.1;
    assert SkipWhitespace(s, k) == k;
  }
}
