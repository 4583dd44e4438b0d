/** `transformCSSTokenize`: the fixed chain of textual rewrites that turns one
    whitespace-free selector segment into an XPath location-step fragment.
    Each `preg_replace`/`str_replace` of the chain is a left-to-right scan that
    replaces non-overlapping matches and resumes after each match, as PCRE does. */
module CssTokenizer {
  import opened Text

  // ---------------------------------------------------------------------------
  // (a) Child combinator: `str_replace('>', '/', ...)`.

  function ChildToSlash(s: string): (r: string)
    ensures |r| == |s|
    ensures forall i :: 0 <= i < |s| ==> r[i] == (if s[i] == '>' then '/' else s[i])
    ensures '>' !in r
  {
    if s == [] then [] else [if s[0] == '>' then '/' else s[0]] + ChildToSlash(s[1..])
  }

  // ---------------------------------------------------------------------------
  // (b) `#name` and (f) `.name`: a sigil followed by `[a-z][a-z0-9_-]*`.

  datatype Sigil = Hash | Dot

  function SigilChar(g: Sigil): char {
    match g
    case Hash => '#'
    case Dot => '.'
  }

  /** The XPath predicate that `#name` (an id test) or `.name` (a whole-word class test)
      is rewritten to. */
  function SigilPredicate(g: Sigil, name: string): string {
    match g
    case Hash => "[@id='" + name + "']"
    case Dot => "[contains(concat(' ', " + "normalize-space(@class), " + "' '), ' " + name + " ')]"
  }

  /** Length of the `[a-z][a-z0-9_-]*` match at the start of `s`, 0 when there is none. */
  function NameLength(s: string): (n: nat)
    ensures n <= |s|
    ensures n == 0 <==> (s == [] || !IsLetter(s[0]))
  {
    if s != [] && IsLetter(s[0]) then 1 + WordRun(s[1..]) else 0
  }

  /** A non-empty match is a name and is maximal. */
  lemma NameLengthSpec(s: string)
    requires NameLength(s) > 0
    ensures IsName(s[..NameLength(s)])
    ensures NameLength(s) == |s| || !IsWordChar(s[NameLength(s)])
  {
    WordRunSpec(s[1..]);
    var n := NameLength(s);
    forall i | 0 <= i < n ensures IsWordChar(s[..n][i]) {
      if i > 0 { assert s[i] == s[1..][i - 1]; }
    }
  }

  function SigilStep(s: string, g: Sigil): string
    decreases |s|
  {
    if s == [] then []
    else if s[0] == SigilChar(g) && NameLength(s[1..]) > 0 then
      var n := NameLength(s[1..]);
      SigilPredicate(g, s[1..1 + n]) + SigilStep(s[1 + n..], g)
    else [s[0]] + SigilStep(s[1..], g)
  }

  /** Text without the sigil passes through unchanged. */
  lemma {:induction false} SigilStepPlain(g: Sigil, x: string, rest: string)
    requires SigilChar(g) !in x
    ensures SigilStep(x + rest, g) == x + SigilStep(rest, g)
  {
    if x == [] {
      assert x + rest == rest;
    } else {
      assert (x + rest)[1..] == x[1..] + rest;
      SigilStepPlain(g, x[1..], rest);
    }
  }

  /** A sigil, a letter-initial name, then a non-word character (or the end): the whole
      name is taken and replaced by its predicate. */
  lemma SigilStepName(g: Sigil, name: string, rest: string)
    requires IsName(name)
    requires rest == [] || !IsWordChar(rest[0])
    ensures SigilStep([SigilChar(g)] + name + rest, g) == SigilPredicate(g, name) + SigilStep(rest, g)
  {
    var s := [SigilChar(g)] + name + rest;
    assert s[1..] == name + rest;
    assert (name + rest)[1..] == name[1..] + rest;
    WordRunOf(name[1..], rest);
    assert NameLength(s[1..]) == |name|;
    assert s[1..1 + |name|] == name;
    assert s[1 + |name|..] == rest;
  }

  /** A sigil not followed by a letter is kept as it is. */
  lemma SigilStepBare(g: Sigil, rest: string)
    requires rest == [] || !IsLetter(rest[0])
    ensures SigilStep([SigilChar(g)] + rest, g) == [SigilChar(g)] + SigilStep(rest, g)
  {
    assert ([SigilChar(g)] + rest)[1..] == rest;
  }

  lemma SigilPredicateNoGt(g: Sigil, name: string)
    requires IsName(name)
    ensures '>' !in SigilPredicate(g, name)
  {
    assert forall i :: 0 <= i < |name| ==> name[i] != '>';
    assert '>' !in "[contains(concat(' ', ";
    assert '>' !in "normalize-space(@class), ";
  }

  /** The predicate a sigil step emits has no `>`, and the scan resumes after the name. */
  lemma SigilMatchNoGt(s: string, g: Sigil)
    requires s != [] && s[0] == SigilChar(g) && NameLength(s[1..]) > 0
    ensures var n := NameLength(s[1..]);
      1 + n <= |s| && '>' !in SigilPredicate(g, s[1..1 + n])
  {
    var n := NameLength(s[1..]);
    NameLengthSpec(s[1..]);
    assert s[1..][..n] == s[1..1 + n];
    SigilPredicateNoGt(g, s[1..1 + n]);
  }

  lemma {:induction false} SigilStepNoGt(s: string, g: Sigil)
    requires '>' !in s
    ensures '>' !in SigilStep(s, g)
  {
    if s != [] {
      if s[0] == SigilChar(g) && NameLength(s[1..]) > 0 {
        SigilMatchNoGt(s, g);
        SigilStepNoGt(s[1 + NameLength(s[1..])..], g);
      } else {
        SigilStepNoGt(s[1..], g);
      }
    }
  }

  // ---------------------------------------------------------------------------
  // (b') `preg_replace('|(?<![a-z0-9_-])(\[@id=)|i', '*$1', ...)`: a `*` node test is put
  // before every `[@id=` whose preceding subject character is not a word character.

  /** `[@id=` at the start of `s`, matched case-insensitively. */
  predicate IdOpenAt(s: string) {
    |s| >= 5 && s[0] == '[' && s[1] == '@' && LowerChar(s[2]) == 'i' && LowerChar(s[3]) == 'd' && s[4] == '='
  }

  /** `afterWord` is the lookbehind: whether the subject character just before the scan
      position is a word character (false at the start of the subject). */
  function StarStep(s: string, afterWord: bool): string
    decreases |s|
  {
    if s == [] then []
    else if !afterWord && IdOpenAt(s) then "*" + s[..5] + StarStep(s[5..], false)
    else [s[0]] + StarStep(s[1..], IsWordChar(s[0]))
  }

  /** Every `[` in `x` is followed, inside `x`, by something other than `@`. */
  predicate NoIdOpen(x: string) {
    forall i :: 0 <= i < |x| && x[i] == '[' ==> i + 1 < |x| && x[i + 1] != '@'
  }

  /** The lookbehind state after scanning `x` from state `b`. */
  function AfterText(x: string, b: bool): bool {
    if x == [] then b else IsWordChar(x[|x| - 1])
  }

  lemma {:induction false} StarStepPlain(x: string, rest: string, b: bool)
    requires NoIdOpen(x)
    ensures StarStep(x + rest, b) == x + StarStep(rest, AfterText(x, b))
  {
    if x == [] {
      assert x + rest == rest;
    } else {
      StarStepFirst(x, rest, b);
      StarStepPlain(x[1..], rest, IsWordChar(x[0]));
      assert AfterText(x[1..], IsWordChar(x[0])) == AfterText(x, b);
      ConsAssoc(x, StarStep(rest, AfterText(x, b)));
    }
  }

  /** The first character of text with no `[@` in it is copied. */
  lemma StarStepFirst(x: string, rest: string, b: bool)
    requires x != [] && NoIdOpen(x)
    ensures StarStep(x + rest, b) == [x[0]] + StarStep(x[1..] + rest, IsWordChar(x[0]))
    ensures NoIdOpen(x[1..])
  {
    assert !IdOpenAt(x + rest);
    assert (x + rest)[1..] == x[1..] + rest;
  }

  /** `[@id=` gets a `*` exactly when the lookbehind sees no word character. */
  lemma StarStepIdOpen(rest: string, b: bool)
    ensures StarStep("[@id=" + rest, b) == (if b then "" else "*") + "[@id=" + StarStep(rest, false)
  {
    var s := "[@id=" + rest;
    assert s[5..] == rest;
    assert s[..5] == "[@id=";
    if b {
      assert s[1..] == "@id=" + rest;
      assert NoIdOpen("@id=");
      StarStepPlain("@id=", rest, false);
    }
  }

  lemma {:induction false} StarStepNoGt(s: string, b: bool)
    requires '>' !in s
    ensures '>' !in StarStep(s, b)
  {
    if s != [] {
      if !b && IdOpenAt(s) {
        assert '>' !in s[..5];
        StarStepNoGt(s[5..], false);
      } else {
        StarStepNoGt(s[1..], IsWordChar(s[0]));
      }
    }
  }

  // ---------------------------------------------------------------------------
  // (c)-(e) Attribute selectors `[name="value"]`, `[name~="value"]`, `[name*="value"]`:
  // `\[([a-z0-9_-]+)OP['"]([^'"]+)['"]\]` under the `i` flag.

  datatype AttrOp = Equals | Includes | Contains

  function OpText(op: AttrOp): string {
    match op
    case Equals => "="
    case Includes => "~="
    case Contains => "*="
  }

  /** The source text of an attribute selector (the two quotes need not agree). */
  function AttrSource(op: AttrOp, name: string, open: char, value: string, close: char): string {
    "[" + name + OpText(op) + [open] + value + [close] + "]"
  }

  /** The XPath predicate an attribute selector becomes; the attribute name is lower-cased. */
  function AttrPredicate(op: AttrOp, name: string, value: string): string {
    match op
    case Equals => "[@" + Lower(name) + "='" + value + "']"
    case Includes =>
      "[contains(concat(' ', " + "normalize-space(@" + Lower(name) + "), ' '), ' " + value + " ')]"
    case Contains => "[contains(@" + Lower(name) + ", '" + value + "')]"
  }

  datatype AttrMatch = AttrMatch(name: string, open: char, value: string, close: char, len: nat)

  predicate QuoteFree(v: string) {
    forall i :: 0 <= i < |v| ==> !IsQuote(v[i])
  }

  /** The tail `'value']` of an attribute selector: the two quotes and the value. */
  datatype Quoted = Quoted(open: char, value: string, close: char)

  /** `['"]([^'"]+)['"]\]` at the start of `c`, if it matches. */
  function QuotedAt(c: string): (q: Option<Quoted>)
    ensures q.Some? ==> |q.value.value| + 3 <= |c|
  {
    if c == [] || !IsQuote(c[0]) then None
    else
      // The value run stops at a quote or at the end, so `e` is empty or starts with a quote.
      var v := QuoteFreeRun(c[1..]);
      var e := c[1 + v..];
      if v == 0 || |e| < 2 || e[1] != ']' then None
      else Some(Quoted(c[0], c[1..1 + v], e[0]))
  }

  lemma QuotedAtSound(c: string)
    requires QuotedAt(c).Some?
    ensures var q := QuotedAt(c).value;
      IsQuote(q.open) && IsQuote(q.close) && |q.value| > 0 && QuoteFree(q.value)
      && c == [q.open] + (q.value + ([q.close] + ("]" + c[|q.value| + 3..])))
  {
    var q := QuotedAt(c).value;
    var v := QuoteFreeRun(c[1..]);
    QuoteFreeRunSpec(c[1..]);
    var e := c[1 + v..];
    assert e == [q.close] + ("]" + e[2..]);
    assert c[|q.value| + 3..] == e[2..];
    assert c == [q.open] + (q.value + e);
  }

  lemma QuotedAtOf(open: char, value: string, close: char, rest: string)
    requires IsQuote(open) && IsQuote(close) && |value| > 0 && QuoteFree(value)
    ensures QuotedAt([open] + (value + ([close] + ("]" + rest)))) == Some(Quoted(open, value, close))
  {
    var e := [close] + ("]" + rest);
    var c := [open] + (value + e);
    assert c[1..] == value + e;
    QuoteFreeRunOf(value, e);
    assert c[1..1 + |value|] == value;
    assert c[1 + |value|..] == e;
  }

  /** The operator followed by the quoted value and `]`, at the start of `b`. */
  function OperandAt(b: string, op: AttrOp): (q: Option<Quoted>)
    ensures q.Some? ==> |OpText(op)| + |q.value.value| + 3 <= |b|
  {
    match op
    case Equals => if |b| >= 1 && b[0] == '=' then QuotedAt(b[1..]) else None
    case Includes => if |b| >= 2 && b[0] == '~' && b[1] == '=' then QuotedAt(b[2..]) else None
    case Contains => if |b| >= 2 && b[0] == '*' && b[1] == '=' then QuotedAt(b[2..]) else None
  }

  lemma OperandAtOf(op: AttrOp, c: string)
    ensures OperandAt(OpText(op) + c, op) == QuotedAt(c)
  {
    var o := OpText(op);
    assert (o + c)[|o|..] == c;
  }

  /** An operand starts with the operator, and the quoted value follows it. */
  lemma OperandAtSound(b: string, op: AttrOp)
    requires OperandAt(b, op).Some?
    ensures StartsWith(b, OpText(op)) && QuotedAt(b[|OpText(op)|..]) == OperandAt(b, op)
  {
  }

  /** The attribute-selector match at the start of `s`, if any: `[`, a word, the operator,
      then the quoted value and `]`. */
  function AttrAt(s: string, op: AttrOp): (m: Option<AttrMatch>)
    ensures m.Some? ==> 0 < m.value.len <= |s|
  {
    if s == [] || s[0] != '[' then None
    else
      var n := WordRun(s[1..]);
      if n == 0 then None
      else match OperandAt(s[1 + n..], op)
        case None => None
        case Some(q) => Some(AttrMatch(s[1..1 + n], q.open, q.value, q.close, 1 + n + |OpText(op)| + |q.value| + 3))
  }

  /** `AttrAt` on a text cut into `[`, a word and the rest `b`: it succeeds exactly when the
      operand does. */
  lemma AttrAtCut(s: string, name: string, b: string, op: AttrOp)
    requires |s| > |name| > 0 && s[0] == '[' && s[1..] == name + b && s[1 + |name|..] == b
    requires s[1..1 + |name|] == name && WordRun(name + b) == |name|
    ensures OperandAt(b, op).None? ==> AttrAt(s, op) == None
    ensures OperandAt(b, op).Some? ==> var q := OperandAt(b, op).value;
      AttrAt(s, op) == Some(AttrMatch(name, q.open, q.value, q.close, 1 + |name| + |OpText(op)| + |q.value| + 3))
  {
  }

  lemma BracketParts(name: string, b: string)
    ensures var s := "[" + (name + b);
      s[0] == '[' && s[1..] == name + b && s[1..1 + |name|] == name && s[1 + |name|..] == b
  {
  }

  /** The selector text, associated to the right as `AttrAt` takes it apart. */
  lemma AttrSourceNested(op: AttrOp, name: string, open: char, value: string, close: char, rest: string)
    ensures AttrSource(op, name, open, value, close) + rest
         == "[" + (name + (OpText(op) + ([open] + (value + ([close] + ("]" + rest))))))
  {
  }

  /** Reassembles the pieces peeled off by `AttrAt` into the selector text. */
  lemma AttrSourcePrefix(s: string, op: AttrOp, name: string, open: char, value: string, close: char,
                         rest: string)
    requires s == "[" + (name + (OpText(op) + ([open] + (value + ([close] + ("]" + rest))))))
    ensures s[..|AttrSource(op, name, open, value, close)|] == AttrSource(op, name, open, value, close)
  {
    AttrSourceNested(op, name, open, value, close, rest);
  }

  /** What `AttrAt` recognises is a well-formed attribute selector, spelled out. */
  lemma AttrAtSound(s: string, op: AttrOp)
    requires AttrAt(s, op).Some?
    ensures var m := AttrAt(s, op).value;
      IsWord(m.name) && IsQuote(m.open) && IsQuote(m.close) && |m.value| > 0 && QuoteFree(m.value)
      && s[..m.len] == AttrSource(op, m.name, m.open, m.value, m.close)
  {
    var m := AttrAt(s, op).value;
    var b := AttrAtShape(s, op);
    OperandAtSound(b, op);
    var c := b[|OpText(op)|..];
    QuotedAtSound(c);
    AttrAssemble(s, op, m.name, b, c, m.open, m.value, m.close);
  }

  /** The pieces of a match: the word is the maximal run after `[`, and the operand follows it. */
  lemma AttrAtShape(s: string, op: AttrOp) returns (b: string)
    requires AttrAt(s, op).Some?
    ensures var m := AttrAt(s, op).value;
      IsWord(m.name) && 1 + |m.name| <= |s| && s[0] == '[' && s[1..1 + |m.name|] == m.name
      && b == s[1 + |m.name|..] && OperandAt(b, op) == Some(Quoted(m.open, m.value, m.close))
      && m.len == 1 + |m.name| + |OpText(op)| + |m.value| + 3
  {
    WordRunSpec(s[1..]);
    b := s[1 + WordRun(s[1..])..];
  }

  /** The pieces `AttrAt` peels off, put back together. */
  lemma AttrAssemble(s: string, op: AttrOp, name: string, b: string, c: string,
                     open: char, value: string, close: char)
    requires 1 + |name| <= |s| && s[0] == '[' && s[1..1 + |name|] == name && s[1 + |name|..] == b
    requires StartsWith(b, OpText(op)) && c == b[|OpText(op)|..]
    requires |value| + 3 <= |c| && c == [open] + (value + ([close] + ("]" + c[|value| + 3..])))
    ensures s[..1 + |name| + |OpText(op)| + |value| + 3] == AttrSource(op, name, open, value, close)
  {
    SplitThree(s, 1, 1 + |name|);
    assert s[..1] == "[";
    StartsWithSplit(b, OpText(op));
    AttrSourcePrefix(s, op, name, open, value, close, c[|value| + 3..]);
  }

  /** A well-formed attribute selector is recognised whatever follows it. */
  lemma AttrAtSource(op: AttrOp, name: string, open: char, value: string, close: char, rest: string)
    requires IsWord(name) && IsQuote(open) && IsQuote(close) && |value| > 0 && QuoteFree(value)
    ensures AttrAt(AttrSource(op, name, open, value, close) + rest, op)
            == Some(AttrMatch(name, open, value, close, |AttrSource(op, name, open, value, close)|))
  {
    var b := OpText(op) + ([open] + (value + ([close] + ("]" + rest))));
    SourceCut(op, name, open, value, close, rest);
    WordRunOf(name, b);
    OperandAtQuoted(op, open, value, close, rest);
    AttrAtFound(AttrSource(op, name, open, value, close) + rest, name, b, op, open, value, close,
                |AttrSource(op, name, open, value, close)|);
  }

  lemma AttrAtFound(s: string, name: string, b: string, op: AttrOp, open: char, value: string,
                    close: char, len: nat)
    requires |s| > |name| > 0 && s[0] == '[' && s[1..] == name + b && s[1 + |name|..] == b
    requires s[1..1 + |name|] == name && WordRun(name + b) == |name|
    requires OperandAt(b, op) == Some(Quoted(open, value, close))
    requires len == 1 + |name| + |OpText(op)| + |value| + 3
    ensures AttrAt(s, op) == Some(AttrMatch(name, open, value, close, len))
  {
    AttrAtCut(s, name, b, op);
  }

  /** The selector text followed by `rest`, cut where `AttrAt` cuts it. */
  lemma SourceCut(op: AttrOp, name: string, open: char, value: string, close: char, rest: string)
    ensures var s := AttrSource(op, name, open, value, close) + rest;
      var b := OpText(op) + ([open] + (value + ([close] + ("]" + rest))));
      |s| > |name| && s[0] == '[' && s[1..] == name + b && s[1..1 + |name|] == name && s[1 + |name|..] == b
      && |AttrSource(op, name, open, value, close)| == 1 + |name| + |OpText(op)| + |value| + 3
      && b != [] && !IsWordChar(b[0])
  {
    AttrSourceNested(op, name, open, value, close, rest);
    BracketParts(name, OpText(op) + ([open] + (value + ([close] + ("]" + rest)))));
  }

  /** The operator, a quoted non-empty value and `]` form an operand. */
  lemma OperandAtQuoted(op: AttrOp, open: char, value: string, close: char, rest: string)
    requires IsQuote(open) && IsQuote(close) && |value| > 0 && QuoteFree(value)
    ensures OperandAt(OpText(op) + ([open] + (value + ([close] + ("]" + rest)))), op)
            == Some(Quoted(open, value, close))
  {
    QuotedAtOf(open, value, close, rest);
    OperandAtOf(op, [open] + (value + ([close] + ("]" + rest))));
  }

  function AttrStep(s: string, op: AttrOp): string
    decreases |s|
  {
    if s == [] then []
    else match AttrAt(s, op)
      case Some(m) => AttrPredicate(op, m.name, m.value) + AttrStep(s[m.len..], op)
      case None => [s[0]] + AttrStep(s[1..], op)
  }

  lemma AttrStepSource(op: AttrOp, name: string, open: char, value: string, close: char, rest: string)
    requires IsWord(name) && IsQuote(open) && IsQuote(close) && |value| > 0 && QuoteFree(value)
    ensures AttrStep(AttrSource(op, name, open, value, close) + rest, op)
            == AttrPredicate(op, name, value) + AttrStep(rest, op)
  {
    var x := AttrSource(op, name, open, value, close);
    AttrAtSource(op, name, open, value, close, rest);
    assert (x + rest)[|x|..] == rest;
  }

  /** Text without `[` passes through unchanged. */
  lemma {:induction false} AttrStepPlain(x: string, rest: string, op: AttrOp)
    requires '[' !in x
    ensures AttrStep(x + rest, op) == x + AttrStep(rest, op)
  {
    if x == [] {
      assert x + rest == rest;
    } else {
      AttrStepSkip(x + rest, op);
      assert (x + rest)[1..] == x[1..] + rest;
      AttrStepPlain(x[1..], rest, op);
      ConsAssoc(x, AttrStep(rest, op));
    }
  }

  /** A character at which no attribute selector starts is copied. */
  lemma AttrStepSkip(s: string, op: AttrOp)
    requires s != [] && AttrAt(s, op) == None
    ensures AttrStep(s, op) == [s[0]] + AttrStep(s[1..], op)
  {
  }

  /** No attribute selector starts at `[name=""]`: the value must not be empty. */
  lemma AttrAtEmptyValue(op: AttrOp, name: string, q: char, rest: string)
    requires IsWord(name) && IsQuote(q)
    ensures AttrAt("[" + (name + (OpText(op) + ([q, q] + ("]" + rest)))), op) == None
  {
    var c := [q, q] + ("]" + rest);
    var b := OpText(op) + c;
    WordRunOf(name, b);
    assert QuotedAt(c) == None by {
      assert c[1..] == [q] + ("]" + rest);
    }
    OperandAtOf(op, c);
    BracketParts(name, b);
    AttrAtCut("[" + (name + b), name, b, op);
  }

  /** An empty value is not an attribute selector: the text is copied as it is. */
  lemma AttrStepEmptyValue(op: AttrOp, name: string, q: char, rest: string)
    requires IsWord(name) && IsQuote(q)
    ensures var x := "[" + (name + (OpText(op) + ([q, q] + "]")));
      AttrStep(x + rest, op) == x + AttrStep(rest, op)
  {
    var t := name + (OpText(op) + ([q, q] + "]"));
    EmptyValueParts(op, name, q, rest);
    AttrAtEmptyValue(op, name, q, rest);
    AttrStepCopy("[" + t + rest, t, rest, op);
  }

  /** A `[` at which no selector starts, followed by text without `[`, is copied. */
  lemma AttrStepCopy(s: string, t: string, rest: string, op: AttrOp)
    requires s != [] && s[0] == '[' && s[1..] == t + rest && '[' !in t && AttrAt(s, op) == None
    ensures AttrStep(s, op) == "[" + t + AttrStep(rest, op)
  {
    AttrStepSkip(s, op);
    AttrStepPlain(t, rest, op);
  }

  lemma EmptyValueParts(op: AttrOp, name: string, q: char, rest: string)
    requires IsWord(name) && IsQuote(q)
    ensures var t := name + (OpText(op) + ([q, q] + "]"));
      '[' !in t && ("[" + t + rest)[1..] == t + rest && ("[" + t + rest)[0] == '['
      && "[" + t + rest == "[" + (name + (OpText(op) + ([q, q] + ("]" + rest))))
  {
    var t := name + (OpText(op) + ([q, q] + "]"));
    assert forall i :: 0 <= i < |t| ==> t[i] != '[';
  }

  lemma AttrPredicateNoGt(op: AttrOp, name: string, value: string)
    requires IsWord(name) && '>' !in value
    ensures '>' !in AttrPredicate(op, name, value)
  {
    var l := Lower(name);
    LowerWord(name);
    assert forall i :: 0 <= i < |l| ==> l[i] != '>';
    assert '>' !in "[contains(concat(' ', ";
    assert '>' !in "normalize-space(@";
  }

  /** The predicate emitted for a match in text without `>` has no `>` either. */
  lemma AttrMatchNoGt(s: string, op: AttrOp)
    requires '>' !in s && AttrAt(s, op).Some?
    ensures var m := AttrAt(s, op).value; '>' !in AttrPredicate(op, m.name, m.value)
  {
    var m := AttrAt(s, op).value;
    AttrAtSound(s, op);
    var x := AttrSource(op, m.name, m.open, m.value, m.close);
    var pre := "[" + m.name + OpText(op) + [m.open];
    assert x == pre + m.value + ([m.close] + "]");
    InsideNoGt(s, x, pre, m.value, [m.close] + "]");
    AttrPredicateNoGt(op, m.name, m.value);
  }

  /** A piece of a prefix of a `>`-free string is `>`-free. */
  lemma InsideNoGt(s: string, x: string, pre: string, v: string, post: string)
    requires '>' !in s && |x| <= |s| && s[..|x|] == x && x == pre + v + post
    ensures '>' !in v
  {
    forall k | 0 <= k < |v|
      ensures v[k] != '>'
    {
      assert x[|pre| + k] == v[k];
      assert s[|pre| + k] == x[|pre| + k];
    }
  }

  lemma {:induction false} AttrStepNoGt(s: string, op: AttrOp)
    requires '>' !in s
    ensures '>' !in AttrStep(s, op)
  {
    if s != [] {
      match AttrAt(s, op)
      case Some(m) =>
        AttrMatchNoGt(s, op);
        AttrStepNoGt(s[m.len..], op);
      case None =>
        AttrStepNoGt(s[1..], op);
    }
  }

  // ---------------------------------------------------------------------------
  // (g) `str_replace('**', '*', ...)`: one left-to-right pass over non-overlapping pairs.

  function CollapseStars(s: string): string
    decreases |s|
  {
    if |s| < 2 then s
    else if s[0] == '*' && s[1] == '*' then "*" + CollapseStars(s[2..])
    else [s[0]] + CollapseStars(s[1..])
  }

  lemma {:induction false} CollapseStarsPlain(x: string, rest: string)
    requires '*' !in x
    ensures CollapseStars(x + rest) == x + CollapseStars(rest)
  {
    if x == [] {
      assert x + rest == rest;
    } else if |x + rest| < 2 {
      assert rest == [] && x + rest == x;
    } else {
      assert (x + rest)[1..] == x[1..] + rest;
      CollapseStarsPlain(x[1..], rest);
    }
  }

  function Stars(k: nat): (r: string)
    ensures |r| == k && forall i :: 0 <= i < k ==> r[i] == '*'
  {
    if k == 0 then "" else "*" + Stars(k - 1)
  }

  /** A run of k stars becomes a run of ceil(k/2) stars: the pass pairs stars up from
      the left and never looks at a star it has produced. */
  lemma {:induction false} CollapseStarRun(k: nat, rest: string)
    requires rest == [] || rest[0] != '*'
    ensures CollapseStars(Stars(k) + rest) == Stars((k + 1) / 2) + CollapseStars(rest)
  {
    if k == 0 {
      assert Stars(0) + rest == rest;
    } else if k == 1 {
      LoneStar(rest);
    } else {
      StarPair(k, rest);
      CollapseStarRun(k - 2, rest);
      StarsHalf(k, CollapseStars(rest));
    }
  }

  lemma StarsHalf(k: nat, tail: string)
    requires k >= 2
    ensures "*" + (Stars((k - 2 + 1) / 2) + tail) == Stars((k + 1) / 2) + tail
  {
    assert (k - 2 + 1) / 2 + 1 == (k + 1) / 2;
  }

  /** A star not followed by another is copied. */
  lemma LoneStar(rest: string)
    requires rest == [] || rest[0] != '*'
    ensures CollapseStars(Stars(1) + rest) == Stars(1) + CollapseStars(rest)
  {
    if rest == [] {
      assert Stars(1) + rest == "*";
    } else {
      assert (Stars(1) + rest)[1..] == rest;
    }
  }

  /** The first two stars of a run become one. */
  lemma StarPair(k: nat, rest: string)
    requires k >= 2
    ensures CollapseStars(Stars(k) + rest) == "*" + CollapseStars(Stars(k - 2) + rest)
  {
    var s := Stars(k) + rest;
    assert s[0] == '*' && s[1] == '*';
    assert s[2..] == Stars(k - 2) + rest;
  }

  lemma {:induction false} CollapseStarsNoGt(s: string)
    requires '>' !in s
    ensures '>' !in CollapseStars(s)
  {
    if |s| >= 2 {
      if s[0] == '*' && s[1] == '*' {
        CollapseStarsNoGt(s[2..]);
      } else {
        CollapseStarsNoGt(s[1..]);
      }
    }
  }

  // ---------------------------------------------------------------------------
  // The whole chain, in the order of the source.

  function Tokenize(segment: string): string {
    var a := ChildToSlash(segment);
    var b := SigilStep(a, Hash);
    var c := StarStep(b, false);
    var d := AttrStep(c, Equals);
    var e := AttrStep(d, Includes);
    var f := AttrStep(e, Contains);
    var g := SigilStep(f, Dot);
    CollapseStars(g)
  }

  /** Tokenizer output never contains the child-combinator marker `>`. */
  lemma TokenizeNoChildMarker(segment: string)
    ensures '>' !in Tokenize(segment)
  {
    var a := ChildToSlash(segment);
    SigilStepNoGt(a, Hash);
    var b := SigilStep(a, Hash);
    StarStepNoGt(b, false);
    var c := StarStep(b, false);
    AttrStepNoGt(c, Equals);
    var d := AttrStep(c, Equals);
    AttrStepNoGt(d, Includes);
    var e := AttrStep(d, Includes);
    AttrStepNoGt(e, Contains);
    var f := AttrStep(e, Contains);
    SigilStepNoGt(f, Dot);
    CollapseStarsNoGt(SigilStep(f, Dot));
  }

  /** No character of `x` is one the rewrites look for (apart from `>`). */
  predicate Plain(x: string) {
    forall i :: 0 <= i < |x| ==> x[i] != '#' && x[i] != '[' && x[i] != '.' && x[i] != '*'
  }

  lemma PlainSlash(x: string)
    requires Plain(x)
    ensures var a := ChildToSlash(x);
      '#' !in a && '[' !in a && '.' !in a && '*' !in a && a + [] == a
  {
    var a := ChildToSlash(x);
    assert forall i :: 0 <= i < |a| ==> a[i] != '#' && a[i] != '[' && a[i] != '.' && a[i] != '*';
  }

  /** A segment without `#`, `[`, `.` or `*` (a tag name, possibly with child steps) only has
      its `>` turned into `/`. */
  lemma TokenizePlain(x: string)
    requires Plain(x)
    ensures Tokenize(x) == ChildToSlash(x)
  {
    var a := ChildToSlash(x);
    PlainSlash(x);
    SigilStepPlain(Hash, a, []);
    StarStepPlain(a, [], false);
    AttrStepPlain(a, [], Equals);
    AttrStepPlain(a, [], Includes);
    AttrStepPlain(a, [], Contains);
    SigilStepPlain(Dot, a, []);
    CollapseStarsPlain(a, []);
  }

  // ---------------------------------------------------------------------------
  // Whole segments: an element name (possibly with child steps) followed by one id, class
  // or attribute test, and what the chain of rewrites makes of it.

  lemma {:induction false} ChildToSlashAppend(x: string, y: string)
    ensures ChildToSlash(x + y) == ChildToSlash(x) + ChildToSlash(y)
  {
    if x == [] {
      assert x + y == y;
    } else {
      assert (x + y)[1..] == x[1..] + y;
      ChildToSlashAppend(x[1..], y);
    }
  }

  lemma ChildToSlashKeep(y: string)
    requires '>' !in y
    ensures ChildToSlash(y) == y
  {
    var r := ChildToSlash(y);
    forall i | 0 <= i < |y| ensures r[i] == y[i] {
      assert y[i] != '>';
    }
  }

  /** The element part of a segment and a test after it, with child steps made slashes. */
  lemma SlashParts(tag: string, test: string)
    requires Plain(tag) && '>' !in test
    ensures var t := ChildToSlash(tag);
      ChildToSlash(tag + test) == t + test && '#' !in t && '[' !in t && '.' !in t && '*' !in t
  {
    ChildToSlashAppend(tag, test);
    ChildToSlashKeep(test);
    PlainSlash(tag);
  }

  lemma WordNoMarks(name: string)
    requires IsWord(name)
    ensures '#' !in name && '[' !in name && '.' !in name && '*' !in name && '>' !in name
    ensures '\'' !in name && '@' !in name && ']' !in name
  {
    assert forall i :: 0 <= i < |name| ==> IsWordChar(name[i]);
  }

  /** The class predicate as the later steps see it. */
  lemma ClassPredicateMarks(name: string)
    requires IsName(name)
    ensures '*' !in SigilPredicate(Dot, name)
    ensures forall t :: '*' !in t ==> '*' !in t + SigilPredicate(Dot, name)
  {
    WordNoMarks(name);
    assert '*' !in "[contains(concat(' ', ";
    assert '*' !in "normalize-space(@class), ";
    assert '*' !in "' '), ' ";
  }

  /** The chain of rewrites, one step at a time. */
  lemma TokenizeCut(segment: string, a: string, b: string, c: string, d: string, e: string,
                    f: string, g: string, r: string)
    requires ChildToSlash(segment) == a && SigilStep(a, Hash) == b && StarStep(b, false) == c
    requires AttrStep(c, Equals) == d && AttrStep(d, Includes) == e && AttrStep(e, Contains) == f
    requires SigilStep(f, Dot) == g && CollapseStars(g) == r
    ensures Tokenize(segment) == r
  {
  }

  /** Text with no `#`, `[` or `*` goes through the id, `*` and attribute steps unchanged. */
  lemma MiddleSteps(a: string)
    requires '#' !in a && '[' !in a && '*' !in a
    ensures SigilStep(a, Hash) == a && StarStep(a, false) == a
    ensures AttrStep(a, Equals) == a && AttrStep(a, Includes) == a && AttrStep(a, Contains) == a
  {
    assert a + [] == a;
    SigilStepPlain(Hash, a, []);
    StarStepPlain(a, [], false);
    AttrStepPlain(a, [], Equals);
    AttrStepPlain(a, [], Includes);
    AttrStepPlain(a, [], Contains);
  }

  lemma NoStars(x: string)
    requires '*' !in x
    ensures CollapseStars(x) == x
  {
    CollapseStarsPlain(x, []);
    assert x + [] == x;
  }

  /** `tag.name`: the class test becomes a whole-word `contains` on `@class`. */
  lemma TokenizeClass(tag: string, name: string)
    requires Plain(tag) && IsName(name)
    ensures Tokenize(tag + "." + name) == ChildToSlash(tag) + SigilPredicate(Dot, name)
  {
    var t := ChildToSlash(tag);
    var a := t + ("." + name);
    var r := t + SigilPredicate(Dot, name);
    ClassSlash(tag, name);
    MiddleSteps(a);
    ClassStep(t, name);
    ClassPredicateMarks(name);
    NoStars(r);
    TokenizeCut(tag + "." + name, a, a, a, a, a, a, r, r);
  }

  /** The predicates of a chain of class tests, one after the other, so that an element must
      carry every one of the classes. */
  function ClassChain(names: seq<string>): string
    decreases |names|
  {
    if names == [] then "" else SigilPredicate(Dot, names[0]) + ClassChain(names[1..])
  }

  /** `tag.a.b…`: each class test becomes its own whole-word `contains` on `@class`, in the
      order written. */
  lemma TokenizeClasses(tag: string, names: seq<string>)
    requires Plain(tag) && |names| >= 1
    requires forall i :: 0 <= i < |names| ==> IsName(names[i])
    ensures Tokenize(tag + "." + Implode(".", names)) == ChildToSlash(tag) + ClassChain(names)
  {
    var s := "." + Implode(".", names);
    var t := ChildToSlash(tag);
    var a := t + s;
    var r := t + ClassChain(names);
    ClassNamesMarks(names);
    SlashParts(tag, s);
    assert tag + "." + Implode(".", names) == tag + s;
    MiddleSteps(a);
    SigilStepPlain(Dot, t, s);
    ClassesStep(names);
    assert '*' !in r;
    NoStars(r);
    TokenizeCut(tag + s, a, a, a, a, a, a, r, r);
  }

  /** Dot-joined class names carry none of the other marks, and neither do their predicates. */
  lemma {:induction false} ClassNamesMarks(names: seq<string>)
    requires |names| >= 1
    requires forall i :: 0 <= i < |names| ==> IsName(names[i])
    ensures var s := "." + Implode(".", names);
      '#' !in s && '[' !in s && '*' !in s && '>' !in s && '*' !in ClassChain(names)
    decreases |names|
  {
    WordNoMarks(names[0]);
    ClassPredicateMarks(names[0]);
    if |names| == 1 {
      assert ClassChain(names) == SigilPredicate(Dot, names[0]) + "";
    } else {
      ClassNamesMarks(names[1..]);
      assert "." + Implode(".", names) == "." + names[0] + ("." + Implode(".", names[1..]));
    }
  }

  /** The class rule turns `.a.b…` into the chain of predicates. */
  lemma {:induction false} ClassesStep(names: seq<string>)
    requires |names| >= 1
    requires forall i :: 0 <= i < |names| ==> IsName(names[i])
    ensures SigilStep("." + Implode(".", names), Dot) == ClassChain(names)
    decreases |names|
  {
    if |names| == 1 {
      SigilStepName(Dot, names[0], []);
      assert "." + Implode(".", names) == [SigilChar(Dot)] + names[0] + [];
      assert ClassChain(names) == SigilPredicate(Dot, names[0]) + "";
    } else {
      var rest := "." + Implode(".", names[1..]);
      SigilStepName(Dot, names[0], rest);
      assert "." + Implode(".", names) == [SigilChar(Dot)] + names[0] + rest;
      ClassesStep(names[1..]);
    }
  }

  lemma ClassSlash(tag: string, name: string)
    requires Plain(tag) && IsName(name)
    ensures var t := ChildToSlash(tag); var a := t + ("." + name);
      ChildToSlash(tag + "." + name) == a && '#' !in a && '[' !in a && '*' !in a && '.' !in t
  {
    WordNoMarks(name);
    SlashParts(tag, "." + name);
    assert tag + "." + name == tag + ("." + name);
  }

  lemma ClassStep(t: string, name: string)
    requires '.' !in t && IsName(name)
    ensures SigilStep(t + ("." + name), Dot) == t + SigilPredicate(Dot, name)
  {
    SigilStepPlain(Dot, t, "." + name);
    SigilStepName(Dot, name, []);
    assert "." + name == [SigilChar(Dot)] + name + [];
    assert SigilPredicate(Dot, name) + [] == SigilPredicate(Dot, name);
  }

  /** The node test `*` that the id rule puts before `[@id=` when no element name precedes. */
  function IdStar(t: string): string {
    if AfterText(t, false) then "" else "*"
  }

  /** `tag#name`: the id test becomes `[@id='name']`, on `*` when there is no element name
      just before it. */
  lemma TokenizeId(tag: string, name: string)
    requires Plain(tag) && IsName(name)
    ensures var t := ChildToSlash(tag);
      Tokenize(tag + "#" + name) == t + IdStar(t) + SigilPredicate(Hash, name)
  {
    var t := ChildToSlash(tag);
    var pred := SigilPredicate(Hash, name);
    var c := t + (IdStar(t) + pred);
    IdSlash(tag, name);
    IdStep(t, name);
    IdStarStep(t, name);
    IdLaterSteps(t, name);
    IdCollapse(t, name);
    TokenizeCut(tag + "#" + name, t + ("#" + name), t + pred, c, c, c, c, c, c);
  }

  lemma IdSlash(tag: string, name: string)
    requires Plain(tag) && IsName(name)
    ensures var t := ChildToSlash(tag);
      ChildToSlash(tag + "#" + name) == t + ("#" + name) && '#' !in t && '[' !in t && '.' !in t && '*' !in t
      && t + (IdStar(t) + SigilPredicate(Hash, name)) == t + IdStar(t) + SigilPredicate(Hash, name)
  {
    WordNoMarks(name);
    SlashParts(tag, "#" + name);
    assert tag + "#" + name == tag + ("#" + name);
  }

  /** The attribute and class steps leave the id predicate alone. */
  lemma IdLaterSteps(t: string, name: string)
    requires '[' !in t && '.' !in t && IsName(name)
    ensures var c := t + (IdStar(t) + SigilPredicate(Hash, name));
      AttrStep(c, Equals) == c && AttrStep(c, Includes) == c && AttrStep(c, Contains) == c
      && SigilStep(c, Dot) == c
  {
    var pred := SigilPredicate(Hash, name);
    var x := t + IdStar(t);
    IdPredicateMarks(name);
    assert x + pred == t + (IdStar(t) + pred);
    IdAttrStep(x, name, Equals);
    IdAttrStep(x, name, Includes);
    IdAttrStep(x, name, Contains);
    var c := x + pred;
    assert '.' !in c;
    SigilStepPlain(Dot, c, []);
    assert c + [] == c;
  }

  lemma IdPredicateMarks(name: string)
    requires IsName(name)
    ensures var pred := SigilPredicate(Hash, name);
      '.' !in pred && '*' !in pred && pred[0] == '[' && pred[1] == '@' && '[' !in pred[1..]
      && pred == "[@id=" + IdTail(name) && StarStep(IdTail(name), false) == IdTail(name)
  {
    WordNoMarks(name);
    IdTailStep(name);
  }

  lemma IdStep(t: string, name: string)
    requires '#' !in t && IsName(name)
    ensures SigilStep(t + ("#" + name), Hash) == t + SigilPredicate(Hash, name)
  {
    SigilStepPlain(Hash, t, "#" + name);
    SigilStepName(Hash, name, []);
    assert "#" + name == [SigilChar(Hash)] + name + [];
    assert SigilPredicate(Hash, name) + [] == SigilPredicate(Hash, name);
  }

  lemma IdStarStep(t: string, name: string)
    requires '[' !in t && IsName(name)
    ensures StarStep(t + SigilPredicate(Hash, name), false) == t + (IdStar(t) + SigilPredicate(Hash, name))
  {
    var q := IdTail(name);
    var p := "[@id=" + q;
    IdPredicateMarks(name);
    StarStepPlain(t, p, false);
    StarStepIdOpen(q, AfterText(t, false));
    Regroup(StarStep(t + p, false), t, StarStep(p, AfterText(t, false)), IdStar(t), "[@id=", q);
  }

  lemma Regroup(x: string, t: string, y: string, star: string, open: string, q: string)
    requires x == t + y && y == star + open + q
    ensures x == t + (star + (open + q))
  {
  }

  /** What follows `[@id=` in the id predicate. */
  function IdTail(name: string): string {
    "'" + name + "']"
  }

  lemma IdTailStep(name: string)
    requires IsName(name)
    ensures StarStep(IdTail(name), false) == IdTail(name)
  {
    var q := IdTail(name);
    WordNoMarks(name);
    assert '[' !in q;
    StarStepPlain(q, [], false);
    assert q + [] == q;
  }

  lemma IdAttrStep(x: string, name: string, op: AttrOp)
    requires '[' !in x && IsName(name)
    ensures AttrStep(x + SigilPredicate(Hash, name), op) == x + SigilPredicate(Hash, name)
  {
    var pred := SigilPredicate(Hash, name);
    IdPredicateMarks(name);
    assert AttrAt(pred, op) == None by {
      assert WordRun(pred[1..]) == 0;
    }
    AttrStepInert(x, pred, op);
  }

  lemma IdCollapse(t: string, name: string)
    requires '*' !in t && IsName(name)
    ensures var x := t + (IdStar(t) + SigilPredicate(Hash, name)); CollapseStars(x) == x
  {
    var pred := SigilPredicate(Hash, name);
    IdPredicateMarks(name);
    CollapseStarsPlain(t, IdStar(t) + pred);
    NoStars(pred);
    if IdStar(t) == "*" {
      StarBeforeBracket(pred);
    } else {
      assert IdStar(t) + pred == pred;
    }
  }

  lemma StarBeforeBracket(p: string)
    requires p != [] && p[0] == '[' && CollapseStars(p) == p
    ensures CollapseStars("*" + p) == "*" + p
  {
    var s := "*" + p;
    assert s[1] == '[' && s[1..] == p;
  }

  /** A value the earlier and later rewrites leave alone inside an attribute test. */
  predicate InertValue(value: string) {
    |value| > 0 && QuoteFree(value) && Plain(value) && '>' !in value
  }

  /** `tag[name="value"]` (or `~=`, `*=`): the attribute test becomes its predicate, with the
      attribute name lower-cased. */
  lemma TokenizeAttr(tag: string, op: AttrOp, name: string, open: char, value: string, close: char)
    requires Plain(tag) && IsWord(name) && IsQuote(open) && IsQuote(close) && InertValue(value)
    ensures Tokenize(tag + AttrSource(op, name, open, value, close))
            == ChildToSlash(tag) + AttrPredicate(op, name, value)
  {
    var t := ChildToSlash(tag);
    var src := AttrSource(op, name, open, value, close);
    var pred := AttrPredicate(op, name, value);
    AttrSourceMarks(op, name, open, value, close);
    SlashParts(tag, src);
    var a := t + src;
    AttrEarlySteps(t, src);
    AttrSteps(t, op, name, open, value, close);
    AttrPredicateMarks(op, name, value);
    var r := t + pred;
    assert '.' !in r && '*' !in r && r + [] == r;
    SigilStepPlain(Dot, r, []);
    NoStars(r);
    var d := AttrStep(a, Equals);
    var e := AttrStep(d, Includes);
    TokenizeCut(tag + src, a, a, a, d, e, r, r, r);
  }

  /** The id and `*` steps leave an attribute test alone. */
  lemma AttrEarlySteps(t: string, src: string)
    requires '#' !in t && '[' !in t && '#' !in src && src != [] && src[0] == '['
    requires '[' !in src[1..] && |src| > 1 && src[1] != '@'
    ensures SigilStep(t + src, Hash) == t + src && StarStep(t + src, false) == t + src
  {
    var a := t + src;
    assert '#' !in a && a + [] == a;
    SigilStepPlain(Hash, a, []);
    assert forall i :: 1 <= i < |src| ==> src[i] == src[1..][i - 1];
    assert NoIdOpen(src);
    StarStepPlain(t, src, false);
    StarStepPlain(src, [], AfterText(t, false));
    assert src + [] == src;
  }

  lemma AttrSourceMarks(op: AttrOp, name: string, open: char, value: string, close: char)
    requires IsWord(name) && IsQuote(open) && IsQuote(close) && InertValue(value)
    ensures var src := AttrSource(op, name, open, value, close);
      '>' !in src && '#' !in src && src[0] == '[' && |src| > 1 && src[1] == name[0] && src[1] != '@'
      && '[' !in src[1..]
  {
    var tail := name + (OpText(op) + ([open] + (value + ([close] + "]"))));
    SourceTailMarks(op, name, open, value, close);
    AttrSourceNested(op, name, open, value, close, []);
    BracketOf(AttrSource(op, name, open, value, close), tail);
  }

  lemma BracketOf(src: string, tail: string)
    requires src + [] == "[" + tail && tail != [] && '[' !in tail && '#' !in tail && '>' !in tail
    ensures '>' !in src && '#' !in src && src[0] == '[' && |src| > 1 && src[1] == tail[0]
      && '[' !in src[1..]
  {
    assert src == "[" + tail && src[1..] == tail;
  }

  /** The attribute test after its `[`: name, operator, quotes and value. */
  lemma SourceTailMarks(op: AttrOp, name: string, open: char, value: string, close: char)
    requires IsWord(name) && IsQuote(open) && IsQuote(close) && InertValue(value)
    ensures var tail := name + (OpText(op) + ([open] + (value + ([close] + "]"))));
      tail != [] && tail[0] == name[0] && tail[0] != '@' && '[' !in tail && '#' !in tail && '>' !in tail
  {
    WordNoMarks(name);
    assert forall i :: 0 <= i < |value| ==> value[i] != '[' && value[i] != '#';
    var rest := [open] + (value + ([close] + "]"));
    assert '[' !in rest && '#' !in rest && '>' !in rest;
    assert '[' !in OpText(op) && '#' !in OpText(op) && '>' !in OpText(op);
  }

  /** What the three attribute steps make of the test: the steps for other operators pass
      it over, and the predicate its own step writes is passed over by the rest. */
  lemma AttrSteps(t: string, op: AttrOp, name: string, open: char, value: string, close: char)
    requires '[' !in t && IsWord(name) && IsQuote(open) && IsQuote(close) && InertValue(value)
    ensures var a := t + AttrSource(op, name, open, value, close);
      AttrStep(AttrStep(AttrStep(a, Equals), Includes), Contains) == t + AttrPredicate(op, name, value)
  {
    var src := AttrSource(op, name, open, value, close);
    var pred := AttrPredicate(op, name, value);
    var a := t + src;
    AttrStepOwn(t, op, name, open, value, close);
    match op
    case Equals =>
      AttrStepPassed(t, op, name, value, Includes);
      AttrStepPassed(t, op, name, value, Contains);
    case Includes =>
      AttrStepOther(t, op, name, open, value, close, Equals);
      AttrStepPassed(t, op, name, value, Contains);
    case Contains =>
      AttrStepOther(t, op, name, open, value, close, Equals);
      AttrStepOther(t, op, name, open, value, close, Includes);
  }

  /** The step for the test's own operator writes the predicate. */
  lemma AttrStepOwn(t: string, op: AttrOp, name: string, open: char, value: string, close: char)
    requires '[' !in t && IsWord(name) && IsQuote(open) && IsQuote(close) && InertValue(value)
    ensures AttrStep(t + AttrSource(op, name, open, value, close), op) == t + AttrPredicate(op, name, value)
  {
    var src := AttrSource(op, name, open, value, close);
    AttrStepPlain(t, src, op);
    AttrStepSource(op, name, open, value, close, []);
    assert src + [] == src;
    assert AttrPredicate(op, name, value) + [] == AttrPredicate(op, name, value);
  }

  /** The step for another operator copies the test. */
  lemma AttrStepOther(t: string, op: AttrOp, name: string, open: char, value: string, close: char,
                      op2: AttrOp)
    requires op != op2
    requires '[' !in t && IsWord(name) && IsQuote(open) && IsQuote(close) && InertValue(value)
    ensures var a := t + AttrSource(op, name, open, value, close); AttrStep(a, op2) == a
  {
    var src := AttrSource(op, name, open, value, close);
    AttrAtOther(op, name, open, value, close, op2);
    AttrSourceMarks(op, name, open, value, close);
    AttrStepInert(t, src, op2);
  }

  lemma AttrAtOther(op: AttrOp, name: string, open: char, value: string, close: char, op2: AttrOp)
    requires op != op2 && IsWord(name)
    ensures AttrAt(AttrSource(op, name, open, value, close), op2) == None
  {
    var b := OpText(op) + ([open] + (value + ([close] + ("]" + []))));
    SourceCut(op, name, open, value, close, []);
    WordRunOf(name, b);
    OperandAtOther(op, op2, [open] + (value + ([close] + ("]" + []))));
    var src := AttrSource(op, name, open, value, close);
    assert src + [] == src;
    AttrAtCut(src, name, b, op2);
  }

  lemma OperandAtOther(op: AttrOp, op2: AttrOp, c: string)
    requires op != op2
    ensures OperandAt(OpText(op) + c, op2) == None
  {
  }

  /** A predicate already written is passed over by every attribute step. */
  lemma AttrStepPassed(t: string, op: AttrOp, name: string, value: string, op2: AttrOp)
    requires '[' !in t && IsWord(name) && InertValue(value)
    ensures AttrStep(t + AttrPredicate(op, name, value), op2) == t + AttrPredicate(op, name, value)
  {
    AttrPredicateMarks(op, name, value);
    AttrAtPredicate(op, name, value, op2);
    AttrStepInert(t, AttrPredicate(op, name, value), op2);
  }

  /** Text with one `[`, at which no selector starts, is copied. */
  lemma AttrStepInert(t: string, p: string, op: AttrOp)
    requires '[' !in t && |p| > 1 && p[0] == '[' && '[' !in p[1..] && AttrAt(p, op) == None
    ensures AttrStep(t + p, op) == t + p
  {
    AttrStepPlain(t, p, op);
    assert p[1..] == p[1..] + [];
    AttrStepCopy(p, p[1..], [], op);
  }

  lemma AttrAtPredicate(op: AttrOp, name: string, value: string, op2: AttrOp)
    requires IsWord(name) && InertValue(value)
    ensures AttrAt(AttrPredicate(op, name, value), op2) == None
  {
    var pred := AttrPredicate(op, name, value);
    AttrPredicateMarks(op, name, value);
    if op == Equals {
      assert WordRun(pred[1..]) == 0;
    } else {
      AttrAtContains(pred, op2);
    }
  }

  /** No selector starts at `[contains(`: the word `contains` is followed by `(`. */
  lemma AttrAtContains(p: string, op: AttrOp)
    requires |p| > 9 && p[0] == '[' && p[1..9] == "contains" && p[9] == '('
    ensures AttrAt(p, op) == None
  {
    var b := p[9..];
    assert p == "[" + ("contains" + b);
    WordRunOf("contains", b);
    BracketParts("contains", b);
    AttrAtCut(p, "contains", b, op);
  }

  /** The predicate opens with its only `[`, then `@` or `contains(`, and has no `.` or `*`. */
  lemma AttrPredicateMarks(op: AttrOp, name: string, value: string)
    requires IsWord(name) && InertValue(value)
    ensures var pred := AttrPredicate(op, name, value);
      |pred| > 1 && pred[0] == '[' && '[' !in pred[1..] && '.' !in pred && '*' !in pred
      && (op == Equals ==> pred[1] == '@')
      && (op != Equals ==> |pred| > 9 && pred[1..9] == "contains" && pred[9] == '(')
  {
    var l := Lower(name);
    LowerWord(name);
    WordNoMarks(l);
    assert forall i :: 0 <= i < |value| ==> value[i] != '[' && value[i] != '.' && value[i] != '*';
    match op
    case Equals => EqualsMarks(l, value);
    case Includes => IncludesMarks(l, value);
    case Contains => ContainsMarks(l, value);
  }

  predicate Unmarked(x: string) {
    '[' !in x && '.' !in x && '*' !in x
  }

  lemma EqualsMarks(l: string, value: string)
    requires Unmarked(l) && Unmarked(value)
    ensures var pred := "[@" + l + "='" + value + "']";
      |pred| > 1 && pred[0] == '[' && pred[1] == '@' && Unmarked(pred[1..]) && '[' !in pred[1..]
  {
    var tail := "@" + l + "='" + value + "']";
    assert Unmarked("='") && Unmarked("']") && Unmarked("@");
    assert Unmarked(tail);
    assert "[@" + l + "='" + value + "']" == "[" + tail;
  }

  lemma IncludesMarks(l: string, value: string)
    requires Unmarked(l) && Unmarked(value)
    ensures var pred := "[contains(concat(' ', " + "normalize-space(@" + l + "), ' '), ' " + value + " ')]";
      |pred| > 9 && pred[0] == '[' && pred[1..9] == "contains" && pred[9] == '(' && Unmarked(pred[1..])
  {
    var tail := "contains(concat(' ', " + "normalize-space(@" + l + "), ' '), ' " + value + " ')]";
    IncludesTail(l, value);
    BracketTail("[contains(concat(' ', " + "normalize-space(@" + l + "), ' '), ' " + value + " ')]", tail);
  }

  lemma IncludesTail(l: string, value: string)
    requires Unmarked(l) && Unmarked(value)
    ensures var tail := "contains(concat(' ', " + "normalize-space(@" + l + "), ' '), ' " + value + " ')]";
      Unmarked(tail) && |tail| > 8 && tail[..8] == "contains" && tail[8] == '('
      && "[contains(concat(' ', " + "normalize-space(@" + l + "), ' '), ' " + value + " ')]" == "[" + tail
  {
    IncludesUnmarked(l, value);
    IncludesPrefix("normalize-space(@" + l + "), ' '), ' " + value + " ')]");
  }

  lemma IncludesUnmarked(l: string, value: string)
    requires Unmarked(l) && Unmarked(value)
    ensures Unmarked("contains(concat(' ', " + "normalize-space(@" + l + "), ' '), ' " + value + " ')]")
  {
    IncludesLiterals();
  }

  lemma IncludesPrefix(r: string)
    ensures var tail := "contains(concat(' ', " + r;
      |tail| > 8 && tail[..8] == "contains" && tail[8] == '(' && "[contains(concat(' ', " + r == "[" + tail
  {
  }

  lemma IncludesLiterals()
    ensures Unmarked("contains(concat(' ', ") && Unmarked("normalize-space(@")
    ensures Unmarked("), ' '), ' ") && Unmarked(" ')]")
  {
    ContainsLiteral();
    NormalizeLiteral();
  }

  lemma ContainsLiteral()
    ensures Unmarked("contains(concat(' ', ")
  {
    assert Unmarked("contains(") && Unmarked("concat(' ', ");
    assert "contains(concat(' ', " == "contains(" + "concat(' ', ";
  }

  lemma NormalizeLiteral()
    ensures Unmarked("normalize-space(@")
  {
    assert Unmarked("normalize-") && Unmarked("space(@");
    assert "normalize-space(@" == "normalize-" + "space(@";
  }

  lemma BracketTail(pred: string, tail: string)
    requires pred == "[" + tail && |tail| > 8 && tail[..8] == "contains" && tail[8] == '(' && Unmarked(tail)
    ensures |pred| > 9 && pred[0] == '[' && pred[1..9] == "contains" && pred[9] == '(' && Unmarked(pred[1..])
  {
    assert pred[1..] == tail;
  }

  lemma ContainsMarks(l: string, value: string)
    requires Unmarked(l) && Unmarked(value)
    ensures var pred := "[contains(@" + l + ", '" + value + "')]";
      |pred| > 9 && pred[0] == '[' && pred[1..9] == "contains" && pred[9] == '(' && Unmarked(pred[1..])
  {
    var tail := "contains(@" + l + ", '" + value + "')]";
    assert Unmarked("contains(@") && Unmarked(", '") && Unmarked("')]");
    assert Unmarked(tail);
    assert "[contains(@" + l + ", '" + value + "')]" == "[" + tail;
  }
}
