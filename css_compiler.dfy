/** `transformCSS`: a CSS selector becomes an XPath expression. Spaces around `>` are
    dropped, the selector is split on whitespace, every segment is tokenized and the
    segments are stitched into one or more `//`-rooted alternatives joined by `|`. */
module CssCompiler {
  import opened Text
  import opened CssTokenizer

  // ---------------------------------------------------------------------------
  // `preg_replace('|\s+>\s+|', '>', ...)`

  /** Length of the leading whitespace run: what a greedy `\s+` (or `\s*`) takes. */
  function SpaceRun(s: string): (n: nat)
    ensures n <= |s|
  {
    if s != [] && IsSpace(s[0]) then 1 + SpaceRun(s[1..]) else 0
  }

  predicate AllSpace(w: string) {
    forall i :: 0 <= i < |w| ==> IsSpace(w[i])
  }

  predicate NoSpace(x: string) {
    forall i :: 0 <= i < |x| ==> !IsSpace(x[i])
  }

  lemma {:induction false} SpaceRunOf(w: string, t: string)
    requires AllSpace(w)
    requires t == [] || !IsSpace(t[0])
    ensures SpaceRun(w + t) == |w|
  {
    if w != [] {
      assert (w + t)[1..] == w[1..] + t;
      SpaceRunOf(w[1..], t);
    } else {
      assert w + t == t;
    }
  }

  /** Length of the `\s+>\s+` match at the start of `s`, 0 when there is none. */
  function ChildRun(s: string): (n: nat)
    ensures n <= |s|
  {
    if s == [] || !IsSpace(s[0]) then 0
    else
      var w := SpaceRun(s);
      if w < |s| && s[w] == '>' && SpaceRun(s[w + 1..]) > 0 then w + 1 + SpaceRun(s[w + 1..]) else 0
  }

  /** One left-to-right pass: each `\s+>\s+` match becomes `>`; elsewhere the character is
      kept and the scan moves on by one. */
  function CollapseChild(s: string): string
    decreases |s|
  {
    if s == [] then []
    else if ChildRun(s) > 0 then ">" + CollapseChild(s[ChildRun(s)..])
    else [s[0]] + CollapseChild(s[1..])
  }

  /** Text without whitespace passes through unchanged. */
  lemma {:induction false} CollapseChildPlain(x: string, rest: string)
    requires NoSpace(x)
    ensures CollapseChild(x + rest) == x + CollapseChild(rest)
  {
    if x == [] {
      assert x + rest == rest;
    } else {
      CollapseChildSkip(x + rest);
      assert (x + rest)[1..] == x[1..] + rest;
      CollapseChildPlain(x[1..], rest);
      ConsAssoc(x, CollapseChild(rest));
    }
  }

  /** Whitespace, `>`, whitespace collapses to `>`, whatever the lengths of the two runs. */
  lemma CollapseChildGt(w1: string, w2: string, rest: string)
    requires |w1| > 0 && |w2| > 0 && AllSpace(w1) && AllSpace(w2)
    requires rest == [] || !IsSpace(rest[0])
    ensures CollapseChild(w1 + (">" + (w2 + rest))) == ">" + CollapseChild(rest)
  {
    GtParts(w1, w2, rest);
    CollapseChildAt(w1 + (">" + (w2 + rest)), |w1| + 1 + |w2|, rest);
  }

  lemma GtParts(w1: string, w2: string, rest: string)
    requires |w1| > 0 && |w2| > 0 && AllSpace(w1) && AllSpace(w2)
    requires rest == [] || !IsSpace(rest[0])
    ensures var s := w1 + (">" + (w2 + rest));
      ChildRun(s) == |w1| + 1 + |w2| && s[|w1| + 1 + |w2|..] == rest
  {
    var s := w1 + (">" + (w2 + rest));
    SpaceRunOf(w1, ">" + (w2 + rest));
    SpaceRunOf(w2, rest);
    assert s[|w1| + 1..] == w2 + rest;
  }

  /** The collapsing case of the scan, on any text. */
  lemma CollapseChildAt(s: string, n: nat, rest: string)
    requires ChildRun(s) == n > 0 && s[n..] == rest
    ensures CollapseChild(s) == ">" + CollapseChild(rest)
  {
  }

  /** Whitespace not followed by `>` is kept. */
  lemma {:induction false} CollapseChildSpace(w: string, rest: string)
    requires AllSpace(w)
    requires rest == [] || (!IsSpace(rest[0]) && rest[0] != '>')
    ensures CollapseChild(w + rest) == w + CollapseChild(rest)
  {
    if w == [] {
      assert w + rest == rest;
    } else {
      SpaceNoChild(w, rest);
      CollapseChildSkip(w + rest);
      assert (w + rest)[1..] == w[1..] + rest;
      CollapseChildSpace(w[1..], rest);
      ConsAssoc(w, CollapseChild(rest));
    }
  }

  lemma SpaceNoChild(w: string, rest: string)
    requires AllSpace(w) && w != []
    requires rest == [] || (!IsSpace(rest[0]) && rest[0] != '>')
    ensures ChildRun(w + rest) == 0 && (w + rest)[0] == w[0]
  {
    SpaceRunOf(w, rest);
    if rest != [] {
      assert (w + rest)[|w|] == rest[0];
    }
  }

  /** Where no `\s+>\s+` starts, the character is kept. */
  lemma CollapseChildSkip(s: string)
    requires s != [] && ChildRun(s) == 0
    ensures CollapseChild(s) == [s[0]] + CollapseChild(s[1..])
  {
  }

  // ---------------------------------------------------------------------------
  // `preg_split('/\s+/', ...)`

  /** The pieces between the whitespace runs, empty pieces at the ends included. */
  function SplitSpace(s: string): (parts: seq<string>)
    ensures |parts| >= 1
    decreases |s|
  {
    if s == [] then [""]
    else if IsSpace(s[0]) then [""] + SplitSpace(s[SpaceRun(s)..])
    else
      var rest := SplitSpace(s[1..]);
      [[s[0]] + rest[0]] + rest[1..]
  }

  /** The pieces hold no whitespace. */
  lemma {:induction false} SplitSpaceNoSpace(s: string)
    ensures forall i :: 0 <= i < |SplitSpace(s)| ==> NoSpace(SplitSpace(s)[i])
    decreases |s|
  {
    if s == [] {
    } else if IsSpace(s[0]) {
      SplitSpaceNoSpace(s[SpaceRun(s)..]);
    } else {
      SplitSpaceNoSpace(s[1..]);
      var rest := SplitSpace(s[1..]);
      assert NoSpace(rest[0]);
      assert NoSpace([s[0]] + rest[0]);
    }
  }

  /** A piece without whitespace followed by a whitespace run (or the end). */
  lemma {:induction false} SplitSpacePiece(x: string, w: string, rest: string)
    requires NoSpace(x) && AllSpace(w)
    requires w == [] ==> rest == []
    requires rest == [] || !IsSpace(rest[0])
    ensures w == [] ==> SplitSpace(x + w + rest) == [x]
    ensures w != [] ==> SplitSpace(x + w + rest) == [x] + SplitSpace(rest)
  {
    if x == [] {
      assert x + w + rest == w + rest;
      if w != [] {
        SpaceRunOf(w, rest);
        assert (w + rest)[|w|..] == rest;
      }
    } else {
      assert (x + w + rest)[1..] == x[1..] + w + rest;
      SplitSpacePiece(x[1..], w, rest);
      assert [x[0]] + x[1..] == x;
    }
  }

  /** Splitting the single-space join of non-empty whitespace-free pieces gives the pieces. */
  lemma {:induction false} SplitSpaceImplode(parts: seq<string>)
    requires |parts| >= 1
    requires forall i :: 0 <= i < |parts| ==> |parts[i]| > 0 && NoSpace(parts[i])
    ensures SplitSpace(Implode(" ", parts)) == parts
  {
    if |parts| == 1 {
      SplitSpacePiece(parts[0], "", "");
      assert parts[0] + "" + "" == parts[0];
    } else {
      var tail := Implode(" ", parts[1..]);
      SplitSpaceImplode(parts[1..]);
      assert tail == parts[1] || tail[..|parts[1]|] == parts[1] by {
        ImplodeHead(" ", parts[1..]);
      }
      assert tail != [] && !IsSpace(tail[0]);
      SplitSpacePiece(parts[0], " ", tail);
      assert Implode(" ", parts) == parts[0] + " " + tail;
      assert [parts[0]] + parts[1..] == parts;
    }
  }

  /** A join starts with its first piece. */
  lemma ImplodeHead(sep: string, parts: seq<string>)
    requires |parts| >= 1
    ensures |parts[0]| <= |Implode(sep, parts)| && Implode(sep, parts)[..|parts[0]|] == parts[0]
  {
    if |parts| > 1 {
      assert Implode(sep, parts) == parts[0] + (sep + Implode(sep, parts[1..]));
    }
  }

  // ---------------------------------------------------------------------------
  // Stitching the segments together.

  /** The tokens whose alternatives fan out: they start with `[contains(` (a class or a
      `~=`/`*=` attribute test with no element before it). */
  predicate OpensContains(tok: string) {
    StartsWith(tok, "[contains(")
  }

  /** `ltrim($s, '*')`. */
  function TrimStars(s: string): (r: string)
    ensures |r| <= |s| && r == s[|s| - |r|..] && (r == [] || r[0] != '*')
  {
    if s != [] && s[0] == '*' then TrimStars(s[1..]) else s
  }

  /** The alternative built from the first segment: a leading predicate gets the `*` node test. */
  function FirstPath(tok: string): string {
    if OpensContains(tok) then "//" + ("*" + TrimStars(tok)) else "//" + tok
  }

  function Append(paths: seq<string>, suffix: string): (r: seq<string>)
    ensures |r| == |paths| && forall i :: 0 <= i < |paths| ==> r[i] == paths[i] + suffix
  {
    seq(|paths|, i requires 0 <= i < |paths| => paths[i] + suffix)
  }

  /** One later segment: a plain token is a descendant step on every alternative; a token that
      opens with `[contains(` doubles them, as a descendant `*` step and as a predicate on the
      last step of the alternative. */
  function Extend(paths: seq<string>, tok: string): seq<string> {
    if OpensContains(tok) then Append(paths, "//*" + TrimStars(tok)) + Append(paths, tok)
    else Append(paths, "//" + tok)
  }

  /** The alternatives once the given tokens have been stitched in: `//` before any, the
      first token's alternative after one, then one `Extend` per later token. */
  function Stitch(toks: seq<string>): (paths: seq<string>)
    ensures |paths| >= 1
    decreases |toks|
  {
    if toks == [] then ["//"]
    else if |toks| == 1 then [FirstPath(toks[0])]
    else Extend(Stitch(toks[..|toks| - 1]), toks[|toks| - 1])
  }

  function JoinPaths(paths: seq<string>): string {
    if |paths| == 1 then paths[0] else Implode("|", paths)
  }

  /** The segments, each through the tokenizer. */
  function Tokens(segments: seq<string>): (toks: seq<string>)
    ensures |toks| == |segments|
  {
    if segments == [] then [] else [Tokenize(segments[0])] + Tokens(segments[1..])
  }

  lemma {:induction false} TokensAt(segments: seq<string>, i: nat)
    requires i < |segments|
    ensures Tokens(segments)[i] == Tokenize(segments[i])
  {
    if i > 0 {
      TokensAt(segments[1..], i - 1);
    }
  }

  /** What a selector without `,` compiles to. */
  function Compile(selector: string): string {
    JoinPaths(Stitch(Tokens(SplitSpace(CollapseChild(selector)))))
  }

  // ---------------------------------------------------------------------------
  // Properties of the stitching.

  /** The leading `*` of the first rule: a token opening with `[` has no `*` to trim. */
  lemma FirstPathStar(tok: string)
    requires OpensContains(tok)
    ensures FirstPath(tok) == "//*" + tok
  {
    assert tok[0] == '[';
  }

  lemma AppendStartsWith(paths: seq<string>, suffix: string)
    requires forall i :: 0 <= i < |paths| ==> StartsWith(paths[i], "//")
    ensures forall i :: 0 <= i < |paths| ==> StartsWith(Append(paths, suffix)[i], "//")
  {
    forall i | 0 <= i < |paths| ensures StartsWith(Append(paths, suffix)[i], "//") {
      assert (paths[i] + suffix)[..2] == paths[i][..2];
    }
  }

  lemma ExtendStartsWith(paths: seq<string>, tok: string)
    requires forall i :: 0 <= i < |paths| ==> StartsWith(paths[i], "//")
    ensures forall i :: 0 <= i < |Extend(paths, tok)| ==> StartsWith(Extend(paths, tok)[i], "//")
  {
    if OpensContains(tok) {
      var left := Append(paths, "//*" + TrimStars(tok));
      var right := Append(paths, tok);
      AppendStartsWith(paths, "//*" + TrimStars(tok));
      AppendStartsWith(paths, tok);
      forall i | 0 <= i < |left + right| ensures StartsWith((left + right)[i], "//") {
        if i >= |left| {
          assert (left + right)[i] == right[i - |left|];
        }
      }
    } else {
      AppendStartsWith(paths, "//" + tok);
    }
  }

  /** Every alternative is rooted with `//`. */
  lemma {:induction false} StitchStartsWith(toks: seq<string>)
    ensures forall i :: 0 <= i < |Stitch(toks)| ==> StartsWith(Stitch(toks)[i], "//")
    decreases |toks|
  {
    if |toks| > 1 {
      StitchStartsWith(toks[..|toks| - 1]);
      ExtendStartsWith(Stitch(toks[..|toks| - 1]), toks[|toks| - 1]);
    }
  }

  /** The number of tokens that open with `[contains(`. */
  function Fanouts(toks: seq<string>): nat
    decreases |toks|
  {
    if toks == [] then 0
    else Fanouts(toks[..|toks| - 1]) + (if OpensContains(toks[|toks| - 1]) then 1 else 0)
  }

  function Pow2(k: nat): (r: nat)
    ensures r >= 1
  {
    if k == 0 then 1 else 2 * Pow2(k - 1)
  }

  /** k fan-out segments after the first give 2^k alternatives. */
  lemma {:induction false} StitchCount(toks: seq<string>)
    requires |toks| >= 1
    ensures |Stitch(toks)| == Pow2(Fanouts(toks[1..]))
    decreases |toks|
  {
    if |toks| == 1 {
      assert toks[1..] == [];
    } else {
      var init := toks[..|toks| - 1];
      StitchCount(init);
      assert toks[1..][..|toks[1..]| - 1] == init[1..];
    }
  }

  /** The descendant steps `//t1//t2...` of plain tokens. */
  function Descendants(toks: seq<string>): string
    decreases |toks|
  {
    if toks == [] then "" else Descendants(toks[..|toks| - 1]) + ("//" + toks[|toks| - 1])
  }

  /** Without fan-out there is a single alternative: the first token, then a descendant step
      per later token. */
  lemma {:induction false} StitchPlain(toks: seq<string>)
    requires |toks| >= 1 && Fanouts(toks[1..]) == 0
    ensures Stitch(toks) == [FirstPath(toks[0]) + Descendants(toks[1..])]
    decreases |toks|
  {
    if |toks| == 1 {
      assert toks[1..] == [];
      assert FirstPath(toks[0]) + "" == FirstPath(toks[0]);
    } else {
      var init := toks[..|toks| - 1];
      var rest := toks[1..];
      assert rest[..|rest| - 1] == init[1..];
      assert Fanouts(init[1..]) == 0;
      StitchPlain(init);
      var last := toks[|toks| - 1];
      assert init[0] == toks[0] && rest[|rest| - 1] == last;
      assert !OpensContains(last);
      var head := FirstPath(toks[0]);
      assert Descendants(rest) == Descendants(init[1..]) + ("//" + last);
      assert Extend([head + Descendants(init[1..])], last)
          == [head + Descendants(init[1..]) + ("//" + last)];
      assert head + Descendants(init[1..]) + ("//" + last) == head + Descendants(rest);
    }
  }

  /** The single alternative is returned as it is. */
  lemma JoinPlain(toks: seq<string>)
    requires |toks| >= 1 && Fanouts(toks[1..]) == 0
    ensures JoinPaths(Stitch(toks)) == FirstPath(toks[0]) + Descendants(toks[1..])
  {
    StitchPlain(toks);
  }

  /** The alternatives are separated again by splitting on `|`, when no token holds a `|`. */
  lemma JoinPathsSplit(paths: seq<string>)
    requires |paths| >= 1 && forall i :: 0 <= i < |paths| ==> '|' !in paths[i]
    ensures Explode(JoinPaths(paths), '|') == paths
  {
    ExplodeImplode(paths, '|');
    if |paths| == 1 {
      assert Implode("|", paths) == paths[0];
    }
  }

  // ---------------------------------------------------------------------------
  // Whole selectors.

  /** The pipeline, stage by stage. */
  lemma CompileCut(selector: string, x: string, segments: seq<string>, toks: seq<string>,
                   paths: seq<string>, r: string)
    requires CollapseChild(selector) == x && SplitSpace(x) == segments && Tokens(segments) == toks
    requires Stitch(toks) == paths && JoinPaths(paths) == r
    ensures Compile(selector) == r
  {
  }

  /** A token without `[` starts a plain alternative. */
  lemma FirstPathPlain(tok: string)
    requires '[' !in tok
    ensures FirstPath(tok) == "//" + tok
  {
    if tok != [] {
      assert tok[0] != '[';
    }
  }

  lemma AppendOne(p: string, suffix: string)
    ensures Append([p], suffix) == [p + suffix]
  {
  }

  /** A selector that collapses to a single whitespace-free segment gives one alternative. */
  lemma CompileSingle(selector: string, x: string)
    requires CollapseChild(selector) == x && NoSpace(x)
    ensures Compile(selector) == FirstPath(Tokenize(x))
  {
    SplitSpacePiece(x, "", "");
    assert x + "" + "" == x;
    assert Tokens([x]) == [Tokenize(x)];
    CompileCut(selector, x, [x], [Tokenize(x)], [FirstPath(Tokenize(x))], FirstPath(Tokenize(x)));
  }

  /** Text without whitespace is its own collapsed form. */
  lemma CollapseNoSpace(x: string)
    requires NoSpace(x)
    ensures CollapseChild(x) == x
  {
    CollapseChildPlain(x, []);
    assert x + [] == x;
  }

  /** Element names joined by child steps without whitespace: `a>b` is `//a/b`. */
  lemma CompileCompound(x: string)
    requires Plain(x) && NoSpace(x)
    ensures Compile(x) == "//" + ChildToSlash(x)
  {
    CollapseNoSpace(x);
    CompileSingle(x, x);
    TokenizePlain(x);
    PlainSlash(x);
    FirstPathPlain(ChildToSlash(x));
  }

  /** The child combinator with whitespace around it, `a > b`, is the child step `//a/b`. */
  lemma CompileChild(a: string, w1: string, w2: string, b: string)
    requires Plain(a) && NoSpace(a) && Plain(b) && NoSpace(b)
    requires |w1| > 0 && |w2| > 0 && AllSpace(w1) && AllSpace(w2)
    ensures Compile(a + w1 + ">" + w2 + b) == "//" + ChildToSlash(a) + "/" + ChildToSlash(b)
  {
    var x := a + ">" + b;
    ChildCollapse(a, w1, w2, b);
    ChildMarks(a, b);
    CompileSingle(a + w1 + ">" + w2 + b, x);
    ChildToken(a, b);
  }

  /** The collapsed segment `a>b` starts the alternative `//a/b`. */
  lemma ChildToken(a: string, b: string)
    requires Plain(a + ">" + b)
    ensures FirstPath(Tokenize(a + ">" + b)) == "//" + ChildToSlash(a) + "/" + ChildToSlash(b)
  {
    var x := a + ">" + b;
    TokenizePlain(x);
    PlainSlash(x);
    FirstPathPlain(ChildToSlash(x));
    ChildSlash(a, b);
  }

  lemma ChildSlash(a: string, b: string)
    ensures ChildToSlash(a + ">" + b) == ChildToSlash(a) + "/" + ChildToSlash(b)
  {
    ChildToSlashAppend(a, ">" + b);
    ChildToSlashAppend(">", b);
    assert a + ">" + b == a + (">" + b);
  }

  lemma ChildCollapse(a: string, w1: string, w2: string, b: string)
    requires NoSpace(a) && NoSpace(b)
    requires |w1| > 0 && |w2| > 0 && AllSpace(w1) && AllSpace(w2)
    ensures CollapseChild(a + w1 + ">" + w2 + b) == a + ">" + b
  {
    ChildRegroup(a, w1, w2, b);
    CollapseChildPlain(a, w1 + (">" + (w2 + b)));
    CollapseChildGt(w1, w2, b);
    CollapseNoSpace(b);
  }

  lemma ChildRegroup(a: string, w1: string, w2: string, b: string)
    ensures a + w1 + ">" + w2 + b == a + (w1 + (">" + (w2 + b)))
    ensures a + ">" + b == a + (">" + b)
  {
  }

  lemma ChildMarks(a: string, b: string)
    requires Plain(a) && NoSpace(a) && Plain(b) && NoSpace(b)
    ensures NoSpace(a + ">" + b) && Plain(a + ">" + b)
  {
    var x := a + ">" + b;
    assert forall i :: |a| < i < |x| ==> x[i] == b[i - |a| - 1];
  }

  /** A selector made only of a class test, `.name`, tests the class on any element. */
  lemma CompileClass(name: string)
    requires IsName(name)
    ensures Compile("." + name) == "//*" + SigilPredicate(Dot, name)
  {
    var x := "." + name;
    ClassSegment(name);
    CollapseNoSpace(x);
    CompileSingle(x, x);
    ClassToken(name);
    ClassOpensContains(name);
    FirstPathStar(SigilPredicate(Dot, name));
  }

  lemma ClassSegment(name: string)
    requires IsName(name)
    ensures NoSpace("." + name) && ("." + name)[0] == '.'
  {
    var x := "." + name;
    WordNoMarks(name);
    assert forall i :: 0 < i < |x| ==> x[i] == name[i - 1];
  }

  /** The segment `.name` on its own is the class predicate. */
  lemma ClassToken(name: string)
    requires IsName(name)
    ensures Tokenize("." + name) == SigilPredicate(Dot, name)
  {
    TokenizeClass("", name);
    assert "" + "." + name == "." + name;
    assert ChildToSlash("") + SigilPredicate(Dot, name) == SigilPredicate(Dot, name);
  }

  lemma ClassOpensContains(name: string)
    ensures OpensContains(SigilPredicate(Dot, name)) && SigilPredicate(Dot, name)[0] == '['
  {
    var p := SigilPredicate(Dot, name);
    var q := "[contains(concat(' ', ";
    assert q[..10] == "[contains(";
    PrefixOf(q, p[|q|..]);
    assert p == q + p[|q|..];
  }

  lemma PrefixOf(q: string, r: string)
    requires |q| >= 10 && q[..10] == "[contains("
    ensures OpensContains(q + r) && (q + r)[0] == '['
  {
    assert (q + r)[..10] == q[..10];
  }

  /** Element names separated by whitespace are descendant steps: `a b c` is `//a//b//c`. */
  lemma CompileDescendants(words: seq<string>)
    requires |words| >= 1
    requires forall i :: 0 <= i < |words| ==> |words[i]| > 0 && NoSpace(words[i]) && Plain(words[i])
    requires forall i :: 0 <= i < |words| ==> '>' !in words[i]
    ensures Compile(Implode(" ", words)) == "//" + words[0] + Descendants(words[1..])
  {
    var sel := Implode(" ", words);
    CollapseChildJoin(words);
    SplitSpaceImplode(words);
    TokensPlain(words);
    NoFanouts(words[1..]);
    JoinPlain(words);
    FirstPathPlain(words[0]);
    CompileCut(sel, sel, words, words, Stitch(words), "//" + words[0] + Descendants(words[1..]));
  }

  /** Joining whitespace-free names with single spaces leaves nothing for the `>` rule. */
  lemma {:induction false} CollapseChildJoin(words: seq<string>)
    requires |words| >= 1
    requires forall i :: 0 <= i < |words| ==> |words[i]| > 0 && NoSpace(words[i]) && '>' !in words[i]
    ensures CollapseChild(Implode(" ", words)) == Implode(" ", words)
  {
    if |words| == 1 {
      CollapseNoSpace(words[0]);
    } else {
      var tail := Implode(" ", words[1..]);
      CollapseChildJoin(words[1..]);
      JoinHead(words);
      CollapseChildPlain(words[0], " " + tail);
      CollapseChildSpace(" ", tail);
    }
  }

  lemma JoinHead(words: seq<string>)
    requires |words| >= 2
    requires forall i :: 0 <= i < |words| ==> |words[i]| > 0 && NoSpace(words[i]) && '>' !in words[i]
    ensures var tail := Implode(" ", words[1..]);
      Implode(" ", words) == words[0] + (" " + tail) && tail != [] && !IsSpace(tail[0]) && tail[0] != '>'
      && AllSpace(" ")
  {
    var tail := Implode(" ", words[1..]);
    ImplodeHead(" ", words[1..]);
    assert tail[0] == words[1][0];
    assert words[1][0] in words[1];
  }

  /** Tokens with no rewrite to apply stand for themselves. */
  lemma {:induction false} TokensPlain(words: seq<string>)
    requires forall i :: 0 <= i < |words| ==> Plain(words[i]) && '>' !in words[i]
    ensures Tokens(words) == words
  {
    if words != [] {
      TokenizePlain(words[0]);
      ChildToSlashKeep(words[0]);
      TokensPlain(words[1..]);
      assert [words[0]] + words[1..] == words;
    }
  }

  lemma {:induction false} NoFanouts(toks: seq<string>)
    requires forall i :: 0 <= i < |toks| ==> |toks[i]| > 0 && Plain(toks[i])
    ensures Fanouts(toks) == 0
    decreases |toks|
  {
    if toks != [] {
      NoFanouts(toks[..|toks| - 1]);
      assert toks[|toks| - 1][0] != '[';
    }
  }

  /** A class test after whitespace fans out: `a .c` matches a descendant of `a` with class
      `c` or `a` itself with class `c`. */
  lemma CompileDescendantClass(tag: string, name: string)
    requires |tag| > 0 && NoSpace(tag) && Plain(tag) && '>' !in tag && IsName(name)
    ensures var pred := SigilPredicate(Dot, name);
      Compile(tag + " ." + name) == "//" + tag + "//*" + pred + "|" + "//" + tag + pred
  {
    var x := "." + name;
    var pred := SigilPredicate(Dot, name);
    var words := [tag, x];
    var sel := tag + " ." + name;
    ClassSegment(name);
    WordNoMarks(name);
    assert Implode(" ", words) == sel;
    CollapseChildJoin(words);
    SplitSpaceImplode(words);
    TagClassTokens(tag, name);
    ClassOpensContains(name);
    DescendantClassPaths(tag, pred);
    CompileCut(sel, sel, words, [tag, pred], Stitch([tag, pred]), "//" + tag + "//*" + pred + "|" + "//" + tag + pred);
  }

  lemma TagClassTokens(tag: string, name: string)
    requires Plain(tag) && '>' !in tag && IsName(name)
    ensures Tokens([tag, "." + name]) == [tag, SigilPredicate(Dot, name)]
  {
    TokenizePlain(tag);
    ChildToSlashKeep(tag);
    ClassToken(name);
  }

  lemma DescendantClassPaths(tag: string, pred: string)
    requires |tag| > 0 && '[' !in tag && OpensContains(pred) && pred[0] == '['
    ensures JoinPaths(Stitch([tag, pred])) == "//" + tag + "//*" + pred + "|" + "//" + tag + pred
  {
    var toks := [tag, pred];
    assert toks[..1] == [tag];
    FirstPathPlain(tag);
    var fp := "//" + tag;
    assert Stitch([tag]) == [fp];
    assert TrimStars(pred) == pred;
    AppendOne(fp, "//*" + pred);
    AppendOne(fp, pred);
    var paths := Stitch(toks);
    assert paths == [fp + ("//*" + pred), fp + pred];
    assert Implode("|", paths) == paths[0] + "|" + paths[1];
  }

  // ---------------------------------------------------------------------------
  // The compiler as the source runs it.

  /** The single-selector branch: the segment loop. */
  method CompileSelector(selector: string) returns (xpath: string)
    ensures xpath == Compile(selector)
  {
    var paths := ["//"];
    var segments := SplitSpace(CollapseChild(selector));
    ghost var toks := Tokens(segments);
    var key := 0;
    while key < |segments|
      invariant 0 <= key <= |segments|
      invariant paths == Stitch(toks[..key])
    {
      var tok := Tokenize(segments[key]);
      paths := AddSegment(paths, key == 0, tok);
      TokensAt(segments, key);
      StitchSnoc(toks, key);
      key := key + 1;
    }
    assert toks[..key] == toks;
    if |paths| == 1 {
      return paths[0];
    }
    return Implode("|", paths);
  }

  lemma StitchSnoc(toks: seq<string>, key: nat)
    requires key < |toks|
    ensures Stitch(toks[..key + 1])
            == if key == 0 then [FirstPath(toks[0])] else Extend(Stitch(toks[..key]), toks[key])
  {
    assert toks[..key + 1][..key] == toks[..key];
  }

  /** The body of the segment loop for one token. */
  method AddSegment(paths: seq<string>, first: bool, tok: string) returns (r: seq<string>)
    requires first ==> paths == ["//"]
    ensures r == if first then [FirstPath(tok)] else Extend(paths, tok)
  {
    if first {
      if StartsWith(tok, "[contains(") {
        r := paths[0 := paths[0] + ("*" + TrimStars(tok))];
      } else {
        r := paths[0 := paths[0] + tok];
      }
    } else if StartsWith(tok, "[contains(") {
      r := Fanout(paths, tok);
    } else {
      r := Descend(paths, tok);
    }
  }

  /** The fan-out loop: it walks the alternatives as they were before it started, extends
      each in place and appends the predicate form after all of them. */
  method Fanout(paths: seq<string>, tok: string) returns (r: seq<string>)
    requires OpensContains(tok)
    ensures r == Extend(paths, tok)
  {
    var star := "//*" + TrimStars(tok);
    r := paths;
    var k := 0;
    while k < |paths|
      invariant 0 <= k <= |paths|
      invariant |r| == |paths| + k
      invariant forall i :: 0 <= i < k ==> r[i] == paths[i] + star
      invariant forall i :: k <= i < |paths| ==> r[i] == paths[i]
      invariant forall i :: 0 <= i < k ==> r[|paths| + i] == paths[i] + tok
    {
      var x := paths[k];
      r := r[k := r[k] + star] + [x + tok];
      k := k + 1;
    }
    FanoutResult(paths, tok, r);
  }

  lemma FanoutResult(paths: seq<string>, tok: string, r: seq<string>)
    requires OpensContains(tok) && |r| == 2 * |paths|
    requires forall i :: 0 <= i < |paths| ==> r[i] == paths[i] + ("//*" + TrimStars(tok))
    requires forall i :: 0 <= i < |paths| ==> r[|paths| + i] == paths[i] + tok
    ensures r == Extend(paths, tok)
  {
    var e := Extend(paths, tok);
    assert |e| == |r|;
    forall i | 0 <= i < |r| ensures r[i] == e[i] {
      if i >= |paths| {
        assert r[|paths| + (i - |paths|)] == paths[i - |paths|] + tok;
      }
    }
  }

  /** The descendant loop: every alternative gets `//` and the token. */
  method Descend(paths: seq<string>, tok: string) returns (r: seq<string>)
    requires !OpensContains(tok)
    ensures r == Extend(paths, tok)
  {
    var step := "//" + tok;
    r := paths;
    var k := 0;
    while k < |r|
      invariant 0 <= k <= |r| == |paths|
      invariant forall i :: 0 <= i < k ==> r[i] == paths[i] + step
      invariant forall i :: k <= i < |paths| ==> r[i] == paths[i]
    {
      r := r[k := r[k] + step];
      k := k + 1;
    }
    assert r == Append(paths, step);
  }

  // ---------------------------------------------------------------------------
  // Selector lists: the comma branch.

  /** A selector list `s1, s2, ...`: every piece, trimmed, compiled on its own, and the
      results joined with `|`; a selector without a comma is compiled directly. */
  function CompileList(path: string): string {
    if ',' in path then Implode("|", CompilePieces(Explode(path, ','))) else Compile(path)
  }

  /** Each piece trimmed and compiled on its own. */
  function CompilePieces(pieces: seq<string>): (r: seq<string>)
    ensures |r| == |pieces|
    decreases |pieces|
  {
    if pieces == [] then []
    else CompilePieces(pieces[..|pieces| - 1]) + [Compile(Trim(pieces[|pieces| - 1]))]
  }

  lemma {:induction false} PiecesAt(pieces: seq<string>, i: nat)
    requires i < |pieces|
    ensures CompilePieces(pieces)[i] == Compile(Trim(pieces[i]))
    decreases |pieces|
  {
    var init := pieces[..|pieces| - 1];
    if i < |pieces| - 1 {
      PiecesAt(init, i);
      IndexFront(CompilePieces(init), Compile(Trim(pieces[|pieces| - 1])), i, Compile(Trim(init[i])));
      assert init[i] == pieces[i];
    }
  }

  lemma IndexFront(xs: seq<string>, x: string, i: nat, y: string)
    requires i < |xs| && xs[i] == y
    ensures (xs + [x])[i] == y
  {
  }

  /** The corrected comma branch: one compile per piece, the results joined with `|`. */
  method TransformCss(path: string) returns (xpath: string)
    ensures xpath == CompileList(path)
  {
    if ',' in path {
      var expressions := CompileEach(Explode(path, ','));
      return Implode("|", expressions);
    }
    xpath := CompileSelector(path);
  }

  /** The loop over the pieces of a selector list. */
  method CompileEach(pieces: seq<string>) returns (expressions: seq<string>)
    ensures expressions == CompilePieces(pieces)
  {
    expressions := [];
    var k := 0;
    while k < |pieces|
      invariant 0 <= k <= |pieces|
      invariant expressions == CompilePieces(pieces[..k])
    {
      var x := CompileSelector(Trim(pieces[k]));
      PiecesSnoc(pieces, k);
      expressions := expressions + [x];
      k := k + 1;
    }
    assert pieces[..k] == pieces;
  }

  lemma PiecesSnoc(pieces: seq<string>, k: nat)
    requires k < |pieces|
    ensures CompilePieces(pieces[..k + 1]) == CompilePieces(pieces[..k]) + [Compile(Trim(pieces[k]))]
  {
    assert pieces[..k + 1][..k] == pieces[..k];
  }

  /** The outcome of a PHP call: a value, or a fatal error that ends the request. */
  datatype Outcome<T> = Ok(value: T) | Fatal

  /** The comma branch as the source has it: it calls `self::transform`, which the class
      does not define, so every selector list ends in a fatal error. */
  function TransformAsWritten(path: string): (r: Outcome<string>)
    ensures r.Fatal? <==> ',' in path
    ensures r.Ok? ==> r.value == CompileList(path)
  {
    if ',' in path then Fatal else Ok(Compile(path))
  }

  /** `a, b` for element names `a` and `b`: the source fails where the list was meant to give
      `//a|//b`. */
  lemma CommaListExample(a: string, b: string)
    requires IsWord(a) && IsWord(b)
    ensures TransformAsWritten(a + ", " + b).Fatal?
    ensures CompileList(a + ", " + b) == "//" + a + "|//" + b
  {
    var path := a + ", " + b;
    assert path[|a|] == ',';
    ListPieces(a, b);
    JoinTwo(a, b);
    CompileListComma(path, "//" + a + "|//" + b);
  }

  lemma JoinTwo(a: string, b: string)
    ensures Implode("|", ["//" + a, "//" + b]) == "//" + a + "|//" + b
  {
  }

  /** The comma branch, on any text with a comma. */
  lemma CompileListComma(path: string, r: string)
    requires ',' in path && Implode("|", CompilePieces(Explode(path, ','))) == r
    ensures CompileList(path) == r
  {
  }

  lemma ListPieces(a: string, b: string)
    requires IsWord(a) && IsWord(b)
    ensures CompilePieces(Explode(a + ", " + b, ',')) == ["//" + a, "//" + b]
  {
    ExplodeList(a, b);
    PieceCompiles(a, a);
    PieceCompiles(" " + b, b);
    PiecesTwo(a, " " + b, "//" + a, "//" + b);
  }

  lemma PiecesTwo(p0: string, p1: string, x0: string, x1: string)
    requires Compile(Trim(p0)) == x0 && Compile(Trim(p1)) == x1
    ensures CompilePieces([p0, p1]) == [x0, x1]
  {
    assert [p0, p1][..1] == [p0] && [p0][..0] == [];
  }

  /** A piece that is a word, possibly after a space, compiles to the word's descendant step. */
  lemma PieceCompiles(p: string, w: string)
    requires IsWord(w) && (p == w || p == " " + w)
    ensures Compile(Trim(p)) == "//" + w
  {
    if p == w {
      WordTrimmed(w);
    } else {
      PieceTrim(p, w);
    }
    WordCompiles(w);
  }

  lemma PieceTrim(p: string, w: string)
    requires IsWord(w) && p == " " + w
    ensures Trim(p) == w
  {
    WordTrimmed(w);
    SpaceTrimmed(p, w);
    TrimVia(p, w);
  }

  lemma TrimVia(p: string, w: string)
    requires TrimLeft(p) == TrimLeft(w)
    ensures Trim(p) == Trim(w)
  {
  }

  /** `trim` drops a leading space. */
  lemma SpaceTrimmed(p: string, w: string)
    requires p == " " + w
    ensures TrimLeft(p) == TrimLeft(w)
  {
    assert p[0] == ' ' && p[1..] == w;
  }

  lemma ExplodeList(a: string, b: string)
    requires IsWord(a) && IsWord(b)
    ensures Explode(a + ", " + b, ',') == [a, " " + b]
  {
    WordNoMarks(a);
    assert forall i :: 0 <= i < |b| ==> b[i] != ',';
    assert ',' !in a && ',' !in " " + b;
    ExplodePiece(a, ", " + b, ',');
    ExplodePiece(" " + b, [], ',');
    assert a + ", " + b == a + (", " + b);
    assert (", " + b)[1..] == " " + b && " " + b + [] == " " + b;
  }

  lemma WordTrimmed(w: string)
    requires IsWord(w)
    ensures Trim(w) == w
  {
    assert !IsTrimChar(w[0]) && !IsTrimChar(w[|w| - 1]);
    TrimTrimmed(w);
  }

  lemma WordCompiles(w: string)
    requires IsWord(w)
    ensures Compile(w) == "//" + w
  {
    WordNoMarks(w);
    assert Plain(w) && NoSpace(w) by {
      assert forall i :: 0 <= i < |w| ==> IsWordChar(w[i]);
    }
    CompileCompound(w);
    ChildToSlashKeep(w);
  }

  /** Every compiled selector is rooted with `//`. */
  lemma CompileRooted(selector: string)
    ensures StartsWith(Compile(selector), "//")
  {
    var paths := Stitch(Tokens(SplitSpace(CollapseChild(selector))));
    StitchStartsWith(Tokens(SplitSpace(CollapseChild(selector))));
    JoinRooted(paths);
  }

  lemma JoinRooted(paths: seq<string>)
    requires |paths| >= 1 && forall i :: 0 <= i < |paths| ==> StartsWith(paths[i], "//")
    ensures StartsWith(JoinPaths(paths), "//")
  {
    ImplodeHead("|", paths);
    assert StartsWith(paths[0], "//");
  }

  /** So is every compiled selector list, and its alternatives are the compiled pieces. */
  lemma CompileListRooted(path: string)
    ensures StartsWith(CompileList(path), "//")
  {
    if ',' in path {
      var pieces := CompilePieces(Explode(path, ','));
      CompileRooted(Trim(Explode(path, ',')[0]));
      PiecesAt(Explode(path, ','), 0);
      ImplodeHead("|", pieces);
      assert StartsWith(pieces[0], "//");
    } else {
      CompileRooted(path);
    }
  }

  /** The alternatives of a selector list can be read back by splitting on `|`, when no piece
      compiles to more than one alternative or to a text with `|` in it. */
  lemma CompileListSplit(path: string)
    requires ',' in path
    requires forall i :: 0 <= i < |Explode(path, ',')| ==> '|' !in Compile(Trim(Explode(path, ',')[i]))
    ensures Explode(CompileList(path), '|') == CompilePieces(Explode(path, ','))
  {
    var pieces := CompilePieces(Explode(path, ','));
    forall i | 0 <= i < |pieces| ensures '|' !in pieces[i] {
      PiecesAt(Explode(path, ','), i);
    }
    ExplodeImplode(pieces, '|');
  }
}
