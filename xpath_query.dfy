/** The strings `query` builds before it evaluates an XPath: the `.` class extension, which
    turns `div.note` into a test on the class attribute, and the repair of the context node's
    path for documents whose elements sit in a default namespace. `select` feeds a compiled
    CSS selector through the same `query`. */
module XPathQuery {
  import opened Text
  import opened Namespaces
  import opened CssTokenizer
  import opened CssCompiler

  // ---------------------------------------------------------------------------
  // `ClassSelectorTransform`

  /** One class test: a substring test on the `class` attribute. */
  function ClassTest(name: string): string {
    "contains(@class, '" + name + "')"
  }

  function ClassTests(names: seq<string>): seq<string> {
    seq(|names|, i requires 0 <= i < |names| => ClassTest(names[i]))
  }

  /** What `ClassSelectorTransform` returns for a run `e.p1.….pn`: the element part `e`,
      then one predicate holding the class tests on `p1` … `pn` joined by ` or `. */
  function ClassSelector(run: string): string {
    var parts := Explode(run, '.');
    parts[0] + "[" + Implode(" or ", ClassTests(parts[1..])) + "]"
  }

  /** The callback's loop: the tests are appended one by one, with ` or ` after every test
      but the last. */
  method ClassSelectorTransform(run: string) returns (output: string)
    ensures output == ClassSelector(run)
  {
    var parts := Explode(run, '.');
    var element := parts[0];
    parts := parts[1..];
    output := element + "[";
    var i := 0;
    while i < |parts|
      invariant i <= |parts|
      invariant output == element + "[" + Implode(" or ", ClassTests(parts[..i])) +
                          (if 0 < i < |parts| then " or " else "")
    {
      TestsSnoc(parts, i);
      AppendCut(output, element + "[", Implode(" or ", ClassTests(parts[..i])),
                if 0 < i then " or " else "", ClassTest(parts[i]), Implode(" or ", ClassTests(parts[..i + 1])));
      output := output + ClassTest(parts[i]);
      if i != |parts| - 1 {
        output := output + " or ";
      }
      i := i + 1;
    }
    assert parts[..i] == parts;
    output := output + "]";
  }

  lemma AppendCut(out: string, head: string, before: string, sep: string, t: string, after: string)
    requires out == head + before + sep && after == before + sep + t
    ensures out + t == head + after
  {
  }

  lemma TestsSnoc(parts: seq<string>, i: nat)
    requires i < |parts|
    ensures Implode(" or ", ClassTests(parts[..i + 1])) ==
            Implode(" or ", ClassTests(parts[..i])) + (if 0 < i then " or " else "") + ClassTest(parts[i])
  {
    assert ClassTests(parts[..i + 1]) == ClassTests(parts[..i]) + [ClassTest(parts[i])];
    if i > 0 {
      ImplodeSnoc(" or ", ClassTests(parts[..i]), ClassTest(parts[i]));
    } else {
      assert ClassTests(parts[..i + 1]) == [ClassTest(parts[0])];
    }
  }

  /** `e.p1.….pn` with dot-free `e` and class names becomes `e[t1 or … or tn]` with `ti` the
      test on `pi`: every listed class name is tested, in order, and any one of them
      suffices. */
  lemma ClassSelectorOf(element: string, names: seq<string>)
    requires '.' !in element && |names| >= 1
    requires forall i :: 0 <= i < |names| ==> '.' !in names[i]
    ensures ClassSelector(element + "." + Implode(".", names)) ==
            element + "[" + Implode(" or ", ClassTests(names)) + "]"
  {
    var all := [element] + names;
    assert all[0] == element && all[1..] == names;
    assert Implode(".", all) == element + "." + Implode(".", names);
    DotFreeParts(all, element, names);
    ExplodeImplode(all, '.');
    ClassSelectorCut(element + "." + Implode(".", names), all);
  }

  lemma DotFreeParts(all: seq<string>, element: string, names: seq<string>)
    requires all == [element] + names && '.' !in element
    requires forall i :: 0 <= i < |names| ==> '.' !in names[i]
    ensures forall i :: 0 <= i < |all| ==> '.' !in all[i]
  {
    forall i | 0 <= i < |all| ensures '.' !in all[i] {
      if i > 0 {
        assert all[i] == names[i - 1];
      }
    }
  }

  lemma ClassSelectorCut(run: string, parts: seq<string>)
    requires Explode(run, '.') == parts
    ensures ClassSelector(run) == parts[0] + "[" + Implode(" or ", ClassTests(parts[1..])) + "]"
  {
  }

  /** The transformed run holds no dot: every dot was a separator between class names. */
  lemma ClassSelectorDotFree(run: string)
    ensures '.' !in ClassSelector(run)
  {
    var parts := Explode(run, '.');
    var tests := ClassTests(parts[1..]);
    forall i | 0 <= i < |tests| ensures '.' !in tests[i] {
      assert tests[i] == "contains(@class, '" + parts[1..][i] + "')";
    }
    ImplodeFree(" or ", tests, '.');
  }

  // ---------------------------------------------------------------------------
  // The `.` gate and `preg_replace_callback` over `[^/\[\]]*\.[^/\[\]]*`

  /** The characters the pattern's class `[^/\[\]]` excludes. */
  predicate IsRunBreak(c: char) {
    c == '/' || c == '[' || c == ']'
  }

  /** Length of the leading run of characters other than `/`, `[` and `]`. */
  function RunLength(s: string): (n: nat)
    ensures n <= |s|
    ensures s != [] && !IsRunBreak(s[0]) ==> n >= 1
  {
    if s != [] && !IsRunBreak(s[0]) then 1 + RunLength(s[1..]) else 0
  }

  /** The replacement pass. At a run of characters other than `/`, `[`, `]`, the greedy
      `[^/\[\]]*` takes the whole run and backs off to its last dot, so a match exists exactly
      when the run holds a dot and then spans the whole run; a run without a dot is copied. */
  function ExtendRuns(s: string): string
    decreases |s|
  {
    if s == [] then []
    else if IsRunBreak(s[0]) then [s[0]] + ExtendRuns(s[1..])
    else
      var n := RunLength(s);
      (if '.' in s[..n] then ClassSelector(s[..n]) else s[..n]) + ExtendRuns(s[n..])
  }

  /** The class extension of `query`, behind its `strpos($xpath, '.') !== FALSE` gate. */
  function ClassExtension(xpath: string): string {
    if '.' in xpath then ExtendRuns(xpath) else xpath
  }

  /** A string without dots passes through the replacement unchanged. */
  lemma {:induction false} ExtendRunsNoDot(s: string)
    requires '.' !in s
    ensures ExtendRuns(s) == s
    decreases |s|
  {
    if s != [] {
      if IsRunBreak(s[0]) {
        ExtendRunsNoDot(s[1..]);
        assert [s[0]] + s[1..] == s;
      } else {
        var n := RunLength(s);
        assert '.' !in s[..n] && '.' !in s[n..];
        ExtendRunsNoDot(s[n..]);
        assert s[..n] + s[n..] == s;
      }
    }
  }

  /** The gate is only a shortcut: the extension is the replacement pass on every input. */
  lemma ClassExtensionIsPass(xpath: string)
    ensures ClassExtension(xpath) == ExtendRuns(xpath)
  {
    if '.' !in xpath {
      ExtendRunsNoDot(xpath);
    }
  }

  /** No dot survives the replacement pass. */
  lemma {:induction false} ExtendRunsDotFree(s: string)
    ensures '.' !in ExtendRuns(s)
    decreases |s|
  {
    if s != [] {
      if IsRunBreak(s[0]) {
        ExtendRunsDotFree(s[1..]);
      } else {
        var n := RunLength(s);
        ExtendRunsDotFree(s[n..]);
        if '.' in s[..n] {
          ClassSelectorDotFree(s[..n]);
        }
      }
    }
  }

  /** Applying the extension twice is applying it once. */
  lemma ClassExtensionIdempotent(xpath: string)
    ensures '.' !in ClassExtension(xpath)
    ensures ClassExtension(ClassExtension(xpath)) == ClassExtension(xpath)
  {
    ClassExtensionIsPass(xpath);
    ExtendRunsDotFree(xpath);
  }

  lemma {:induction false} RunLengthAppend(a: string, c: char, b: string)
    requires IsRunBreak(c)
    ensures RunLength(a + [c] + b) == RunLength(a)
    decreases |a|
  {
    if a != [] && !IsRunBreak(a[0]) {
      assert (a + [c] + b)[1..] == a[1..] + [c] + b;
      RunLengthAppend(a[1..], c, b);
    }
  }

  /** Runs are rewritten independently: a `/`, `[` or `]` splits the pass in two. */
  lemma {:induction false} ExtendRunsSplit(a: string, c: char, b: string)
    requires IsRunBreak(c)
    ensures ExtendRuns(a + [c] + b) == ExtendRuns(a) + [c] + ExtendRuns(b)
    decreases |a|, 1
  {
    if a == [] {
      BreakFirst([], c, b);
      assert a + [c] + b == [] + [c] + b;
    } else if IsRunBreak(a[0]) {
      SplitAtBreak(a, c, b);
    } else {
      SplitAtRun(a, c, b);
    }
  }

  lemma {:induction false} SplitAtBreak(a: string, c: char, b: string)
    requires IsRunBreak(c) && a != [] && IsRunBreak(a[0])
    ensures ExtendRuns(a + [c] + b) == ExtendRuns(a) + [c] + ExtendRuns(b)
    decreases |a|, 0
  {
    ExtendRunsSplit(a[1..], c, b);
    BreakFirst(a, c, b);
    SplitCut(ExtendRuns(a + [c] + b), ExtendRuns(a), [a[0]], ExtendRuns(a[1..] + [c] + b),
             ExtendRuns(a[1..]), c, ExtendRuns(b));
  }

  lemma {:induction false} SplitAtRun(a: string, c: char, b: string)
    requires IsRunBreak(c) && a != [] && !IsRunBreak(a[0])
    ensures ExtendRuns(a + [c] + b) == ExtendRuns(a) + [c] + ExtendRuns(b)
    decreases |a|, 0
  {
    var n := RunLength(a);
    RunLengthAppend(a, c, b);
    var head := if '.' in a[..n] then ClassSelector(a[..n]) else a[..n];
    if n < |a| {
      ExtendRunsSplit(a[n..], c, b);
      RunFirst(a, c, b);
      SplitCut(ExtendRuns(a + [c] + b), ExtendRuns(a), head, ExtendRuns(a[n..] + [c] + b),
               ExtendRuns(a[n..]), c, ExtendRuns(b));
    } else {
      RunWhole(a, c, b);
      BreakFirst([], c, b);
      assert a[..n] == a;
      SplitCut(ExtendRuns(a + [c] + b), ExtendRuns(a), head, ExtendRuns([] + [c] + b),
               [], c, ExtendRuns(b));
    }
  }

  lemma SplitCut(x: string, xa: string, head: string, restX: string, restA: string, c: char,
                 xb: string)
    requires x == head + restX && xa == head + restA && restX == restA + [c] + xb
    ensures x == xa + [c] + xb
  {
  }

  /** The pass over a string that starts with a break. */
  lemma BreakFirst(a: string, c: char, b: string)
    requires IsRunBreak(c)
    requires a == [] || IsRunBreak(a[0])
    ensures a == [] ==> ExtendRuns(a + [c] + b) == [c] + ExtendRuns(b)
    ensures a != [] ==> ExtendRuns(a + [c] + b) == [a[0]] + ExtendRuns(a[1..] + [c] + b)
    ensures a != [] ==> ExtendRuns(a) == [a[0]] + ExtendRuns(a[1..])
  {
    if a == [] {
      BreakAlone(a + [c] + b, c, b);
    } else {
      BreakAlone(a + [c] + b, a[0], a[1..] + [c] + b);
    }
  }

  lemma BreakAlone(s: string, c: char, b: string)
    requires IsRunBreak(c) && s == [c] + b
    ensures ExtendRuns(s) == [c] + ExtendRuns(b)
  {
    assert s[0] == c && s[1..] == b;
  }

  /** The pass over a string whose first run ends inside `a`. */
  lemma RunFirst(a: string, c: char, b: string)
    requires IsRunBreak(c)
    requires a != [] && !IsRunBreak(a[0]) && RunLength(a) < |a|
    requires RunLength(a + [c] + b) == RunLength(a)
    ensures var n := RunLength(a);
      var head := if '.' in a[..n] then ClassSelector(a[..n]) else a[..n];
      ExtendRuns(a + [c] + b) == head + ExtendRuns(a[n..] + [c] + b) &&
      ExtendRuns(a) == head + ExtendRuns(a[n..])
  {
    var n := RunLength(a);
    var s := a + [c] + b;
    assert s[..n] == a[..n];
    assert s[n..] == a[n..] + [c] + b;
  }

  /** The pass over a string whose first run is all of `a`. */
  lemma RunWhole(a: string, c: char, b: string)
    requires IsRunBreak(c)
    requires a != [] && !IsRunBreak(a[0]) && RunLength(a) == |a|
    requires RunLength(a + [c] + b) == RunLength(a)
    ensures var head := if '.' in a then ClassSelector(a) else a;
      ExtendRuns(a + [c] + b) == head + ExtendRuns([] + [c] + b) &&
      ExtendRuns(a) == head
  {
    var n := |a|;
    var s := a + [c] + b;
    assert s[..n] == a && a[..n] == a;
    assert s[n..] == [] + [c] + b;
    assert a[n..] == [];
  }

  /** A single run is replaced as a whole when it holds a dot and copied otherwise. */
  lemma WholeRun(run: string)
    requires run != []
    requires forall i :: 0 <= i < |run| ==> !IsRunBreak(run[i])
    ensures ExtendRuns(run) == if '.' in run then ClassSelector(run) else run
  {
    RunLengthWhole(run);
    assert run[..|run|] == run && run[|run|..] == [];
  }

  lemma {:induction false} RunLengthWhole(run: string)
    requires forall i :: 0 <= i < |run| ==> !IsRunBreak(run[i])
    ensures RunLength(run) == |run|
    decreases |run|
  {
    if run != [] {
      RunLengthWhole(run[1..]);
    }
  }

  // ---------------------------------------------------------------------------
  // The context node's path

  /** What `query` reads from its context node: `getNodePath()` and `namespaceURI`, with a
      null URI as "". */
  datatype ContextNode = ContextNode(path: string, namespaceUri: string)

  /** `strpos($path, ':')` is truthy: there is a colon, and the first one is at an index
      above zero. */
  predicate FirstColonAfterStart(path: string) {
    ':' in path && path[0] != ':'
  }

  /** A path opening with a colon has `strpos` 0, which is falsy, whatever follows; a colon
      anywhere after a colon-free opening is truthy. */
  lemma FirstColonAt(head: string, tail: string)
    requires ':' !in head
    ensures !FirstColonAfterStart(":" + tail)
    ensures FirstColonAfterStart(head + ":" + tail) <==> head != ""
  {
    assert (head + ":" + tail)[|head|] == ':';
  }

  /** The path is used as it is when the node has no namespace or the path carries one. */
  predicate KeepsPath(node: ContextNode) {
    PhpEmpty(node.namespaceUri) || FirstColonAfterStart(node.path)
  }

  /** `$prefix . ':'` concatenates a FALSE from `lookupPrefix` as "". */
  function PrefixText(p: Option<string>): string {
    match p
    case Some(s) => s
    case None => ""
  }

  /** The non-empty parts, each qualified with the prefix and preceded by `lead`. */
  function QualifiedSteps(lead: string, prefix: string, parts: seq<string>): string
    decreases |parts|
  {
    if parts == [] then ""
    else
      var last := parts[|parts| - 1];
      QualifiedSteps(lead, prefix, parts[..|parts| - 1]) +
        (if PhpEmpty(last) then "" else lead + prefix + ":" + last)
  }

  /** The rewrite as the source has it: the qualified steps are concatenated with nothing
      between them, so `/note/body` with prefix `note` becomes `note:notenote:body`. */
  function ContextPathAsWritten(node: ContextNode, ns: Table): string {
    if KeepsPath(node) then node.path
    else
      var prefix := PrefixText(Namespaces.LookupPrefix(ns, node.namespaceUri));
      QualifiedSteps("", prefix, Explode(node.path, '/'))
  }

  /** The rewrite as intended: each qualified step keeps its `/`. */
  function ContextPath(node: ContextNode, ns: Table): string {
    if KeepsPath(node) then node.path
    else
      var prefix := PrefixText(Namespaces.LookupPrefix(ns, node.namespaceUri));
      QualifiedSteps("/", prefix, Explode(node.path, '/'))
  }

  /** The context-path loop of `query`, with the `/` restored. */
  method ContextQuery(node: ContextNode, ns: Table) returns (query: string)
    ensures query == ContextPath(node, ns)
  {
    if KeepsPath(node) {
      return node.path;
    }
    var prefix := PrefixText(Namespaces.LookupPrefix(ns, node.namespaceUri));
    var parts := Explode(node.path, '/');
    query := "";
    var k := 0;
    while k < |parts|
      invariant k <= |parts|
      invariant query == QualifiedSteps("/", prefix, parts[..k])
    {
      var part := parts[k];
      if !PhpEmpty(part) {
        query := query + "/" + prefix + ":" + part;
      }
      assert parts[..k + 1][..k] == parts[..k];
      k := k + 1;
    }
    assert parts[..k] == parts;
  }

  /** Each step qualified with the prefix. */
  function Qualify(prefix: string, steps: seq<string>): seq<string> {
    seq(|steps|, i requires 0 <= i < |steps| => prefix + ":" + steps[i])
  }

  /** `QualifiedSteps` over the parts `"" , s1, …, sn` of an absolute path. */
  lemma {:induction false} QualifiedPath(prefix: string, steps: seq<string>)
    requires |steps| >= 1
    requires forall i :: 0 <= i < |steps| ==> !PhpEmpty(steps[i])
    ensures QualifiedSteps("/", prefix, [""] + steps) == "/" + Implode("/", Qualify(prefix, steps))
    decreases |steps|
  {
    var n := |steps| - 1;
    var parts := [""] + steps;
    assert parts[..|parts| - 1] == [""] + steps[..n];
    if n == 0 {
      assert parts[..1] == [""] && [""][..0] == [];
    } else {
      QualifiedPath(prefix, steps[..n]);
      assert Qualify(prefix, steps) == Qualify(prefix, steps[..n]) + [prefix + ":" + steps[n]];
      ImplodeSnoc("/", Qualify(prefix, steps[..n]), prefix + ":" + steps[n]);
    }
  }

  /** For a node in a namespace whose path `/s1/…/sn` carries no prefix, the rewritten path is
      the same location path with every step qualified: splitting it on `/` gives "" and then
      `prefix:si` for each step, in order. */
  lemma ContextPathQualifies(node: ContextNode, ns: Table, steps: seq<string>)
    requires !KeepsPath(node)
    requires |steps| >= 1 && node.path == "/" + Implode("/", steps)
    requires forall i :: 0 <= i < |steps| ==> !PhpEmpty(steps[i]) && '/' !in steps[i]
    ensures var prefix := PrefixText(Namespaces.LookupPrefix(ns, node.namespaceUri));
      ContextPath(node, ns) == "/" + Implode("/", Qualify(prefix, steps)) &&
      ('/' !in prefix ==> Explode(ContextPath(node, ns), '/') == [""] + Qualify(prefix, steps))
  {
    var prefix := PrefixText(Namespaces.LookupPrefix(ns, node.namespaceUri));
    AbsolutePath(steps);
    assert ContextPath(node, ns) == QualifiedSteps("/", prefix, [""] + steps);
    QualifiedPath(prefix, steps);
    if '/' !in prefix {
      QualifyFlat(prefix, steps);
      AbsolutePath(Qualify(prefix, steps));
    }
  }

  /** Qualified steps contain no `/` when neither the prefix nor the steps do. */
  lemma QualifyFlat(prefix: string, steps: seq<string>)
    requires '/' !in prefix
    requires forall i :: 0 <= i < |steps| ==> '/' !in steps[i]
    ensures forall i :: 0 <= i < |Qualify(prefix, steps)| ==> '/' !in Qualify(prefix, steps)[i]
  {
    var q := Qualify(prefix, steps);
    forall i | 0 <= i < |q| ensures '/' !in q[i] {
      assert q[i] == prefix + ":" + steps[i];
    }
  }

  /** An absolute path splits into "" and its steps. */
  lemma AbsolutePath(steps: seq<string>)
    requires |steps| >= 1
    requires forall i :: 0 <= i < |steps| ==> '/' !in steps[i]
    ensures Explode("/" + Implode("/", steps), '/') == [""] + steps
  {
    var all := [""] + steps;
    assert all[1..] == steps;
    assert Implode("/", all) == "/" + Implode("/", steps);
    ExplodeImplode(all, '/');
  }

  /** As written, a rewritten path holds no `/` at all whenever the prefix holds none: it is no
      longer a path from the root but one relative step with a malformed name. */
  lemma {:induction false} AsWrittenFlat(prefix: string, parts: seq<string>)
    requires '/' !in prefix
    requires forall i :: 0 <= i < |parts| ==> '/' !in parts[i]
    ensures '/' !in QualifiedSteps("", prefix, parts)
    decreases |parts|
  {
    if parts != [] {
      AsWrittenFlat(prefix, parts[..|parts| - 1]);
    }
  }

  lemma ContextPathAsWrittenFlat(node: ContextNode, ns: Table)
    requires !KeepsPath(node)
    requires '/' !in PrefixText(Namespaces.LookupPrefix(ns, node.namespaceUri))
    ensures '/' !in ContextPathAsWritten(node, ns)
  {
    AsWrittenFlat(PrefixText(Namespaces.LookupPrefix(ns, node.namespaceUri)), Explode(node.path, '/'));
  }

  /** The input that shows the difference: a node `/a/b` in a namespace registered under `p`.
      As written the context query is `p:ap:b`; the intended one is `/p:a/p:b`. */
  lemma TwoStepContext(a: string, b: string, uri: string, ns: Table)
    requires !PhpEmpty(a) && !PhpEmpty(b) && !PhpEmpty(uri)
    requires '/' !in a && '/' !in b && ':' !in a && ':' !in b
    ensures var node := ContextNode("/" + a + "/" + b, uri);
      var p := PrefixText(Namespaces.LookupPrefix(ns, uri));
      ContextPathAsWritten(node, ns) == p + ":" + a + p + ":" + b &&
      ContextPath(node, ns) == "/" + p + ":" + a + "/" + p + ":" + b
  {
    var node := ContextNode("/" + a + "/" + b, uri);
    var p := PrefixText(Namespaces.LookupPrefix(ns, uri));
    NoColon(a, b);
    TwoSteps(a, b);
    ContextCut(node, ns, ["", a, b], p);
    ThreeParts("", p, a, b);
    ThreeParts("/", p, a, b);
  }

  lemma NoColon(a: string, b: string)
    requires ':' !in a && ':' !in b
    ensures !FirstColonAfterStart("/" + a + "/" + b)
  {
    assert ("/" + a + "/" + b)[1..] == a + "/" + b;
  }

  /** Both rewrites of a path that is not kept, over its parts. */
  lemma ContextCut(node: ContextNode, ns: Table, parts: seq<string>, p: string)
    requires !KeepsPath(node)
    requires Explode(node.path, '/') == parts
    requires PrefixText(Namespaces.LookupPrefix(ns, node.namespaceUri)) == p
    ensures ContextPathAsWritten(node, ns) == QualifiedSteps("", p, parts)
    ensures ContextPath(node, ns) == QualifiedSteps("/", p, parts)
  {
  }

  lemma TwoSteps(a: string, b: string)
    requires '/' !in a && '/' !in b
    ensures Explode("/" + a + "/" + b, '/') == ["", a, b]
  {
    var steps := [a, b];
    assert steps[1..] == [b];
    assert Implode("/", steps) == a + "/" + b;
    assert "/" + a + "/" + b == "/" + Implode("/", steps);
    AbsolutePath(steps);
    assert [""] + steps == ["", a, b];
  }

  lemma ThreeParts(lead: string, p: string, a: string, b: string)
    requires !PhpEmpty(a) && !PhpEmpty(b)
    ensures QualifiedSteps(lead, p, ["", a, b]) == lead + p + ":" + a + lead + p + ":" + b
  {
    TwoParts(lead, p, a);
    var parts := ["", a, b];
    assert parts[..2] == ["", a];
  }

  lemma TwoParts(lead: string, p: string, a: string)
    requires !PhpEmpty(a)
    ensures QualifiedSteps(lead, p, ["", a]) == lead + p + ":" + a
  {
    var one: seq<string> := [""];
    assert one[..0] == [];
    assert QualifiedSteps(lead, p, one) == "";
    assert ["", a][..1] == one;
  }

  // ---------------------------------------------------------------------------
  // The query string

  /** The expression `query` hands to `DOMXPath::query`, as the source builds it: the
      class-extended XPath, after the context node's path when there is a context node. */
  function QueryStringAsWritten(xpath: string, context: Option<ContextNode>, ns: Table): string {
    var x := ClassExtension(xpath);
    match context
    case None => x
    case Some(node) => ContextPathAsWritten(node, ns) + x
  }

  /** `query` with the context path corrected to keep its `/` separators. */
  function QueryString(xpath: string, context: Option<ContextNode>, ns: Table): string {
    var x := ClassExtension(xpath);
    match context
    case None => x
    case Some(node) => ContextPath(node, ns) + x
  }

  /** `select` as the source has it: the selector goes through `transformCSS`, which is fatal
      on a comma, and the result is queried as `query` builds it. */
  function SelectQueryAsWritten(selector: string, context: Option<ContextNode>, ns: Table): Outcome<string> {
    match TransformAsWritten(selector)
    case Fatal => Fatal
    case Ok(path) => Ok(QueryStringAsWritten(path, context, ns))
  }

  /** `select` corrected: a comma list is compiled and joined, and the context path keeps its
      separators. */
  function SelectQuery(selector: string, context: Option<ContextNode>, ns: Table): string {
    QueryString(CompileList(selector), context, ns)
  }

  /** Both builds of `query` agree unless a context node's path is rewritten; there the source
      loses every `/`. */
  lemma QueryStringAgrees(xpath: string, context: Option<ContextNode>, ns: Table)
    ensures context.None? || KeepsPath(context.value) ==>
      QueryStringAsWritten(xpath, context, ns) == QueryString(xpath, context, ns)
  {
  }

  /** `select` as written is fatal exactly on a comma; otherwise it queries what the corrected
      `select` queries, up to the context-path rewrite. */
  lemma SelectAgrees(selector: string, context: Option<ContextNode>, ns: Table)
    ensures SelectQueryAsWritten(selector, context, ns).Fatal? <==> ',' in selector
    ensures ',' !in selector && (context.None? || KeepsPath(context.value)) ==>
      SelectQueryAsWritten(selector, context, ns) == Ok(SelectQuery(selector, context, ns))
  {
    QueryStringAgrees(CompileList(selector), context, ns);
  }

  /** A query without a context node and without dots reaches `DOMXPath` unchanged. */
  lemma QueryVerbatim(xpath: string, ns: Table)
    requires '.' !in xpath
    ensures QueryString(xpath, None, ns) == xpath
  {
  }

  /** A selector of words separated by spaces is queried as the descendant path it compiles to:
      the class extension finds no dot in it. */
  lemma SelectDescendants(words: seq<string>, ns: Table)
    requires |words| >= 1
    requires forall i :: 0 <= i < |words| ==> IsWord(words[i])
    ensures SelectQuery(Implode(" ", words), None, ns) == "//" + words[0] + Descendants(words[1..])
  {
    var sel := Implode(" ", words);
    var path := "//" + words[0] + Descendants(words[1..]);
    DescendantWords(words);
    CompileDescendants(words);
    DescendantsDotFree(words[1..]);
    assert '.' !in path;
    SelectCut(sel, path, ns);
  }

  /** A comma-free selector whose compiled path has no dot is queried as that path. */
  lemma SelectCut(sel: string, path: string, ns: Table)
    requires ',' !in sel && Compile(sel) == path && '.' !in path
    ensures SelectQuery(sel, None, ns) == path
  {
    assert CompileList(sel) == path;
  }

  lemma DescendantWords(words: seq<string>)
    requires forall i :: 0 <= i < |words| ==> IsWord(words[i])
    ensures forall i :: 0 <= i < |words| ==> |words[i]| > 0 && NoSpace(words[i]) && Plain(words[i])
    ensures forall i :: 0 <= i < |words| ==> '>' !in words[i] && '.' !in words[i]
    ensures ',' !in Implode(" ", words)
  {
    forall i | 0 <= i < |words|
      ensures |words[i]| > 0 && NoSpace(words[i]) && Plain(words[i]) && '>' !in words[i]
      ensures ',' !in words[i] && '.' !in words[i]
    {
      WordMarks(words[i]);
    }
    ImplodeFree(" ", words, ',');
  }

  lemma WordMarks(w: string)
    requires IsWord(w)
    ensures |w| > 0 && NoSpace(w) && Plain(w) && '>' !in w && ',' !in w && '.' !in w
  {
    assert forall i :: 0 <= i < |w| ==> IsWordChar(w[i]);
  }

  lemma {:induction false} DescendantsDotFree(words: seq<string>)
    requires forall i :: 0 <= i < |words| ==> '.' !in words[i]
    ensures '.' !in Descendants(words)
    decreases |words|
  {
    if words != [] {
      DescendantsDotFree(words[..|words| - 1]);
    }
  }

  /** A class selector `.name` is queried as the whole-word class test it compiles to. */
  lemma SelectClass(name: string, ns: Table)
    requires IsName(name)
    ensures SelectQuery("." + name, None, ns) == "//*" + SigilPredicate(Dot, name)
  {
    WordMarks(name);
    assert ',' !in "." + name by {
      assert forall i :: 1 <= i < |"." + name| ==> ("." + name)[i] == name[i - 1];
    }
    CompileClass(name);
    ClassTestDotFree(name);
  }

  lemma ClassTestDotFree(name: string)
    requires '.' !in name
    ensures '.' !in "//*" + SigilPredicate(Dot, name)
  {
    var a := "[contains(concat(' ', ";
    var b := "normalize-space(@class), ";
    var c := "' '), ' ";
    var d := " ')]";
    assert '.' !in a && '.' !in b && '.' !in c && '.' !in d && '.' !in "//*";
    assert SigilPredicate(Dot, name) == a + b + c + name + d;
  }
}
