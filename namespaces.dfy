/** The namespace table of a document: a PHP array used as an ordered map from prefix to
    namespace URI. Assigning to a new key appends an entry, assigning to an existing key
    overwrites its value where it stands, `unset` removes the entry and keeps the order of
    the rest, and `array_search` finds the first key whose value matches. The automatic
    registration of the root element's namespace declarations is a fold over that table. */
module Namespaces {
  import opened Text

  /** Entries `(prefix, uri)` in insertion order. */
  type Table = seq<(string, string)>

  function Keys(t: Table): seq<string> {
    seq(|t|, i requires 0 <= i < |t| => t[i].0)
  }

  function Values(t: Table): seq<string> {
    seq(|t|, i requires 0 <= i < |t| => t[i].1)
  }

  /** A PHP array never holds a key twice. */
  predicate DistinctKeys(t: Table) {
    forall i, j :: 0 <= i < j < |t| ==> t[i].0 != t[j].0
  }

  /** The first position of `k` in `ks`. */
  function IndexOf(ks: seq<string>, k: string): (i: nat)
    requires k in ks
    ensures i < |ks| && ks[i] == k
    ensures forall j :: 0 <= j < i ==> ks[j] != k
  {
    if ks[0] == k then 0 else 1 + IndexOf(ks[1..], k)
  }

  /** A position holding `k` with no earlier `k` is the one `IndexOf` finds. */
  lemma IndexOfUnique(ks: seq<string>, k: string, j: nat)
    requires j < |ks| && ks[j] == k
    requires forall m :: 0 <= m < j ==> ks[m] != k
    ensures IndexOf(ks, k) == j
  {
  }

  // ---------------------------------------------------------------------------
  // Reads

  /** `isset($ns[$prefix]) ? $ns[$prefix] : FALSE`. */
  function LookupUrl(t: Table, p: string): (r: Option<string>)
    ensures r.None? <==> p !in Keys(t)
    ensures r.Some? ==> (p, r.value) in t
  {
    if p in Keys(t) then
      var i := IndexOf(Keys(t), p);
      assert Keys(t)[i] == t[i].0;
      Some(t[i].1)
    else None
  }

  /** `array_search($url, $ns)`: the first prefix in table order whose URI is `u`. */
  function LookupPrefix(t: Table, u: string): (r: Option<string>)
    ensures r.None? <==> forall i :: 0 <= i < |t| ==> t[i].1 != u
    ensures r.Some? ==> exists i :: 0 <= i < |t| && t[i] == (r.value, u) &&
                                    forall j :: 0 <= j < i ==> t[j].1 != u
  {
    if u in Values(t) then
      var i := IndexOf(Values(t), u);
      assert forall j :: 0 <= j < i ==> Values(t)[j] == t[j].1;
      Some(t[i].0)
    else
      assert forall i :: 0 <= i < |t| ==> Values(t)[i] == t[i].1;
      None
  }

  /** `empty($ns[$key])`: the key is missing or maps to "" or "0". */
  predicate EmptyEntry(t: Table, key: string) {
    match LookupUrl(t, key)
    case None => true
    case Some(u) => PhpEmpty(u)
  }

  /** The prefix found for a URI is registered for that URI: `lookupURL(lookupPrefix(u)) == u`. */
  lemma LookupPrefixUrl(t: Table, u: string)
    requires DistinctKeys(t)
    requires LookupPrefix(t, u).Some?
    ensures LookupUrl(t, LookupPrefix(t, u).value) == Some(u)
  {
    var p := LookupPrefix(t, u).value;
    var i :| 0 <= i < |t| && t[i] == (p, u);
    assert Keys(t)[i] == p;
    forall m | 0 <= m < i ensures Keys(t)[m] != p {
      assert t[m].0 != t[i].0;
    }
    IndexOfUnique(Keys(t), p, i);
  }

  /** Every prefix registered for `u` comes no earlier than the one `LookupPrefix` returns. */
  lemma LookupPrefixFirst(t: Table, u: string, q: string)
    requires DistinctKeys(t)
    requires LookupUrl(t, q) == Some(u)
    ensures LookupPrefix(t, u).Some? && LookupPrefix(t, u).value in Keys(t) &&
            IndexOf(Keys(t), LookupPrefix(t, u).value) <= IndexOf(Keys(t), q)
  {
    var k := IndexOf(Keys(t), q);
    assert t[k] == (q, u);
    var p := LookupPrefix(t, u).value;
    var i :| 0 <= i < |t| && t[i] == (p, u) && forall j :: 0 <= j < i ==> t[j].1 != u;
    assert Keys(t)[i] == p;
    forall m | 0 <= m < i ensures Keys(t)[m] != p {
      assert t[m].0 != t[i].0;
    }
    IndexOfUnique(Keys(t), p, i);
  }

  // ---------------------------------------------------------------------------
  // Updates

  /** `$ns[$p] = $u`: overwrite an existing entry in place, or append a new one. */
  function Put(t: Table, p: string, u: string): (r: Table)
    ensures Keys(r) == if p in Keys(t) then Keys(t) else Keys(t) + [p]
    ensures LookupUrl(r, p) == Some(u)
    ensures forall q :: q != p ==> LookupUrl(r, q) == LookupUrl(t, q)
  {
    if p in Keys(t) then
      var i := IndexOf(Keys(t), p);
      var r := t[i := (p, u)];
      assert Keys(r) == Keys(t);
      PutLookups(t, r, p, i);
      r
    else
      var r := t + [(p, u)];
      assert Keys(r) == Keys(t) + [p];
      PutLookups(t, r, p, |t|);
      r
  }

  /** Lookups after `r` agrees with `t` on every position but `i`, where `p` now sits. */
  lemma PutLookups(t: Table, r: Table, p: string, i: nat)
    requires |r| == |t| || |r| == |t| + 1
    requires i < |r| && r[i].0 == p
    requires |r| == |t| + 1 ==> i == |t| && p !in Keys(t)
    requires |r| == |t| ==> i < |t| && t[i].0 == p
    requires forall j :: 0 <= j < |t| && j != i ==> r[j] == t[j]
    requires forall j :: 0 <= j < i && j < |t| ==> Keys(t)[j] != p
    ensures LookupUrl(r, p) == Some(r[i].1)
    ensures forall q :: q != p ==> LookupUrl(r, q) == LookupUrl(t, q)
  {
    assert Keys(r)[i] == p;
    forall m | 0 <= m < i ensures Keys(r)[m] != p {
      assert Keys(t)[m] == Keys(r)[m];
    }
    IndexOfUnique(Keys(r), p, i);
    forall q | q != p ensures LookupUrl(r, q) == LookupUrl(t, q) {
      if q in Keys(t) {
        var j := IndexOf(Keys(t), q);
        assert j != i && Keys(r)[j] == q;
        forall m | 0 <= m < j ensures Keys(r)[m] != q {
          assert Keys(t)[m] != q;
        }
        IndexOfUnique(Keys(r), q, j);
      } else {
        assert forall m :: 0 <= m < |r| ==> Keys(r)[m] != q by {
          forall m | 0 <= m < |r| ensures Keys(r)[m] != q {
            if m != i { assert Keys(t)[m] == Keys(r)[m]; }
          }
        }
      }
    }
  }

  /** Registering keeps the keys distinct. */
  lemma PutDistinct(t: Table, p: string, u: string)
    requires DistinctKeys(t)
    ensures DistinctKeys(Put(t, p, u))
  {
    var r := Put(t, p, u);
    forall i, j | 0 <= i < j < |r| ensures r[i].0 != r[j].0 {
      assert Keys(r)[i] == r[i].0 && Keys(r)[j] == r[j].0;
      if j < |t| {
        assert Keys(t)[i] == t[i].0 && Keys(t)[j] == t[j].0;
      } else {
        assert Keys(t)[i] == t[i].0;
      }
    }
  }

  /** A registered prefix keeps its position and only its URI changes; every other entry
      is left as it was. */
  lemma PutInPlace(t: Table, p: string, u: string)
    requires DistinctKeys(t)
    requires p in Keys(t)
    ensures var i := IndexOf(Keys(t), p);
      Put(t, p, u) == t[..i] + [(p, u)] + t[i + 1..]
  {
  }

  /** A new prefix is appended after all existing entries. */
  lemma PutAppends(t: Table, p: string, u: string)
    requires p !in Keys(t)
    ensures Put(t, p, u) == t + [(p, u)]
  {
  }

  /** `unset($ns[$p])`: drop the entry for `p`, keeping the order of the rest. */
  function Remove(t: Table, p: string): (r: Table)
    ensures |r| == if p in Keys(t) then |t| - 1 else |t|
    ensures p !in Keys(t) ==> r == t
    ensures p in Keys(t) ==>
      Keys(r) == Keys(t)[..IndexOf(Keys(t), p)] + Keys(t)[IndexOf(Keys(t), p) + 1..]
  {
    if p in Keys(t) then
      var i := IndexOf(Keys(t), p);
      t[..i] + t[i + 1..]
    else t
  }

  /** After `unset`, `p` is gone, every other prefix looks up as before, and the prefixes
      stay distinct (the order of the rest is stated by `Remove`). */
  lemma RemoveLookups(t: Table, p: string)
    requires DistinctKeys(t)
    ensures DistinctKeys(Remove(t, p))
    ensures LookupUrl(Remove(t, p), p) == None
    ensures forall q :: q != p ==> LookupUrl(Remove(t, p), q) == LookupUrl(t, q)
  {
    if p in Keys(t) {
      var i := IndexOf(Keys(t), p);
      LookupFound(t, p);
      var r := t[..i] + t[i + 1..];
      assert Remove(t, p) == r;
      DropAt(t, i, r);
      forall m | 0 <= m < |r| ensures r[m].0 != p {
        assert r[m] == t[if m < i then m else m + 1];
      }
      LookupAbsent(r, p);
      forall q | q != p ensures LookupUrl(r, q) == LookupUrl(t, q) {
        DropLookup(t, i, r, q);
      }
    }
  }

  /** Dropping an entry whose key is not `q` does not change the lookup of `q`. */
  lemma DropLookup(t: Table, i: nat, r: Table, q: string)
    requires i < |t| && r == t[..i] + t[i + 1..] && t[i].0 != q
    ensures LookupUrl(r, q) == LookupUrl(t, q)
  {
    DropAt(t, i, r);
    if q in Keys(t) {
      var j := IndexOf(Keys(t), q);
      LookupFound(t, q);
      if j < i {
        forall m | 0 <= m < j ensures r[m].0 != q {
          assert r[m] == t[m];
        }
        assert r[j] == t[j];
        LookupAt(r, q, j);
      } else {
        forall m | 0 <= m < j - 1 ensures r[m].0 != q {
          assert r[m] == t[if m < i then m else m + 1];
        }
        assert r[j - 1] == t[j];
        LookupAt(r, q, j - 1);
      }
    } else {
      LookupMissing(t, q);
      forall m | 0 <= m < |r| ensures r[m].0 != q {
        assert r[m] == t[if m < i then m else m + 1];
      }
      LookupAbsent(r, q);
    }
  }

  /** The entry for `q` sits at position `k` with no earlier entry for `q`. */
  lemma LookupAt(t: Table, q: string, k: nat)
    requires k < |t| && t[k].0 == q
    requires forall m :: 0 <= m < k ==> t[m].0 != q
    ensures LookupUrl(t, q) == Some(t[k].1)
  {
    assert Keys(t)[k] == q;
    forall m | 0 <= m < k ensures Keys(t)[m] != q {
      assert Keys(t)[m] == t[m].0;
    }
    IndexOfUnique(Keys(t), q, k);
  }

  /** The first entry for a registered `q`. */
  lemma LookupFound(t: Table, q: string)
    requires q in Keys(t)
    ensures var j := IndexOf(Keys(t), q);
      t[j].0 == q && LookupUrl(t, q) == Some(t[j].1) &&
      forall m :: 0 <= m < j ==> t[m].0 != q
  {
    var j := IndexOf(Keys(t), q);
    forall m | 0 <= m < j ensures t[m].0 != q {
      assert Keys(t)[m] == t[m].0;
    }
    assert Keys(t)[j] == t[j].0;
  }

  lemma LookupAbsent(t: Table, q: string)
    requires forall m :: 0 <= m < |t| ==> t[m].0 != q
    ensures LookupUrl(t, q) == None
  {
    assert forall m :: 0 <= m < |t| ==> Keys(t)[m] == t[m].0;
  }

  lemma LookupMissing(t: Table, q: string)
    requires q !in Keys(t)
    ensures forall m :: 0 <= m < |t| ==> t[m].0 != q
  {
    assert forall m :: 0 <= m < |t| ==> Keys(t)[m] == t[m].0;
  }

  /** The entries left after dropping position `i`. */
  lemma DropAt(t: Table, i: nat, r: Table)
    requires i < |t| && r == t[..i] + t[i + 1..]
    ensures |r| == |t| - 1
    ensures forall m :: 0 <= m < |r| ==> r[m] == t[if m < i then m else m + 1]
  {
  }

  /** Registering the entries of another table one by one, in its order. */
  function Merge(t: Table, other: Table): (r: Table)
    ensures forall q :: q in Keys(t) ==> q in Keys(r)
    decreases |other|
  {
    if other == [] then t
    else
      var last := other[|other| - 1];
      Put(Merge(t, other[..|other| - 1]), last.0, last.1)
  }

  /** After a merge, a prefix of the other table has that table's URI and every other
      prefix keeps its own. */
  lemma {:induction false} MergeLookup(t: Table, other: Table, q: string)
    requires DistinctKeys(other)
    ensures LookupUrl(Merge(t, other), q) ==
            if q in Keys(other) then LookupUrl(other, q) else LookupUrl(t, q)
    decreases |other|
  {
    if other != [] {
      var n := |other| - 1;
      var init := other[..n];
      SnocParts(other, init);
      MergeLookup(t, init, q);
      LookupSnoc(init, other[n], q);
    }
  }

  /** A table with distinct keys is its front, with distinct keys, plus a last entry whose key
      is new. */
  lemma SnocParts(other: Table, init: Table)
    requires DistinctKeys(other) && |other| > 0 && init == other[..|other| - 1]
    ensures DistinctKeys(init) && other[|other| - 1].0 !in Keys(init)
    ensures other == init + [other[|other| - 1]]
    ensures Keys(other) == Keys(init) + [other[|other| - 1].0]
  {
    var n := |other| - 1;
    forall j | 0 <= j < n ensures Keys(init)[j] != other[n].0 {
      assert Keys(init)[j] == other[j].0;
    }
  }

  /** Looking up in a table with one more entry whose key is new. */
  lemma LookupSnoc(t: Table, e: (string, string), q: string)
    requires e.0 !in Keys(t)
    ensures LookupUrl(t + [e], q) ==
            if q in Keys(t) then LookupUrl(t, q) else if q == e.0 then Some(e.1) else None
  {
    var r := t + [e];
    assert Keys(r) == Keys(t) + [e.0];
    if q in Keys(t) {
      var j := IndexOf(Keys(t), q);
      IndexOfUnique(Keys(r), q, j);
    } else if q == e.0 {
      IndexOfUnique(Keys(r), q, |t|);
    }
  }

  /** A merge keeps the keys distinct. */
  lemma {:induction false} MergeDistinct(t: Table, other: Table)
    requires DistinctKeys(t)
    ensures DistinctKeys(Merge(t, other))
    decreases |other|
  {
    if other != [] {
      var last := other[|other| - 1];
      MergeDistinct(t, other[..|other| - 1]);
      PutDistinct(Merge(t, other[..|other| - 1]), last.0, last.1);
    }
  }

  // ---------------------------------------------------------------------------
  // Automatic registration of the document element's declarations

  /** The URI bound to the prefix `xml` by definition (Namespaces in XML 1.0, section 3). */
  const XmlNamespaceUri: string := "http://www.w3.org/XML/1998/namespace"

  /** A node of the document element's `namespace::*` axis; the default namespace has prefix "". */
  datatype NamespaceNode = NamespaceNode(prefix: string, uri: string)

  datatype Attribute = Attribute(name: string, value: string)

  /** What registration reads from the document element: its tag name, its `xmlns` attribute
      ("" when it has none), its namespace nodes and its attributes, each in document order. */
  datatype Root = Root(tagName: string, xmlns: string, namespaces: seq<NamespaceNode>,
                       attributes: seq<Attribute>)

  /** The table together with `default_ns` (`None` stands for its initial FALSE). */
  datatype Registry = Registry(ns: Table, defaultNs: Option<string>)

  /** The key a default namespace is registered under: the alias when a string was passed,
      otherwise the document element's tag name. */
  function DefaultKey(alias: Option<string>, tag: string): string {
    match alias
    case Some(a) => a
    case None => tag
  }

  /** Registering a default namespace: under the alias with `aliasUri`, or else under the tag
      name with `tagUri`, the latter only when the tag name has no non-empty entry yet. */
  function RegisterDefault(t: Table, alias: Option<string>, tag: string, aliasUri: string,
                           tagUri: string): (r: Table)
    ensures forall p :: p in Keys(r) <==> p in Keys(t) || p == DefaultKey(alias, tag)
  {
    match alias
    case Some(a) => Put(t, a, aliasUri)
    case None => if EmptyEntry(t, tag) then Put(t, tag, tagUri) else t
  }

  /** A prefixed declaration that is registered: neither the prefix `xml` nor its URI. */
  predicate Declares(n: NamespaceNode) {
    !PhpEmpty(n.prefix) && n.prefix != "xml" && n.uri != XmlNamespaceUri
  }

  /** One namespace node of the first pass. */
  function NamespaceStep(r: Registry, n: NamespaceNode, root: Root, alias: Option<string>): Registry {
    if !PhpEmpty(n.prefix) then
      if n.prefix != "xml" && n.uri != XmlNamespaceUri then Registry(Put(r.ns, n.prefix, n.uri), r.defaultNs)
      else r
    else Registry(RegisterDefault(r.ns, alias, root.tagName, n.uri, root.xmlns), Some(n.uri))
  }

  /** The first pass, over the namespace axis in order. */
  function NamespacePass(r: Registry, nodes: seq<NamespaceNode>, root: Root, alias: Option<string>): Registry
    decreases |nodes|
  {
    if nodes == [] then r
    else NamespaceStep(NamespacePass(r, nodes[..|nodes| - 1], root, alias), nodes[|nodes| - 1], root, alias)
  }

  /** `substr($name, 0, 6) == 'xmlns:'`. */
  predicate IsPrefixDeclaration(name: string) {
    |name| >= 6 && name[..6] == "xmlns:"
  }

  /** One attribute of the fallback pass. */
  function AttributeStep(r: Registry, a: Attribute, root: Root, alias: Option<string>): Registry {
    if a.name == "xmlns" then
      Registry(RegisterDefault(r.ns, alias, root.tagName, a.value, a.value), Some(a.value))
    else if IsPrefixDeclaration(a.name) then Registry(Put(r.ns, a.name[6..], a.value), r.defaultNs)
    else r
  }

  /** The fallback pass, over the document element's attributes in order. */
  function AttributePass(r: Registry, attrs: seq<Attribute>, root: Root, alias: Option<string>): Registry
    decreases |attrs|
  {
    if attrs == [] then r
    else AttributeStep(AttributePass(r, attrs[..|attrs| - 1], root, alias), attrs[|attrs| - 1], root, alias)
  }

  /** Both passes: the attribute fallback runs only when the table is still empty after the
      namespace axis and there is a document element. */
  function AutoRegister(r: Registry, root: Option<Root>, alias: Option<string>): Registry {
    match root
    case None => r
    case Some(e) =>
      var s := NamespacePass(r, e.namespaces, e, alias);
      if s.ns == [] then AttributePass(s, e.attributes, e, alias) else s
  }

  /** The URIs a default declaration registers: under an alias the declaration's URI; without
      one, `tagUri` under the tag name when that name has no non-empty entry yet, and nothing
      otherwise. Every other prefix keeps its lookup. */
  lemma RegisterDefaultLookups(t: Table, alias: Option<string>, tag: string, aliasUri: string,
                               tagUri: string)
    ensures var r := RegisterDefault(t, alias, tag, aliasUri, tagUri);
      (alias.Some? ==> LookupUrl(r, alias.value) == Some(aliasUri)) &&
      (alias.None? && EmptyEntry(t, tag) ==> LookupUrl(r, tag) == Some(tagUri)) &&
      (alias.None? && !EmptyEntry(t, tag) ==> r == t) &&
      forall q :: q != DefaultKey(alias, tag) ==> LookupUrl(r, q) == LookupUrl(t, q)
  {
  }

  /** A default declaration on the namespace axis sets `default_ns` to its URI and registers
      it under the alias, or else registers the document element's `xmlns` attribute under
      the tag name when that name has no non-empty entry yet. */
  lemma NamespaceStepDefault(r: Registry, n: NamespaceNode, root: Root, alias: Option<string>)
    requires PhpEmpty(n.prefix)
    ensures var s := NamespaceStep(r, n, root, alias);
      s.defaultNs == Some(n.uri) &&
      (alias.Some? ==> LookupUrl(s.ns, alias.value) == Some(n.uri)) &&
      (alias.None? && EmptyEntry(r.ns, root.tagName) ==> LookupUrl(s.ns, root.tagName) == Some(root.xmlns)) &&
      (alias.None? && !EmptyEntry(r.ns, root.tagName) ==> s.ns == r.ns)
  {
    RegisterDefaultLookups(r.ns, alias, root.tagName, n.uri, root.xmlns);
  }

  /** A prefixed declaration leaves `default_ns` alone; it registers its URI under its prefix
      unless it is `xml` or the XML namespace, and otherwise changes nothing. */
  lemma NamespaceStepDeclared(r: Registry, n: NamespaceNode, root: Root, alias: Option<string>)
    requires !PhpEmpty(n.prefix)
    ensures var s := NamespaceStep(r, n, root, alias);
      s.defaultNs == r.defaultNs &&
      (Declares(n) ==> LookupUrl(s.ns, n.prefix) == Some(n.uri)) &&
      (!Declares(n) ==> s == r)
  {
  }

  /** An `xmlns` attribute sets `default_ns` to its value and registers that value under the
      alias, or under the tag name when that name has no non-empty entry yet. */
  lemma AttributeStepDefault(r: Registry, a: Attribute, root: Root, alias: Option<string>)
    requires a.name == "xmlns"
    ensures var s := AttributeStep(r, a, root, alias);
      s.defaultNs == Some(a.value) &&
      (alias.Some? ==> LookupUrl(s.ns, alias.value) == Some(a.value)) &&
      (alias.None? && EmptyEntry(r.ns, root.tagName) ==> LookupUrl(s.ns, root.tagName) == Some(a.value)) &&
      (alias.None? && !EmptyEntry(r.ns, root.tagName) ==> s.ns == r.ns)
  {
    RegisterDefaultLookups(r.ns, alias, root.tagName, a.value, a.value);
  }

  /** An `xmlns:p` attribute registers its value under `p`; any other attribute changes
      nothing. Neither touches `default_ns`. */
  lemma AttributeStepDeclared(r: Registry, a: Attribute, root: Root, alias: Option<string>)
    requires a.name != "xmlns"
    ensures var s := AttributeStep(r, a, root, alias);
      s.defaultNs == r.defaultNs &&
      (IsPrefixDeclaration(a.name) ==> LookupUrl(s.ns, a.name[6..]) == Some(a.value)) &&
      (!IsPrefixDeclaration(a.name) ==> s == r)
  {
  }

  /** Without a default declaration on the namespace axis, `default_ns` keeps its value. */
  lemma {:induction false} NamespacePassKeepsDefault(r: Registry, nodes: seq<NamespaceNode>,
                                                     root: Root, alias: Option<string>)
    requires forall i :: 0 <= i < |nodes| ==> !PhpEmpty(nodes[i].prefix)
    ensures NamespacePass(r, nodes, root, alias).defaultNs == r.defaultNs
    decreases |nodes|
  {
    if nodes != [] {
      var n := |nodes| - 1;
      var init := nodes[..n];
      assert forall i :: 0 <= i < n ==> init[i] == nodes[i];
      NamespacePassKeepsDefault(r, init, root, alias);
      NamespaceStepDeclared(NamespacePass(r, init, root, alias), nodes[n], root, alias);
    }
  }

  /** After the namespace pass, `default_ns` is the URI of the last default declaration. */
  lemma {:induction false} NamespacePassLastDefault(r: Registry, nodes: seq<NamespaceNode>,
                                                    root: Root, alias: Option<string>, j: nat)
    requires j < |nodes| && PhpEmpty(nodes[j].prefix) && LastDefault(nodes, j)
    ensures NamespacePass(r, nodes, root, alias).defaultNs == Some(nodes[j].uri)
    decreases |nodes|
  {
    var n := |nodes| - 1;
    var init := nodes[..n];
    if j == n {
      NamespaceStepDefault(NamespacePass(r, init, root, alias), nodes[n], root, alias);
    } else {
      assert !PhpEmpty(nodes[n].prefix);
      assert LastDefault(init, j) by {
        assert forall k :: 0 <= k < n ==> init[k] == nodes[k];
      }
      NamespacePassLastDefault(r, init, root, alias, j);
      NamespaceStepDeclared(NamespacePass(r, init, root, alias), nodes[n], root, alias);
    }
  }

  /** No default declaration follows node `j`. */
  predicate LastDefault(nodes: seq<NamespaceNode>, j: int) {
    forall k :: 0 <= k < |nodes| && j < k ==> !PhpEmpty(nodes[k].prefix)
  }

  /** The namespace pass reads the document element's tag name and `xmlns`, not its
      attributes. */
  lemma {:induction false} NamespacePassIgnoresAttributes(r: Registry, nodes: seq<NamespaceNode>,
                                                          root: Root, attrs: seq<Attribute>,
                                                          alias: Option<string>)
    ensures NamespacePass(r, nodes, root.(attributes := attrs), alias) == NamespacePass(r, nodes, root, alias)
    decreases |nodes|
  {
    if nodes != [] {
      NamespacePassIgnoresAttributes(r, nodes[..|nodes| - 1], root, attrs, alias);
    }
  }

  /** The attribute fallback runs only when the namespace pass left the table empty: otherwise
      the result is that pass, whatever the attributes are. */
  lemma AutoRegisterGate(r: Registry, e: Root, alias: Option<string>, attrs: seq<Attribute>)
    ensures var s := NamespacePass(r, e.namespaces, e, alias);
      (s.ns != [] ==> AutoRegister(r, Some(e), alias) == s &&
                      AutoRegister(r, Some(e.(attributes := attrs)), alias) == s) &&
      (s.ns == [] ==> AutoRegister(r, Some(e), alias) == AttributePass(s, e.attributes, e, alias))
  {
    NamespacePassIgnoresAttributes(r, e.namespaces, e, attrs, alias);
  }

  /** Whether namespace node `n` makes `p` a key. */
  predicate NodeRegisters(n: NamespaceNode, alias: Option<string>, tag: string, p: string) {
    if PhpEmpty(n.prefix) then p == DefaultKey(alias, tag) else Declares(n) && n.prefix == p
  }

  /** After the namespace pass a prefix is registered exactly when it was before, or some node
      declares it and is neither `xml` nor bound to the XML namespace, or some node is a default
      declaration and the prefix is the alias (or, without one, the tag name). */
  lemma {:induction false} NamespacePassKeys(r: Registry, nodes: seq<NamespaceNode>, root: Root,
                                             alias: Option<string>, p: string)
    ensures p in Keys(NamespacePass(r, nodes, root, alias).ns) <==>
            p in Keys(r.ns) || exists i :: 0 <= i < |nodes| && NodeRegisters(nodes[i], alias, root.tagName, p)
    decreases |nodes|
  {
    if nodes != [] {
      var n := |nodes| - 1;
      var init := nodes[..n];
      NamespacePassKeys(r, init, root, alias, p);
      NamespaceStepKeys(NamespacePass(r, init, root, alias), nodes[n], root, alias, p);
      NodeWitnesses(nodes, init, alias, root.tagName, p);
    }
  }

  /** One namespace node adds exactly the prefix it registers. */
  lemma NamespaceStepKeys(s: Registry, n: NamespaceNode, root: Root, alias: Option<string>, p: string)
    ensures p in Keys(NamespaceStep(s, n, root, alias).ns) <==>
            p in Keys(s.ns) || NodeRegisters(n, alias, root.tagName, p)
  {
  }

  lemma NodeWitnesses(nodes: seq<NamespaceNode>, init: seq<NamespaceNode>, alias: Option<string>, tag: string, p: string)
    requires |nodes| > 0 && init == nodes[..|nodes| - 1]
    ensures (exists i :: 0 <= i < |nodes| && NodeRegisters(nodes[i], alias, tag, p)) <==>
            (exists i :: 0 <= i < |init| && NodeRegisters(init[i], alias, tag, p)) ||
            NodeRegisters(nodes[|nodes| - 1], alias, tag, p)
  {
    assert forall i :: 0 <= i < |init| ==> init[i] == nodes[i];
  }

  /** The `xml` prefix is never registered from the namespace axis unless it is the alias or
      the tag name that a default declaration goes under. */
  lemma XmlPrefixSkipped(r: Registry, nodes: seq<NamespaceNode>, root: Root, alias: Option<string>)
    requires "xml" !in Keys(r.ns)
    requires DefaultKey(alias, root.tagName) != "xml"
    ensures "xml" !in Keys(NamespacePass(r, nodes, root, alias).ns)
  {
    NamespacePassKeys(r, nodes, root, alias, "xml");
  }

  /** The registered prefixed declarations, in order. */
  function Declarations(nodes: seq<NamespaceNode>): Table
    decreases |nodes|
  {
    if nodes == [] then []
    else
      var n := nodes[|nodes| - 1];
      Declarations(nodes[..|nodes| - 1]) + (if Declares(n) then [(n.prefix, n.uri)] else [])
  }

  /** Without a default declaration the namespace pass merges the registered declarations into
      the table and leaves `default_ns` alone. */
  lemma {:induction false} NamespacePassMerges(r: Registry, nodes: seq<NamespaceNode>, root: Root,
                                               alias: Option<string>)
    requires forall i :: 0 <= i < |nodes| ==> !PhpEmpty(nodes[i].prefix)
    ensures NamespacePass(r, nodes, root, alias) == Registry(Merge(r.ns, Declarations(nodes)), r.defaultNs)
    decreases |nodes|
  {
    if nodes != [] {
      var n := |nodes| - 1;
      var init := nodes[..n];
      assert forall i :: 0 <= i < n ==> init[i] == nodes[i];
      NamespacePassMerges(r, init, root, alias);
      var d := Declarations(init);
      var s := NamespacePass(r, init, root, alias);
      assert NamespacePass(r, nodes, root, alias) == NamespaceStep(s, nodes[n], root, alias);
      if Declares(nodes[n]) {
        var e := (nodes[n].prefix, nodes[n].uri);
        assert Declarations(nodes) == d + [e];
        MergeSnoc(r.ns, d, e);
      } else {
        assert Declarations(nodes) == d;
      }
    }
  }

  lemma MergeSnoc(t: Table, d: Table, e: (string, string))
    ensures Merge(t, d + [e]) == Put(Merge(t, d), e.0, e.1)
  {
    assert (d + [e])[..|d|] == d;
  }

  /** One more entry of the other table is one more `Put`. */
  lemma MergePrefix(t: Table, d: Table, k: nat)
    requires k < |d|
    ensures Merge(t, d[..k + 1]) == Put(Merge(t, d[..k]), d[k].0, d[k].1)
  {
    assert d[..k + 1][..k] == d[..k];
  }

  /** One more namespace node is one more step. */
  lemma NamespacePassPrefix(r: Registry, nodes: seq<NamespaceNode>, k: nat, root: Root, alias: Option<string>)
    requires k < |nodes|
    ensures NamespacePass(r, nodes[..k + 1], root, alias)
         == NamespaceStep(NamespacePass(r, nodes[..k], root, alias), nodes[k], root, alias)
  {
    assert nodes[..k + 1][..k] == nodes[..k];
  }

  /** One more attribute is one more step. */
  lemma AttributePassPrefix(r: Registry, attrs: seq<Attribute>, k: nat, root: Root, alias: Option<string>)
    requires k < |attrs|
    ensures AttributePass(r, attrs[..k + 1], root, alias)
         == AttributeStep(AttributePass(r, attrs[..k], root, alias), attrs[k], root, alias)
  {
    assert attrs[..k + 1][..k] == attrs[..k];
  }

  /** Whether attribute `a` makes `p` a key in the fallback pass. */
  predicate AttributeRegisters(a: Attribute, alias: Option<string>, tag: string, p: string) {
    if a.name == "xmlns" then p == DefaultKey(alias, tag)
    else IsPrefixDeclaration(a.name) && a.name[6..] == p
  }

  /** After the attribute pass a prefix is registered exactly when it was before, or some
      `xmlns:p` attribute declares it, or some `xmlns` attribute puts the default namespace
      under it. */
  lemma {:induction false} AttributePassKeys(r: Registry, attrs: seq<Attribute>, root: Root,
                                             alias: Option<string>, p: string)
    ensures p in Keys(AttributePass(r, attrs, root, alias).ns) <==>
            p in Keys(r.ns) || exists i :: 0 <= i < |attrs| && AttributeRegisters(attrs[i], alias, root.tagName, p)
    decreases |attrs|
  {
    if attrs != [] {
      var n := |attrs| - 1;
      var init := attrs[..n];
      AttributePassKeys(r, init, root, alias, p);
      AttributeStepKeys(AttributePass(r, init, root, alias), attrs[n], root, alias, p);
      AttributeWitnesses(attrs, init, alias, root.tagName, p);
    }
  }

  /** One attribute adds exactly the prefix it registers. */
  lemma AttributeStepKeys(s: Registry, a: Attribute, root: Root, alias: Option<string>, p: string)
    ensures p in Keys(AttributeStep(s, a, root, alias).ns) <==>
            p in Keys(s.ns) || AttributeRegisters(a, alias, root.tagName, p)
  {
  }

  lemma AttributeWitnesses(attrs: seq<Attribute>, init: seq<Attribute>, alias: Option<string>, tag: string, p: string)
    requires |attrs| > 0 && init == attrs[..|attrs| - 1]
    ensures (exists i :: 0 <= i < |attrs| && AttributeRegisters(attrs[i], alias, tag, p)) <==>
            (exists i :: 0 <= i < |init| && AttributeRegisters(init[i], alias, tag, p)) ||
            AttributeRegisters(attrs[|attrs| - 1], alias, tag, p)
  {
    assert forall i :: 0 <= i < |init| ==> init[i] == attrs[i];
  }

  /** A document element in a default namespace, registered without an alias: the namespace is
      found again under the element's tag name, and the tag name looks up to it. */
  lemma DefaultUnderTagName(tag: string, uri: string, attrs: seq<Attribute>)
    ensures var root := Root(tag, uri, [NamespaceNode("xml", XmlNamespaceUri), NamespaceNode("", uri)], attrs);
      var r := AutoRegister(Registry([], None), Some(root), None);
      r == Registry([(tag, uri)], Some(uri)) &&
      LookupPrefix(r.ns, uri) == Some(tag) && LookupUrl(r.ns, tag) == Some(uri)
  {
    var root := Root(tag, uri, [NamespaceNode("xml", XmlNamespaceUri), NamespaceNode("", uri)], attrs);
    var nodes := root.namespaces;
    assert nodes[..1] == [nodes[0]] && nodes[..1][..0] == [];
    assert NamespacePass(Registry([], None), nodes[..1], root, None) == Registry([], None);
    assert Keys([]) == [];
    assert Put([], tag, uri) == [(tag, uri)];
    assert Values([(tag, uri)]) == [uri];
  }
}
