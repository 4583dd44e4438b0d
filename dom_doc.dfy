/** The namespace bookkeeping and error-checking state of a `DOMDoc` (and of the older
    `BetterDOMDocument`, whose `registerNamespace`, `getNamespaces` and `lookupPrefix` are the
    same code): the prefix table used for XPath queries, the default namespace and the
    error-checking level. */
module DomDoc {
  import opened Text
  import opened Namespaces
  import opened DomList

  /** A PHP value passed as an error-checking level: null, a boolean or a string. */
  datatype Setting = Null | Flag(b: bool) | Level(s: string)

  /** `$x == FALSE` under PHP's loose comparison. */
  predicate Falsy(v: Setting) {
    match v
    case Null => true
    case Flag(b) => !b
    case Level(s) => PhpEmpty(s)
  }

  /** `$x == 'strict'` under PHP's loose comparison: the string itself, or `TRUE`, which
      equals every non-empty string. */
  predicate LooselyStrict(v: Setting) {
    v == Level("strict") || v == Flag(true)
  }

  /** The level `setErrorChecking` stores: `'none'` for a falsy argument, the argument
      otherwise. */
  function StoredLevel(v: Setting): (r: Setting)
    ensures !Falsy(r)
    ensures Falsy(v) ==> r == Level("none")
    ensures !Falsy(v) ==> r == v
  {
    if Falsy(v) then Level("none") else v
  }

  class Document {
    var autoNs: bool
    var ns: Table
    var defaultNs: Option<string>
    var errorChecking: Setting
    /** The inherited `DOMDocument::$strictErrorChecking`. */
    var strictErrorChecking: bool

    /** The table is a PHP array: no prefix occurs twice. */
    predicate Valid()
      reads this
    {
      DistinctKeys(ns)
    }

    /** The field defaults, before any document is loaded. */
    constructor ()
      ensures Valid()
      ensures !autoNs && ns == [] && defaultNs == None
      ensures errorChecking == Level("strict") && strictErrorChecking
    {
      autoNs := false;
      ns := [];
      defaultNs := None;
      errorChecking := Level("strict");
      strictErrorChecking := true;
    }

    method RegisterNamespace(prefix: string, url: string)
      requires Valid()
      modifies this
      ensures Valid()
      ensures ns == Put(old(ns), prefix, url)
      ensures autoNs == old(autoNs) && defaultNs == old(defaultNs)
      ensures errorChecking == old(errorChecking) && strictErrorChecking == old(strictErrorChecking)
    {
      PutDistinct(ns, prefix, url);
      ns := Put(ns, prefix, url);
    }

    method GetNamespaces() returns (t: Table)
      requires Valid()
      ensures t == ns && DistinctKeys(t)
    {
      t := ns;
    }

    method LookupPrefix(url: string) returns (r: Option<string>)
      requires Valid()
      ensures r == Namespaces.LookupPrefix(ns, url)
      ensures r.Some? ==> LookupUrl(ns, r.value) == Some(url)
    {
      r := Namespaces.LookupPrefix(ns, url);
      if r.Some? {
        LookupPrefixUrl(ns, url);
      }
    }

    method LookupURL(prefix: string) returns (r: Option<string>)
      ensures r == LookupUrl(ns, prefix)
    {
      r := LookupUrl(ns, prefix);
    }

    /** The table part of `removeNamespace`: an exception, with nothing changed, for a prefix
        that is not registered or maps to an empty URI; otherwise the entry is dropped. */
    method RemoveNamespace(prefix: string) returns (thrown: bool)
      requires Valid()
      modifies this
      ensures Valid()
      ensures thrown <==> EmptyEntry(old(ns), prefix)
      ensures ns == if thrown then old(ns) else Remove(old(ns), prefix)
      ensures !thrown ==> LookupUrl(ns, prefix) == None
      ensures forall q :: q != prefix ==> LookupUrl(ns, q) == LookupUrl(old(ns), q)
      ensures autoNs == old(autoNs) && defaultNs == old(defaultNs)
      ensures errorChecking == old(errorChecking) && strictErrorChecking == old(strictErrorChecking)
    {
      if EmptyEntry(ns, prefix) {
        return true;
      }
      RemoveLookups(ns, prefix);
      ns := Remove(ns, prefix);
      return false;
    }

    /** `setErrorChecking`: the level is stored, and strict checking is switched off for any
        level other than `'strict'`; nothing switches it back on. */
    method SetErrorChecking(level: Setting)
      modifies this
      ensures errorChecking == StoredLevel(level)
      ensures strictErrorChecking == (old(strictErrorChecking) && LooselyStrict(errorChecking))
      ensures strictErrorChecking ==> old(strictErrorChecking)
      ensures autoNs == old(autoNs) && ns == old(ns) && defaultNs == old(defaultNs)
    {
      if Falsy(level) {
        errorChecking := Level("none");
      } else {
        errorChecking := level;
      }
      if !LooselyStrict(errorChecking) {
        strictErrorChecking := false;
      }
    }

    /** The prefix merge of `createContext`: every entry of the other document's table is
        registered here, in that table's order. */
    method ImportNamespaces(other: Document)
      requires Valid()
      modifies this
      ensures Valid()
      ensures ns == Merge(old(ns), old(other.ns))
      ensures autoNs == old(autoNs) && defaultNs == old(defaultNs)
      ensures errorChecking == old(errorChecking) && strictErrorChecking == old(strictErrorChecking)
    {
      ImportTable(other.ns);
    }

    /** The loop of the merge, over a copy of the other table (PHP arrays are values). */
    method ImportTable(entries: Table)
      requires Valid()
      modifies this
      ensures Valid()
      ensures ns == Merge(old(ns), entries)
      ensures autoNs == old(autoNs) && defaultNs == old(defaultNs)
      ensures errorChecking == old(errorChecking) && strictErrorChecking == old(strictErrorChecking)
    {
      ghost var start := ns;
      var k := 0;
      while k < |entries|
        invariant k <= |entries| && Valid()
        invariant ns == Merge(start, entries[..k])
        invariant autoNs == old(autoNs) && defaultNs == old(defaultNs)
        invariant errorChecking == old(errorChecking) && strictErrorChecking == old(strictErrorChecking)
      {
        ImportEntry(start, entries, k);
        k := k + 1;
      }
      assert entries[..k] == entries;
    }

    /** Registers entry `k` of the other table. */
    method ImportEntry(ghost start: Table, entries: Table, k: nat)
      requires Valid() && k < |entries| && ns == Merge(start, entries[..k])
      modifies this
      ensures Valid() && ns == Merge(start, entries[..k + 1])
      ensures autoNs == old(autoNs) && defaultNs == old(defaultNs)
      ensures errorChecking == old(errorChecking) && strictErrorChecking == old(strictErrorChecking)
    {
      MergePrefix(start, entries, k);
      RegisterNamespace(entries[k].0, entries[k].1);
    }

    /** `AutoRegisterNamespace` over the document element's namespace nodes and attributes;
        `alias` is the string argument, `None` when a boolean was passed. */
    method AutoRegisterNamespace(root: Option<Root>, alias: Option<string>)
      requires Valid()
      modifies this
      ensures Valid() && autoNs
      ensures Registry(ns, defaultNs) == AutoRegister(old(Registry(ns, defaultNs)), root, alias)
      ensures errorChecking == old(errorChecking) && strictErrorChecking == old(strictErrorChecking)
    {
      autoNs := true;
      if root.None? {
        return;
      }
      var e := root.value;
      NamespaceAxis(e, alias);
      if ns == [] {
        AttributeFallback(e, alias);
      }
    }

    /** The loop over `namespace::*`. */
    method NamespaceAxis(e: Root, alias: Option<string>)
      requires Valid()
      modifies this
      ensures Valid() && autoNs == old(autoNs)
      ensures Registry(ns, defaultNs) == NamespacePass(old(Registry(ns, defaultNs)), e.namespaces, e, alias)
      ensures errorChecking == old(errorChecking) && strictErrorChecking == old(strictErrorChecking)
    {
      var nodes := e.namespaces;
      ghost var start := Registry(ns, defaultNs);
      var k := 0;
      while k < |nodes|
        invariant k <= |nodes| && Valid() && autoNs == old(autoNs)
        invariant Registry(ns, defaultNs) == NamespacePass(start, nodes[..k], e, alias)
        invariant errorChecking == old(errorChecking) && strictErrorChecking == old(strictErrorChecking)
      {
        NamespacePassPrefix(start, nodes, k, e, alias);
        NamespaceNodeStep(nodes[k], e, alias);
        k := k + 1;
      }
      assert nodes[..k] == nodes;
    }

    /** One namespace node: a prefixed declaration other than `xml` is registered; a default
        declaration sets `default_ns` and is registered under the alias or the tag name. */
    method NamespaceNodeStep(n: NamespaceNode, e: Root, alias: Option<string>)
      requires Valid()
      modifies this
      ensures Valid() && autoNs == old(autoNs)
      ensures Registry(ns, defaultNs) == NamespaceStep(old(Registry(ns, defaultNs)), n, e, alias)
      ensures errorChecking == old(errorChecking) && strictErrorChecking == old(strictErrorChecking)
    {
      if !PhpEmpty(n.prefix) {
        if n.prefix != "xml" && n.uri != XmlNamespaceUri {
          RegisterNamespace(n.prefix, n.uri);
        }
      } else {
        defaultNs := Some(n.uri);
        match alias {
          case Some(a) =>
            RegisterNamespace(a, n.uri);
          case None =>
            if EmptyEntry(ns, e.tagName) {
              RegisterNamespace(e.tagName, e.xmlns);
            }
        }
      }
    }

    /** The loop over the document element's attributes. */
    method AttributeFallback(e: Root, alias: Option<string>)
      requires Valid()
      modifies this
      ensures Valid() && autoNs == old(autoNs)
      ensures Registry(ns, defaultNs) == AttributePass(old(Registry(ns, defaultNs)), e.attributes, e, alias)
      ensures errorChecking == old(errorChecking) && strictErrorChecking == old(strictErrorChecking)
    {
      var attrs := e.attributes;
      ghost var start := Registry(ns, defaultNs);
      var k := 0;
      while k < |attrs|
        invariant k <= |attrs| && Valid() && autoNs == old(autoNs)
        invariant Registry(ns, defaultNs) == AttributePass(start, attrs[..k], e, alias)
        invariant errorChecking == old(errorChecking) && strictErrorChecking == old(strictErrorChecking)
      {
        AttributePassPrefix(start, attrs, k, e, alias);
        AttributeNodeStep(attrs[k], e, alias);
        k := k + 1;
      }
      assert attrs[..k] == attrs;
    }

    /** One attribute: `xmlns` is the default namespace, `xmlns:p` declares `p`. */
    method AttributeNodeStep(a: Attribute, e: Root, alias: Option<string>)
      requires Valid()
      modifies this
      ensures Valid() && autoNs == old(autoNs)
      ensures Registry(ns, defaultNs) == AttributeStep(old(Registry(ns, defaultNs)), a, e, alias)
      ensures errorChecking == old(errorChecking) && strictErrorChecking == old(strictErrorChecking)
    {
      if a.name == "xmlns" {
        defaultNs := Some(a.value);
        match alias {
          case Some(p) =>
            RegisterNamespace(p, a.value);
          case None =>
            if EmptyEntry(ns, e.tagName) {
              RegisterNamespace(e.tagName, a.value);
            }
        }
      } else if IsPrefixDeclaration(a.name) {
        RegisterNamespace(a.name[6..], a.value);
      }
    }
  }

  /** `xpathSingle` on the result of `xpath`: FALSE for a failed query or an empty list,
      otherwise the first node. */
  method XPathSingle<N, D>(result: Option<DOMList<N, D>>) returns (r: Option<N>)
    ensures r.Some? <==> result.Some? && result.value.Count() > 0
    ensures r.Some? ==> r.value == result.value.nodes[0]
  {
    if result.None? || result.value.Count() == 0 {
      return None;
    }
    r := result.value.Item(0);
  }
}
