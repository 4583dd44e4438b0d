/** `DOMList` and its twin `BetterDOMNodeList`: the nodes of a query result copied once into
    a PHP array, then walked with a position cursor. The copied nodes, their number and the
    owning document are fixed when the list is built, so editing the document while walking
    the list cannot shift the positions of the nodes still to come. */
module DomList {
  import opened Text

  /** What `__get` answers: the length, the owning document, or null for any other name. */
  datatype Property<D> = Length(n: nat) | Owner(dom: D) | Null

  class DOMList<N, D> {
    /** `$array`, `$length` and `$dom` are written only by the constructor. */
    const nodes: seq<N>
    const length: nat
    const dom: D
    var position: nat

    /** The length fixed at construction is the number of copied nodes. */
    predicate Snapshot() {
      length == |nodes|
    }

    /** Copies the source list node by node, in source order. */
    constructor (source: seq<N>, owner: D)
      ensures Snapshot()
      ensures nodes == source && length == |source| && dom == owner && position == 0
    {
      var copied: seq<N> := [];
      var k := 0;
      while k < |source|
        invariant k <= |source| && copied == source[..k]
      {
        copied := copied + [source[k]];
        k := k + 1;
      }
      assert source[..k] == source;
      nodes := copied;
      dom := owner;
      length := |copied|;
      position := 0;
    }

    /** `__get`: read-only access to `length` and `dom`. */
    function Get(prop: string): (r: Property<D>)
      requires Snapshot()
      ensures r.Length? <==> prop == "length"
      ensures r.Length? ==> r.n == Count()
      ensures r.Owner? <==> prop == "dom"
      ensures r.Owner? ==> r.dom == dom
    {
      if prop == "length" then Length(length)
      else if prop == "dom" then Owner(dom)
      else Null
    }

    method Rewind()
      modifies this
      ensures position == 0
    {
      position := 0;
    }

    /** The node under the cursor; reading past the end yields null. */
    function Current(): (r: Option<N>)
      reads this
      ensures r.Some? <==> Valid()
      ensures r.Some? ==> r == Item(position)
    {
      if position < |nodes| then Some(nodes[position]) else None
    }

    function Key(): nat
      reads this
    {
      position
    }

    method Next()
      modifies this
      ensures position == old(position) + 1
    {
      position := position + 1;
    }

    /** `isset($array[$position])`. */
    function Valid(): (b: bool)
      reads this
      ensures b <==> Item(position).Some?
    {
      position < |nodes|
    }

    /** The node at `index`, or FALSE outside `0 .. count() - 1`. */
    function Item(index: int): (r: Option<N>)
      ensures r.Some? <==> 0 <= index < Count()
      ensures r.Some? ==> r.value == nodes[index]
    {
      if 0 <= index < |nodes| then Some(nodes[index]) else None
    }

    function Count(): nat {
      |nodes|
    }

    /** What `foreach` does with the list: rewind, then read `current()` and `key()` and
        advance with `next()` while `valid()`. It visits every stored node exactly once, in
        order, each under its own index, and leaves the stored nodes as they were. */
    method Walk() returns (visited: seq<N>, keys: seq<nat>)
      modifies this
      ensures visited == nodes && |visited| == Count()
      ensures forall i :: 0 <= i < |visited| ==> Item(i) == Some(visited[i])
      ensures |keys| == |visited| && forall i :: 0 <= i < |keys| ==> keys[i] == i
      ensures !Valid()
    {
      Rewind();
      visited := [];
      keys := [];
      while Valid()
        invariant position <= |nodes|
        invariant visited == nodes[..position]
        invariant |keys| == position && forall i :: 0 <= i < |keys| ==> keys[i] == i
        decreases |nodes| - position
      {
        var node := Current();
        visited := visited + [node.value];
        keys := keys + [Key()];
        Next();
      }
      assert nodes[..position] == nodes;
    }
  }
}
