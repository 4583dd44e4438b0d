/** Byte-string helpers shared by the selector compiler, the query rewrites and the
    namespace table: PHP's character classes, `explode`/`implode`, `trim`, `empty()`
    on strings and `strtolower`. Strings are `seq<char>` restricted to ASCII semantics,
    which is what PHP's non-UTF-8 string functions and PCRE without the `u` flag use. */
module Text {

  /** PHP's `FALSE` / `null` results are `None`. */
  datatype Option<+T> = None | Some(value: T)

  /** PCRE `\s` (space, tab, line feed, vertical tab, form feed, carriage return). */
  predicate IsSpace(c: char) {
    c == ' ' || c == '\t' || c == '\n' || c == '\r' || c as int == 11 || c as int == 12
  }

  /** The characters PHP's `trim` strips by default: " \t\n\r\0\x0B". */
  predicate IsTrimChar(c: char) {
    c == ' ' || c == '\t' || c == '\n' || c == '\r' || c as int == 0 || c as int == 11
  }

  /** `[a-z]` under the case-insensitive flag `i`. */
  predicate IsLetter(c: char) {
    'a' <= c <= 'z' || 'A' <= c <= 'Z'
  }

  /** `[a-z0-9_-]` under the case-insensitive flag `i`. */
  predicate IsWordChar(c: char) {
    IsLetter(c) || '0' <= c <= '9' || c == '_' || c == '-'
  }

  predicate IsQuote(c: char) {
    c == '\'' || c == '"'
  }

  /** A word: one or more characters of `[a-z0-9_-]`. */
  predicate IsWord(s: string) {
    |s| > 0 && forall i :: 0 <= i < |s| ==> IsWordChar(s[i])
  }

  /** A name matched by `[a-z][a-z0-9_-]*`: a letter followed by word characters. */
  predicate IsName(s: string) {
    IsWord(s) && IsLetter(s[0])
  }

  lemma StartsWithSplit(s: string, prefix: string)
    requires StartsWith(s, prefix)
    ensures s == prefix + s[|prefix|..]
  {
  }

  lemma SplitThree(s: string, i: nat, j: nat)
    requires i <= j <= |s|
    ensures s == s[..i] + (s[i..j] + s[j..])
  {
  }

  /** Splitting off the first character and gluing it back on. */
  lemma ConsAssoc(x: string, y: string)
    requires x != []
    ensures [x[0]] + (x[1..] + y) == x + y
  {
    assert [x[0]] + x[1..] == x;
  }

  /** PHP's `empty()` (equivalently, falsiness) on a string: "" and "0". */
  predicate PhpEmpty(s: string) {
    s == "" || s == "0"
  }

  predicate StartsWith(s: string, prefix: string) {
    |prefix| <= |s| && s[..|prefix|] == prefix
  }

  /** ASCII `strtolower` on one character. */
  function LowerChar(c: char): (d: char)
    ensures IsWordChar(c) <==> IsWordChar(d)
    ensures 'A' <= d <= 'Z' ==> false
    ensures !('A' <= c <= 'Z') ==> d == c
  {
    if 'A' <= c <= 'Z' then (c as int + 32) as char else c
  }

  /** ASCII `strtolower`. */
  function Lower(s: string): (r: string)
    ensures |r| == |s|
    ensures forall i :: 0 <= i < |s| ==> r[i] == LowerChar(s[i])
  {
    if s == [] then [] else [LowerChar(s[0])] + Lower(s[1..])
  }

  lemma LowerWord(s: string)
    requires IsWord(s)
    ensures IsWord(Lower(s))
  {
    var r := Lower(s);
    forall i | 0 <= i < |r| ensures IsWordChar(r[i]) {
      assert r[i] == LowerChar(s[i]);
    }
  }

  /** Length of the longest prefix of word characters: what a greedy `[a-z0-9_-]*` takes. */
  function WordRun(s: string): (n: nat)
    ensures n <= |s|
  {
    if s != [] && IsWordChar(s[0]) then 1 + WordRun(s[1..]) else 0
  }

  /** The run is made of word characters and stops at a non-word character or the end. */
  lemma {:induction false} WordRunSpec(s: string)
    ensures forall i :: 0 <= i < WordRun(s) ==> IsWordChar(s[i])
    ensures WordRun(s) == |s| || !IsWordChar(s[WordRun(s)])
  {
    if s != [] && IsWordChar(s[0]) {
      WordRunSpec(s[1..]);
    }
  }

  /** A word followed by a non-word character (or nothing) is exactly what `WordRun` takes. */
  lemma {:induction false} WordRunOf(w: string, t: string)
    requires forall i :: 0 <= i < |w| ==> IsWordChar(w[i])
    requires t == [] || !IsWordChar(t[0])
    ensures WordRun(w + t) == |w|
  {
    if w != [] {
      assert (w + t)[1..] == w[1..] + t;
      WordRunOf(w[1..], t);
    } else {
      assert w + t == t;
    }
  }

  /** Length of the longest prefix free of quote characters: a greedy `[^'"]*`. */
  function QuoteFreeRun(s: string): (n: nat)
    ensures n <= |s|
  {
    if s != [] && !IsQuote(s[0]) then 1 + QuoteFreeRun(s[1..]) else 0
  }

  /** The run is free of quotes and stops at a quote or the end. */
  lemma {:induction false} QuoteFreeRunSpec(s: string)
    ensures forall i :: 0 <= i < QuoteFreeRun(s) ==> !IsQuote(s[i])
    ensures QuoteFreeRun(s) == |s| || IsQuote(s[QuoteFreeRun(s)])
  {
    if s != [] && !IsQuote(s[0]) {
      QuoteFreeRunSpec(s[1..]);
    }
  }

  lemma {:induction false} QuoteFreeRunOf(v: string, t: string)
    requires forall i :: 0 <= i < |v| ==> !IsQuote(v[i])
    requires t != [] && IsQuote(t[0])
    ensures QuoteFreeRun(v + t) == |v|
  {
    if v != [] {
      assert (v + t)[1..] == v[1..] + t;
      QuoteFreeRunOf(v[1..], t);
    } else {
      assert v + t == t;
    }
  }

  /** PHP `explode` with a one-character delimiter. */
  function Explode(s: string, d: char): (parts: seq<string>)
    ensures |parts| >= 1
    ensures forall i :: 0 <= i < |parts| ==> d !in parts[i]
  {
    if s == [] then [""]
    else if s[0] == d then [""] + Explode(s[1..], d)
    else
      var rest := Explode(s[1..], d);
      [[s[0]] + rest[0]] + rest[1..]
  }

  /** PHP `implode`. */
  function Implode(sep: string, parts: seq<string>): string {
    if parts == [] then ""
    else if |parts| == 1 then parts[0]
    else parts[0] + sep + Implode(sep, parts[1..])
  }

  /** Concatenation of a list of strings (`implode('', ...)`). */
  function Concat(parts: seq<string>): string {
    if parts == [] then "" else parts[0] + Concat(parts[1..])
  }

  lemma {:induction false} ImplodeConsFirst(sep: string, head: string, parts: seq<string>)
    requires |parts| >= 1
    ensures Implode(sep, [head + parts[0]] + parts[1..]) == head + Implode(sep, parts)
  {
    var xs := [head + parts[0]] + parts[1..];
    if |parts| == 1 {
      assert xs == [head + parts[0]];
    } else {
      assert xs[1..] == parts[1..];
    }
  }

  /** Joining the pieces of an `explode` with the delimiter gives the string back. */
  lemma {:induction false} ImplodeExplode(s: string, d: char)
    ensures Implode([d], Explode(s, d)) == s
  {
    if s == [] {
    } else if s[0] == d {
      ImplodeExplode(s[1..], d);
      assert s == [d] + s[1..];
    } else {
      var rest := Explode(s[1..], d);
      ImplodeExplode(s[1..], d);
      ImplodeConsFirst([d], [s[0]], rest);
      assert s == [s[0]] + s[1..];
    }
  }

  /** Conversely, exploding a delimiter-joined list of delimiter-free pieces gives the pieces. */
  lemma {:induction false} ExplodeImplode(parts: seq<string>, d: char)
    requires |parts| >= 1
    requires forall i :: 0 <= i < |parts| ==> d !in parts[i]
    ensures Explode(Implode([d], parts), d) == parts
  {
    if |parts| == 1 {
      ExplodePiece(parts[0], [], d);
      assert parts[0] + [] == parts[0] && parts == [parts[0]];
    } else {
      var tail := Implode([d], parts[1..]);
      ExplodeImplode(parts[1..], d);
      assert Implode([d], parts) == parts[0] + ([d] + tail);
      ExplodePiece(parts[0], [d] + tail, d);
      assert ([d] + tail)[1..] == tail;
      assert Explode(Implode([d], parts), d) == [parts[0]] + Explode(tail, d);
      assert [parts[0]] + parts[1..] == parts;
    }
  }

  /** Joining one more part onto a non-empty list puts the separator before it. */
  lemma {:induction false} ImplodeSnoc(sep: string, parts: seq<string>, x: string)
    requires |parts| >= 1
    ensures Implode(sep, parts + [x]) == Implode(sep, parts) + sep + x
    decreases |parts|
  {
    if |parts| == 1 {
      assert (parts + [x])[1..] == [x];
    } else {
      ImplodeSnoc(sep, parts[1..], x);
      assert (parts + [x])[1..] == parts[1..] + [x];
    }
  }

  /** A character found in neither the separator nor any part is not in the joined string. */
  lemma {:induction false} ImplodeFree(sep: string, parts: seq<string>, c: char)
    requires c !in sep
    requires forall i :: 0 <= i < |parts| ==> c !in parts[i]
    ensures c !in Implode(sep, parts)
    decreases |parts|
  {
    if |parts| > 1 {
      assert forall i :: 0 <= i < |parts| - 1 ==> parts[1..][i] == parts[i + 1];
      ImplodeFree(sep, parts[1..], c);
    }
  }

  /** Exploding a delimiter-free piece followed by `t` glues the piece onto the first part of `t`. */
  lemma {:induction false} ExplodePiece(w: string, t: string, d: char)
    requires d !in w
    ensures t == [] ==> Explode(w + t, d) == [w]
    ensures t != [] && t[0] == d ==> Explode(w + t, d) == [w] + Explode(t[1..], d)
  {
    if w == [] {
      assert w + t == t;
      if t != [] && t[0] == d {
        assert Explode(t, d) == [""] + Explode(t[1..], d);
      }
    } else {
      assert (w + t)[1..] == w[1..] + t;
      ExplodePiece(w[1..], t, d);
      assert [w[0]] + w[1..] == w;
    }
  }

  /** PHP `ltrim` with the default character list. */
  function TrimLeft(s: string): (r: string)
    ensures |r| <= |s|
  {
    if s != [] && IsTrimChar(s[0]) then TrimLeft(s[1..]) else s
  }

  /** `ltrim` drops exactly the leading run of trim characters. */
  lemma {:induction false} TrimLeftSpec(s: string)
    ensures var r := TrimLeft(s);
      r == s[|s| - |r|..] && (r == [] || !IsTrimChar(r[0]))
      && forall i :: 0 <= i < |s| - |r| ==> IsTrimChar(s[i])
  {
    if s != [] && IsTrimChar(s[0]) {
      TrimLeftSpec(s[1..]);
      var r := TrimLeft(s);
      forall i | 0 < i < |s| - |r| ensures IsTrimChar(s[i]) {
        assert s[i] == s[1..][i - 1];
      }
    }
  }

  /** PHP `rtrim` with the default character list. */
  function TrimRight(s: string): (r: string)
    ensures |r| <= |s|
  {
    if s != [] && IsTrimChar(s[|s| - 1]) then TrimRight(s[..|s| - 1]) else s
  }

  /** `rtrim` drops exactly the trailing run of trim characters. */
  lemma {:induction false} TrimRightSpec(s: string)
    ensures var r := TrimRight(s);
      r == s[..|r|] && (r == [] || !IsTrimChar(r[|r| - 1]))
      && forall i :: |r| <= i < |s| ==> IsTrimChar(s[i])
  {
    if s != [] && IsTrimChar(s[|s| - 1]) {
      TrimRightSpec(s[..|s| - 1]);
    }
  }

  /** PHP `trim`: the text between the leading and the trailing run of trim characters. */
  function Trim(s: string): (r: string)
    ensures |r| <= |s|
  {
    TrimRight(TrimLeft(s))
  }

  /** `trim` keeps a slice of its argument with no trim character at either end, and drops
      only trim characters. */
  lemma TrimSpec(s: string)
    ensures var r := Trim(s); var i := |s| - |TrimLeft(s)|;
      r == s[i..i + |r|] && (r == [] || (!IsTrimChar(r[0]) && !IsTrimChar(r[|r| - 1])))
      && (forall k :: 0 <= k < i ==> IsTrimChar(s[k]))
      && (forall k :: i + |r| <= k < |s| ==> IsTrimChar(s[k]))
  {
    var l := TrimLeft(s);
    TrimLeftSpec(s);
    TrimRightSpec(l);
    var r := Trim(s);
    var i := |s| - |l|;
    forall k | i + |r| <= k < |s| ensures IsTrimChar(s[k]) {
      assert s[k] == l[k - i];
    }
  }

  /** Text without surrounding trim characters is left alone by `trim`. */
  lemma TrimTrimmed(s: string)
    requires s == [] || (!IsTrimChar(s[0]) && !IsTrimChar(s[|s| - 1]))
    ensures Trim(s) == s
  {
    assert TrimLeft(s) == s;
  }
}
