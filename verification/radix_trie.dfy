/** RadixTrie: a compressed trie from non-empty strings to non-null values.
    Every node carries an edge label; the key of a node is the concatenation
    of the labels from the root down to it. The children of a node are kept
    sorted by the first character of their labels, and lookups pick the one
    child filed under the next character of the key. */
module RadixTrie {
  import opened Wrappers

  /** A node: its edge label `str`, its value `o` (None for null) and its
      child list. Java tells a null child list (`hasList` false) from an
      empty one, and `getBestMatch` and `put` behave differently on the two. */
  datatype Node<T> = Node(edge: string, value: Option<T>, hasList: bool, children: seq<Node<T>>)

  /** `new RadixTrie()`: the root, with the empty edge, no value and no
      child list. */
  function Empty<T>(): Node<T>
  {
    Node([], None, false, [])
  }

  /** A fresh node holding `v` under edge `s`, without a child list. */
  function Leaf<T>(s: string, v: T): Node<T>
  {
    Node(s, Some(v), false, [])
  }

  /** The character a node is sorted by (`compareTo`, line 35). */
  function Head<T>(n: Node<T>): char
  {
    if n.edge == [] then '\0' else n.edge[0]
  }

  /** The test `child.str.charAt(0) == c` of the child scans. */
  predicate FiledUnder<T>(n: Node<T>, c: char)
  {
    n.edge != [] && n.edge[0] == c
  }

  // ---------------------------------------------------------------------
  // Child lists
  // ---------------------------------------------------------------------

  /** The child scan: the index of the first child filed under `c`, or the
      length of the list when there is none. */
  function Find<T>(kids: seq<Node<T>>, c: char): (j: nat)
    ensures j <= |kids|
    ensures j < |kids| ==> FiledUnder(kids[j], c)
    ensures forall k :: 0 <= k < j ==> !FiledUnder(kids[k], c)
  {
    if kids == [] then 0
    else if FiledUnder(kids[0], c) then 0
    else 1 + Find(kids[1..], c)
  }

  /** Siblings are sorted by strictly increasing first character. */
  predicate Ordered<T>(kids: seq<Node<T>>)
  {
    forall i, j :: 0 <= i < j < |kids| ==> Head(kids[i]) < Head(kids[j])
  }

  /** Where `add` followed by the stable `Collections.sort` puts a node with
      first character `c` into a sorted list: after every sibling sorted no
      later than it. */
  function Slot<T>(kids: seq<Node<T>>, c: char): (q: nat)
    ensures q <= |kids|
    ensures forall k :: 0 <= k < q ==> Head(kids[k]) <= c
    ensures q < |kids| ==> c < Head(kids[q])
  {
    if kids == [] || c < Head(kids[0]) then 0
    else 1 + Slot(kids[1..], c)
  }

  /** `children.add(x); Collections.sort(children)` on a sorted list. */
  function Insert<T>(kids: seq<Node<T>>, x: Node<T>): seq<Node<T>>
  {
    var q := Slot(kids, Head(x));
    kids[..q] + [x] + kids[q..]
  }

  /** `children.remove(candidate)` for the child at index `j`. */
  function RemoveAt<T>(kids: seq<Node<T>>, j: nat): seq<Node<T>>
    requires j < |kids|
  {
    kids[..j] + kids[j + 1..]
  }

  // ---------------------------------------------------------------------
  // Structure invariant
  // ---------------------------------------------------------------------

  /** What every child satisfies: a non-empty edge, and a value unless it
      has a child list (a leaf without value is deleted by `remove`). */
  predicate Member<T>(n: Node<T>)
  {
    n.edge != [] && (n.hasList || n.value.Some?)
  }

  /** The structure `put` and `remove` keep: no children without a child
      list, and at every level sorted siblings with distinct first
      characters, each a member. */
  predicate Valid<T>(n: Node<T>)
    decreases n
  {
    && (!n.hasList ==> n.children == [])
    && Ordered(n.children)
    && (forall i :: 0 <= i < |n.children| ==> Member(n.children[i]) && Valid(n.children[i]))
  }

  /** A valid child list. */
  predicate Kids<T>(kids: seq<Node<T>>)
  {
    Ordered(kids) && forall i :: 0 <= i < |kids| ==> Member(kids[i]) && Valid(kids[i])
  }

  /** A trie as the class holds it: a valid root with the empty edge and
      no value (keys are non-empty, so no value is ever stored there). */
  predicate Trie<T>(t: Node<T>)
  {
    Valid(t) && t.edge == [] && t.value == None
  }

  // ---------------------------------------------------------------------
  // The map a node stands for
  // ---------------------------------------------------------------------

  /** The value stored at `s`, spelled from the start of `n`'s edge: every
      child is searched, not only the one filed under the next character. */
  function Lookup<T>(n: Node<T>, s: string): Option<T>
    decreases n, 1, 0
  {
    if !(n.edge <= s) then None
    else if |s| == |n.edge| then n.value
    else Scan(n, s[|n.edge|..], 0)
  }

  /** The first value stored at `s` below one of the children from `j` on. */
  function Scan<T>(n: Node<T>, s: string, j: nat): Option<T>
    requires j <= |n.children|
    decreases n, 0, |n.children| - j
  {
    if j == |n.children| then None
    else
      var r := Lookup(n.children[j], s);
      if r.Some? then r else Scan(n, s, j + 1)
  }

  /** The map a node stands for: the value stored at the path `s` spelled
      below `n`'s own edge. For a trie this is the value of key `s`. */
  function Below<T>(n: Node<T>, s: string): Option<T>
  {
    Scan(n, s, 0)
  }

  // ---------------------------------------------------------------------
  // The child filed under a character
  // ---------------------------------------------------------------------

  /** Sorted siblings with non-empty labels. */
  predicate Sorted<T>(kids: seq<Node<T>>)
  {
    Ordered(kids) && forall i :: 0 <= i < |kids| ==> kids[i].edge != []
  }

  /** The candidate of the child scan: the child filed under `c`, if any. */
  function Child<T>(kids: seq<Node<T>>, c: char): Option<Node<T>>
  {
    var f := Find(kids, c);
    if f < |kids| then Some(kids[f]) else None
  }

  /** The value at `s` below an optional candidate. */
  function Via<T>(k: Option<Node<T>>, s: string): Option<T>
  {
    if k.Some? then Lookup(k.value, s) else None
  }

  lemma ChildIs<T>(kids: seq<Node<T>>, c: char, k: nat)
    requires Sorted(kids) && k < |kids| && FiledUnder(kids[k], c)
    ensures Child(kids, c) == Some(kids[k])
  {
    forall i | 0 <= i < k
      ensures !FiledUnder(kids[i], c)
    {
      assert Head(kids[i]) < Head(kids[k]);
    }
  }

  lemma ChildNone<T>(kids: seq<Node<T>>, c: char)
    requires forall k :: 0 <= k < |kids| ==> !FiledUnder(kids[k], c)
    ensures Child(kids, c) == None
  {
  }

  /** A node whose label does not start with the first character of `s`
      stores nothing at `s`. */
  lemma NotFiled<T>(n: Node<T>, s: string)
    requires s != [] && n.edge != [] && n.edge[0] != s[0]
    ensures Lookup(n, s) == None
  {
  }

  lemma {:induction false} ScanFiled<T>(n: Node<T>, s: string, j: nat)
    requires Sorted(n.children) && s != [] && j <= |n.children|
    ensures Scan(n, s, j) == (var f := Find(n.children, s[0]);
                              if j <= f < |n.children| then Lookup(n.children[f], s) else None)
    decreases |n.children| - j
  {
    var kids := n.children;
    var f := Find(kids, s[0]);
    if j < |kids| {
      ScanFiled(n, s, j + 1);
      if j != f {
        if f < j {
          assert Head(kids[f]) < Head(kids[j]);
        }
        NotFiled(kids[j], s);
      }
    }
  }

  /** Lookups go through the one child filed under the next character: the
      distinct first characters make the other children irrelevant. */
  lemma Dispatch<T>(n: Node<T>, s: string)
    requires Sorted(n.children) && s != []
    ensures Below(n, s) == Via(Child(n.children, s[0]), s)
  {
    ScanFiled(n, s, 0);
  }

  /** Nothing is stored at the empty path below a node. */
  lemma {:induction false} ScanEmpty<T>(n: Node<T>, j: nat)
    requires Sorted(n.children) && j <= |n.children|
    ensures Scan(n, [], j) == None
    decreases |n.children| - j
  {
    if j < |n.children| {
      ScanEmpty(n, j + 1);
    }
  }

  lemma ChildUpdate<T>(kids: seq<Node<T>>, p: nat, y: Node<T>, c: char)
    requires Sorted(kids) && p < |kids| && y.edge != [] && Head(y) == Head(kids[p])
    ensures Sorted(kids[p := y])
    ensures Child(kids[p := y], c) == if c == Head(kids[p]) then Some(y) else Child(kids, c)
  {
    var r := kids[p := y];
    assert Sorted(r) by {
      forall i, j | 0 <= i < j < |r|
        ensures Head(r[i]) < Head(r[j])
      {
        assert Head(kids[i]) < Head(kids[j]);
      }
    }
    if c == Head(kids[p]) {
      ChildIs(r, c, p);
    } else {
      var f := Find(kids, c);
      if f < |kids| {
        ChildIs(r, c, f);
      } else {
        ChildNone(r, c);
      }
    }
  }

  lemma ChildRemoveAt<T>(kids: seq<Node<T>>, p: nat, c: char)
    requires Sorted(kids) && p < |kids|
    ensures Sorted(RemoveAt(kids, p))
    ensures Child(RemoveAt(kids, p), c) == if c == Head(kids[p]) then None else Child(kids, c)
  {
    var r := RemoveAt(kids, p);
    RemoveAtShape(kids, p);
    var f := Find(kids, c);
    if c == Head(kids[p]) {
      forall k | 0 <= k < |r|
        ensures !FiledUnder(r[k], c)
      {
        var k' := if k < p then k else k + 1;
        assert Head(kids[k']) != Head(kids[p]) by {
          if k' < p {
            assert Head(kids[k']) < Head(kids[p]);
          } else {
            assert Head(kids[p]) < Head(kids[k']);
          }
        }
      }
      ChildNone(r, c);
    } else if f < |kids| {
      assert f != p;
      ChildIs(r, c, if f < p then f else f - 1);
    } else {
      ChildNone(r, c);
    }
  }

  /** `RemoveAt` keeps the order of the rest. */
  lemma RemoveAtShape<T>(kids: seq<Node<T>>, p: nat)
    requires Sorted(kids) && p < |kids|
    ensures Sorted(RemoveAt(kids, p))
    ensures forall i :: 0 <= i < |RemoveAt(kids, p)| ==>
              RemoveAt(kids, p)[i] == if i < p then kids[i] else kids[i + 1]
  {
    var r := RemoveAt(kids, p);
    assert forall i :: 0 <= i < |r| ==> r[i] == if i < p then kids[i] else kids[i + 1];
    forall i, j | 0 <= i < j < |r|
      ensures Head(r[i]) < Head(r[j])
    {
      var i' := if i < p then i else i + 1;
      var j' := if j < p then j else j + 1;
      assert Head(kids[i']) < Head(kids[j']);
    }
  }

  /** The list `Insert` builds, element by element. */
  lemma InsertShape<T>(kids: seq<Node<T>>, x: Node<T>, i: nat)
    requires i <= |kids|
    ensures |Insert(kids, x)| == |kids| + 1
    ensures var q := Slot(kids, Head(x));
            Insert(kids, x)[i] == if i < q then kids[i] else if i == q then x else kids[i - 1]
  {
  }

  lemma InsertSorted<T>(kids: seq<Node<T>>, x: Node<T>)
    requires Sorted(kids) && x.edge != []
    requires forall k :: 0 <= k < |kids| ==> Head(kids[k]) != Head(x)
    ensures Sorted(Insert(kids, x))
  {
    var q := Slot(kids, Head(x));
    var r := Insert(kids, x);
    forall i | 0 <= i < |r|
      ensures r[i].edge != []
    {
      InsertShape(kids, x, i);
    }
    forall i, j | 0 <= i < j < |r|
      ensures Head(r[i]) < Head(r[j])
    {
      InsertShape(kids, x, i);
      InsertShape(kids, x, j);
      if j < q {
        assert Head(kids[i]) < Head(kids[j]);
      } else if i > q {
        assert Head(kids[i - 1]) < Head(kids[j - 1]);
      } else if i == q {
        assert Head(x) < Head(kids[q]);
        assert q == j - 1 || Head(kids[q]) < Head(kids[j - 1]);
      } else {
        assert Head(kids[i]) <= Head(x);
        assert j == q || Head(kids[i]) < Head(kids[j - 1]);
      }
    }
  }

  lemma ChildInsert<T>(kids: seq<Node<T>>, x: Node<T>, c: char)
    requires Sorted(kids) && x.edge != []
    requires forall k :: 0 <= k < |kids| ==> Head(kids[k]) != Head(x)
    ensures Sorted(Insert(kids, x))
    ensures Child(Insert(kids, x), c) == if c == Head(x) then Some(x) else Child(kids, c)
  {
    InsertSorted(kids, x);
    var q := Slot(kids, Head(x));
    var r := Insert(kids, x);
    if c == Head(x) {
      InsertShape(kids, x, q);
      ChildIs(r, c, q);
    } else {
      var f := Find(kids, c);
      if f < |kids| {
        var f' := if f < q then f else f + 1;
        InsertShape(kids, x, f');
        ChildIs(r, c, f');
      } else {
        forall k | 0 <= k < |r|
          ensures !FiledUnder(r[k], c)
        {
          InsertShape(kids, x, k);
        }
        ChildNone(r, c);
      }
    }
  }

  // ---------------------------------------------------------------------
  // The operations, from a node on, for the rest `s` of the key
  // ---------------------------------------------------------------------

  /** The matching loops of `put` (lines 245-252): how many leading
      characters of the label `a` agree with `s`, up to the first mismatch
      or the end of either. */
  function Agree(a: string, s: string): (k: nat)
    ensures k <= |a| && k <= |s|
    ensures a[..k] == s[..k]
    ensures k < |a| && k < |s| ==> a[k] != s[k]
  {
    if a == [] || s == [] || a[0] != s[0] then 0
    else
      var k := 1 + Agree(a[1..], s[1..]);
      assert a[..k] == [a[0]] + a[1..][..k - 1];
      assert s[..k] == [s[0]] + s[1..][..k - 1];
      k
  }

  /** `get` (lines 158-197): follow the child filed under the next
      character while its label matches; null when there is no child list,
      no such child, the key ends inside the label, or the label
      mismatches. */
  function GetBelow<T>(n: Node<T>, s: string): Option<T>
    requires s != []
    decreases n
  {
    if !n.hasList then None
    else
      var j := Find(n.children, s[0]);
      if j == |n.children| then None
      else
        var cand := n.children[j];
        if |s| < |cand.edge| then None
        else if cand.edge != s[..|cand.edge|] then None
        else if |s| == |cand.edge| then cand.value
        else GetBelow(cand, s[|cand.edge|..])
  }

  /** `put` (lines 202-283) for a non-null value: the updated node and the
      value found under the key before. */
  function PutBelow<T>(n: Node<T>, s: string, v: T): (r: (Node<T>, Option<T>))
    requires s != []
    ensures r.0.edge == n.edge && r.0.value == n.value && r.0.hasList
    decreases n
  {
    if !n.hasList then
      (n.(hasList := true, children := [Leaf(s, v)]), None)
    else
      var j := Find(n.children, s[0]);
      if j == |n.children| then
        (n.(children := Insert(n.children, Leaf(s, v))), None)
      else
        var cand := n.children[j];
        if |s| < |cand.edge| && s <= cand.edge then
          // the key ends inside the label: split it in two (lines 228-243)
          var top := Node(s, Some(v), true, [cand.(edge := cand.edge[|s|..])]);
          (n.(children := Insert(RemoveAt(n.children, j), top)), None)
        else
          var k := Agree(cand.edge, s);
          if k < |cand.edge| then
            // mismatch inside the label: split it in three (lines 261-281)
            var rest := cand.(edge := cand.edge[k..]);
            var common := Node(cand.edge[..k], None, true, Insert([rest], Leaf(s[k..], v)));
            (n.(children := Insert(RemoveAt(n.children, j), common)), None)
          else if k == |s| then
            (n.(children := n.children[j := cand.(value := Some(v))]), cand.value)
          else
            var (c, was) := PutBelow(cand, s[k..], v);
            (n.(children := n.children[j := c]), was)
  }

  /** What `remove` does on a label mismatch: the code descends into the
      candidate without consuming the label (lines 309-332); a mismatch
      was evidently meant to end the search, as in `get` (line 194). */
  datatype OnMismatch = Descend | GiveUp

  /** Lines 313-327: the child at `j` loses its value; without children it
      is dropped, and with one child it is merged into that child. */
  function Unlink<T>(kids: seq<Node<T>>, j: nat): seq<Node<T>>
    requires j < |kids|
  {
    var cand := kids[j].(value := None);
    if !cand.hasList || cand.children == [] then RemoveAt(kids, j)
    else if |cand.children| == 1 then
      var only := cand.children[0];
      Insert(RemoveAt(kids, j), only.(edge := cand.edge + only.edge))
    else kids[j := cand]
  }

  /** `remove` (lines 286-334): the updated node and the value removed. */
  function RemoveBelow<T>(n: Node<T>, s: string, m: OnMismatch): (r: (Node<T>, Option<T>))
    requires s != []
    ensures r.0.edge == n.edge && r.0.value == n.value && r.0.hasList == n.hasList
    decreases n
  {
    if !n.hasList then (n, None)
    else
      var j := Find(n.children, s[0]);
      if j == |n.children| then (n, None)
      else
        var cand := n.children[j];
        if |s| < |cand.edge| then (n, None)
        else if cand.edge == s[..|cand.edge|] then
          if |s| == |cand.edge| then (n.(children := Unlink(n.children, j)), cand.value)
          else
            var (c, was) := RemoveBelow(cand, s[|cand.edge|..], m);
            (n.(children := n.children[j := c]), was)
        else if m == Descend then
          var (c, was) := RemoveBelow(cand, s, m);
          (n.(children := n.children[j := c]), was)
        else (n, None)
  }

  /** The answers of `getBestMatch`: null, a `MatchResult`, or the
      look-back branch of `getMatchResult` (lines 100-112), which is not
      modelled further. */
  datatype Match<T> = NoMatch | Match(matchedKey: string, value: Option<T>) | LookBack

  /** `getMatchResult` (lines 96-99): the key up to the current node, with
      the node's value, when it has one. */
  function MatchResult<T>(n: Node<T>, key: string, i: nat): Match<T>
    requires i <= |key|
  {
    if n.value.Some? then Match(key[..i], n.value) else LookBack
  }

  /** `getBestMatch` (lines 115-156) from node `n`, which is reached by the
      first `i` characters of `key`. */
  function BestFrom<T>(n: Node<T>, key: string, i: nat): Match<T>
    requires i < |key|
    decreases n
  {
    if !n.hasList then NoMatch
    else
      var j := Find(n.children, key[i]);
      if j == |n.children| then MatchResult(n, key, i)
      else
        var cand := n.children[j];
        if |key| - i < |cand.edge| then MatchResult(n, key, i)
        else if cand.edge != key[i..i + |cand.edge|] then MatchResult(n, key, i)
        else if i + |cand.edge| == |key| then Match(key, cand.value)
        else BestFrom(cand, key, i + |cand.edge|)
  }

  /** The node's own match when it holds a value, else the fallback `acc`
      taken from the nodes above it. */
  function Valued<T>(n: Node<T>, key: string, i: nat, acc: Match<T>): Match<T>
    requires i <= |key|
  {
    if n.value.Some? then Match(key[..i], n.value) else acc
  }

  /** `getBestMatch` as evidently intended: wherever the search ends, the
      answer falls back on the last node of the path that holds a value,
      which the look-back of lines 100-112 sets out to find. That covers
      the node without a child list (line 120) and the fully matched node
      without a value (line 151) as well. `acc` is the fallback for the
      nodes above `n`. */
  function BestBelow<T>(n: Node<T>, key: string, i: nat, acc: Match<T>): Match<T>
    requires i < |key|
    decreases n
  {
    var here := Valued(n, key, i, acc);
    if !n.hasList then here
    else
      var j := Find(n.children, key[i]);
      if j == |n.children| then here
      else
        var cand := n.children[j];
        if |key| - i < |cand.edge| || cand.edge != key[i..i + |cand.edge|] then here
        else if i + |cand.edge| == |key| then Valued(cand, key, |key|, here)
        else BestBelow(cand, key, i + |cand.edge|, here)
  }

  /** `getNodeSize` (lines 52-60): the nodes with a value. */
  function Size<T>(n: Node<T>): nat
    decreases n, 1, 0
  {
    (if n.value.Some? then 1 else 0) + (if n.hasList then SizeFrom(n, 0) else 0)
  }

  function SizeFrom<T>(n: Node<T>, j: nat): nat
    requires j <= |n.children|
    decreases n, 0, |n.children| - j
  {
    if j == |n.children| then 0 else Size(n.children[j]) + SizeFrom(n, j + 1)
  }

  /** `getNodeDepth` (lines 73-84): one more than the deepest child. */
  function Depth<T>(n: Node<T>): nat
    decreases n, 1, 0
  {
    1 + (if n.hasList then DepthFrom(n, 0) else 0)
  }

  function DepthFrom<T>(n: Node<T>, j: nat): nat
    requires j <= |n.children|
    decreases n, 0, |n.children| - j
  {
    if j == |n.children| then 0
    else
      var d := Depth(n.children[j]);
      var rest := DepthFrom(n, j + 1);
      if d > rest then d else rest
  }

  // ---------------------------------------------------------------------
  // Facts about single nodes
  // ---------------------------------------------------------------------

  /** Every element a valid child and a member. */
  predicate Good<T>(kids: seq<Node<T>>)
  {
    forall i :: 0 <= i < |kids| ==> Member(kids[i]) && Valid(kids[i])
  }

  lemma ValidKids<T>(n: Node<T>)
    requires Valid(n)
    ensures Sorted(n.children) && Good(n.children)
  {
  }

  lemma KidsValid<T>(n: Node<T>)
    requires n.hasList && Sorted(n.children) && Good(n.children)
    ensures Valid(n)
  {
  }

  /** Only the label, value and children of a node decide its lookups. */
  lemma {:induction false} ScanSame<T>(a: Node<T>, b: Node<T>, x: string, j: nat)
    requires a.children == b.children && j <= |a.children|
    ensures Scan(a, x, j) == Scan(b, x, j)
    decreases |a.children| - j
  {
    if j < |a.children| {
      ScanSame(a, b, x, j + 1);
    }
  }

  /** Looking up `q` in a node whose label starts with `a` is looking up the
      rest of `q` in the node with `a` cut off its label. */
  lemma Peel<T>(c: Node<T>, a: string, q: string)
    requires a <= c.edge && a <= q
    ensures Lookup(c, q) == Lookup(c.(edge := c.edge[|a|..]), q[|a|..])
  {
    var d := c.(edge := c.edge[|a|..]);
    var q' := q[|a|..];
    assert c.edge == a + d.edge;
    assert q == a + q';
    assert c.edge <= q <==> d.edge <= q' by {
      if d.edge <= q' {
        assert q == a + d.edge + q'[|d.edge|..];
      }
      if c.edge <= q {
        assert q' == d.edge + q[|c.edge|..];
      }
    }
    if c.edge <= q && |q| > |c.edge| {
      assert q[|c.edge|..] == q'[|d.edge|..];
      ScanSame(c, d, q[|c.edge|..], 0);
    }
  }

  lemma PrefixTrans<T>(a: seq<T>, b: seq<T>, c: seq<T>)
    requires a <= b
    ensures b <= c ==> a <= c
  {
  }

  lemma LeafLookup<T>(s: string, v: T, q: string)
    ensures Lookup(Leaf(s, v), q) == if q == s then Some(v) else None
  {
  }

  /** Replacing a node's value changes the lookup of its own key only. */
  lemma Revalue<T>(c: Node<T>, w: Option<T>, q: string)
    ensures Lookup(c.(value := w), q) == if q == c.edge then w else Lookup(c, q)
  {
    if c.edge <= q && |q| > |c.edge| {
      ScanSame(c, c.(value := w), q[|c.edge|..], 0);
    }
  }

  lemma ScanOne<T>(n: Node<T>, x: string)
    requires |n.children| == 1
    ensures Scan(n, x, 0) == Lookup(n.children[0], x)
  {
  }

  /** No child of a list without a child filed under `c` starts with `c`. */
  lemma Unfiled<T>(kids: seq<Node<T>>, c: char)
    requires Sorted(kids) && Child(kids, c) == None
    ensures forall k :: 0 <= k < |kids| ==> Head(kids[k]) != c
  {
    forall k | 0 <= k < |kids|
      ensures Head(kids[k]) != c
    {
      assert !FiledUnder(kids[k], c);
    }
  }

  lemma GoodRemoveAt<T>(kids: seq<Node<T>>, p: nat)
    requires Good(kids) && p < |kids|
    ensures Good(RemoveAt(kids, p))
  {
    var r := RemoveAt(kids, p);
    forall i | 0 <= i < |r|
      ensures Member(r[i]) && Valid(r[i])
    {
      assert r[i] == if i < p then kids[i] else kids[i + 1];
    }
  }

  lemma GoodInsert<T>(kids: seq<Node<T>>, x: Node<T>)
    requires Good(kids) && Member(x) && Valid(x)
    ensures Good(Insert(kids, x))
  {
    var r := Insert(kids, x);
    forall i | 0 <= i < |r|
      ensures Member(r[i]) && Valid(r[i])
    {
      InsertShape(kids, x, i);
    }
  }

  // ---------------------------------------------------------------------
  // put
  // ---------------------------------------------------------------------

  /** The node the two-way split of lines 231-236 puts in place of `cand`. */
  function TwoWay<T>(cand: Node<T>, s: string, v: T): Node<T>
    requires |s| <= |cand.edge|
  {
    Node(s, Some(v), true, [cand.(edge := cand.edge[|s|..])])
  }

  /** The node the three-way split of lines 264-273 puts in place of `cand`. */
  function ThreeWay<T>(cand: Node<T>, s: string, v: T, k: nat): Node<T>
    requires k <= |cand.edge| && k <= |s|
  {
    Node(cand.edge[..k], None, true, Insert([cand.(edge := cand.edge[k..])], Leaf(s[k..], v)))
  }

  /** The shape of a three-way split: the common part is non-empty and
      both remainders start with different characters. */
  lemma ThreeWayCut<T>(cand: Node<T>, s: string)
    requires s != [] && FiledUnder(cand, s[0])
    requires !(|s| < |cand.edge| && s <= cand.edge)
    requires Agree(cand.edge, s) < |cand.edge|
    ensures var k := Agree(cand.edge, s);
            0 < k < |s| && cand.edge[k] != s[k] && cand.edge[..k] == s[..k]
  {
    var k := Agree(cand.edge, s);
    assert s[..|s|] == s;
  }

  lemma TwoWayValid<T>(cand: Node<T>, s: string, v: T)
    requires Member(cand) && Valid(cand) && s != [] && |s| < |cand.edge|
    ensures Member(TwoWay(cand, s, v)) && Valid(TwoWay(cand, s, v))
  {
    var rest := cand.(edge := cand.edge[|s|..]);
    assert Member(rest) && Valid(rest);
  }

  lemma ThreeWayValid<T>(cand: Node<T>, s: string, v: T, k: nat)
    requires Member(cand) && Valid(cand)
    requires 0 < k < |s| && k < |cand.edge| && cand.edge[k] != s[k]
    ensures Member(ThreeWay(cand, s, v, k)) && Valid(ThreeWay(cand, s, v, k))
    ensures Sorted(ThreeWay(cand, s, v, k).children)
  {
    var rest := cand.(edge := cand.edge[k..]);
    var leaf := Leaf(s[k..], v);
    assert Member(rest) && Valid(rest);
    assert Good([rest]);
    GoodInsert([rest], leaf);
    ChildInsert([rest], leaf, s[k]);
  }

  /** Lines 228-243: the new node answers for `s` and passes every other
      lookup on to the shortened candidate. */
  lemma TwoWayLookup<T>(cand: Node<T>, s: string, v: T, q: string)
    requires |s| < |cand.edge| && s <= cand.edge
    ensures Lookup(TwoWay(cand, s, v), q) == if q == s then Some(v) else Lookup(cand, q)
  {
    var top := TwoWay(cand, s, v);
    if s <= q {
      Peel(cand, s, q);
      if q != s {
        ScanOne(top, q[|s|..]);
      }
    } else {
      PrefixTrans(s, cand.edge, q);
    }
  }

  /** Lines 261-281: the common part answers for `s` through the new leaf
      and passes every other lookup on to the shortened candidate. */
  lemma ThreeWayLookup<T>(cand: Node<T>, s: string, v: T, k: nat, q: string)
    requires 0 < k < |s| && k < |cand.edge| && cand.edge[k] != s[k] && cand.edge[..k] == s[..k]
    ensures Lookup(ThreeWay(cand, s, v, k), q) == if q == s then Some(v) else Lookup(cand, q)
  {
    var top := ThreeWay(cand, s, v, k);
    var a := cand.edge[..k];
    var rest := cand.(edge := cand.edge[k..]);
    var leaf := Leaf(s[k..], v);
    if !(a <= q) {
      PrefixTrans(a, cand.edge, q);
      assert a <= s;
    } else if |q| == k {
      assert q != s;
    } else {
      var q' := q[k..];
      ChildInsert([rest], leaf, q'[0]);
      Dispatch(top, q');
      Peel(cand, a, q);
      if q'[0] == s[k] {
        LeafLookup(s[k..], v, q');
        assert q == s <==> q' == s[k..] by {
          assert q == a + q';
          assert s == a + s[k..];
        }
      } else if q'[0] == cand.edge[k] {
        ChildIs([rest], q'[0], 0);
      } else {
        NotFiled(rest, q');
        assert q != s;
      }
    }
  }

  /** `put` keeps the structure: sorted siblings with distinct first
      characters under non-empty labels (lines 210, 225, 240, 277-278). */
  lemma {:induction false} PutValid<T>(n: Node<T>, s: string, v: T)
    requires Valid(n) && s != []
    ensures Valid(PutBelow(n, s, v).0)
    decreases n
  {
    var n' := PutBelow(n, s, v).0;
    if !n.hasList {
      assert Member(Leaf(s, v));
      assert n'.children == [Leaf(s, v)];
      assert Good(n'.children);
      return;
    }
    var kids := n.children;
    ValidKids(n);
    var j := Find(kids, s[0]);
    if j == |kids| {
      Unfiled(kids, s[0]);
      ChildInsert(kids, Leaf(s, v), s[0]);
      GoodInsert(kids, Leaf(s, v));
      KidsValid(n');
      return;
    }
    var cand := kids[j];
    var k := Agree(cand.edge, s);
    if |s| < |cand.edge| && s <= cand.edge {
      var top := TwoWay(cand, s, v);
      TwoWayValid(cand, s, v);
      ChildRemoveAt(kids, j, s[0]);
      Unfiled(RemoveAt(kids, j), s[0]);
      ChildInsert(RemoveAt(kids, j), top, s[0]);
      GoodRemoveAt(kids, j);
      GoodInsert(RemoveAt(kids, j), top);
      KidsValid(n');
    } else if k < |cand.edge| {
      ThreeWayCut(cand, s);
      var top := ThreeWay(cand, s, v, k);
      ThreeWayValid(cand, s, v, k);
      ChildRemoveAt(kids, j, s[0]);
      Unfiled(RemoveAt(kids, j), s[0]);
      ChildInsert(RemoveAt(kids, j), top, s[0]);
      GoodRemoveAt(kids, j);
      GoodInsert(RemoveAt(kids, j), top);
      KidsValid(n');
    } else if k == |s| {
      ChildUpdate(kids, j, cand.(value := Some(v)), s[0]);
      KidsValid(n');
    } else {
      PutValid(cand, s[k..], v);
      var c := PutBelow(cand, s[k..], v).0;
      ChildUpdate(kids, j, c, s[0]);
      KidsValid(n');
    }
  }

  /** `put` returns the value stored under the key before, or null. */
  lemma {:induction false} PutOld<T>(n: Node<T>, s: string, v: T)
    requires Valid(n) && s != []
    ensures PutBelow(n, s, v).1 == Below(n, s)
    decreases n
  {
    ValidKids(n);
    Dispatch(n, s);
    if n.hasList {
      var kids := n.children;
      var j := Find(kids, s[0]);
      if j < |kids| {
        var cand := kids[j];
        var k := Agree(cand.edge, s);
        if |s| < |cand.edge| && s <= cand.edge {
        } else if k < |cand.edge| {
          ThreeWayCut(cand, s);
        } else if k == |s| {
          assert cand.edge == s;
        } else {
          PutOld(cand, s[k..], v);
          assert cand.edge <= s;
        }
      }
    }
  }

  /** After `put`, the key maps to the new value and every other key keeps
      its value, through both kinds of split. */
  lemma {:induction false} PutLookup<T>(n: Node<T>, s: string, v: T, q: string)
    requires Valid(n) && s != []
    ensures Below(PutBelow(n, s, v).0, q) == if q == s then Some(v) else Below(n, q)
    decreases n
  {
    if q == [] {
      PutValid(n, s, v);
      ScanEmpty(n, 0);
      ScanEmpty(PutBelow(n, s, v).0, 0);
    } else if !n.hasList || Find(n.children, s[0]) == |n.children| {
      PutFreshLookup(n, s, v, q);
    } else {
      var cand := n.children[Find(n.children, s[0])];
      var k := Agree(cand.edge, s);
      if (|s| < |cand.edge| && s <= cand.edge) || k < |cand.edge| {
        PutSplitLookup(n, s, v, q);
      } else if k == |s| {
        PutReplaceLookup(n, s, v, q);
      } else {
        ValidKids(n);
        if q[0] == s[0] && cand.edge <= q && |q| > k {
          PutLookup(cand, s[k..], v, q[k..]);
        }
        PutDeepLookup(n, s, v, q);
      }
    }
  }

  /** `put` of a key whose first character files no child: a new leaf. */
  lemma PutFreshLookup<T>(n: Node<T>, s: string, v: T, q: string)
    requires Valid(n) && s != [] && q != []
    requires !n.hasList || Find(n.children, s[0]) == |n.children|
    ensures Below(PutBelow(n, s, v).0, q) == if q == s then Some(v) else Below(n, q)
  {
    var n' := PutBelow(n, s, v).0;
    PutValid(n, s, v);
    ValidKids(n);
    ValidKids(n');
    Dispatch(n, q);
    Dispatch(n', q);
    var c := q[0];
    LeafLookup(s, v, q);
    if !n.hasList {
      if c == s[0] {
        ChildIs([Leaf(s, v)], c, 0);
      } else {
        ChildNone([Leaf(s, v)], c);
      }
    } else {
      Unfiled(n.children, s[0]);
      ChildInsert(n.children, Leaf(s, v), c);
    }
  }

  /** `put` of a key that ends with a child's label: the value is
      replaced. */
  lemma PutReplaceLookup<T>(n: Node<T>, s: string, v: T, q: string)
    requires Valid(n) && s != [] && q != [] && n.hasList
    requires var j := Find(n.children, s[0]);
             && j < |n.children|
             && var cand := n.children[j];
             && !(|s| < |cand.edge| && s <= cand.edge)
             && Agree(cand.edge, s) == |cand.edge| == |s|
    ensures Below(PutBelow(n, s, v).0, q) == if q == s then Some(v) else Below(n, q)
  {
    var n' := PutBelow(n, s, v).0;
    ValidKids(n);
    Dispatch(n, q);
    Dispatch(n', q);
    var c := q[0];
    var kids := n.children;
    var j := Find(kids, s[0]);
    var cand := kids[j];
    if c == s[0] {
      ChildIs(kids, c, j);
    }
    assert cand.edge == s;
    ChildUpdate(kids, j, cand.(value := Some(v)), c);
    Revalue(cand, Some(v), q);
  }

  /** The two- and three-way splits of `put` add the key and keep every
      other lookup. */
  lemma PutSplitLookup<T>(n: Node<T>, s: string, v: T, q: string)
    requires Valid(n) && s != [] && q != [] && n.hasList
    requires var j := Find(n.children, s[0]);
             && j < |n.children|
             && var cand := n.children[j];
             || (|s| < |cand.edge| && s <= cand.edge)
             || Agree(cand.edge, s) < |cand.edge|
    ensures Below(PutBelow(n, s, v).0, q) == if q == s then Some(v) else Below(n, q)
  {
    var n' := PutBelow(n, s, v).0;
    PutValid(n, s, v);
    ValidKids(n);
    ValidKids(n');
    Dispatch(n, q);
    Dispatch(n', q);
    var c := q[0];
    var kids := n.children;
    var j := Find(kids, s[0]);
    var cand := kids[j];
    var k := Agree(cand.edge, s);
    if c == s[0] {
      ChildIs(kids, c, j);
    }
    ChildRemoveAt(kids, j, c);
    ChildRemoveAt(kids, j, s[0]);
    Unfiled(RemoveAt(kids, j), s[0]);
    if |s| < |cand.edge| && s <= cand.edge {
      ChildInsert(RemoveAt(kids, j), TwoWay(cand, s, v), c);
      TwoWayLookup(cand, s, v, q);
    } else {
      ThreeWayCut(cand, s);
      ChildInsert(RemoveAt(kids, j), ThreeWay(cand, s, v, k), c);
      ThreeWayLookup(cand, s, v, k, q);
    }
  }

  /** `put` descending into a fully matched child: the child's own update,
      seen from `n`. */
  lemma PutDeepLookup<T>(n: Node<T>, s: string, v: T, q: string)
    requires Valid(n) && s != [] && q != [] && n.hasList
    requires var j := Find(n.children, s[0]);
             && j < |n.children|
             && var cand := n.children[j];
             && var k := |cand.edge|;
             && k < |s| && cand.edge == s[..k]
             && (q[0] == s[0] && cand.edge <= q && |q| > k ==>
                   Below(PutBelow(cand, s[k..], v).0, q[k..])
                   == if q[k..] == s[k..] then Some(v) else Below(cand, q[k..]))
    ensures Below(PutBelow(n, s, v).0, q) == if q == s then Some(v) else Below(n, q)
  {
    var n' := PutBelow(n, s, v).0;
    ValidKids(n);
    Dispatch(n, q);
    Dispatch(n', q);
    var c := q[0];
    var kids := n.children;
    var j := Find(kids, s[0]);
    var cand := kids[j];
    var k := |cand.edge|;
    assert Agree(cand.edge, s) == k;
    var c2 := PutBelow(cand, s[k..], v).0;
    ChildUpdate(kids, j, c2, c);
    if c == s[0] {
      ChildIs(kids, c, j);
      DeeperLookup(cand, c2, s, q, Some(v));
    } else {
      assert q != s;
    }
  }

  /** A child rebuilt with the same label and value answers like the old
      one except below it, where the rebuilt part decides. */
  lemma DeeperLookup<T>(a: Node<T>, b: Node<T>, s: string, q: string, w: Option<T>)
    requires a.edge == b.edge && a.value == b.value && a.edge <= s && |a.edge| < |s|
    requires a.edge <= q && |q| > |a.edge| ==>
               Below(b, q[|a.edge|..]) == if q[|a.edge|..] == s[|a.edge|..] then w else Below(a, q[|a.edge|..])
    ensures Lookup(b, q) == if q == s then w else Lookup(a, q)
  {
    var k := |a.edge|;
    if a.edge <= q && |q| > k {
      assert q == a.edge + q[k..];
      assert s == a.edge + s[k..];
      assert q == s <==> q[k..] == s[k..];
    }
  }

  // ---------------------------------------------------------------------
  // get
  // ---------------------------------------------------------------------

  /** `get` finds exactly the value the node stores under the key: the
      search by first character and the null exits lose nothing. */
  lemma {:induction false} GetLookup<T>(n: Node<T>, s: string)
    requires Valid(n) && s != []
    ensures GetBelow(n, s) == Below(n, s)
    decreases n
  {
    ValidKids(n);
    Dispatch(n, s);
    if n.hasList {
      var kids := n.children;
      var j := Find(kids, s[0]);
      if j < |kids| {
        var cand := kids[j];
        if cand.edge <= s && |s| > |cand.edge| {
          GetLookup(cand, s[|cand.edge|..]);
        }
      }
    }
  }

  // ---------------------------------------------------------------------
  // remove
  // ---------------------------------------------------------------------

  /** The node that replaces a child with a single child when the merge of
      lines 322-326 joins their labels. */
  function Merged<T>(cand: Node<T>): Node<T>
    requires |cand.children| == 1
  {
    var only := cand.children[0];
    only.(edge := cand.edge + only.edge)
  }

  lemma MergedLookup<T>(cand: Node<T>, q: string)
    requires |cand.children| == 1 && cand.children[0].edge != []
    ensures Lookup(Merged(cand), q) == if q == cand.edge then None else Lookup(cand.(value := None), q)
  {
    var only := cand.children[0];
    var m := Merged(cand);
    PrefixTrans(cand.edge, m.edge, q);
    if cand.edge <= q {
      assert m.(edge := m.edge[|cand.edge|..]) == only;
      Peel(m, cand.edge, q);
      if q != cand.edge {
        ScanOne(cand.(value := None), q[|cand.edge|..]);
      }
    }
  }

  lemma UnlinkValid<T>(kids: seq<Node<T>>, j: nat)
    requires Sorted(kids) && Good(kids) && j < |kids|
    ensures Sorted(Unlink(kids, j)) && Good(Unlink(kids, j))
  {
    var cand := kids[j].(value := None);
    ChildRemoveAt(kids, j, Head(cand));
    GoodRemoveAt(kids, j);
    if !cand.hasList || cand.children == [] {
    } else if |cand.children| == 1 {
      var m := Merged(cand);
      assert Member(cand.children[0]) && Valid(cand.children[0]);
      Unfiled(RemoveAt(kids, j), Head(cand));
      ChildInsert(RemoveAt(kids, j), m, Head(cand));
      GoodInsert(RemoveAt(kids, j), m);
    } else {
      ChildUpdate(kids, j, cand, Head(cand));
    }
  }

  /** Lines 313-327: after unlinking, the child's own key is gone and
      every other lookup is unchanged. */
  lemma UnlinkLookup<T>(kids: seq<Node<T>>, j: nat, q: string)
    requires Sorted(kids) && Good(kids) && j < |kids| && q != []
    ensures Via(Child(Unlink(kids, j), q[0]), q) ==
            if q == kids[j].edge then None else Via(Child(kids, q[0]), q)
  {
    var cand := kids[j].(value := None);
    var c := q[0];
    if c == Head(cand) {
      ChildIs(kids, c, j);
    }
    Revalue(kids[j], None, q);
    ChildRemoveAt(kids, j, c);
    if !cand.hasList || cand.children == [] {
    } else if |cand.children| == 1 {
      var m := Merged(cand);
      assert Member(cand.children[0]);
      ChildRemoveAt(kids, j, Head(cand));
      Unfiled(RemoveAt(kids, j), Head(cand));
      ChildInsert(RemoveAt(kids, j), m, c);
      MergedLookup(cand, q);
    } else {
      ChildUpdate(kids, j, cand, c);
    }
  }

  /** `remove` keeps the structure (lines 318-327), whatever the key. */
  lemma {:induction false} RemoveValid<T>(n: Node<T>, s: string, m: OnMismatch)
    requires Valid(n) && s != []
    ensures Valid(RemoveBelow(n, s, m).0)
    decreases n
  {
    var n' := RemoveBelow(n, s, m).0;
    if n.hasList {
      var kids := n.children;
      ValidKids(n);
      var j := Find(kids, s[0]);
      if j < |kids| {
        var cand := kids[j];
        var len := |cand.edge|;
        if |s| < len {
        } else if cand.edge == s[..len] {
          if |s| == len {
            UnlinkValid(kids, j);
            KidsValid(n');
          } else {
            RemoveValid(cand, s[len..], m);
            ChildUpdate(kids, j, RemoveBelow(cand, s[len..], m).0, s[0]);
            KidsValid(n');
          }
        } else if m == Descend {
          RemoveValid(cand, s, m);
          ChildUpdate(kids, j, RemoveBelow(cand, s, m).0, s[0]);
          KidsValid(n');
        }
      }
    }
  }

  /** `remove` of a stored key returns the value it held; with the
      mismatch exit corrected, any key's value (null when absent). */
  lemma {:induction false} RemoveOld<T>(n: Node<T>, s: string, m: OnMismatch)
    requires Valid(n) && s != []
    requires m == GiveUp || Below(n, s).Some?
    ensures RemoveBelow(n, s, m).1 == Below(n, s)
    decreases n
  {
    ValidKids(n);
    Dispatch(n, s);
    if n.hasList {
      var kids := n.children;
      var j := Find(kids, s[0]);
      if j < |kids| {
        var cand := kids[j];
        var len := |cand.edge|;
        if |s| >= len && cand.edge == s[..len] && |s| > len {
          RemoveOld(cand, s[len..], m);
        }
      }
    }
  }

  /** After `remove` of a stored key the key is absent and every other key
      keeps its value. With the mismatch exit corrected this holds for
      absent keys too: nothing changes. */
  lemma {:induction false} RemoveLookup<T>(n: Node<T>, s: string, m: OnMismatch, q: string)
    requires Valid(n) && s != []
    requires m == GiveUp || Below(n, s).Some?
    ensures Below(RemoveBelow(n, s, m).0, q) == if q == s then None else Below(n, q)
    decreases n
  {
    var n' := RemoveBelow(n, s, m).0;
    RemoveValid(n, s, m);
    ValidKids(n);
    ValidKids(n');
    Dispatch(n, s);
    if q == [] {
      ScanEmpty(n, 0);
      ScanEmpty(n', 0);
      return;
    }
    Dispatch(n, q);
    Dispatch(n', q);
    if !n.hasList {
      assert n' == n && n.children == [];
      return;
    }
    var kids := n.children;
    var j := Find(kids, s[0]);
    if j == |kids| {
      return;
    }
    var cand := kids[j];
    var len := |cand.edge|;
    if q[0] == s[0] {
      ChildIs(kids, q[0], j);
    }
    if |s| < len {
    } else if cand.edge == s[..len] {
      if |s| == len {
        UnlinkLookup(kids, j, q);
      } else {
        var c2 := RemoveBelow(cand, s[len..], m).0;
        ChildUpdate(kids, j, c2, q[0]);
        if cand.edge <= q && |q| > len {
          RemoveLookup(cand, s[len..], m, q[len..]);
        }
        DeeperLookup(cand, c2, s, q, None);
      }
    }
  }

  // ---------------------------------------------------------------------
  // getBestMatch
  // ---------------------------------------------------------------------

  /** The value at the path `x` spelled from the end of `n`'s label: the
      node's own value for the empty path. */
  function At<T>(n: Node<T>, x: string): Option<T>
  {
    if x == [] then n.value else Below(n, x)
  }

  /** A reported match names a prefix of the key and carries what is
      stored there (below `n`), which is null only for the whole key; no
      longer prefix of the key is stored. A shorter stored prefix may
      exist when the value is null. */
  ghost predicate Longest<T>(n: Node<T>, key: string, i: nat, r: Match<T>)
    requires i <= |key|
  {
    r.Match? ==>
      && i <= |r.matchedKey| <= |key| && r.matchedKey == key[..|r.matchedKey|]
      && r.value == At(n, key[i..|r.matchedKey|])
      && (r.value == None ==> |r.matchedKey| == |key|)
      && forall j :: |r.matchedKey| < j <= |key| ==> Below(n, key[i..j]) == None
  }

  /** Nothing below `n` is stored at a prefix of the rest of the key
      longer than `i`, when the child scan stops at `n`. */
  lemma {:induction false} StopsHere<T>(n: Node<T>, key: string, i: nat, j: nat)
    requires Valid(n) && n.hasList && i < j <= |key|
    requires var f := Find(n.children, key[i]);
             f < |n.children| ==>
               var cand := n.children[f];
               |key| - i < |cand.edge| || cand.edge != key[i..i + |cand.edge|]
    ensures Below(n, key[i..j]) == None
  {
    ValidKids(n);
    var x := key[i..j];
    Dispatch(n, x);
    var f := Find(n.children, key[i]);
    if f < |n.children| {
      var cand := n.children[f];
      SlicePrefix(key, i, j, cand.edge);
    }
  }

  lemma SlicePrefix(key: string, i: nat, j: nat, e: string)
    requires i <= j <= |key|
    ensures e <= key[i..j] ==> |e| <= j - i && e == key[i..i + |e|]
  {
    if e <= key[i..j] {
      assert key[i..j][..|e|] == key[i..i + |e|];
    }
  }

  /** Lines 96-99 and 138-152: every match `getBestMatch` reports is a
      prefix of the key with what is stored there, and no longer prefix
      is stored; only the exit at line 151 can carry a null value. */
  lemma {:induction false} BestLongest<T>(n: Node<T>, key: string, i: nat)
    requires Valid(n) && i < |key|
    ensures Longest(n, key, i, BestFrom(n, key, i))
    decreases n
  {
    if !n.hasList {
      BestLeaf(n, key, i);
    } else {
      var kids := n.children;
      var f := Find(kids, key[i]);
      if f == |kids| || |key| - i < |kids[f].edge| || kids[f].edge != key[i..i + |kids[f].edge|] {
        BestStops(n, key, i);
      } else if i + |kids[f].edge| == |key| {
        BestEnds(n, key, i);
      } else {
        ValidKids(n);
        BestLongest(kids[f], key, i + |kids[f].edge|);
        BestThrough(n, key, i);
      }
    }
  }

  /** A node without a child list stores nothing below itself. */
  lemma {:induction false} BestLeaf<T>(n: Node<T>, key: string, i: nat)
    requires Valid(n) && !n.hasList && i < |key|
    ensures Longest(n, key, i, BestFrom(n, key, i))
  {
    forall j | i < j <= |key|
      ensures Below(n, key[i..j]) == None
    {
    }
  }

  /** The key ends with the label of a fully matched child. */
  lemma {:induction false} BestEnds<T>(n: Node<T>, key: string, i: nat)
    requires Valid(n) && n.hasList && i < |key|
    requires var f := Find(n.children, key[i]);
             && f < |n.children|
             && var cand := n.children[f];
             && i + |cand.edge| == |key| && cand.edge == key[i..i + |cand.edge|]
    ensures Longest(n, key, i, BestFrom(n, key, i))
  {
    ValidKids(n);
    Dispatch(n, key[i..]);
    assert key[i..|key|] == key[i..];
  }

  /** The scan stops at `n`: the answer is `n`'s own `MatchResult`. */
  lemma {:induction false} BestStops<T>(n: Node<T>, key: string, i: nat)
    requires Valid(n) && n.hasList && i < |key|
    requires var f := Find(n.children, key[i]);
             f < |n.children| ==>
               var cand := n.children[f];
               |key| - i < |cand.edge| || cand.edge != key[i..i + |cand.edge|]
    ensures Longest(n, key, i, BestFrom(n, key, i))
  {
    forall j | i < j <= |key|
      ensures Below(n, key[i..j]) == None
    {
      StopsHere(n, key, i, j);
    }
  }

  /** The scan passes through a fully matched child and goes on below it. */
  lemma {:induction false} BestThrough<T>(n: Node<T>, key: string, i: nat)
    requires Sorted(n.children) && n.hasList && i < |key|
    requires var f := Find(n.children, key[i]);
             && f < |n.children|
             && var cand := n.children[f];
             && i + |cand.edge| < |key| && cand.edge == key[i..i + |cand.edge|]
             && Longest(cand, key, i + |cand.edge|, BestFrom(cand, key, i + |cand.edge|))
    ensures Longest(n, key, i, BestFrom(n, key, i))
  {
    var f := Find(n.children, key[i]);
    var cand := n.children[f];
    var len := |cand.edge|;
    var r := BestFrom(cand, key, i + len);
    FromSteps(n, key, i);
    if r.Match? {
      var m := |r.matchedKey|;
      assert i + len <= m <= |key| && cand.edge == key[i..i + len];
      assert r.matchedKey == key[..m] && r.value == At(cand, key[i + len..m]);
      assert r.value == None ==> m == |key|;
      Passes(n, key, i, f, m);
      forall j | m < j <= |key|
        ensures Below(n, key[i..j]) == None
      {
        Passes(n, key, i, f, j);
        assert key[i..j] != [] && key[i + len..j] != [];
      }
    }
    assert Longest(n, key, i, r);
  }

  /** One step of the walk through a fully matched child that does not
      end the key. */
  lemma {:induction false} FromSteps<T>(n: Node<T>, key: string, i: nat)
    requires n.hasList && i < |key|
    requires var f := Find(n.children, key[i]);
             && f < |n.children|
             && var cand := n.children[f];
             && i + |cand.edge| < |key| && cand.edge == key[i..i + |cand.edge|]
    ensures var cand := n.children[Find(n.children, key[i])];
            BestFrom(n, key, i) == BestFrom(cand, key, i + |cand.edge|)
  {
  }

  /** Through a fully matched child, lookups below `n` are lookups below
      the child. */
  lemma {:induction false} Passes<T>(n: Node<T>, key: string, i: nat, f: nat, j: nat)
    requires i < |key| && Sorted(n.children) && f < |n.children| && FiledUnder(n.children[f], key[i])
    requires var len := |n.children[f].edge|;
             i + len <= j <= |key| && n.children[f].edge == key[i..i + len]
    ensures var len := |n.children[f].edge|;
            At(n, key[i..j]) == At(n.children[f], key[i + len..j])
  {
    var cand := n.children[f];
    var len := |cand.edge|;
    var x := key[i..j];
    Dispatch(n, x);
    ChildIs(n.children, x[0], f);
    assert x[..len] == cand.edge;
    assert x[len..] == key[i + len..j];
  }

  /** A fallback for the nodes above position `i`: none, or a stored
      prefix of the key shorter than `i`, with its value. */
  ghost predicate Above<T>(key: string, i: nat, acc: Match<T>)
  {
    || acc == NoMatch
    || (&& acc.Match? && |acc.matchedKey| < i <= |key|
        && acc.matchedKey == key[..|acc.matchedKey|] && acc.value.Some?)
  }

  /** What the corrected search from `n` answers: the fallback, or a
      prefix of the key with the value stored there below `n`; and every
      prefix stored below `n` is at most as long as the answer. */
  ghost predicate Finds<T>(n: Node<T>, key: string, i: nat, acc: Match<T>, r: Match<T>)
    requires i <= |key|
  {
    && (|| r == acc
        || (&& r.Match? && i <= |r.matchedKey| <= |key|
            && r.matchedKey == key[..|r.matchedKey|]
            && r.value.Some? && r.value == At(n, key[i..|r.matchedKey|])))
    && forall j :: i <= j <= |key| && At(n, key[i..j]).Some? ==> r.Match? && j <= |r.matchedKey|
  }

  /** The corrected search finds the longest stored prefix. */
  lemma {:induction false} BestBelowFinds<T>(n: Node<T>, key: string, i: nat, acc: Match<T>)
    requires Valid(n) && i < |key| && Above(key, i, acc)
    ensures Finds(n, key, i, acc, BestBelow(n, key, i, acc))
    decreases n
  {
    if !n.hasList {
      FindsLeaf(n, key, i, acc);
    } else {
      var kids := n.children;
      var f := Find(kids, key[i]);
      if f == |kids| || |key| - i < |kids[f].edge| || kids[f].edge != key[i..i + |kids[f].edge|] {
        FindsStops(n, key, i, acc);
      } else if i + |kids[f].edge| == |key| {
        FindsEnds(n, key, i, acc);
      } else {
        ValidKids(n);
        assert Member(kids[f]);
        BestBelowFinds(kids[f], key, i + |kids[f].edge|, Valued(n, key, i, acc));
        FindsThrough(n, key, i, acc);
      }
    }
  }

  /** The node's own value answers for the empty rest of the path. */
  lemma {:induction false} FindsHere<T>(n: Node<T>, key: string, i: nat, acc: Match<T>)
    requires i < |key| && Above(key, i, acc)
    ensures var here := Valued(n, key, i, acc);
            && (here == acc || (here.Match? && |here.matchedKey| == i && here.matchedKey == key[..i]
                                && here.value.Some? && here.value == At(n, key[i..i])))
            && (At(n, key[i..i]).Some? ==> here.Match? && |here.matchedKey| == i)
  {
    assert key[i..i] == [];
  }

  /** No child list: only the node's own value is stored from here. */
  lemma {:induction false} FindsLeaf<T>(n: Node<T>, key: string, i: nat, acc: Match<T>)
    requires Valid(n) && !n.hasList && i < |key| && Above(key, i, acc)
    ensures Finds(n, key, i, acc, BestBelow(n, key, i, acc))
  {
    FindsHere(n, key, i, acc);
    forall j | i < j <= |key|
      ensures At(n, key[i..j]) == None
    {
      assert key[i..j] != [];
    }
  }

  /** The child scan stops at `n`. */
  lemma {:induction false} FindsStops<T>(n: Node<T>, key: string, i: nat, acc: Match<T>)
    requires Valid(n) && n.hasList && i < |key| && Above(key, i, acc)
    requires var f := Find(n.children, key[i]);
             f < |n.children| ==>
               var cand := n.children[f];
               |key| - i < |cand.edge| || cand.edge != key[i..i + |cand.edge|]
    ensures Finds(n, key, i, acc, BestBelow(n, key, i, acc))
  {
    FindsHere(n, key, i, acc);
    forall j | i < j <= |key|
      ensures At(n, key[i..j]) == None
    {
      assert key[i..j] != [];
      StopsHere(n, key, i, j);
    }
  }

  /** Inside the label of the child filed under the next character,
      nothing is stored below `n`. */
  lemma {:induction false} Inside<T>(n: Node<T>, key: string, i: nat, f: nat, j: nat)
    requires i < |key| && Sorted(n.children) && f < |n.children| && FiledUnder(n.children[f], key[i])
    requires i < j < i + |n.children[f].edge| && j <= |key|
    ensures At(n, key[i..j]) == None
  {
    var x := key[i..j];
    Dispatch(n, x);
    ChildIs(n.children, x[0], f);
  }

  /** The key ends with the label of a fully matched child. */
  lemma {:induction false} FindsEnds<T>(n: Node<T>, key: string, i: nat, acc: Match<T>)
    requires Valid(n) && n.hasList && i < |key| && Above(key, i, acc)
    requires var f := Find(n.children, key[i]);
             && f < |n.children|
             && var cand := n.children[f];
             && i + |cand.edge| == |key| && cand.edge == key[i..i + |cand.edge|]
    ensures Finds(n, key, i, acc, BestBelow(n, key, i, acc))
  {
    ValidKids(n);
    var f := Find(n.children, key[i]);
    BelowSteps(n, key, i, acc);
    FindsHere(n, key, i, acc);
    Passes(n, key, i, f, |key|);
    assert key[|key|..|key|] == [] && key[..|key|] == key;
    InsideAll(n, key, i, f);
  }

  /** One step of the corrected search through a fully matched child. */
  lemma {:induction false} BelowSteps<T>(n: Node<T>, key: string, i: nat, acc: Match<T>)
    requires n.hasList && i < |key|
    requires var f := Find(n.children, key[i]);
             && f < |n.children|
             && var cand := n.children[f];
             && i + |cand.edge| <= |key| && cand.edge == key[i..i + |cand.edge|]
    ensures var cand := n.children[Find(n.children, key[i])];
            var len := |cand.edge|;
            BestBelow(n, key, i, acc)
              == if i + len == |key| then Valued(cand, key, |key|, Valued(n, key, i, acc))
                 else BestBelow(cand, key, i + len, Valued(n, key, i, acc))
  {
  }

  /** `Inside` for every point inside the label. */
  lemma {:induction false} InsideAll<T>(n: Node<T>, key: string, i: nat, f: nat)
    requires i < |key| && Sorted(n.children) && f < |n.children| && FiledUnder(n.children[f], key[i])
    ensures forall j :: i < j < i + |n.children[f].edge| && j <= |key| ==> At(n, key[i..j]) == None
  {
    forall j | i < j < i + |n.children[f].edge| && j <= |key|
      ensures At(n, key[i..j]) == None
    {
      Inside(n, key, i, f, j);
    }
  }

  /** The search passes through a fully matched child and goes on below
      it, with `n`'s own match as the new fallback. */
  lemma {:induction false} FindsThrough<T>(n: Node<T>, key: string, i: nat, acc: Match<T>)
    requires Sorted(n.children) && n.hasList && i < |key| && Above(key, i, acc)
    requires var f := Find(n.children, key[i]);
             && f < |n.children|
             && var cand := n.children[f];
             && i + |cand.edge| < |key| && cand.edge == key[i..i + |cand.edge|]
             && Finds(cand, key, i + |cand.edge|, Valued(n, key, i, acc),
                      BestBelow(cand, key, i + |cand.edge|, Valued(n, key, i, acc)))
    ensures Finds(n, key, i, acc, BestBelow(n, key, i, acc))
  {
    var f := Find(n.children, key[i]);
    var cand := n.children[f];
    var r := BestBelow(cand, key, i + |cand.edge|, Valued(n, key, i, acc));
    BelowSteps(n, key, i, acc);
    ThroughFinds(n, key, i, f, acc, r);
  }

  lemma {:induction false} ThroughFinds<T>(n: Node<T>, key: string, i: nat, f: nat, acc: Match<T>, r: Match<T>)
    requires Sorted(n.children) && i < |key| && Above(key, i, acc)
    requires f < |n.children| && FiledUnder(n.children[f], key[i])
    requires var cand := n.children[f];
             && i + |cand.edge| < |key| && cand.edge == key[i..i + |cand.edge|]
             && Finds(cand, key, i + |cand.edge|, Valued(n, key, i, acc), r)
    ensures Finds(n, key, i, acc, r)
  {
    ThroughSound(n, key, i, f, acc, r);
    ThroughAll(n, key, i, f, acc, r);
  }

  /** What the search below the child reports is stored below `n`. */
  lemma {:induction false} ThroughSound<T>(n: Node<T>, key: string, i: nat, f: nat, acc: Match<T>, r: Match<T>)
    requires Sorted(n.children) && i < |key| && Above(key, i, acc)
    requires f < |n.children| && FiledUnder(n.children[f], key[i])
    requires var cand := n.children[f];
             && i + |cand.edge| < |key| && cand.edge == key[i..i + |cand.edge|]
             && Finds(cand, key, i + |cand.edge|, Valued(n, key, i, acc), r)
    ensures || r == acc
            || (&& r.Match? && i <= |r.matchedKey| <= |key| && r.matchedKey == key[..|r.matchedKey|]
                && r.value.Some? && r.value == At(n, key[i..|r.matchedKey|]))
  {
    var len := |n.children[f].edge|;
    FindsHere(n, key, i, acc);
    if r != Valued(n, key, i, acc) {
      Passes(n, key, i, f, |r.matchedKey|);
    }
  }

  /** No prefix stored below `n` is longer than the reported one. */
  lemma {:induction false} ThroughAll<T>(n: Node<T>, key: string, i: nat, f: nat, acc: Match<T>, r: Match<T>)
    requires Sorted(n.children) && i < |key| && Above(key, i, acc)
    requires f < |n.children| && FiledUnder(n.children[f], key[i])
    requires var cand := n.children[f];
             && i + |cand.edge| < |key| && cand.edge == key[i..i + |cand.edge|]
             && Finds(cand, key, i + |cand.edge|, Valued(n, key, i, acc), r)
    ensures forall j :: i <= j <= |key| && At(n, key[i..j]).Some? ==> r.Match? && j <= |r.matchedKey|
  {
    var len := |n.children[f].edge|;
    FindsHere(n, key, i, acc);
    InsideAll(n, key, i, f);
    forall j | i + len <= j <= |key| && At(n, key[i..j]).Some?
      ensures r.Match? && j <= |r.matchedKey|
    {
      Passes(n, key, i, f, j);
    }
  }

  // ---------------------------------------------------------------------
  // size and the keys it counts
  // ---------------------------------------------------------------------

  /** Every key of `ks` with the label `e` in front. */
  function Prefixed(e: string, ks: seq<string>): (r: seq<string>)
    ensures |r| == |ks|
    ensures forall i :: 0 <= i < |ks| ==> r[i] == e + ks[i]
  {
    seq(|ks|, i requires 0 <= i < |ks| => e + ks[i])
  }

  /** The keys stored in the subtree of `c`, spelled from the start of its
      label, in the order `getNodeSize` visits their nodes. */
  function Spell<T>(c: Node<T>): seq<string>
    decreases c, 1, 0
  {
    (if c.value.Some? then [c.edge] else []) + (if c.hasList then Prefixed(c.edge, KeysFrom(c, 0)) else [])
  }

  function KeysFrom<T>(n: Node<T>, j: nat): seq<string>
    requires j <= |n.children|
    decreases n, 0, |n.children| - j
  {
    if j == |n.children| then [] else Spell(n.children[j]) + KeysFrom(n, j + 1)
  }

  /** The keys of a trie. */
  function Keys<T>(t: Node<T>): seq<string>
  {
    if t.hasList then KeysFrom(t, 0) else []
  }

  predicate Distinct(ks: seq<string>)
  {
    forall i, j :: 0 <= i < j < |ks| ==> ks[i] != ks[j]
  }

  lemma {:induction false} SpellSize<T>(c: Node<T>)
    ensures |Spell(c)| == Size(c)
    decreases c, 1, 0
  {
    KeysSize(c, 0);
  }

  lemma {:induction false} KeysSize<T>(n: Node<T>, j: nat)
    requires j <= |n.children|
    ensures |KeysFrom(n, j)| == SizeFrom(n, j)
    decreases n, 0, |n.children| - j
  {
    if j < |n.children| {
      SpellSize(n.children[j]);
      KeysSize(n, j + 1);
    }
  }

  /** The keys listed for a child are exactly the paths where it stores a
      value. */
  lemma {:induction false} SpellHas<T>(c: Node<T>, x: string)
    requires Valid(c)
    ensures x in Spell(c) <==> Lookup(c, x).Some?
    decreases c, 1, 0
  {
    var e := c.edge;
    ValidKids(c);
    var own := if c.value.Some? then [e] else [];
    var ps := if c.hasList then Prefixed(e, KeysFrom(c, 0)) else [];
    assert Spell(c) == own + ps;
    assert x in own <==> x == e && c.value.Some?;
    if !c.hasList {
      assert c.children == [];
    } else if e <= x && |x| > |e| {
      var y := x[|e|..];
      KeysHas(c, y, 0);
      assert x == e + y;
      if y in KeysFrom(c, 0) {
        var k :| 0 <= k < |KeysFrom(c, 0)| && KeysFrom(c, 0)[k] == y;
        assert ps[k] == x;
      }
      if x in ps {
        var k :| 0 <= k < |ps| && ps[k] == x;
        assert KeysFrom(c, 0)[k] == y;
      }
    } else {
      ScanEmpty(c, 0);
      if x in ps {
        var k :| 0 <= k < |ps| && ps[k] == x;
        KeysHas(c, KeysFrom(c, 0)[k], 0);
        assert e <= x;
      }
    }
  }

  lemma {:induction false} KeysHas<T>(n: Node<T>, x: string, j: nat)
    requires Valid(n) && j <= |n.children|
    ensures x in KeysFrom(n, j) <==> Scan(n, x, j).Some?
    decreases n, 0, |n.children| - j
  {
    if j < |n.children| {
      SpellHas(n.children[j], x);
      KeysHas(n, x, j + 1);
    }
  }

  lemma DistinctConcat(a: seq<string>, b: seq<string>)
    requires Distinct(a) && Distinct(b)
    requires forall i, j :: 0 <= i < |a| && 0 <= j < |b| ==> a[i] != b[j]
    ensures Distinct(a + b)
  {
    var r := a + b;
    forall i, j | 0 <= i < j < |r|
      ensures r[i] != r[j]
    {
      if j < |a| {
      } else if i >= |a| {
        assert r[i] == b[i - |a|] && r[j] == b[j - |a|];
      } else {
        assert r[j] == b[j - |a|];
      }
    }
  }

  /** No key is listed twice: siblings start with distinct characters. */
  lemma {:induction false} SpellDistinct<T>(c: Node<T>)
    requires Valid(c)
    ensures Distinct(Spell(c))
    decreases c, 1, 0
  {
    if c.hasList {
      var ks := KeysFrom(c, 0);
      var e := c.edge;
      KeysDistinct(c, 0);
      var ps := Prefixed(e, ks);
      forall i, j | 0 <= i < j < |ps|
        ensures ps[i] != ps[j]
      {
        assert ps[i][|e|..] == ks[i];
        assert ps[j][|e|..] == ks[j];
      }
      ValidKids(c);
      ScanEmpty(c, 0);
      KeysHas(c, [], 0);
      forall k | 0 <= k < |ps|
        ensures ps[k] != e
      {
        assert ks[k] != [];
      }
      var own := if c.value.Some? then [e] else [];
      DistinctConcat(own, ps);
    } else {
      assert Spell(c) == (if c.value.Some? then [c.edge] else []) + [];
    }
  }

  lemma {:induction false} KeysDistinct<T>(n: Node<T>, j: nat)
    requires Valid(n) && j <= |n.children|
    ensures Distinct(KeysFrom(n, j))
    decreases n, 0, |n.children| - j
  {
    if j < |n.children| {
      var kids := n.children;
      ValidKids(n);
      SpellDistinct(kids[j]);
      KeysDistinct(n, j + 1);
      var a := Spell(kids[j]);
      var b := KeysFrom(n, j + 1);
      forall p, q | 0 <= p < |a| && 0 <= q < |b|
        ensures a[p] != b[q]
      {
        Apart(n, j, a[p]);
      }
      DistinctConcat(a, b);
    }
  }

  /** A key listed for one child is not listed for a later one. */
  lemma Apart<T>(n: Node<T>, j: nat, x: string)
    requires Valid(n) && j < |n.children| && x in Spell(n.children[j])
    ensures x !in KeysFrom(n, j + 1)
  {
    var kids := n.children;
    ValidKids(n);
    assert x != [] && FiledUnder(kids[j], x[0]) by {
      SpellHas(kids[j], x);
    }
    assert Find(kids, x[0]) == j by {
      ChildIs(kids, x[0], j);
    }
    assert Scan(n, x, j + 1) == None by {
      ScanFiled(n, x, j + 1);
    }
    KeysHas(n, x, j + 1);
  }

  /** `size` counts the keys: the listed keys are distinct, they are
      exactly the keys with a value, and there are `size()` of them. */
  lemma SizeCounts<T>(t: Node<T>)
    requires Trie(t)
    ensures Size(t) == |Keys(t)| && Distinct(Keys(t))
    ensures forall x :: x in Keys(t) <==> Below(t, x).Some?
  {
    KeysSize(t, 0);
    if t.hasList {
      KeysDistinct(t, 0);
    }
    forall x
      ensures x in Keys(t) <==> Below(t, x).Some?
    {
      KeysHas(t, x, 0);
    }
  }

  // ---------------------------------------------------------------------
  // getDepth
  // ---------------------------------------------------------------------

  /** A path of child indexes leading down from `n`. */
  predicate IsPath<T>(n: Node<T>, p: seq<nat>)
    decreases |p|
  {
    p == [] || (n.hasList && p[0] < |n.children| && IsPath(n.children[p[0]], p[1..]))
  }

  lemma {:induction false} DepthFromCovers<T>(n: Node<T>, j: nat, k: nat)
    requires j <= k < |n.children|
    ensures DepthFrom(n, j) >= Depth(n.children[k])
    decreases |n.children| - j
  {
    if j < k {
      DepthFromCovers(n, j + 1, k);
    }
  }

  /** Every path down from a node is shorter than its depth. */
  lemma {:induction false} PathShorter<T>(n: Node<T>, p: seq<nat>)
    requires IsPath(n, p)
    ensures |p| < Depth(n)
    decreases |p|
  {
    if p != [] {
      PathShorter(n.children[p[0]], p[1..]);
      DepthFromCovers(n, 0, p[0]);
    }
  }

  /** The child from `j` on that reaches the depth `DepthFrom` reports. */
  function DeepestFrom<T>(n: Node<T>, j: nat): (k: nat)
    requires j < |n.children|
    ensures j <= k < |n.children| && Depth(n.children[k]) == DepthFrom(n, j)
    decreases |n.children| - j
  {
    if j + 1 == |n.children| then j
    else
      var k := DeepestFrom(n, j + 1);
      if Depth(n.children[j]) > Depth(n.children[k]) then j else k
  }

  /** A path as long as the depth allows: the depth is reached. */
  function Deepest<T>(n: Node<T>): (p: seq<nat>)
    ensures IsPath(n, p) && |p| == Depth(n) - 1
    decreases n
  {
    if !n.hasList || n.children == [] then []
    else
      var k := DeepestFrom(n, 0);
      [k] + Deepest(n.children[k])
  }

  // ---------------------------------------------------------------------
  // The public methods, on the root
  // ---------------------------------------------------------------------

  /** `isEmpty()` (lines 62-64): no child list, or an empty one. */
  function IsEmpty<T>(t: Node<T>): (r: bool)
    requires Trie(t)
    ensures r <==> Depth(t) == 1
    ensures r ==> Size(t) == 0 && forall x :: Below(t, x) == None
  {
    if !t.hasList || t.children == [] then
      true
    else
      DepthFromCovers(t, 0, 0);
      false
  }

  /** The map a trie stands for: every listed key with its value. */
  function Abs<T>(t: Node<T>): map<string, T>
  {
    map x | x in Keys(t) && Below(t, x).Some? :: Below(t, x).value
  }

  /** A map entry as Java's `get` reports it: the value, or null. */
  function MapGet<T>(m: map<string, T>, k: string): Option<T>
  {
    if k in m then Some(m[k]) else None
  }

  lemma AbsAt<T>(t: Node<T>)
    requires Trie(t)
    ensures forall x :: MapGet(Abs(t), x) == Below(t, x)
  {
    SizeCounts(t);
  }

  lemma {:induction false} DistinctCard(ks: seq<string>)
    requires Distinct(ks)
    ensures |set x | x in ks| == |ks|
  {
    if ks != [] {
      var rest := ks[1..];
      assert Distinct(rest) by {
        forall i, j | 0 <= i < j < |rest|
          ensures rest[i] != rest[j]
        {
          assert rest[i] == ks[i + 1] && rest[j] == ks[j + 1];
        }
      }
      DistinctCard(rest);
      assert (set x | x in ks) == {ks[0]} + (set x | x in rest);
      assert ks[0] !in (set x | x in rest) by {
        forall i | 0 <= i < |rest|
          ensures rest[i] != ks[0]
        {
          assert rest[i] == ks[i + 1];
        }
      }
    }
  }

  /** `size()` is the number of entries of the map. */
  lemma SizeIsCount<T>(t: Node<T>)
    requires Trie(t)
    ensures Size(t) == |Abs(t)|
  {
    SizeCounts(t);
    DistinctCard(Keys(t));
    assert Abs(t).Keys == set x | x in Keys(t);
  }

  /** `new RadixTrie()`. */
  function New<T>(): (t: Node<T>)
    ensures Trie(t) && Pruned(t) && Abs(t) == map[] && Size(t) == 0 && Depth(t) == 1
  {
    Empty()
  }

  /** `get(key)` (lines 158-197). */
  function Get<T>(t: Node<T>, key: string): (r: Option<T>)
    requires Trie(t) && key != []
    ensures r == MapGet(Abs(t), key)
  {
    GetLookup(t, key);
    AbsAt(t);
    GetBelow(t, key)
  }

  lemma PutAll<T>(t: Node<T>, key: string, v: T)
    requires Trie(t) && key != []
    ensures Trie(PutBelow(t, key, v).0)
    ensures PutBelow(t, key, v).1 == MapGet(Abs(t), key)
    ensures Abs(PutBelow(t, key, v).0) == Abs(t)[key := v]
  {
    var t' := PutBelow(t, key, v).0;
    PutValid(t, key, v);
    PutOld(t, key, v);
    AbsAt(t);
    AbsAt(t');
    forall q
      ensures MapGet(Abs(t'), q) == MapGet(Abs(t)[key := v], q)
    {
      PutLookup(t, key, v, q);
    }
    SameMap(Abs(t'), Abs(t)[key := v]);
  }

  lemma SameMap<T>(a: map<string, T>, b: map<string, T>)
    requires forall q :: MapGet(a, q) == MapGet(b, q)
    ensures a == b
  {
    forall q | q in a
      ensures q in b && a[q] == b[q]
    {
      assert MapGet(a, q) == MapGet(b, q);
    }
    forall q | q in b
      ensures q in a
    {
      assert MapGet(a, q) == MapGet(b, q);
    }
  }

  /** `put(key, value)` (lines 199-284) for a non-null value: the map
      gains the entry and `put` returns the value it replaced, if any. */
  function Put<T>(t: Node<T>, key: string, v: T): (r: (Node<T>, Option<T>))
    requires Trie(t) && key != []
    ensures Trie(r.0) && r.1 == MapGet(Abs(t), key)
    ensures Abs(r.0) == Abs(t)[key := v]
  {
    PutAll(t, key, v);
    PutBelow(t, key, v)
  }

  /** `put(key, value)` with a possibly null value: line 200 throws
      before touching the tree. */
  function Store<T>(t: Node<T>, key: string, value: Option<T>): (r: Outcome<(Node<T>, Option<T>)>)
    requires Trie(t) && key != []
    ensures r.Failure? <==> value.None?
    ensures r.Ok? ==> Trie(r.value.0) && Abs(r.value.0) == Abs(t)[key := value.value]
  {
    if value.None? then Failure("value cannot be null") else Ok(Put(t, key, value.value))
  }

  lemma RemoveAll<T>(t: Node<T>, key: string, m: OnMismatch)
    requires Trie(t) && key != []
    ensures Trie(RemoveBelow(t, key, m).0)
    ensures m == GiveUp || key in Abs(t) ==>
              RemoveBelow(t, key, m).1 == MapGet(Abs(t), key) &&
              Abs(RemoveBelow(t, key, m).0) == Abs(t) - {key}
  {
    var t' := RemoveBelow(t, key, m).0;
    RemoveValid(t, key, m);
    AbsAt(t);
    AbsAt(t');
    if m == GiveUp || key in Abs(t) {
      assert MapGet(Abs(t), key) == Below(t, key);
      RemoveOld(t, key, m);
      forall q
        ensures MapGet(Abs(t'), q) == MapGet(Abs(t) - {key}, q)
      {
        RemoveLookup(t, key, m, q);
      }
      SameMap(Abs(t'), Abs(t) - {key});
    }
  }

  /** `remove(key)` (lines 286-334) as written: for a stored key it
      returns the value and the map loses exactly that entry. */
  function Remove<T>(t: Node<T>, key: string): (r: (Node<T>, Option<T>))
    requires Trie(t) && key != []
    ensures Trie(r.0)
    ensures key in Abs(t) ==> r.1 == Some(Abs(t)[key]) && Abs(r.0) == Abs(t) - {key}
  {
    RemoveAll(t, key, Descend);
    RemoveBelow(t, key, Descend)
  }

  /** `remove(key)` with a label mismatch ending the search: the map loses
      the entry, if there is one, and nothing else. */
  function RemoveCorrected<T>(t: Node<T>, key: string): (r: (Node<T>, Option<T>))
    requires Trie(t) && key != []
    ensures Trie(r.0) && r.1 == MapGet(Abs(t), key)
    ensures Abs(r.0) == Abs(t) - {key}
  {
    RemoveAll(t, key, GiveUp);
    RemoveBelow(t, key, GiveUp)
  }

  /** A reported match names a prefix of the key with what the map holds
      there, and no longer prefix of the key is in the map. */
  ghost predicate BestOf<T>(t: Node<T>, key: string, r: Match<T>)
  {
    r.Match? ==>
      && r.matchedKey <= key && r.value == MapGet(Abs(t), r.matchedKey)
      && forall j :: |r.matchedKey| < j <= |key| ==> key[..j] !in Abs(t)
  }

  lemma BestAll<T>(t: Node<T>, key: string)
    requires Trie(t) && key != []
    ensures BestOf(t, key, BestFrom(t, key, 0))
    ensures var r := BestFrom(t, key, 0);
            r.Match? && r.value.None? ==> r.matchedKey == key
  {
    var r := BestFrom(t, key, 0);
    BestLongest(t, key, 0);
    AbsAt(t);
    if r.Match? {
      var m := r.matchedKey;
      assert key[0..|m|] == m;
      ValidKids(t);
      ScanEmpty(t, 0);
      assert r.value == Below(t, m);
      assert r.value.None? ==> m == key[..|key|] == key;
      forall j | |m| < j <= |key|
        ensures key[..j] !in Abs(t)
      {
        assert key[0..j] == key[..j];
        assert MapGet(Abs(t), key[..j]) == None;
      }
    }
  }

  /** The longest prefix of the key that is in the map, with its value,
      or null when no prefix of the key is. */
  ghost predicate LongestStored<T>(t: Node<T>, key: string, r: Match<T>)
  {
    && (r.Match? || r == NoMatch)
    && (r.Match? ==> r.matchedKey <= key && r.matchedKey in Abs(t) && r.value == Some(Abs(t)[r.matchedKey]))
    && (forall j :: 0 <= j <= |key| && key[..j] in Abs(t) ==> r.Match? && j <= |r.matchedKey|)
  }

  lemma BestCorrectedAll<T>(t: Node<T>, key: string)
    requires Trie(t) && key != []
    ensures LongestStored(t, key, BestBelow(t, key, 0, NoMatch))
  {
    var r := BestBelow(t, key, 0, NoMatch);
    BestBelowFinds(t, key, 0, NoMatch);
    AbsAt(t);
    ValidKids(t);
    ScanEmpty(t, 0);
    if r.Match? {
      var m := r.matchedKey;
      assert key[0..|m|] == m;
      assert m != [];
      assert MapGet(Abs(t), m) == Below(t, m);
    }
    forall j | 0 <= j <= |key| && key[..j] in Abs(t)
      ensures r.Match? && j <= |r.matchedKey|
    {
      assert key[0..j] == key[..j];
      assert MapGet(Abs(t), key[..j]) == Below(t, key[..j]);
      assert key[..j] != [];
    }
  }

  /** `getBestMatch(key)` as evidently intended: the longest prefix of the
      key that is stored, with its value; null exactly when no prefix of
      the key is stored. */
  function BestMatchCorrected<T>(t: Node<T>, key: string): (r: Match<T>)
    requires Trie(t) && key != []
    ensures r.Match? || r == NoMatch
    ensures r.Match? ==> r.matchedKey <= key && r.matchedKey in Abs(t) && r.value == Some(Abs(t)[r.matchedKey])
    ensures forall j :: 0 <= j <= |key| && key[..j] in Abs(t) ==> r.Match? && j <= |r.matchedKey|
    ensures r == NoMatch <==> forall j :: 0 <= j <= |key| ==> key[..j] !in Abs(t)
  {
    BestCorrectedAll(t, key);
    var r := BestBelow(t, key, 0, NoMatch);
    assert r.Match? ==> r.matchedKey == key[..|r.matchedKey|];
    r
  }

  /** A reported value is the corrected answer. */
  lemma AgreesCorrected<T>(t: Node<T>, key: string, r: Match<T>)
    requires Trie(t) && key != [] && BestOf(t, key, r)
    ensures r.Match? && r.value.Some? ==> r == BestMatchCorrected(t, key)
  {
    if r.Match? && r.value.Some? {
      var c := BestMatchCorrected(t, key);
      var m := r.matchedKey;
      assert m == key[..|m|];
      assert m in Abs(t);
      assert c.Match? && |m| <= |c.matchedKey|;
      assert c.matchedKey == key[..|c.matchedKey|];
    }
  }

  /** `getBestMatch(key)` (lines 115-156) as written: a reported match is
      sound, a null value comes only with the whole key (line 151), and a
      reported value is the longest stored prefix's. */
  function BestMatch<T>(t: Node<T>, key: string): (r: Match<T>)
    requires Trie(t) && key != []
    ensures BestOf(t, key, r)
    ensures r.Match? && r.value.None? ==> r.matchedKey == key
    ensures r.Match? && r.value.Some? ==> r == BestMatchCorrected(t, key)
  {
    BestAll(t, key);
    AgreesCorrected(t, key, BestFrom(t, key, 0));
    BestFrom(t, key, 0)
  }

  // ---------------------------------------------------------------------
  // Pruned tries: where getBestMatch as written finds the longest prefix
  // ---------------------------------------------------------------------

  /** No node below the root is left with neither a value nor children.
      `put` keeps this (`PutPruned`); `remove` can break it, since it
      leaves a valueless node with an empty child list behind when the
      last key below it goes (see `EmptiedNotEmpty`). */
  predicate Pruned<T>(n: Node<T>)
    decreases n
  {
    forall i :: 0 <= i < |n.children| ==>
      (n.children[i].value.Some? || n.children[i].children != []) && Pruned(n.children[i])
  }

  /** A node with a value or children, whose children are pruned, is a
      pruned child: what every node `put` builds or changes is. */
  predicate Kept<T>(c: Node<T>)
  {
    (c.value.Some? || c.children != []) && Pruned(c)
  }

  /** Every node of a child list is a pruned child. */
  predicate AllKept<T>(kids: seq<Node<T>>)
  {
    forall i :: 0 <= i < |kids| ==> Kept(kids[i])
  }

  lemma InsertKept<T>(kids: seq<Node<T>>, x: Node<T>)
    requires AllKept(kids) && Kept(x)
    ensures AllKept(Insert(kids, x)) && Insert(kids, x) != []
  {
    var q := Slot(kids, Head(x));
    assert Insert(kids, x) == kids[..q] + [x] + kids[q..];
  }

  lemma RemoveAtKept<T>(kids: seq<Node<T>>, j: nat)
    requires AllKept(kids) && j < |kids|
    ensures AllKept(RemoveAt(kids, j))
  {
  }

  /** `put` keeps a trie pruned, and the node it changes has children. */
  lemma {:induction false} PutPruned<T>(n: Node<T>, s: string, v: T)
    requires s != [] && Pruned(n)
    ensures Pruned(PutBelow(n, s, v).0) && PutBelow(n, s, v).0.children != []
    decreases n
  {
    var n' := PutBelow(n, s, v).0;
    assert Kept(Leaf(s, v));
    if !n.hasList {
      assert n'.children == [Leaf(s, v)];
      return;
    }
    var kids := n.children;
    assert AllKept(kids);
    var j := Find(kids, s[0]);
    if j == |kids| {
      InsertKept(kids, Leaf(s, v));
      return;
    }
    var cand := kids[j];
    assert Kept(cand);
    var k := Agree(cand.edge, s);
    if |s| < |cand.edge| && s <= cand.edge {
      TwoWayKept(cand, s, v);
      SwapKept(kids, j, TwoWay(cand, s, v));
    } else if k < |cand.edge| {
      ThreeWayKept(cand, s, v, k);
      SwapKept(kids, j, ThreeWay(cand, s, v, k));
    } else if k == |s| {
      assert Kept(cand.(value := Some(v)));
      assert AllKept(kids[j := cand.(value := Some(v))]);
    } else {
      PutPruned(cand, s[k..], v);
      var c := PutBelow(cand, s[k..], v).0;
      assert Kept(c);
      assert AllKept(kids[j := c]);
    }
  }

  lemma TwoWayKept<T>(cand: Node<T>, s: string, v: T)
    requires Kept(cand) && |s| <= |cand.edge|
    ensures Kept(TwoWay(cand, s, v))
  {
    assert Kept(cand.(edge := cand.edge[|s|..]));
  }

  lemma ThreeWayKept<T>(cand: Node<T>, s: string, v: T, k: nat)
    requires Kept(cand) && k <= |cand.edge| && k <= |s|
    ensures Kept(ThreeWay(cand, s, v, k))
  {
    var rest := cand.(edge := cand.edge[k..]);
    assert Kept(rest) && Kept(Leaf(s[k..], v));
    InsertKept([rest], Leaf(s[k..], v));
  }

  /** The split node takes the place of the child it splits. */
  lemma SwapKept<T>(kids: seq<Node<T>>, j: nat, top: Node<T>)
    requires AllKept(kids) && j < |kids| && Kept(top)
    ensures AllKept(Insert(RemoveAt(kids, j), top)) && Insert(RemoveAt(kids, j), top) != []
  {
    RemoveAtKept(kids, j);
    InsertKept(RemoveAt(kids, j), top);
  }

  /** `put(key, value)` keeps a trie pruned. */
  lemma PutKeepsPruned<T>(t: Node<T>, key: string, v: T)
    requires Trie(t) && Pruned(t) && key != []
    ensures Pruned(Put(t, key, v).0)
  {
    PutPruned(t, key, v);
  }

  /** A pruned child stores a value at or below itself. */
  lemma {:induction false} Stores<T>(c: Node<T>) returns (y: string)
    requires Valid(c) && Kept(c)
    ensures At(c, y).Some?
    decreases c
  {
    if c.value.Some? {
      y := [];
    } else {
      var d := c.children[0];
      assert Member(d) && Valid(d) && Kept(d);
      var z := Stores(d);
      y := d.edge + z;
      assert y[|d.edge|..] == z && d.edge <= y;
      assert Lookup(d, y).Some?;
    }
  }

  /** Below a child whose label starts the path, lookups go on in the
      child. */
  lemma {:induction false} Through<T>(n: Node<T>, f: nat, x: string)
    requires Sorted(n.children) && f < |n.children| && n.children[f].edge <= x
    ensures Below(n, x) == At(n.children[f], x[|n.children[f].edge|..])
  {
    var cand := n.children[f];
    assert x != [] && x[0] == cand.edge[0];
    Dispatch(n, x);
    ChildIs(n.children, x[0], f);
  }

  /** `Through` for a fully matched label inside the key. */
  lemma {:induction false} ThroughKey<T>(n: Node<T>, key: string, i: nat, f: nat, j: nat, y: string)
    requires Sorted(n.children) && f < |n.children|
    requires var len := |n.children[f].edge|;
             i + len <= j <= |key| && n.children[f].edge == key[i..i + len]
    ensures var len := |n.children[f].edge|;
            Below(n, key[i..j] + y) == At(n.children[f], key[i + len..j] + y)
  {
    var len := |n.children[f].edge|;
    var x := key[i..j] + y;
    assert x[..len] == key[i..i + len];
    assert x[len..] == key[i + len..j] + y;
    Through(n, f, x);
  }

  /** Nothing is stored below `n` at a path that starts with `p`. */
  ghost predicate NoneUnder<T>(n: Node<T>, p: string)
  {
    forall y :: Below(n, p + y) == None
  }

  /** Below a fully matched pruned child something is stored at a path
      that starts with the key's next character. */
  lemma {:induction false} PrunedStores<T>(n: Node<T>, key: string, i: nat)
    requires Valid(n) && Pruned(n) && n.hasList && i < |key|
    ensures var f := Find(n.children, key[i]);
            (f < |n.children| && |key| - i >= |n.children[f].edge|
             && n.children[f].edge == key[i..i + |n.children[f].edge|]) ==>
              !NoneUnder(n, key[i..i + 1])
  {
    var f := Find(n.children, key[i]);
    if f < |n.children| && |key| - i >= |n.children[f].edge| && n.children[f].edge == key[i..i + |n.children[f].edge|] {
      ValidKids(n);
      var y := StoredUnder(n, key, i, f);
    }
  }

  lemma {:induction false} StoredUnder<T>(n: Node<T>, key: string, i: nat, f: nat) returns (y: string)
    requires Sorted(n.children) && f < |n.children| && i < |key|
    requires var c := n.children[f]; Member(c) && Valid(c) && Kept(c)
    requires var len := |n.children[f].edge|;
             i + len <= |key| && n.children[f].edge == key[i..i + len]
    ensures Below(n, key[i..i + 1] + y).Some?
  {
    var cand := n.children[f];
    var len := |cand.edge|;
    var y0 := Stores(cand);
    y := cand.edge[1..] + y0;
    var x := key[i..i + 1] + y;
    assert x == cand.edge + y0 by {
      assert cand.edge == key[i..i + 1] + cand.edge[1..];
    }
    assert x[len..] == y0;
    Through(n, f, x);
  }

  /** The walk's answer when `key[..j]` is stored and nothing is stored
      past its next character: that prefix with its value, or null with
      nothing stored below the prefix at all. */
  ghost predicate Reports<T>(n: Node<T>, key: string, i: nat, j: nat, r: Match<T>)
    requires i <= j <= |key|
  {
    || r == Match(key[..j], At(n, key[i..j]))
    || (r == NoMatch && j < |key| && forall y :: y != [] ==> Below(n, key[i..j] + y) == None)
  }

  /** Lines 115-156 on a pruned trie: when the longest stored prefix ends
      at `j` and nothing is stored past the key's next character, the
      walk reports it, or stops at a node without a child list. */
  lemma {:induction false} WalkStops<T>(n: Node<T>, key: string, i: nat, j: nat)
    requires Valid(n) && Pruned(n) && i < |key| && i <= j <= |key|
    requires At(n, key[i..j]).Some?
    requires j < |key| ==> NoneUnder(n, key[i..j + 1])
    ensures Reports(n, key, i, j, BestFrom(n, key, i))
    decreases n
  {
    if !n.hasList {
      WalkLeaf(n, key, i, j);
    } else if j == i {
      WalkHere(n, key, i);
    } else {
      WalkFiled(n, key, i, j);
      ValidKids(n);
      var f := Find(n.children, key[i]);
      var cand := n.children[f];
      var len := |cand.edge|;
      if i + len == |key| {
        WalkEnds(n, key, i);
      } else {
        assert Member(cand) && Valid(cand) && Pruned(cand);
        Passes(n, key, i, f, j);
        if j < |key| {
          UnderChild(n, key, i, j);
        }
        WalkStops(cand, key, i + len, j);
        WalkThrough(n, key, i, j);
      }
    }
  }

  lemma {:induction false} WalkLeaf<T>(n: Node<T>, key: string, i: nat, j: nat)
    requires Valid(n) && !n.hasList && i < |key| && i <= j <= |key|
    requires At(n, key[i..j]).Some?
    ensures Reports(n, key, i, j, BestFrom(n, key, i))
  {
    assert At(n, key[i..j]) == if j == i then n.value else None;
  }

  lemma {:induction false} WalkHere<T>(n: Node<T>, key: string, i: nat)
    requires Valid(n) && Pruned(n) && n.hasList && i < |key|
    requires At(n, key[i..i]).Some? && NoneUnder(n, key[i..i + 1])
    ensures Reports(n, key, i, i, BestFrom(n, key, i))
  {
    PrunedStores(n, key, i);
    assert key[i..i] == [];
  }

  /** A prefix stored strictly below `n` lies below the fully matched
      child filed under the key's next character. */
  lemma {:induction false} WalkFiled<T>(n: Node<T>, key: string, i: nat, j: nat)
    requires Valid(n) && n.hasList && i < j <= |key|
    requires At(n, key[i..j]).Some?
    ensures var f := Find(n.children, key[i]);
            && f < |n.children|
            && i + |n.children[f].edge| <= j
            && n.children[f].edge == key[i..i + |n.children[f].edge|]
  {
    ValidKids(n);
    var x := key[i..j];
    Dispatch(n, x);
    var f := Find(n.children, key[i]);
    assert f < |n.children|;
    SlicePrefix(key, i, j, n.children[f].edge);
  }

  /** The key ends with a fully matched label: line 151. */
  lemma {:induction false} WalkEnds<T>(n: Node<T>, key: string, i: nat)
    requires Valid(n) && n.hasList && i < |key|
    requires var f := Find(n.children, key[i]);
             && f < |n.children|
             && i + |n.children[f].edge| == |key|
             && n.children[f].edge == key[i..i + |n.children[f].edge|]
    ensures Reports(n, key, i, |key|, BestFrom(n, key, i))
  {
    ValidKids(n);
    var f := Find(n.children, key[i]);
    Passes(n, key, i, f, |key|);
    assert key[|key|..|key|] == [] && key[..|key|] == key;
  }

  /** Nothing stored past the key's next character below `n` means
      nothing stored there below the matched child either. */
  lemma {:induction false} UnderChild<T>(n: Node<T>, key: string, i: nat, j: nat)
    requires Valid(n) && n.hasList && i < j < |key|
    requires var f := Find(n.children, key[i]);
             && f < |n.children|
             && i + |n.children[f].edge| <= j
             && n.children[f].edge == key[i..i + |n.children[f].edge|]
    requires NoneUnder(n, key[i..j + 1])
    ensures var f := Find(n.children, key[i]);
            NoneUnder(n.children[f], key[i + |n.children[f].edge|..j + 1])
  {
    ValidKids(n);
    var f := Find(n.children, key[i]);
    var len := |n.children[f].edge|;
    var p := key[i + len..j + 1];
    forall y
      ensures Below(n.children[f], p + y) == None
    {
      ThroughKey(n, key, i, f, j + 1, y);
      assert key[i + len..j + 1] + y != [];
    }
  }

  /** The walk passes through a fully matched child. */
  lemma {:induction false} WalkThrough<T>(n: Node<T>, key: string, i: nat, j: nat)
    requires Sorted(n.children) && n.hasList && i < j <= |key|
    requires var f := Find(n.children, key[i]);
             && f < |n.children|
             && var cand := n.children[f];
             && i + |cand.edge| <= j && i + |cand.edge| < |key|
             && cand.edge == key[i..i + |cand.edge|]
             && Reports(cand, key, i + |cand.edge|, j, BestFrom(cand, key, i + |cand.edge|))
    ensures Reports(n, key, i, j, BestFrom(n, key, i))
  {
    var f := Find(n.children, key[i]);
    var cand := n.children[f];
    var len := |cand.edge|;
    var r := BestFrom(cand, key, i + len);
    assert BestFrom(n, key, i) == r;
    Passes(n, key, i, f, j);
    if r == NoMatch {
      forall y | y != []
        ensures Below(n, key[i..j] + y) == None
      {
        ThroughKey(n, key, i, f, j, y);
        assert key[i + len..j] + y != [];
      }
    }
  }

  /** `getBestMatch(key)` as written, on a trie built by `put` alone: if
      `key[..j]` is stored and no stored key starts with `key[..j + 1]`,
      the answer is `key[..j]` with its value, or null when the node of
      `key[..j]` has no child list (line 120), which happens only when
      no stored key extends `key[..j]`. */
  lemma BestMatchPruned<T>(t: Node<T>, key: string, j: nat)
    requires Trie(t) && Pruned(t) && key != [] && j <= |key|
    requires key[..j] in Abs(t)
    requires j < |key| ==> forall x :: x in Abs(t) ==> !(key[..j + 1] <= x)
    ensures || BestMatch(t, key) == Match(key[..j], Some(Abs(t)[key[..j]]))
            || (BestMatch(t, key) == NoMatch && j < |key| && forall y :: y != [] ==> key[..j] + y !in Abs(t))
  {
    AbsAt(t);
    ValidKids(t);
    ScanEmpty(t, 0);
    assert key[0..j] == key[..j];
    assert MapGet(Abs(t), key[..j]) == Below(t, key[..j]);
    assert key[..j] != [];
    if j < |key| {
      var p := key[..j + 1];
      assert key[0..j + 1] == p;
      forall y
        ensures Below(t, p + y) == None
      {
        var x := p + y;
        assert MapGet(Abs(t), x) == Below(t, x);
        assert key[..j + 1] <= x;
      }
    }
    WalkStops(t, key, 0, j);
    if BestMatch(t, key) == NoMatch {
      forall y | y != []
        ensures key[..j] + y !in Abs(t)
      {
        assert MapGet(Abs(t), key[..j] + y) == Below(t, key[..j] + y);
      }
    }
  }

  /** A node sits at path `p` below `n`: following, from `n`, the child
      filed under each next character of `p`, every label matches in
      full and the labels spell exactly `p`. On a trie built by `put`
      these paths are the stored keys and the branch points between
      them; the walk of lines 115-156 visits only such nodes. */
  predicate NodeAt<T>(n: Node<T>, p: string)
    decreases n
  {
    || p == []
    || (var f := Find(n.children, p[0]);
        && f < |n.children|
        && n.children[f].edge <= p
        && NodeAt(n.children[f], p[|n.children[f].edge|..]))
  }

  /** A node at `key[i + len..m]` below the fully matched child is a node
      at `key[i..m]` below `n`; with `m == i + len`, the child itself is
      one. */
  lemma {:induction false} NodeAtThrough<T>(n: Node<T>, key: string, i: nat, m: nat)
    requires i < |key| && m <= |key|
    ensures var f := Find(n.children, key[i]);
            (&& f < |n.children|
             && i + |n.children[f].edge| <= m
             && n.children[f].edge == key[i..i + |n.children[f].edge|]
             && NodeAt(n.children[f], key[i + |n.children[f].edge|..m])) ==>
              NodeAt(n, key[i..m])
  {
    var f := Find(n.children, key[i]);
    if && f < |n.children|
       && i + |n.children[f].edge| <= m
       && n.children[f].edge == key[i..i + |n.children[f].edge|]
       && NodeAt(n.children[f], key[i + |n.children[f].edge|..m])
    {
      var len := |n.children[f].edge|;
      var p := key[i..m];
      if p != [] {
        assert p[0] == key[i];
        assert p[..len] == n.children[f].edge;
        assert p[len..] == key[i + len..m];
      }
    }
  }

  /** The walk stops at the valued node of `key[i..i]` when no node sits
      at a longer prefix of the key: every exit there (lines 120, 138,
      139 and 152) reports that node. */
  lemma {:induction false} WalkHereNode<T>(n: Node<T>, key: string, i: nat)
    requires Valid(n) && n.hasList && i < |key|
    requires At(n, key[i..i]).Some?
    requires forall m :: i < m <= |key| ==> !NodeAt(n, key[i..m])
    ensures Reports(n, key, i, i, BestFrom(n, key, i))
  {
    ValidKids(n);
    var f := Find(n.children, key[i]);
    if f < |n.children| && |key| - i >= |n.children[f].edge| {
      assert Member(n.children[f]);
      NodeAtThrough(n, key, i, i + |n.children[f].edge|);
      assert key[i + |n.children[f].edge|..i + |n.children[f].edge|] == [];
    }
    assert key[i..i] == [];
  }

  /** Lines 115-156 on any trie: when `key[i..j]` is stored below `n` and
      no node sits at a longer prefix of the key, the walk reports
      `key[..j]`, or stops at a node without a child list. */
  lemma {:induction false} WalkUntil<T>(n: Node<T>, key: string, i: nat, j: nat)
    requires Valid(n) && i < |key| && i <= j <= |key|
    requires At(n, key[i..j]).Some?
    requires forall m :: j < m <= |key| ==> !NodeAt(n, key[i..m])
    ensures Reports(n, key, i, j, BestFrom(n, key, i))
    decreases n
  {
    if !n.hasList {
      WalkLeaf(n, key, i, j);
    } else if j == i {
      WalkHereNode(n, key, i);
    } else {
      WalkFiled(n, key, i, j);
      ValidKids(n);
      var f := Find(n.children, key[i]);
      var cand := n.children[f];
      var len := |cand.edge|;
      if i + len == |key| {
        WalkEnds(n, key, i);
      } else {
        assert Member(cand) && Valid(cand);
        Passes(n, key, i, f, j);
        var k := i + len;
        forall m | j < m <= |key|
          ensures !NodeAt(cand, key[k..m])
        {
          NodeAtThrough(n, key, i, m);
        }
        WalkUntil(cand, key, k, j);
        WalkThrough(n, key, i, j);
      }
    }
  }

  /** `getBestMatch(key)` as written, on every trie: if `key[..j]` is
      stored and no node of the trie sits at a longer prefix of the key,
      the answer is `key[..j]` with its value, or null when the node of
      `key[..j]` has no child list (line 120), which happens only when
      no stored key extends `key[..j]`. This covers the exits at a
      valued node where the candidate label runs past the key (line
      139) or differs from it (line 152). */
  lemma BestMatchStops<T>(t: Node<T>, key: string, j: nat)
    requires Trie(t) && key != [] && j <= |key|
    requires key[..j] in Abs(t)
    requires forall m :: j < m <= |key| ==> !NodeAt(t, key[..m])
    ensures || BestMatch(t, key) == Match(key[..j], Some(Abs(t)[key[..j]]))
            || (BestMatch(t, key) == NoMatch && j < |key| && forall y :: y != [] ==> key[..j] + y !in Abs(t))
  {
    AbsAt(t);
    ValidKids(t);
    ScanEmpty(t, 0);
    assert key[0..j] == key[..j];
    assert MapGet(Abs(t), key[..j]) == Below(t, key[..j]);
    assert key[..j] != [];
    forall m | j < m <= |key|
      ensures !NodeAt(t, key[0..m])
    {
      assert key[0..m] == key[..m];
    }
    WalkUntil(t, key, 0, j);
    if BestMatch(t, key) == NoMatch {
      forall y | y != []
        ensures key[..j] + y !in Abs(t)
      {
        assert MapGet(Abs(t), key[..j] + y) == Below(t, key[..j] + y);
      }
    }
  }

  /** `clear()` (lines 336-339). */
  function Clear<T>(t: Node<T>): (r: Node<T>)
    requires Trie(t)
    ensures Trie(r) && IsEmpty(r) && Abs(r) == map[] && Size(r) == 0
  {
    t.(hasList := false, children := [], value := None)
  }

  // ---------------------------------------------------------------------
  // Two discrepancies, on concrete tries
  // ---------------------------------------------------------------------

  /** The trie after `put("abc", 1)` and `put("abcabd", 2)`: "abd" hangs
      below "abc". */
  function AbcAbd(): Node<int>
  {
    Node([], None, true, [Node("abc", Some(1), true, [Leaf("abd", 2)])])
  }

  lemma AbcAbdBuilt()
    ensures Put(Put(New<int>(), "abc", 1).0, "abcabd", 2).0 == AbcAbd()
  {
    var t1 := Put(New<int>(), "abc", 1).0;
    assert t1 == Node([], None, true, [Leaf("abc", 1)]);
    assert Agree("abc", "abcabd") == 3;
    assert "abcabd"[3..] == "abd";
  }

  /** The trie left by `remove("abd")`: "abc" without children. */
  function AbcOnly(): Node<int>
  {
    Node([], None, true, [Node("abc", Some(1), true, [])])
  }

  lemma RemoveAbd()
    ensures RemoveBelow(AbcAbd(), "abd", Descend) == (AbcOnly(), Some(2))
  {
    var abc := AbcAbd().children[0];
    assert Find(AbcAbd().children, 'a') == 0;
    assert "abd"[..3] == "abd" != "abc";
    assert Find(abc.children, 'a') == 0;
    assert Unlink(abc.children, 0) == [];
    assert RemoveBelow(abc, "abd", Descend) == (abc.(children := []), Some(2));
    assert AbcAbd().children[0 := abc.(children := [])] == AbcOnly().children;
  }

  lemma AbcOnlyMap()
    ensures Trie(AbcOnly()) && Abs(AbcOnly()) == map["abc" := 1]
  {
    var t := AbcOnly();
    var c := t.children[0];
    AbsAt(t);
    forall q
      ensures MapGet(Abs(t), q) == MapGet(map["abc" := 1], q)
    {
      assert Below(t, q) == Lookup(c, q);
    }
    SameMap(Abs(t), map["abc" := 1]);
  }

  /** Line 332 as written: `remove("abd")`, a key never stored, deletes
      the entry of "abcabd" and returns its value. */
  lemma RemoveMismatchLoses()
    ensures var t := Put(Put(New<int>(), "abc", 1).0, "abcabd", 2).0;
            var r := Remove(t, "abd");
            && Abs(t) == map["abc" := 1, "abcabd" := 2]
            && r.1 == Some(2) && Abs(r.0) == map["abc" := 1]
  {
    AbcAbdBuilt();
    RemoveAbd();
    AbcOnlyMap();
  }

  /** The corrected mismatch exit leaves the same trie untouched. */
  lemma RemoveMismatchCorrected()
    ensures var t := Put(Put(New<int>(), "abc", 1).0, "abcabd", 2).0;
            RemoveCorrected(t, "abd") == (t, None)
  {
    AbcAbdBuilt();
    assert "abc" != "abd";
  }

  /** The trie after `put("a", 1)`. */
  function JustA(): Node<int>
  {
    Node([], None, true, [Leaf("a", 1)])
  }

  lemma JustABuilt()
    ensures Put(New<int>(), "a", 1).0 == JustA()
  {
  }

  /** Line 120 as written: the leaf "a" matches the whole of its label,
      and `getBestMatch("ab")` answers null although "a" is stored. */
  lemma BestMatchLeafLoses()
    ensures var t := Put(New<int>(), "a", 1).0;
            Abs(t) == map["a" := 1] && BestMatch(t, "ab") == NoMatch
  {
    JustABuilt();
    var t := JustA();
    assert Find(t.children, 'a') == 0;
    assert "ab"[0..1] == "a";
  }

  /** Corrected, the same call reports the leaf's key and value. */
  lemma BestMatchLeafCorrected()
    ensures var t := Put(New<int>(), "a", 1).0;
            BestMatchCorrected(t, "ab") == Match("a", Some(1))
  {
    JustABuilt();
    var t := JustA();
    assert Find(t.children, 'a') == 0;
    assert "ab"[0..1] == "a" == "ab"[..1];
  }

  /** The trie after `put("x", 0)`, `put("xab", 1)` and `put("xac", 2)`:
      a valueless "a" below "x", above "b" and "c". */
  function XaFork(): Node<int>
  {
    Node([], None, true, [Node("x", Some(0), true,
      [Node("a", None, true, [Leaf("b", 1), Leaf("c", 2)])])])
  }

  lemma XabBuilt(t: Node<int>)
    requires t == Node([], None, true, [Leaf("x", 0)])
    ensures PutBelow(t, "xab", 1).0
         == Node([], None, true, [Node("x", Some(0), true, [Leaf("ab", 1)])])
  {
    assert Find(t.children, 'x') == 0;
    assert Agree("x", "xab") == 1 && "xab"[1..] == "ab";
  }

  lemma XacBuilt(t: Node<int>)
    requires t == Node([], None, true, [Node("x", Some(0), true, [Leaf("ab", 1)])])
    ensures PutBelow(t, "xac", 2).0 == XaFork()
  {
    var x := t.children[0];
    assert Find(t.children, 'x') == 0;
    assert Agree("x", "xac") == 1 && "xac"[1..] == "ac";
    XaAc(x);
  }

  lemma XaAc(x: Node<int>)
    requires x == Node("x", Some(0), true, [Leaf("ab", 1)])
    ensures PutBelow(x, "ac", 2).0 == XaFork().children[0]
  {
    assert Find(x.children, 'a') == 0;
    assert Agree("ab", "ac") == 1;
    XaCommon();
    assert RemoveAt(x.children, 0) == [];
  }

  lemma XaCommon()
    ensures var rest := Leaf("ab", 1).(edge := "ab"[1..]);
            var common := Node("ab"[..1], None, true, Insert([rest], Leaf("ac"[1..], 2)));
            && common == XaFork().children[0].children[0]
            && Insert([], common) == [common]
  {
    assert "ab"[..1] == "a" && "ab"[1..] == "b" && "ac"[1..] == "c";
    assert Slot([Leaf("b", 1)], 'c') == 1;
  }

  lemma XaForkBuilt()
    ensures Put(Put(Put(New<int>(), "x", 0).0, "xab", 1).0, "xac", 2).0 == XaFork()
  {
    var t1 := Put(New<int>(), "x", 0).0;
    assert t1 == Node([], None, true, [Leaf("x", 0)]);
    XabBuilt(t1);
    var t2 := Put(t1, "xab", 1).0;
    XacBuilt(t2);
  }

  lemma XaBest()
    ensures BestFrom(XaFork(), "xa", 0) == Match("xa", None)
  {
    var t := XaFork();
    var x := t.children[0];
    assert Find(t.children, 'x') == 0 && "xa"[0..1] == "x";
    assert Find(x.children, 'a') == 0 && "xa"[1..2] == "a";
    assert "xa"[..2] == "xa";
  }

  lemma XaBelow()
    ensures BestBelow(XaFork(), "xa", 0, NoMatch) == Match("x", Some(0))
  {
    var t := XaFork();
    var x := t.children[0];
    assert Find(t.children, 'x') == 0 && "xa"[0..1] == "x";
    assert Find(x.children, 'a') == 0 && "xa"[1..2] == "a";
    assert "xa"[..1] == "x";
  }

  /** Line 151 as written: "xa" ends on the valueless node "a", and
      `getBestMatch("xa")` returns its null value although "x" is
      stored. */
  lemma BestMatchNullValue()
    ensures var t := Put(Put(Put(New<int>(), "x", 0).0, "xab", 1).0, "xac", 2).0;
            && Abs(t) == map["x" := 0, "xab" := 1, "xac" := 2]
            && BestMatch(t, "xa") == Match("xa", None)
  {
    XaForkBuilt();
    XaBest();
  }

  /** Corrected, the same call falls back to "x" and its value. */
  lemma BestMatchNullValueCorrected()
    ensures var t := Put(Put(Put(New<int>(), "x", 0).0, "xab", 1).0, "xac", 2).0;
            BestMatchCorrected(t, "xa") == Match("x", Some(0))
  {
    XaForkBuilt();
    XaBelow();
  }

  /** The trie after `put("ab", 1)` and `put("ac", 2)`: a valueless "a"
      above "b" and "c". */
  function AbAc(): Node<int>
  {
    Node([], None, true, [Node("a", None, true, [Leaf("b", 1), Leaf("c", 2)])])
  }

  lemma AbAcBuilt()
    ensures Put(Put(New<int>(), "ab", 1).0, "ac", 2).0 == AbAc()
  {
    var t1 := Node([], None, true, [Leaf("ab", 1)]);
    assert Put(New<int>(), "ab", 1).0 == t1;
    SplitAc(t1);
  }

  lemma SplitAc(t1: Node<int>)
    requires t1 == Node([], None, true, [Leaf("ab", 1)])
    ensures PutBelow(t1, "ac", 2).0 == AbAc()
  {
    assert Find(t1.children, 'a') == 0;
    assert Agree("ab", "ac") == 1;
    assert "ab"[..1] == "a" && "ab"[1..] == "b" && "ac"[1..] == "c";
    var common := AbAc().children[0];
    assert Insert([Leaf("b", 1)], Leaf("c", 2)) == common.children by {
      assert Slot([Leaf("b", 1)], 'c') == 1;
    }
    assert RemoveAt(t1.children, 0) == [];
    assert Insert([], common) == [common];
  }

  /** After `remove("ab")` and `remove("ac")` the node "a" stays, with an
      empty child list. */
  function Stub(): Node<int>
  {
    Node([], None, true, [Node("a", None, true, [])])
  }

  lemma StubBuilt()
    ensures Remove(Remove(AbAc(), "ab").0, "ac").0 == Stub()
  {
    var t1 := Node([], None, true, [Node("a", None, true, [Leaf("c", 2)])]);
    DropAb(AbAc());
    DropAc(t1);
  }

  lemma DropAb(t: Node<int>)
    requires t == AbAc()
    ensures RemoveBelow(t, "ab", Descend).0
         == Node([], None, true, [Node("a", None, true, [Leaf("c", 2)])])
  {
    var a := t.children[0];
    assert Find(t.children, 'a') == 0;
    assert "ab"[..1] == "a" && "ab"[1..] == "b";
    assert Find(a.children, 'b') == 0;
    assert Unlink(a.children, 0) == [Leaf("c", 2)];
    assert RemoveBelow(a, "b", Descend).0 == a.(children := [Leaf("c", 2)]);
  }

  lemma DropAc(t: Node<int>)
    requires t == Node([], None, true, [Node("a", None, true, [Leaf("c", 2)])])
    ensures RemoveBelow(t, "ac", Descend).0 == Stub()
  {
    var a := t.children[0];
    assert Find(t.children, 'a') == 0;
    assert "ac"[..1] == "a" && "ac"[1..] == "c";
    assert Find(a.children, 'c') == 0;
    assert Unlink(a.children, 0) == [];
    assert RemoveBelow(a, "c", Descend).0 == a.(children := []);
  }

  lemma EmptiedMap(t0: Node<int>)
    requires Trie(t0) && Abs(t0) == map["ab" := 1, "ac" := 2]
    ensures Abs(Remove(Remove(t0, "ab").0, "ac").0) == map[]
  {
    var t1 := Remove(t0, "ab").0;
    assert Abs(t1) == map["ac" := 2];
  }

  lemma EmptiedNotEmpty()
    ensures var t := Remove(Remove(Put(Put(New<int>(), "ab", 1).0, "ac", 2).0, "ab").0, "ac").0;
            Abs(t) == map[] && Size(t) == 0 && !IsEmpty(t)
  {
    AbAcBuilt();
    StubBuilt();
    var t0 := Put(Put(New<int>(), "ab", 1).0, "ac", 2).0;
    assert Abs(t0) == map["ab" := 1, "ac" := 2];
    EmptiedMap(t0);
    SizeIsCount(Stub());
  }

  /** `isEmpty()` as evidently intended: the map has no entries. */
  function IsEmptyCorrected<T>(t: Node<T>): (r: bool)
    requires Trie(t)
    ensures r <==> Abs(t) == map[]
    ensures IsEmpty(t) ==> r
  {
    SizeIsCount(t);
    Size(t) == 0
  }

  // ---------------------------------------------------------------------
  // Two scenarios of the repository's tests
  // ---------------------------------------------------------------------

  /** The chain "a" (1), "b" (2), "c" (3), "def" (4) below the root. */
  function Chain(): Node<int>
  {
    Node([], None, true, [Node("a", Some(1), true, [Node("b", Some(2), true,
      [Node("c", Some(3), true, [Leaf("def", 4)])])])])
  }

  lemma ChainAb(t: Node<int>)
    requires t == Node([], None, true, [Leaf("a", 1)])
    ensures PutBelow(t, "ab", 2).0
         == Node([], None, true, [Node("a", Some(1), true, [Leaf("b", 2)])])
  {
    assert Find(t.children, 'a') == 0;
    assert Agree("a", "ab") == 1 && "ab"[1..] == "b";
    assert PutBelow(t.children[0], "b", 2).0 == Node("a", Some(1), true, [Leaf("b", 2)]);
  }

  lemma ChainAbc(t: Node<int>)
    requires t == Node([], None, true, [Node("a", Some(1), true, [Leaf("b", 2)])])
    ensures PutBelow(t, "abc", 3).0
         == Node([], None, true, [Node("a", Some(1), true,
              [Node("b", Some(2), true, [Leaf("c", 3)])])])
  {
    var a := t.children[0];
    assert Find(t.children, 'a') == 0;
    assert Agree("a", "abc") == 1 && "abc"[1..] == "bc";
    assert Find(a.children, 'b') == 0;
    assert Agree("b", "bc") == 1 && "bc"[1..] == "c";
    var b' := Node("b", Some(2), true, [Leaf("c", 3)]);
    assert PutBelow(a.children[0], "c", 3).0 == b';
    assert PutBelow(a, "bc", 3).0 == a.(children := [b']);
  }

  lemma ChainAbcdef(t: Node<int>)
    requires t == Node([], None, true, [Node("a", Some(1), true,
                   [Node("b", Some(2), true, [Leaf("c", 3)])])])
    ensures PutBelow(t, "abcdef", 4).0 == Chain()
  {
    var a := t.children[0];
    var b := a.children[0];
    assert Find(t.children, 'a') == 0;
    assert Agree("a", "abcdef") == 1 && "abcdef"[1..] == "bcdef";
    assert Find(a.children, 'b') == 0;
    assert Agree("b", "bcdef") == 1 && "bcdef"[1..] == "cdef";
    assert Find(b.children, 'c') == 0;
    assert Agree("c", "cdef") == 1 && "cdef"[1..] == "def";
    var c' := Node("c", Some(3), true, [Leaf("def", 4)]);
    assert PutBelow(b.children[0], "def", 4).0 == c';
    var b' := b.(children := [c']);
    assert PutBelow(b, "cdef", 4).0 == b';
    assert PutBelow(a, "bcdef", 4).0 == a.(children := [b']);
  }

  lemma ChainBuilt()
    ensures Put(Put(Put(Put(New<int>(), "a", 1).0, "ab", 2).0, "abc", 3).0, "abcdef", 4).0
         == Chain()
  {
    JustABuilt();
    var t1 := Put(New<int>(), "a", 1).0;
    ChainAb(t1);
    var t2 := Put(t1, "ab", 2).0;
    ChainAbc(t2);
    var t3 := Put(t2, "abc", 3).0;
    ChainAbcdef(t3);
  }

  lemma ChainBest()
    ensures BestFrom(Chain(), "abcde", 0) == Match("abc", Some(3))
  {
    var t := Chain();
    var a := t.children[0];
    var b := a.children[0];
    var c := b.children[0];
    assert Find(t.children, 'a') == 0 && "abcde"[0..1] == "a";
    assert Find(a.children, 'b') == 0 && "abcde"[1..2] == "b";
    assert Find(b.children, 'c') == 0 && "abcde"[2..3] == "c";
    assert Find(c.children, 'd') == 0;
    assert "abcde"[..3] == "abc";
  }

  /** `testBestMatch`: with "a", "ab", "abc" and "abcdef" stored, the best
      match of "abcde" is "abc" with its value. */
  lemma TestBestMatch()
    ensures var t := Put(Put(Put(Put(New<int>(), "a", 1).0, "ab", 2).0, "abc", 3).0, "abcdef", 4).0;
            BestMatch(t, "abcde") == Match("abc", Some(3))
  {
    ChainBuilt();
    ChainBest();
  }

  /** "ab" (1) above "c" (4), which holds "d" (2) and "e" (3). */
  function Fork(): Node<int>
  {
    Node([], None, true, [Node("ab", Some(1), true,
      [Node("c", Some(4), true, [Leaf("d", 2), Leaf("e", 3)])])])
  }

  lemma ForkAbcd(t: Node<int>)
    requires t == Node([], None, true, [Leaf("ab", 1)])
    ensures PutBelow(t, "abcd", 2).0
         == Node([], None, true, [Node("ab", Some(1), true, [Leaf("cd", 2)])])
  {
    assert Find(t.children, 'a') == 0;
    assert Agree("ab", "abcd") == 2 && "abcd"[2..] == "cd";
    assert PutBelow(t.children[0], "cd", 2).0 == Node("ab", Some(1), true, [Leaf("cd", 2)]);
  }

  lemma ForkAbce(t: Node<int>)
    requires t == Node([], None, true, [Node("ab", Some(1), true, [Leaf("cd", 2)])])
    ensures PutBelow(t, "abce", 3).0
         == Node([], None, true, [Node("ab", Some(1), true,
              [Node("c", None, true, [Leaf("d", 2), Leaf("e", 3)])])])
  {
    var ab := t.children[0];
    assert Find(t.children, 'a') == 0;
    assert Agree("ab", "abce") == 2 && "abce"[2..] == "ce";
    ForkCe(ab);
  }

  lemma ForkCe(ab: Node<int>)
    requires ab == Node("ab", Some(1), true, [Leaf("cd", 2)])
    ensures PutBelow(ab, "ce", 3).0
         == Node("ab", Some(1), true, [Node("c", None, true, [Leaf("d", 2), Leaf("e", 3)])])
  {
    var cand := Leaf("cd", 2);
    assert Find(ab.children, 'c') == 0;
    assert Agree("cd", "ce") == 1;
    var rest := cand.(edge := "cd"[1..]);
    assert rest == Leaf("d", 2);
    var common := Node("cd"[..1], None, true, Insert([rest], Leaf("ce"[1..], 3)));
    assert common == Node("c", None, true, [Leaf("d", 2), Leaf("e", 3)]) by {
      assert "cd"[..1] == "c" && "ce"[1..] == "e";
      assert Slot([Leaf("d", 2)], 'e') == 1;
    }
    assert Insert(RemoveAt(ab.children, 0), common) == [common] by {
      assert RemoveAt(ab.children, 0) == [];
    }
  }

  lemma ForkAbc(t: Node<int>)
    requires t == Node([], None, true, [Node("ab", Some(1), true,
                   [Node("c", None, true, [Leaf("d", 2), Leaf("e", 3)])])])
    ensures PutBelow(t, "abc", 4).0 == Fork()
  {
    var ab := t.children[0];
    assert Find(t.children, 'a') == 0;
    assert Agree("ab", "abc") == 2 && "abc"[2..] == "c";
    assert Find(ab.children, 'c') == 0;
    assert Agree("c", "c") == 1;
    assert PutBelow(ab, "c", 4).0 == Fork().children[0];
  }

  lemma ForkBuilt()
    ensures Put(Put(Put(Put(New<int>(), "ab", 1).0, "abcd", 2).0, "abce", 3).0, "abc", 4).0
         == Fork()
  {
    var t1 := Put(New<int>(), "ab", 1).0;
    assert t1 == Node([], None, true, [Leaf("ab", 1)]);
    ForkAbcd(t1);
    var t2 := Put(t1, "abcd", 2).0;
    ForkAbce(t2);
    var t3 := Put(t2, "abce", 3).0;
    ForkAbc(t3);
  }

  lemma ForkDepth()
    ensures Depth(Fork()) == 4
  {
    var c := Fork().children[0].children[0];
    assert Depth(c.children[0]) == 1 && Depth(c.children[1]) == 1;
    assert Depth(c) == 2;
  }

  /** `test2`: after storing "ab", "abcd", "abce" and "abc" the map holds
      the four entries and `getDepth()` is 4. */
  lemma TestDepth()
    ensures var t := Put(Put(Put(Put(New<int>(), "ab", 1).0, "abcd", 2).0, "abce", 3).0, "abc", 4).0;
            && Abs(t) == map["ab" := 1, "abcd" := 2, "abce" := 3, "abc" := 4]
            && Depth(t) == 4
  {
    ForkBuilt();
    ForkDepth();
  }
}
