/** The keyword trie on the heap: nodes with a map of children, updated in place. */
module TrieHeap {
  import opened Keywords
  import opened Whitelist

  class Node {
    var children: map<Rune, Node>
    var end: bool

    constructor ()
      ensures children == map[] && !end
    {
      children := map[];
      end := false;
    }
  }

  // -------------------------------------------------------------------------------- Shape

  ghost function Extend(p: Word, c: Rune): (q: Word)
    ensures q != [] && Parent(q) == p && Last(q) == c && p <= q && |q| == |p| + 1
  {
    p + [c]
  }

  ghost function Parent(q: Word): Word
    requires q != []
  {
    q[..|q| - 1]
  }

  ghost function Last(q: Word): Rune
    requires q != []
  {
    q[|q| - 1]
  }

  // The node of every path from the root, and its children.
  type Nodes = map<Word, Node>
  type Kids = map<Word, map<Rune, Node>>

  // The children of a node are the nodes of the paths one rune longer.
  ghost predicate Down(nodes: Nodes, kids: Kids, p: Word)
    requires p in kids
  {
    forall c :: c in kids[p] ==> Extend(p, c) in nodes && kids[p][c] == nodes[Extend(p, c)]
  }

  ghost predicate Up(kids: Kids, q: Word)
    requires q != []
  {
    Parent(q) in kids && Last(q) in kids[Parent(q)]
  }

  /** The nodes form a tree: every path but the empty one leads on from its parent, and no two
      paths share a node. */
  ghost predicate Shape(root: Node, nodes: Nodes, kids: Kids) {
    && nodes.Keys == kids.Keys && [] in nodes && nodes[[]] == root
    && (forall p, q :: p in nodes && q in nodes && nodes[p] == nodes[q] ==> p == q)
    && (forall p {:trigger Down(nodes, kids, p)} :: p in kids ==> Down(nodes, kids, p))
    && (forall q {:trigger Up(kids, q)} :: q in kids && q != [] ==> Up(kids, q))
  }

  lemma ShapeChildIff(root: Node, nodes: Nodes, kids: Kids, p: Word, c: Rune)
    requires Shape(root, nodes, kids) && p in nodes
    ensures Extend(p, c) in nodes <==> c in kids[p]
    ensures c in kids[p] ==> kids[p][c] == nodes[Extend(p, c)]
  {
    assert Down(nodes, kids, p);
    if Extend(p, c) in nodes {
      assert Up(kids, Extend(p, c));
    }
  }

  lemma {:induction false} ShapePrefix(root: Node, nodes: Nodes, kids: Kids, p: Word, k: nat)
    requires Shape(root, nodes, kids) && p in nodes && k <= |p|
    ensures p[..k] in nodes
    decreases |p| - k
  {
    if k == |p| {
      assert p[..k] == p;
    } else {
      ShapePrefix(root, nodes, kids, p, k + 1);
      assert Up(kids, p[..k + 1]);
      assert Parent(p[..k + 1]) == p[..k];
    }
  }

  // Storing a new node under p.
  lemma ShapeStore(root: Node, nodes: Nodes, kids: Kids, p: Word, c: Rune, child: Node)
    requires Shape(root, nodes, kids) && p in nodes && Extend(p, c) !in nodes && child !in nodes.Values
    ensures Shape(root, nodes[Extend(p, c) := child], kids[p := kids[p][c := child]][Extend(p, c) := map[]])
  {
    var q := Extend(p, c);
    var nodes', kids' := nodes[q := child], kids[p := kids[p][c := child]][q := map[]];
    forall r | r in kids' ensures Down(nodes', kids', r) {
      if r != q {
        assert Down(nodes, kids, r);
      }
    }
    forall r | r in kids' && r != [] ensures Up(kids', r) {
      if r != q {
        assert Up(kids, r);
      }
    }
  }

  ghost function Without<T>(m: map<Word, T>, q: Word): map<Word, T> {
    map r | r in m && !(q <= r) :: m[r]
  }

  lemma WithoutLonger<T>(m: map<Word, T>, chars: Word, index: nat)
    requires index + 2 <= |chars|
    ensures Without(Without(m, chars[..index + 2]), chars[..index + 1]) == Without(m, chars[..index + 1])
  {
    assert chars[..index + 1] <= chars[..index + 2];
  }

  lemma BelowChild(q: Word, r: Word, x: Rune)
    requires q <= Extend(r, x)
    ensures q <= r || q == Extend(r, x)
  {
    assert |q| == |r| + 1 ==> q == Extend(r, x);
  }

  // Removing the edge from p by c, and with it everything below.
  lemma ShapeRemove(root: Node, nodes: Nodes, kids: Kids, p: Word, c: Rune)
    requires Shape(root, nodes, kids) && p in nodes && Extend(p, c) in nodes
    ensures Shape(root, Without(nodes, Extend(p, c)), Without(kids, Extend(p, c))[p := kids[p] - {c}])
  {
    var q := Extend(p, c);
    var nodes', kids' := Without(nodes, q), Without(kids, q)[p := kids[p] - {c}];
    forall r | r in kids' ensures Down(nodes', kids', r) {
      assert Down(nodes, kids, r);
      forall x | x in kids'[r] ensures !(q <= Extend(r, x)) {
        if q <= Extend(r, x) {
          BelowChild(q, r, x);
        }
      }
    }
    forall r | r in kids' && r != [] ensures Up(kids', r) {
      assert Up(kids, r);
      assert q <= Parent(r) ==> q <= r;
    }
  }

  class Trie {
    const root: Node
    var checkWhitelist: bool
    var whitePrefix: Trie?
    var whiteSuffix: Trie?

    ghost var nodes: Nodes
    ghost var repr: set<Node>

    ghost predicate Owned()
      reads this`nodes, this`repr
    {
      forall p :: p in nodes ==> nodes[p] in repr
    }

    ghost function Kids(): Kids
      requires Owned()
      reads this`nodes, this`repr, repr`children
    {
      map p | p in nodes :: nodes[p].children
    }

    ghost predicate Linked()
      reads this`nodes, this`repr, repr`children
    {
      Owned() && Shape(root, nodes, Kids())
    }

    // The stored keywords.
    ghost function Words(): set<Word>
      reads this`nodes, this`repr, repr`end
    {
      set w | w in nodes && nodes[w] in repr && nodes[w].end
    }

    /** Every node other than the root has the end of a keyword at or below it. */
    ghost predicate Valid()
      reads this`nodes, this`repr, repr
    {
      Linked() && [] !in Words() && forall p {:trigger Leads(p)} :: p in nodes ==> Leads(p)
    }

    // There is the end of a keyword at the node of path p or below it.
    ghost predicate Leads(p: Word)
      reads this`nodes, this`repr, repr`end
    {
      IsPath(Words(), p)
    }

    constructor ()
      ensures Valid() && Words() == {} && !checkWhitelist && fresh(repr)
    {
      var n := new Node();
      root := n;
      checkWhitelist, whitePrefix, whiteSuffix := false, null, null;
      nodes := map[[] := n];
      repr := {n};
    }

    lemma PathsLead()
      requires Valid()
      ensures forall p :: p in nodes.Keys ==> IsPath(Words(), p)
    {
      forall p | p in nodes.Keys ensures IsPath(Words(), p) {
        assert Leads(p);
      }
    }

    /** A node has a child for exactly the runes that continue its path towards a keyword. */
    lemma ChildIff(p: Word, c: Rune)
      requires Valid() && p in nodes
      ensures c in nodes[p].children <==> IsPath(Words(), p + [c])
      ensures c in nodes[p].children ==> p + [c] in nodes && nodes[p].children[c] == nodes[p + [c]]
    {
      assert Extend(p, c) == p + [c];
      ShapeChildIff(root, nodes, Kids(), p, c);
      assert Leads(p + [c]) == IsPath(Words(), p + [c]);
      if IsPath(Words(), p + [c]) {
        var w :| w in Words() && p + [c] <= w;
        ShapePrefix(root, nodes, Kids(), w, |p| + 1);
        assert w[..|p| + 1] == p + [c];
      }
    }

    // -------------------------------------------------------------------------------- Add

    // Makes a new node the child for the rune c of the node of path p.
    method LinkChild(node: Node, c: Rune, child: Node, ghost p: Word)
      requires Linked() && p in nodes && nodes[p] == node && c !in node.children
      requires child !in repr && child.children == map[] && !child.end
      modifies this`nodes, this`repr, node`children
      ensures Linked() && repr == old(repr) + {child}
      ensures nodes == old(nodes)[Extend(p, c) := child] && Extend(p, c) !in old(nodes)
      ensures Words() == old(Words())
    {
      ShapeChildIff(root, nodes, Kids(), p, c);
      ShapeStore(root, nodes, Kids(), p, c, child);
      node.children := node.children[c := child];
      nodes := nodes[Extend(p, c) := child];
      repr := repr + {child};
      assert Kids() == old(Kids())[p := old(node.children)[c := child]][Extend(p, c) := map[]];
    }

    // node.Node.LoadOrStore(char, NewTrieNode()) on the node of path p.
    method LoadOrStore(node: Node, c: Rune, ghost p: Word) returns (child: Node)
      requires Linked() && p in nodes && nodes[p] == node
      modifies this`nodes, this`repr, node`children
      ensures Linked() && Extend(p, c) in nodes && child == nodes[Extend(p, c)]
      ensures nodes.Keys == old(nodes.Keys) + {Extend(p, c)}
      ensures forall q :: q in old(nodes) ==> nodes[q] == old(nodes[q])
      ensures fresh(repr - old(repr)) && old(repr) <= repr && Words() == old(Words())
    {
      if c in node.children {
        ShapeChildIff(root, nodes, Kids(), p, c);
        child := node.children[c];
      } else {
        child := new Node();
        LinkChild(node, c, child, p);
      }
    }

    // node.End = true on the node of path p.
    method SetEnd(node: Node, ghost p: Word)
      requires Linked() && p in nodes && nodes[p] == node && p != []
      modifies node`end
      ensures Linked() && Words() == old(Words()) + {p}
    {
      node.end := true;
    }

    // While calls of Add are unfinished, nodes of prefixes of their keywords may exist without a
    // keyword at or below them.  `words` and `paths` are what was there before.
    ghost predicate Grown(words: set<Word>, paths: set<Word>, adding: set<Word>)
      reads this`nodes
    {
      && [] !in words && [] !in adding
      && (forall p :: p in paths ==> IsPath(words, p))
      && (forall q :: q in nodes.Keys ==> q in paths || IsPath(adding, q))
    }

    // Once the keywords are stored, every node is on the path of one.
    lemma GrownIsValid(words: set<Word>, paths: set<Word>, adding: set<Word>)
      requires Linked() && Grown(words, paths, adding) && Words() == words + adding
      ensures Valid()
    {
      forall p | p in nodes ensures Leads(p) {
        assert IsPath(words, p) || IsPath(adding, p);
      }
    }

    lemma PrefixIsPath(keyword: Word, i: nat)
      requires i < |keyword|
      ensures Extend(keyword[..i], keyword[i]) == keyword[..i + 1] && IsPath({keyword}, keyword[..i + 1])
    {
      assert keyword in {keyword} && keyword[..i + 1] <= keyword;
    }

    /** Add: a keyword that is not empty is stored beside the old ones, and every node still leads to the
        end of a keyword. */
    method Add(keyword: Word)
      requires Valid()
      modifies this`nodes, this`repr, repr
      ensures Valid() && fresh(repr - old(repr))
      ensures Words() == old(Words()) + (if keyword == [] then {} else {keyword})
    {
      RootNode();
      hide Shape;
      if |keyword| == 0 {
        return;
      }
      ghost var words, paths := Words(), nodes.Keys;
      PathsLead();
      var node := root;
      assert keyword[..0] == [];
      for i := 0 to |keyword|
        invariant Linked() && Grown(words, paths, {keyword}) && Words() == words && fresh(repr - old(repr))
        invariant keyword[..i] in nodes && node == nodes[keyword[..i]]
      {
        PrefixIsPath(keyword, i);
        node := LoadOrStore(node, keyword[i], keyword[..i]);
      }
      assert keyword[..|keyword|] == keyword;
      SetEnd(node, keyword);
      GrownIsValid(words, paths, {keyword});
    }

    // -------------------------------------------------------------------------------- Del

    lemma NoneBelow(chars: Word, index: nat)
      requires Linked() && index < |chars| && chars[..index + 1] !in nodes
      ensures !SomePrefixStored(Words(), chars, index)
    {
      forall k | index < k <= |chars| ensures chars[..k] !in nodes {
        assert chars[..k][..index + 1] == chars[..index + 1];
        if chars[..k] in nodes {
          ShapePrefix(root, nodes, Kids(), chars[..k], index + 1);
        }
      }
    }

    // cycleDel on the node of the first `index` runes.
    method CycleDel(node: Node, chars: Word, index: nat) returns (shouldDel: bool)
      requires Linked() && index < |chars| && chars[..index] in nodes && node == nodes[chars[..index]]
      modifies this`nodes, repr`children
      ensures Linked()
      ensures shouldDel <==> SomePrefixStored(old(Words()), chars, index)
      ensures nodes == if shouldDel then Without(old(nodes), chars[..index + 1]) else old(nodes)
      decreases |chars| - index
    {
      var c := chars[index];
      ghost var p, q := chars[..index], chars[..index + 1];
      assert Extend(p, c) == q;
      ShapeChildIff(root, nodes, Kids(), p, c);
      PrefixStoredStep(Words(), chars, index);
      shouldDel := false;
      if c in node.children {
        var nodeChar := node.children[c];
        if index + 1 < |chars| && !nodeChar.end {
          shouldDel := CycleDel(nodeChar, chars, index + 1);
          if shouldDel {
            WithoutLonger(old(nodes), chars, index);
            DropChild(node, c, p);
          }
        } else if nodeChar.end {
          shouldDel := true;
          DropChild(node, c, p);
        }
      } else {
        NoneBelow(chars, index);
      }
    }

    method DropChild(node: Node, c: Rune, ghost p: Word)
      requires Linked() && p in nodes && nodes[p] == node && Extend(p, c) in nodes
      modifies this`nodes, node`children
      ensures Linked() && nodes == Without(old(nodes), Extend(p, c))
    {
      ghost var q := Extend(p, c);
      ShapeRemove(root, nodes, Kids(), p, c);
      node.children := node.children - {c};
      nodes := Without(nodes, q);
      assert Kids() == Without(old(Kids()), q)[p := old(node.children) - {c}];
    }

    lemma DeletedIsValid(words: set<Word>, paths: set<Word>, keyword: Word)
      requires Linked() && [] !in words && Words() == Deleted(words, keyword) && nodes.Keys <= paths
      requires forall p :: p in paths ==> IsPath(words, p)
      requires SomePrefixStored(words, keyword, 0) ==> forall p :: p in nodes.Keys ==> !(keyword[..1] <= p)
      ensures Valid()
    {
      forall p | p in nodes ensures Leads(p) {
        DeletedKeepsPaths(words, keyword, p);
      }
    }

    /** Del: when a prefix of the argument is stored, everything that starts with its first rune is gone;
        otherwise nothing changes. */
    method Del(keyword: Word)
      requires Valid()
      modifies this`nodes, repr`children
      ensures Valid() && Words() == Deleted(old(Words()), keyword)
      ensures forall w :: w in Words() <==> (w in old(Words()) &&
        !(w != [] && keyword != [] && w[0] == keyword[0] && SomePrefixStored(old(Words()), keyword, 0)))
    {
      RootNode();
      hide Shape;
      if |keyword| == 0 {
        return;
      }
      assert keyword[..0] == [];
      ghost var words, paths := Words(), nodes.Keys;
      PathsLead();
      var _ := CycleDel(root, keyword, 0);
      assert Words() == Deleted(words, keyword);
      DeletedIs(words, keyword);
      DeletedIsValid(words, paths, keyword);
    }

    // -------------------------------------------------------------------------------- Concurrent Add

    // The keywords of the calls that have returned: `done` counts the steps of each call.
    static ghost function Added(keywords: seq<Word>, done: seq<nat>): set<Word>
      requires |done| == |keywords|
    {
      set i | 0 <= i < |keywords| && keywords[i] != [] && done[i] == |keywords[i]| + 1 :: keywords[i]
    }

    static ghost function StepsLeft(keywords: seq<Word>, done: seq<nat>): int
      requires |done| == |keywords|
    {
      if keywords == [] then 0 else |keywords[0]| + 1 - done[0] + StepsLeft(keywords[1..], done[1..])
    }

    static lemma {:induction false} StepsLeftShrinks(keywords: seq<Word>, done: seq<nat>, i: nat)
      requires |done| == |keywords| && i < |keywords|
      requires forall j :: 0 <= j < |keywords| ==> done[j] <= |keywords[j]| + 1
      ensures 0 <= StepsLeft(keywords, done)
      ensures StepsLeft(keywords, done[i := done[i] + 1]) == StepsLeft(keywords, done) - 1
    {
      var done' := done[i := done[i] + 1];
      if i == 0 {
        assert done'[1..] == done[1..];
        if |keywords| > 1 {
          StepsLeftShrinks(keywords[1..], done[1..], 0);
        }
      } else {
        assert done'[1..] == done[1..][i - 1 := done[i] + 1];
        StepsLeftShrinks(keywords[1..], done[1..], i - 1);
      }
    }

    static lemma AddedInTheEnd(keywords: seq<Word>, done: seq<nat>)
      requires |done| == |keywords| && forall i :: 0 <= i < |keywords| ==> done[i] == |keywords[i]| + 1
      ensures Added(keywords, done) == set k | k in keywords && k != []
    {
    }

    static lemma AddedStep(keywords: seq<Word>, done: seq<nat>, i: nat)
      requires |done| == |keywords| && i < |keywords| && keywords[i] != [] && done[i] <= |keywords[i]|
      ensures Added(keywords, done[i := done[i] + 1])
        == Added(keywords, done) + (if done[i] == |keywords[i]| then {keywords[i]} else {})
    {
      var done' := done[i := done[i] + 1];
      forall w | w in Added(keywords, done) ensures w in Added(keywords, done') {
        var j :| 0 <= j < |keywords| && keywords[j] != [] && done[j] == |keywords[j]| + 1 && keywords[j] == w;
        assert done'[j] == |keywords[j]| + 1;
      }
      if done[i] == |keywords[i]| {
        assert done'[i] == |keywords[i]| + 1;
      }
    }

    // One step of a call of Add that stands at the node of the first `done` runes.
    method AddStep(keyword: Word, node: Node, done: nat) returns (node': Node)
      requires Linked() && keyword != [] && done <= |keyword|
      requires keyword[..done] in nodes && nodes[keyword[..done]] == node
      modifies this`nodes, this`repr, repr
      ensures Linked() && fresh(repr - old(repr)) && old(repr) <= repr
      ensures Words() == old(Words()) + (if done == |keyword| then {keyword} else {})
      ensures forall q :: q in old(nodes) ==> q in nodes && nodes[q] == old(nodes[q])
      ensures forall q :: q in nodes ==> q in old(nodes) || IsPath({keyword}, q)
      ensures done < |keyword| ==> keyword[..done + 1] in nodes && nodes[keyword[..done + 1]] == node'
    {
      node' := node;
      if done < |keyword| {
        PrefixIsPath(keyword, done);
        node' := LoadOrStore(node, keyword[done], keyword[..done]);
      } else {
        assert keyword[..|keyword|] == keyword;
        SetEnd(node, keyword);
      }
    }

    // Where the unfinished calls stand.
    ghost predicate Callers(keywords: seq<Word>, at: seq<Node>, done: seq<nat>)
      reads this`nodes
    {
      && |at| == |done| == |keywords|
      && (forall i :: 0 <= i < |keywords| ==> done[i] <= |keywords[i]| + 1)
      && (forall i :: 0 <= i < |keywords| && done[i] <= |keywords[i]| ==>
            keywords[i] != [] && AtNode(at[i], keywords[i][..done[i]]))
    }

    ghost predicate AtNode(node: Node, p: Word)
      reads this`nodes
    {
      p in nodes && nodes[p] == node
    }

    // A step of one caller leaves the others where they are.
    lemma OthersStay(keywords: seq<Word>, at: seq<Node>, done: seq<nat>, i: nat, node: Node, before: Nodes)
      requires |at| == |done| == |keywords| && i < |keywords| && done[i] <= |keywords[i]| && keywords[i] != []
      requires forall j :: 0 <= j < |keywords| ==> done[j] <= |keywords[j]| + 1
      requires forall j :: 0 <= j < |keywords| && done[j] <= |keywords[j]| ==>
        keywords[j] != [] && keywords[j][..done[j]] in before && before[keywords[j][..done[j]]] == at[j]
      requires forall q :: q in before ==> q in nodes && nodes[q] == before[q]
      requires done[i] < |keywords[i]| ==> AtNode(node, keywords[i][..done[i] + 1])
      ensures Callers(keywords, at[i := node], done[i := done[i] + 1])
    {
    }

    // One turn of the scheduler: some caller that has not returned takes a step.
    method Turn(keywords: seq<Word>, at: seq<Node>, done: seq<nat>, ghost words: set<Word>, ghost adding: set<Word>)
      returns (at': seq<Node>, done': seq<nat>)
      requires Linked() && Callers(keywords, at, done) && adding == set k | k in keywords && k != []
      requires Words() == words + Added(keywords, done)
      requires exists i :: 0 <= i < |keywords| && done[i] <= |keywords[i]|
      modifies this`nodes, this`repr, repr
      ensures Linked() && Callers(keywords, at', done') && fresh(repr - old(repr))
      ensures forall q :: q in nodes.Keys ==> q in old(nodes.Keys) || IsPath(adding, q)
      ensures Words() == words + Added(keywords, done')
      ensures 0 <= StepsLeft(keywords, done') + 1 == StepsLeft(keywords, done)
    {
      hide Shape;
      var i :| 0 <= i < |keywords| && done[i] <= |keywords[i]|;
      assert AtNode(at[i], keywords[i][..done[i]]);
      ghost var before := nodes;
      var node := AddStep(keywords[i], at[i], done[i]);
      StepsLeftShrinks(keywords, done, i);
      AddedStep(keywords, done, i);
      assert keywords[i] in adding;
      OthersStay(keywords, at, done, i, node, before);
      at', done' := at[i := node], done[i := done[i] + 1];
    }

    lemma CallersAtStart(keywords: seq<Word>, at: seq<Node>, done: seq<nat>)
      requires Linked() && |at| == |done| == |keywords|
      requires forall i :: 0 <= i < |keywords| ==> at[i] == root && done[i] == if keywords[i] == [] then 1 else 0
      ensures Callers(keywords, at, done) && Added(keywords, done) == {}
    {
      forall i | 0 <= i < |keywords| && done[i] <= |keywords[i]|
        ensures keywords[i] != [] && AtNode(at[i], keywords[i][..done[i]])
      {
        assert keywords[i][..done[i]] == [];
      }
    }

    /** Any number of concurrent calls of Add, interleaved in any order at every LoadOrStore and
        every setting of an end. */
    method AddConcurrently(keywords: seq<Word>)
      requires Valid()
      modifies this`nodes, this`repr, repr
      ensures Valid() && Words() == old(Words()) + set k | k in keywords && k != []
    {
      RootNode();
      hide Shape;
      var at: seq<Node> := seq(|keywords|, _ => root);
      var done: seq<nat> := seq(|keywords|, i requires 0 <= i < |keywords| => if keywords[i] == [] then 1 else 0);
      ghost var words, paths, adding := Words(), nodes.Keys, set k | k in keywords && k != [];
      PathsLead();
      CallersAtStart(keywords, at, done);
      while exists i :: 0 <= i < |keywords| && done[i] <= |keywords[i]|
        invariant Linked() && Callers(keywords, at, done)
        invariant Grown(words, paths, adding) && Words() == words + Added(keywords, done)
        invariant fresh(repr - old(repr))
        decreases StepsLeft(keywords, done)
      {
        at, done := Turn(keywords, at, done, words, adding);
      }
      AddedInTheEnd(keywords, done);
      GrownIsValid(words, paths, adding);
    }

    // -------------------------------------------------------------------------------- ReadAll

    // The keywords strictly below the node of path p, through the runes in `via`.
    ghost function Below(p: Word, via: set<Rune>): set<Word>
      reads this`nodes, this`repr, repr`end
    {
      set w | w in Words() && p < w && w[|p|] in via
    }

    ghost function Subtree(p: Word): set<Word>
      reads this`nodes
    {
      set q | q in nodes && p <= q
    }

    lemma SubtreeShrinks(p: Word, c: Rune)
      requires p in nodes
      ensures Subtree(p + [c]) < Subtree(p)
    {
      assert p in Subtree(p) && p !in Subtree(p + [c]);
      forall q | q in Subtree(p + [c]) ensures p <= q {
        assert p <= p + [c];
      }
    }

    /** cycleRead: it appends every keyword below the node once, whatever the order in which the
        children are visited. */
    method CycleRead(node: Node, words: seq<Word>, parentWord: Word) returns (r: seq<Word>)
      requires Valid() && parentWord in nodes && nodes[parentWord] == node
      ensures |words| <= |r| && r[..|words|] == words
      ensures EachOnce(r[|words|..], Below(parentWord, node.children.Keys))
      decreases Subtree(parentWord), 1
    {
      r := words;
      var todo := node.children.Keys;
      ghost var via: set<Rune> := {};
      while exists c :: c in todo
        invariant via + todo == node.children.Keys && via !! todo
        invariant |words| <= |r| && r[..|words|] == words
        invariant EachOnce(r[|words|..], Below(parentWord, via))
        decreases todo
      {
        var c :| c in todo;
        ghost var before := r;
        r := VisitChild(node, c, r, parentWord);
        BelowOneMore(parentWord, via, c);
        assert words + before[|words|..] == before;
        Appended(words, before[|words|..], r, Below(parentWord, via), Below(parentWord, {c}));
        todo := todo - {c};
        via := via + {c};
      }
    }

    // What Range does with one child.
    method VisitChild(node: Node, c: Rune, words: seq<Word>, parentWord: Word) returns (r: seq<Word>)
      requires Valid() && parentWord in nodes && nodes[parentWord] == node && c in node.children
      ensures |words| <= |r| && r[..|words|] == words
      ensures EachOnce(r[|words|..], Below(parentWord, {c}))
      decreases Subtree(parentWord), 0
    {
      ChildIff(parentWord, c);
      BelowChildNode(parentWord, c);
      SubtreeShrinks(parentWord, c);
      var nodeChar := node.children[c];
      var word := parentWord + [c];
      r := words;
      ghost var own: seq<Word> := [];
      if nodeChar.end {
        r := r + [word];
        own := [word];
      }
      r := CycleRead(nodeChar, r, word);
      Appended(words, own, r, if nodeChar.end then {word} else {}, Below(word, nodeChar.children.Keys));
    }

    static lemma Appended(words: seq<Word>, own: seq<Word>, r: seq<Word>, a: set<Word>, b: set<Word>)
      requires |words + own| <= |r| && r[..|words + own|] == words + own
      requires EachOnce(own, a) && EachOnce(r[|words + own|..], b) && a !! b
      ensures r[..|words|] == words && EachOnce(r[|words|..], a + b)
    {
      EachOnceConcat(own, a, r[|words + own|..], b);
      assert r == words + own + r[|words + own|..];
      assert r[|words|..] == own + r[|words + own|..];
    }

    lemma BelowOneMore(p: Word, via: set<Rune>, c: Rune)
      requires c !in via
      ensures Below(p, via + {c}) == Below(p, via) + Below(p, {c}) && Below(p, via) !! Below(p, {c})
    {
    }

    lemma BelowChildNode(p: Word, c: Rune)
      requires Valid() && p in nodes && c in nodes[p].children && p + [c] in nodes
      ensures var q := p + [c];
        Below(p, {c}) == (if nodes[q].end then {q} else {}) + Below(q, nodes[q].children.Keys)
    {
      var q := p + [c];
      forall w | w in Words() && p < w && w[|p|] == c ensures w == q || w in Below(q, nodes[q].children.Keys) {
        assert w[..|q|] == q;
        if |w| > |q| {
          ShapePrefix(root, nodes, Kids(), w, |q| + 1);
          assert w[..|q| + 1] == Extend(q, w[|q|]);
          ShapeChildIff(root, nodes, Kids(), q, w[|q|]);
        }
      }
    }

    /** ReadAll: every stored keyword once, in whatever order the children are visited. */
    method ReadAll() returns (words: seq<Word>)
      requires Valid()
      ensures EachOnce(words, Words())
    {
      words := CycleRead(root, [], []);
      AllBelowRoot();
      assert words[0..] == words;
    }

    lemma AllBelowRoot()
      requires Valid()
      ensures Below([], root.children.Keys) == Words()
    {
      forall w | w in Words() ensures w in Below([], root.children.Keys) {
        ShapePrefix(root, nodes, Kids(), w, 1);
        assert w[..1] == Extend([], w[0]);
        ShapeChildIff(root, nodes, Kids(), [], w[0]);
      }
    }

    // -------------------------------------------------------------------------------- Query

    // How deep the whitelists of this trie are nested, and what they consist of.
    ghost var height: nat
    ghost var whites: set<object>

    ghost predicate Covers(t: Trie)
      reads this`whites, t`repr, t`whites
    {
      t in whites && t.repr <= whites && t.whites <= whites
    }

    /** A trie that checks whitelists has both, and they are ready and nested less deeply. */
    ghost predicate Ready()
      reads this, repr, whites
      decreases height
    {
      && Valid()
      && (checkWhitelist ==>
            && whitePrefix != null && whitePrefix in whites && Covers(whitePrefix)
            && whitePrefix.height < height && whitePrefix.Ready()
            && whiteSuffix != null && whiteSuffix in whites && Covers(whiteSuffix)
            && whiteSuffix.height < height && whiteSuffix.Ready())
    }

    ghost function View(): (d: Dict)
      requires Ready()
      reads this, repr, whites
      ensures d.words == Words()
      decreases height
    {
      if checkWhitelist then Checked(Words(), whitePrefix.View(), whiteSuffix.View()) else Plain(Words())
    }

    /** A query consults the whitelists exactly when the trie checks them, each in its place. */
    lemma ViewIs()
      requires Ready()
      ensures View().words == Words() && (View().Checked? <==> checkWhitelist)
      ensures checkWhitelist ==> View().before == whitePrefix.View() && View().after == whiteSuffix.View()
    {
      hide Valid, Words;
    }

    /** Turns the checking of two whitelists on. */
    method SetWhitelists(prefix: Trie, suffix: Trie)
      requires Valid() && prefix.Ready() && suffix.Ready()
      requires this !in prefix.whites + suffix.whites && this != prefix && this != suffix
      modifies this`checkWhitelist, this`whitePrefix, this`whiteSuffix, this`height, this`whites
      ensures Ready() && View() == Checked(Words(), prefix.View(), suffix.View())
    {
      hide Valid, Words;
      checkWhitelist, whitePrefix, whiteSuffix := true, prefix, suffix;
      height := prefix.height + suffix.height + 1;
      whites := {prefix, suffix} + prefix.repr + prefix.whites + suffix.repr + suffix.whites;
    }

    // isInWhitePreffixList for a match that starts at i.
    method IsInWhitePrefixList(chars: array<Rune>, i: nat) returns (inWhiteList: bool)
      requires Ready() && checkWhitelist && i < chars.Length
      ensures inWhiteList == SparedBefore(View(), chars[..], i)
      decreases height, 0
    {
      hide Valid, Words;
      if i == 0 {
        return false;
      }
      var prefixPos := if i < 4 then 0 else i - 4;
      var exist, _, resp := whitePrefix.Query(chars[prefixPos..i + 1]);
      assert chars[prefixPos..i + 1] == chars[..][prefixPos..i + 1];
      inWhiteList := exist && resp[|resp| - 1] == ASTERISK;
    }

    // isInWhiteSuffixList for a match whose last rune is at j.
    method IsInWhiteSuffixList(chars: array<Rune>, j: nat) returns (inWhiteList: bool)
      requires Ready() && checkWhitelist && j < chars.Length
      ensures inWhiteList == SparedAfter(View(), chars[..], j)
      decreases height, 0
    {
      hide Valid, Words;
      if j + 1 == chars.Length {
        return false;
      }
      var suffixPos := if j + 5 > chars.Length then chars.Length else j + 5;
      var exist, _, resp := whiteSuffix.Query(chars[j..suffixPos]);
      assert chars[j..suffixPos] == chars[..][j..suffixPos];
      inWhiteList := exist && resp[0] == ASTERISK;
    }

    lemma PlainSparesNone(chars: Word, s: Span)
      requires Ready() && s.start < s.end <= |chars| && !checkWhitelist
      ensures !Spared(View(), chars, s)
    {
    }

    method IsInWhiteList(chars: array<Rune>, i: nat, j: nat) returns (inWhiteList: bool)
      requires Ready() && checkWhitelist && i <= j < chars.Length
      ensures inWhiteList == Spared(View(), chars[..], Span(i, j + 1))
      decreases height, 1
    {
      inWhiteList := IsInWhitePrefixList(chars, i);
      if !inWhiteList {
        inWhiteList := IsInWhiteSuffixList(chars, j);
      }
    }

    // replaceToAsterisk
    method ReplaceToAsterisk(found: seq<Word>, chars: array<Rune>, i: nat, j: nat) returns (found': seq<Word>)
      requires i <= j < chars.Length
      modifies chars
      ensures found' == found + [old(chars[i..j + 1])]
      ensures chars[..] == MaskSpan(old(chars[..]), Span(i, j + 1))
    {
      found' := found + [chars[i..j + 1]];
      for k := i to j + 1
        invariant forall m :: 0 <= m < chars.Length ==> chars[m] == if i <= m < k then ASTERISK else old(chars[m])
      {
        chars[k] := ASTERISK;
      }
    }

    // A candidate has been visited: it is spared or masked.
    method Settle(
      found: seq<Word>, chars: array<Rune>, i: nat, j: nat, ghost text: Word, ghost total: seq<Span>,
      ghost done: seq<Span>)
      returns (found': seq<Word>, ghost done': seq<Span>)
      requires Ready() && chars !in whites && i < j < chars.Length
      requires Progress(View(), text, total, chars[..], i, found, done) && MatchAt(Words(), text, i) == j + 1
      modifies chars
      ensures Progress(View(), text, total, chars[..], j + 1, found', done')
      decreases height, 2
    {
      hide Valid, Words, Ready, View, Progress, Spared, MatchAt, Mask, MaskSpan;
      ghost var d := View();
      if !checkWhitelist {
        PlainSparesNone(chars[..], Span(i, j + 1));
      }
      found', done' := found, done;
      ProgressVisit(d, text, total, chars[..], i, found, done);
      var inWhiteList := false;
      if checkWhitelist {
        inWhiteList := IsInWhiteList(chars, i, j);
      }
      if !inWhiteList {
        assert chars[i..j + 1] == chars[..][i..j + 1];
        found' := ReplaceToAsterisk(found, chars, i, j);
        done' := done + [Span(i, j + 1)];
      }
    }

    lemma RootNode()
      requires Valid()
      ensures [] in nodes && nodes[[]] == root
    {
    }

    lemma EndIff(p: Word)
      requires Valid() && p in nodes
      ensures nodes[p].end <==> p in Words()
    {
    }

    // node.Node.Load(char) on the node of path p.
    method Load(node: Node, c: Rune, ghost p: Word) returns (child: Node?)
      requires Valid() && p in nodes && nodes[p] == node
      ensures child != null <==> IsPath(Words(), p + [c])
      ensures child != null ==> p + [c] in nodes && child == nodes[p + [c]]
    {
      ChildIff(p, c);
      child := if c in node.children then node.children[c] else null;
    }

    lemma ReadyIsValid()
      requires Ready()
      ensures Valid()
    {
    }

    // The inner loop of Query: the end of the match that starts at i, or 0.
    method FindMatch(chars: array<Rune>, i: nat) returns (jj: nat)
      requires Valid() && i < chars.Length
      ensures jj < chars.Length && MatchAt(Words(), chars[..], i) == if jj == 0 then 0 else jj + 1
    {
      hide Valid, Words, IsPath, MatchAt, Walk;
      ghost var text, words := chars[..], Words();
      jj := 0;
      RootNode();
      WalkStart(words, text, i);
      var node := Load(root, chars[i], []);
      if node == null {
        return;
      }
      var j := i + 1;
      while j < chars.Length
        invariant i < j <= chars.Length && (jj == 0 || i < jj < j) && (jj != 0 ==> jj + 1 < chars.Length)
        invariant node != null && text[i..j] in nodes && node == nodes[text[i..j]]
        invariant MatchAt(words, text, i) == Walk(words, text, i, j, if jj == 0 then 0 else jj + 1)
      {
        assert text[i..j] + [text[j]] == text[i..j + 1];
        WalkStep(words, text, i, j, if jj == 0 then 0 else jj + 1);
        node := Load(node, chars[j], text[i..j]);
        if node == null {
          return;
        }
        EndIff(text[i..j + 1]);
        if node.end {
          jj := j;
          if j + 1 == chars.Length {
            WalkStep(words, text, i, j + 1, j + 1);
            return;
          }
        }
        j := j + 1;
      }
      WalkStep(words, text, i, j, if jj == 0 then 0 else jj + 1);
      jj := 0;
    }

    /** Query: masks the matches in place, left to right, but those that a whitelist spares, and answers
        what the keywords and whitelists determine. */
    method Query(text: Word) returns (exist: bool, found: seq<Word>, result: Word)
      requires Ready()
      ensures Answer(exist, found, result) == Whitelist.Query(View(), text)
      decreases height, 3
    {
      hide Valid, Words, Ready, View, Progress, MatchAt, Whitelist.Query, Kept;
      found := [];
      ghost var d, total := View(), Kept(View(), text);
      ProgressStart(d, text);
      var l := |text|;
      if l == 0 {
        ProgressEnd(d, text, total, text, found, []);
        return false, found, text;
      }
      var chars := new Rune[l](k requires 0 <= k < l => text[k]);
      ghost var done: seq<Span> := [];
      assert chars[..] == text;
      var i := 0;
      while i < l
        invariant i <= l && Progress(d, text, total, chars[..], i, found, done)
      {
        ProgressAgrees(d, text, total, chars[..], i, found, done);
        ReadyIsValid();
        var jj := FindMatch(chars, i);
        SameMatch(d.words, text, chars[..], i);
        if jj > 0 {
          found, done := Settle(found, chars, i, jj, text, total, done);
          i := jj;
        } else {
          ProgressSkip(d, text, total, chars[..], i, found, done);
        }
        i := i + 1;
      }
      exist := |found| > 0;
      result := chars[..];
      ProgressEnd(d, text, total, result, found, done);
    }
  }

  // -------------------------------------------------------------------------------- The scan on values

  /** What a query has done when it stands at i: the runes from i on are as in the text, the spans in
      `done` are masked and found, and the candidates from i on decide the rest. */
  ghost predicate Progress(
    d: Dict, text: Word, total: seq<Span>, chars: Word, i: nat, found: seq<Word>, done: seq<Span>)
  {
    && i <= |text| == |chars| && chars[i..] == text[i..]
    && InOrder(text, 0, done) && (forall s :: s in done ==> s.end <= i)
    && found == Spelled(text, done) && chars == Mask(text, done)
    && InOrder(chars, i, Scan(d.words, text, i))
    && total == done + Keep(d, chars, i, Scan(d.words, text, i))
  }

  lemma KeepFromAnywhere(d: Dict, chars: Word, i: nat, j: nat, spans: seq<Span>)
    requires InOrder(chars, i, spans) && InOrder(chars, j, spans)
    ensures Keep(d, chars, i, spans) == Keep(d, chars, j, spans)
  {
  }

  lemma ProgressAgrees(
    d: Dict, text: Word, total: seq<Span>, chars: Word, i: nat, found: seq<Word>, done: seq<Span>)
    requires Progress(d, text, total, chars, i, found, done)
    ensures |chars| == |text| && i <= |text| && chars[i..] == text[i..]
  {
  }

  lemma ProgressStart(d: Dict, text: Word)
    ensures Progress(d, text, Kept(d, text), text, 0, [], [])
  {
    ScanIsSound(d.words, text, 0);
    assert Mask(text, []) == text;
  }

  lemma ProgressEnd(d: Dict, text: Word, total: seq<Span>, chars: Word, found: seq<Word>, done: seq<Span>)
    requires Progress(d, text, total, chars, |text|, found, done) && total == Kept(d, text)
    ensures Answer(|found| > 0, found, chars) == Whitelist.Query(d, text)
  {
    assert total == done;
  }

  lemma ProgressSkip(d: Dict, text: Word, total: seq<Span>, chars: Word, i: nat, found: seq<Word>, done: seq<Span>)
    requires Progress(d, text, total, chars, i, found, done) && i < |text| && MatchAt(d.words, text, i) == 0
    ensures Progress(d, text, total, chars, i + 1, found, done)
  {
    ScanIsSound(d.words, text, i + 1);
    KeepFromAnywhere(d, chars, i, i + 1, Scan(d.words, text, i + 1));
    assert chars[i + 1..] == chars[i..][1..] && text[i + 1..] == text[i..][1..];
  }

  lemma KeepCons(d: Dict, chars: Word, i: nat, s: Span, rest: seq<Span>)
    requires InOrder(chars, i, [s] + rest)
    requires i <= s.start && s.start + 2 <= s.end <= |chars| && InOrder(chars, s.end, rest)
    ensures Keep(d, chars, i, [s] + rest) ==
      if Spared(d, chars, s) then Keep(d, chars, s.end, rest) else [s] + Keep(d, MaskSpan(chars, s), s.end, rest)
  {
    assert ([s] + rest)[1..] == rest;
  }

  // Visiting a candidate, on the list of candidates.
  lemma ScanVisit(d: Dict, text: Word, chars: Word, i: nat)
    requires i < |text| == |chars| && MatchAt(d.words, text, i) != 0
    ensures var e := MatchAt(d.words, text, i); var s := Span(i, e); var rest := Scan(d.words, text, e);
      && InOrder(chars, i, Scan(d.words, text, i)) && InOrder(chars, e, rest) && InOrder(MaskSpan(chars, s), e, rest)
      && Keep(d, chars, i, Scan(d.words, text, i)) ==
           if Spared(d, chars, s) then Keep(d, chars, e, rest) else [s] + Keep(d, MaskSpan(chars, s), e, rest)
  {
    hide Keep, Spared, MatchAt;
    var e := MatchAt(d.words, text, i);
    ScanIsSound(d.words, text, i);
    ScanIsSound(d.words, text, e);
    assert Scan(d.words, text, i) == [Span(i, e)] + Scan(d.words, text, e);
    KeepCons(d, chars, i, Span(i, e), Scan(d.words, text, e));
  }

  lemma ProgressVisit(d: Dict, text: Word, total: seq<Span>, chars: Word, i: nat, found: seq<Word>, done: seq<Span>)
    requires Progress(d, text, total, chars, i, found, done) && i < |text| && MatchAt(d.words, text, i) != 0
    ensures var e := MatchAt(d.words, text, i); var s := Span(i, e);
      if Spared(d, chars, s) then Progress(d, text, total, chars, e, found, done)
      else Progress(d, text, total, MaskSpan(chars, s), e, found + [chars[i..e]], done + [s])
  {
    hide Keep, Spared, Mask, MaskSpan, Spelled, MatchAt, Scan, InOrder;
    var e := MatchAt(d.words, text, i);
    var s := Span(i, e);
    ScanVisit(d, text, chars, i);
    assert chars[e..] == chars[i..][e - i..] && text[e..] == text[i..][e - i..];
    if !Spared(d, chars, s) {
      MaskOneMore(text, chars, i, done, s);
      var kept := Keep(d, MaskSpan(chars, s), e, Scan(d.words, text, e));
      assert done + ([s] + kept) == done + [s] + kept;
    }
  }

  // Masking before i does not change what is found at i.
  lemma SameMatch(words: set<Word>, text: Word, chars: Word, i: nat)
    requires |text| == |chars| && i < |text| && text[i..] == chars[i..]
    ensures MatchAt(words, text, i) == MatchAt(words, chars, i)
  {
    SameWalk(words, text, chars, i, i, 0);
  }

  lemma {:induction false} SameWalk(words: set<Word>, text: Word, chars: Word, i: nat, j: nat, best: nat)
    requires |text| == |chars| && i <= j <= |text| && text[i..] == chars[i..]
    ensures Walk(words, text, i, j, best) == Walk(words, chars, i, j, best)
    decreases |text| - j
  {
    if j < |text| {
      assert text[i..j + 1] == text[i..][..j + 1 - i] == chars[i..j + 1];
      SameWalk(words, text, chars, i, j + 1, if j > i && text[i..j + 1] in words then j + 1 else best);
    }
  }

  lemma MaskOneMore(text: Word, chars: Word, i: nat, done: seq<Span>, s: Span)
    requires |chars| == |text| && InOrder(text, 0, done) && (forall t :: t in done ==> t.end <= i)
    requires chars == Mask(text, done) && s.start == i && i + 2 <= s.end <= |text| && chars[i..] == text[i..]
    ensures InOrder(text, 0, done + [s]) && MaskSpan(chars, s) == Mask(text, done + [s])
    ensures MaskSpan(chars, s)[s.end..] == text[s.end..]
    ensures Spelled(text, done) + [chars[i..s.end]] == Spelled(text, done + [s])
  {
    assert chars[i..s.end] == chars[i..][..s.end - i] && text[i..s.end] == text[i..][..s.end - i];
    assert chars[s.end..] == chars[i..][s.end - i..] && text[s.end..] == text[i..][s.end - i..];
    forall k | 0 <= k < |text| ensures MaskSpan(chars, s)[k] == Mask(text, done + [s])[k] {
      assert Covered(done + [s], k) <==> Covered(done, k) || i <= k < s.end by {
        assert s in done + [s];
      }
    }
  }

  lemma WalkStep(words: set<Word>, text: Word, i: nat, j: nat, best: nat)
    requires i < j <= |text|
    ensures j == |text| ==> Walk(words, text, i, j, best) == if best == |text| then best else 0
    ensures j < |text| && !IsPath(words, text[i..j + 1]) ==> Walk(words, text, i, j, best) == best
    ensures j < |text| && IsPath(words, text[i..j + 1]) ==>
      Walk(words, text, i, j, best) == Walk(words, text, i, j + 1, if text[i..j + 1] in words then j + 1 else best)
  {
  }

  // The first rune of a candidate.
  lemma WalkStart(words: set<Word>, text: Word, i: nat)
    requires i < |text|
    ensures text[i..i + 1] == [text[i]] == [] + [text[i]]
    ensures MatchAt(words, text, i) == if IsPath(words, [text[i]]) then Walk(words, text, i, i + 1, 0) else 0
  {
    assert text[i..i + 1] == [text[i]];
  }

  // s lists the elements of a set, each once.
  ghost predicate EachOnce<T>(s: seq<T>, a: set<T>) {
    && (forall i, j :: 0 <= i < j < |s| ==> s[i] != s[j])
    && (forall i :: 0 <= i < |s| ==> s[i] in a)
    && (forall x :: x in a ==> x in s)
  }

  lemma EachOnceConcat<T>(s: seq<T>, a: set<T>, t: seq<T>, b: set<T>)
    requires EachOnce(s, a) && EachOnce(t, b) && a !! b
    ensures EachOnce(s + t, a + b)
  {
  }
}
