/** The node arena behind the compressed trie of module_2/D/m2_taskD.cpp.

    The source links heap nodes by pointers; here node i is `nodes[i]`, an
    edge names its target by index, and node 0 is the root. Three ghost
    components give the abstract view: `paths[i]` is the string spelled
    from the root to node i, and `parent[i]` and `inKey[i]` name the edge
    that enters node i. The lemmas below show that each of the four changes
    Insert makes to the arena keeps it well formed and adds exactly the
    inserted word to the stored words. */
module TrieArena {

  datatype Edge = Edge(text: string, target: nat)

  datatype Node = Node(isWordEnd: bool, edges: map<char, Edge>)

  /** A snapshot of the trie's state, used to state what Insert does to it. */
  datatype Arena = Arena(nodes: seq<Node>, paths: seq<string>, parent: seq<nat>, inKey: seq<char>)

  ghost predicate Sized(a: Arena)
  {
    |a.paths| == |a.parent| == |a.inKey| == |a.nodes|
  }

  /** The edge of node i keyed c is well formed: it is keyed by the first
      character of its non-empty text, its target is a non-root node whose
      path extends node i's path by the text, and the target records this
      edge as the one entering it. */
  ghost predicate EdgeOk(a: Arena, i: nat, c: char)
  {
    Sized(a) && i < |a.nodes| && c in a.nodes[i].edges &&
    var e := a.nodes[i].edges[c];
    0 < e.target < |a.nodes| && |e.text| > 0 && e.text[0] == c &&
    a.paths[e.target] == a.paths[i] + e.text &&
    a.parent[e.target] == i && a.inKey[e.target] == c
  }

  /** Node j is the target of the edge it records as entering it. */
  ghost predicate ParentOk(a: Arena, j: nat)
  {
    Sized(a) && j < |a.nodes| && a.parent[j] < |a.nodes| &&
    a.inKey[j] in a.nodes[a.parent[j]].edges &&
    a.nodes[a.parent[j]].edges[a.inKey[j]].target == j
  }

  /** A well-formed arena: a root spelling the empty string that is not a
      word end, well-formed edges, and one entering edge per other node. */
  ghost predicate ValidArena(a: Arena)
  {
    Sized(a) && |a.nodes| >= 1 && a.paths[0] == [] && !a.nodes[0].isWordEnd &&
    (forall i: nat, c :: i < |a.nodes| && c in a.nodes[i].edges ==> EdgeOk(a, i, c)) &&
    (forall j: nat :: 0 < j < |a.nodes| ==> ParentOk(a, j))
  }

  /** The words stored in the arena: the paths of its word-end nodes. */
  ghost function WordsOf(a: Arena): (r: set<string>)
    requires Sized(a)
    ensures forall i :: 0 <= i < |a.nodes| && a.nodes[i].isWordEnd ==> a.paths[i] in r
    ensures forall w :: w in r ==> exists i :: 0 <= i < |a.nodes| && a.nodes[i].isWordEnd && a.paths[i] == w
  {
    set i | 0 <= i < |a.nodes| && a.nodes[i].isWordEnd :: a.paths[i]
  }

  /** In a well-formed arena an edge's target is entered by that edge alone. */
  lemma TargetsDiffer(a: Arena, i: nat, c: char, i': nat, c': char)
    requires ValidArena(a)
    requires i < |a.nodes| && c in a.nodes[i].edges && i' < |a.nodes| && c' in a.nodes[i'].edges
    requires i != i' || c != c'
    ensures a.nodes[i].edges[c].target != a.nodes[i'].edges[c'].target
  {
    assert EdgeOk(a, i, c);
    assert EdgeOk(a, i', c');
  }

  // ---------------------------------------------------------------------
  // Marking an existing node as a word end
  // ---------------------------------------------------------------------

  ghost function Marked(a: Arena, t: nat): Arena
    requires t < |a.nodes|
  {
    a.(nodes := a.nodes[t := a.nodes[t].(isWordEnd := true)])
  }

  lemma WordEndMarked(a: Arena, t: nat)
    requires ValidArena(a) && 0 < t < |a.nodes|
    ensures ValidArena(Marked(a, t))
    ensures WordsOf(Marked(a, t)) == WordsOf(a) + {a.paths[t]}
  {
    var b := Marked(a, t);
    forall i: nat, c | i < |b.nodes| && c in b.nodes[i].edges
      ensures EdgeOk(b, i, c)
    {
      assert EdgeOk(a, i, c);
    }
    forall j: nat | 0 < j < |b.nodes|
      ensures ParentOk(b, j)
    {
      assert ParentOk(a, j);
    }
    forall x | x in WordsOf(b)
      ensures x in WordsOf(a) + {a.paths[t]}
    {
      var i :| 0 <= i < |b.nodes| && b.nodes[i].isWordEnd && b.paths[i] == x;
      if i != t {
        assert a.nodes[i].isWordEnd;
      }
    }
  }

  // ---------------------------------------------------------------------
  // A new leaf edge
  // ---------------------------------------------------------------------

  ghost predicate CanAddLeaf(a: Arena, at: nat, rest: string, word: string)
  {
    ValidArena(a) && at < |a.nodes| && |rest| > 0 && a.paths[at] + rest == word &&
    rest[0] !in a.nodes[at].edges
  }

  /** A new word-end leaf below node `at`, on an edge labelled with the whole rest. */
  ghost function WithLeaf(a: Arena, at: nat, rest: string, word: string): Arena
    requires CanAddLeaf(a, at, rest, word)
  {
    Arena(a.nodes[at := a.nodes[at].(edges := a.nodes[at].edges[rest[0] := Edge(rest, |a.nodes|)])]
            + [Node(true, map[])],
          a.paths + [word], a.parent + [at], a.inKey + [rest[0]])
  }

  lemma LeafEdge(a: Arena, at: nat, rest: string, word: string, i: nat, c: char)
    requires CanAddLeaf(a, at, rest, word)
    requires i < |WithLeaf(a, at, rest, word).nodes| && c in WithLeaf(a, at, rest, word).nodes[i].edges
    ensures EdgeOk(WithLeaf(a, at, rest, word), i, c)
  {
    if i != at || c != rest[0] {
      assert EdgeOk(a, i, c);
    }
  }

  lemma LeafParent(a: Arena, at: nat, rest: string, word: string, j: nat)
    requires CanAddLeaf(a, at, rest, word)
    requires 0 < j < |WithLeaf(a, at, rest, word).nodes|
    ensures ParentOk(WithLeaf(a, at, rest, word), j)
  {
    if j < |a.nodes| {
      assert ParentOk(a, j);
      if a.parent[j] == at {
        assert EdgeOk(a, at, a.inKey[j]);
      }
    }
  }

  lemma LeafWords(a: Arena, at: nat, rest: string, word: string)
    requires CanAddLeaf(a, at, rest, word)
    ensures WordsOf(WithLeaf(a, at, rest, word)) == WordsOf(a) + {word}
  {
    var b := WithLeaf(a, at, rest, word);
    forall x | x in WordsOf(b)
      ensures x in WordsOf(a) + {word}
    {
      var i :| 0 <= i < |b.nodes| && b.nodes[i].isWordEnd && b.paths[i] == x;
      if i < |a.nodes| {
        assert a.nodes[i].isWordEnd;
      }
    }
    forall x | x in WordsOf(a)
      ensures x in WordsOf(b)
    {
      var i :| 0 <= i < |a.nodes| && a.nodes[i].isWordEnd && a.paths[i] == x;
      assert b.nodes[i].isWordEnd && b.paths[i] == x;
    }
    assert b.nodes[|a.nodes|].isWordEnd && b.paths[|a.nodes|] == word;
  }

  lemma LeafAdded(a: Arena, at: nat, rest: string, word: string)
    requires CanAddLeaf(a, at, rest, word)
    ensures ValidArena(WithLeaf(a, at, rest, word))
    ensures WordsOf(WithLeaf(a, at, rest, word)) == WordsOf(a) + {word}
  {
    var b := WithLeaf(a, at, rest, word);
    forall i: nat, c | i < |b.nodes| && c in b.nodes[i].edges
      ensures EdgeOk(b, i, c)
    {
      LeafEdge(a, at, rest, word, i, c);
    }
    forall j: nat | 0 < j < |b.nodes|
      ensures ParentOk(b, j)
    {
      LeafParent(a, at, rest, word, j);
    }
    LeafWords(a, at, rest, word);
  }

  // ---------------------------------------------------------------------
  // Splitting an edge where the word ends
  // ---------------------------------------------------------------------

  ghost predicate CanSplitAtEnd(a: Arena, at: nat, rest: string, word: string)
  {
    ValidArena(a) && at < |a.nodes| && |rest| > 0 && a.paths[at] + rest == word &&
    rest[0] in a.nodes[at].edges && rest < a.nodes[at].edges[rest[0]].text
  }

  /** The word ends inside the text of the edge of `at` keyed rest[0]: a new
      word-end node takes the word's part of the text and keeps the old
      target below it on an edge labelled with the remainder. */
  ghost function SplitAtEnd(a: Arena, at: nat, rest: string, word: string): Arena
    requires CanSplitAtEnd(a, at, rest, word)
  {
    var edge := a.nodes[at].edges[rest[0]];
    var tail := edge.text[|rest|..];
    Arena(a.nodes[at := a.nodes[at].(edges := a.nodes[at].edges[rest[0] := Edge(rest, |a.nodes|)])]
            + [Node(true, map[tail[0] := edge.(text := tail)])],
          a.paths + [word],
          a.parent[edge.target := |a.nodes|] + [at],
          a.inKey[edge.target := tail[0]] + [rest[0]])
  }

  lemma SplitAtEndEdge(a: Arena, at: nat, rest: string, word: string, i: nat, c: char)
    requires CanSplitAtEnd(a, at, rest, word)
    requires i < |SplitAtEnd(a, at, rest, word).nodes| && c in SplitAtEnd(a, at, rest, word).nodes[i].edges
    ensures EdgeOk(SplitAtEnd(a, at, rest, word), i, c)
  {
    var edge := a.nodes[at].edges[rest[0]];
    assert EdgeOk(a, at, rest[0]);
    if i == |a.nodes| {
      assert edge.text == rest + edge.text[|rest|..];
    } else if i != at || c != rest[0] {
      assert EdgeOk(a, i, c);
      TargetsDiffer(a, i, c, at, rest[0]);
    }
  }

  lemma SplitAtEndParent(a: Arena, at: nat, rest: string, word: string, j: nat)
    requires CanSplitAtEnd(a, at, rest, word)
    requires 0 < j < |SplitAtEnd(a, at, rest, word).nodes|
    ensures ParentOk(SplitAtEnd(a, at, rest, word), j)
  {
    var edge := a.nodes[at].edges[rest[0]];
    assert EdgeOk(a, at, rest[0]);
    if j < |a.nodes| && j != edge.target {
      assert ParentOk(a, j);
    }
  }

  lemma SplitAtEndWords(a: Arena, at: nat, rest: string, word: string)
    requires CanSplitAtEnd(a, at, rest, word)
    ensures WordsOf(SplitAtEnd(a, at, rest, word)) == WordsOf(a) + {word}
  {
    var b := SplitAtEnd(a, at, rest, word);
    forall x | x in WordsOf(b)
      ensures x in WordsOf(a) + {word}
    {
      var i :| 0 <= i < |b.nodes| && b.nodes[i].isWordEnd && b.paths[i] == x;
      if i < |a.nodes| {
        assert a.nodes[i].isWordEnd;
      }
    }
    forall x | x in WordsOf(a)
      ensures x in WordsOf(b)
    {
      var i :| 0 <= i < |a.nodes| && a.nodes[i].isWordEnd && a.paths[i] == x;
      assert b.nodes[i].isWordEnd && b.paths[i] == x;
    }
    assert b.nodes[|a.nodes|].isWordEnd && b.paths[|a.nodes|] == word;
  }

  lemma SplitAtEndValid(a: Arena, at: nat, rest: string, word: string)
    requires CanSplitAtEnd(a, at, rest, word)
    ensures ValidArena(SplitAtEnd(a, at, rest, word))
    ensures WordsOf(SplitAtEnd(a, at, rest, word)) == WordsOf(a) + {word}
  {
    var b := SplitAtEnd(a, at, rest, word);
    forall i: nat, c | i < |b.nodes| && c in b.nodes[i].edges
      ensures EdgeOk(b, i, c)
    {
      SplitAtEndEdge(a, at, rest, word, i, c);
    }
    forall j: nat | 0 < j < |b.nodes|
      ensures ParentOk(b, j)
    {
      SplitAtEndParent(a, at, rest, word, j);
    }
    SplitAtEndWords(a, at, rest, word);
  }

  // ---------------------------------------------------------------------
  // Splitting an edge where the word and the text diverge
  // ---------------------------------------------------------------------

  ghost predicate CanSplitApart(a: Arena, at: nat, rest: string, word: string, iEnd: nat)
  {
    ValidArena(a) && at < |a.nodes| && a.paths[at] + rest == word &&
    0 < iEnd < |rest| && rest[0] in a.nodes[at].edges &&
    var text := a.nodes[at].edges[rest[0]].text;
    iEnd < |text| && rest[..iEnd] == text[..iEnd] && rest[iEnd] != text[iEnd]
  }

  /** The word and the text of the edge of `at` keyed rest[0] share their
      first iEnd characters and then differ: a new inner node takes the
      shared part, with the old target and a new word-end leaf below it. */
  ghost function SplitApart(a: Arena, at: nat, rest: string, word: string, iEnd: nat): Arena
    requires CanSplitApart(a, at, rest, word, iEnd)
  {
    var edge := a.nodes[at].edges[rest[0]];
    var text := edge.text;
    var inner := |a.nodes|;
    Arena(a.nodes[at := a.nodes[at].(edges := a.nodes[at].edges[rest[0] := Edge(rest[..iEnd], inner)])]
            + [Node(false, map[text[iEnd] := edge.(text := text[iEnd..]),
                               rest[iEnd] := Edge(rest[iEnd..], inner + 1)]),
               Node(true, map[])],
          a.paths + [a.paths[at] + rest[..iEnd], word],
          a.parent[edge.target := inner] + [at, inner],
          a.inKey[edge.target := text[iEnd]] + [rest[0], rest[iEnd]])
  }

  lemma SplitApartEdge(a: Arena, at: nat, rest: string, word: string, iEnd: nat, i: nat, c: char)
    requires CanSplitApart(a, at, rest, word, iEnd)
    requires i < |SplitApart(a, at, rest, word, iEnd).nodes|
    requires c in SplitApart(a, at, rest, word, iEnd).nodes[i].edges
    ensures EdgeOk(SplitApart(a, at, rest, word, iEnd), i, c)
  {
    var text := a.nodes[at].edges[rest[0]].text;
    assert EdgeOk(a, at, rest[0]);
    if i == |a.nodes| {
      assert text == text[..iEnd] + text[iEnd..];
      assert rest == rest[..iEnd] + rest[iEnd..];
    } else if i == at && c == rest[0] {
      assert rest[..iEnd][0] == rest[0];
    } else if i < |a.nodes| {
      assert EdgeOk(a, i, c);
      TargetsDiffer(a, i, c, at, rest[0]);
    }
  }

  lemma SplitApartParent(a: Arena, at: nat, rest: string, word: string, iEnd: nat, j: nat)
    requires CanSplitApart(a, at, rest, word, iEnd)
    requires 0 < j < |SplitApart(a, at, rest, word, iEnd).nodes|
    ensures ParentOk(SplitApart(a, at, rest, word, iEnd), j)
  {
    var edge := a.nodes[at].edges[rest[0]];
    assert EdgeOk(a, at, rest[0]);
    if j < |a.nodes| && j != edge.target {
      assert ParentOk(a, j);
    }
  }

  lemma SplitApartWords(a: Arena, at: nat, rest: string, word: string, iEnd: nat)
    requires CanSplitApart(a, at, rest, word, iEnd)
    ensures WordsOf(SplitApart(a, at, rest, word, iEnd)) == WordsOf(a) + {word}
  {
    var b := SplitApart(a, at, rest, word, iEnd);
    forall x | x in WordsOf(b)
      ensures x in WordsOf(a) + {word}
    {
      var i :| 0 <= i < |b.nodes| && b.nodes[i].isWordEnd && b.paths[i] == x;
      if i < |a.nodes| {
        assert a.nodes[i].isWordEnd;
      }
    }
    forall x | x in WordsOf(a)
      ensures x in WordsOf(b)
    {
      var i :| 0 <= i < |a.nodes| && a.nodes[i].isWordEnd && a.paths[i] == x;
      assert b.nodes[i].isWordEnd && b.paths[i] == x;
    }
    assert b.nodes[|a.nodes| + 1].isWordEnd && b.paths[|a.nodes| + 1] == word;
  }

  lemma SplitApartValid(a: Arena, at: nat, rest: string, word: string, iEnd: nat)
    requires CanSplitApart(a, at, rest, word, iEnd)
    ensures ValidArena(SplitApart(a, at, rest, word, iEnd))
    ensures WordsOf(SplitApart(a, at, rest, word, iEnd)) == WordsOf(a) + {word}
  {
    var b := SplitApart(a, at, rest, word, iEnd);
    forall i: nat, c | i < |b.nodes| && c in b.nodes[i].edges
      ensures EdgeOk(b, i, c)
    {
      SplitApartEdge(a, at, rest, word, iEnd, i, c);
    }
    forall j: nat | 0 < j < |b.nodes|
      ensures ParentOk(b, j)
    {
      SplitApartParent(a, at, rest, word, iEnd, j);
    }
    SplitApartWords(a, at, rest, word, iEnd);
  }

  // ---------------------------------------------------------------------
  // Each change is an insertion of the word
  // ---------------------------------------------------------------------

  /** No node of the arena spells `word`. */
  ghost predicate Unspelled(a: Arena, word: string)
  {
    forall k :: 0 <= k < |a.paths| ==> a.paths[k] != word
  }

  /** Arena b is arena a with `word` inserted: b is well formed, stores the
      old words plus `word`, has at most two more nodes, keeps the paths of
      the old nodes and changes only the mark of a node spelling `word`, and
      equals a in its nodes when `word` was already stored. The new nodes
      spell prefixes of `word`, the last of them `word` itself. */
  ghost predicate InsertedInto(a: Arena, b: Arena, word: string)
  {
    Sized(a) && ValidArena(b) && WordsOf(b) == WordsOf(a) + {word} &&
    |a.nodes| <= |b.nodes| <= |a.nodes| + 2 &&
    (forall i :: 0 <= i < |a.nodes| ==>
       b.paths[i] == a.paths[i] &&
       b.nodes[i].isWordEnd == (a.nodes[i].isWordEnd || a.paths[i] == word)) &&
    (forall i :: |a.nodes| <= i < |b.nodes| ==> b.paths[i] <= word) &&
    (|a.nodes| < |b.nodes| ==> b.paths[|b.nodes| - 1] == word) &&
    (word in WordsOf(a) ==> b.nodes == a.nodes)
  }

  /** A change that adds nodes, none of the old ones spelling `word`, and
      keeps the old nodes' paths and marks is an insertion. */
  lemma GrowthInserts(a: Arena, b: Arena, word: string)
    requires ValidArena(a) && ValidArena(b) && Unspelled(a, word)
    requires WordsOf(b) == WordsOf(a) + {word}
    requires |a.nodes| < |b.nodes| <= |a.nodes| + 2
    requires forall i :: 0 <= i < |a.nodes| ==>
               b.paths[i] == a.paths[i] && b.nodes[i].isWordEnd == a.nodes[i].isWordEnd
    requires forall i :: |a.nodes| <= i < |b.nodes| ==> b.paths[i] <= word
    requires b.paths[|b.nodes| - 1] == word
    ensures InsertedInto(a, b, word)
  {
    assert word !in WordsOf(a);
  }

  lemma MarkInserts(a: Arena, t: nat, word: string)
    requires ValidArena(a) && 0 < t < |a.nodes| && a.paths[t] == word
    requires forall k :: 0 <= k < |a.paths| && a.paths[k] == word ==> k == t
    ensures InsertedInto(a, Marked(a, t), word)
  {
    WordEndMarked(a, t);
    if word in WordsOf(a) {
      var k :| 0 <= k < |a.nodes| && a.nodes[k].isWordEnd && a.paths[k] == word;
      assert k == t;
      assert a.nodes[t].(isWordEnd := true) == a.nodes[t];
    }
  }

  lemma LeafInserts(a: Arena, at: nat, rest: string, word: string)
    requires CanAddLeaf(a, at, rest, word) && Unspelled(a, word)
    ensures InsertedInto(a, WithLeaf(a, at, rest, word), word)
  {
    LeafAdded(a, at, rest, word);
    GrowthInserts(a, WithLeaf(a, at, rest, word), word);
  }

  lemma SplitAtEndInserts(a: Arena, at: nat, rest: string, word: string)
    requires CanSplitAtEnd(a, at, rest, word) && Unspelled(a, word)
    ensures InsertedInto(a, SplitAtEnd(a, at, rest, word), word)
  {
    SplitAtEndValid(a, at, rest, word);
    GrowthInserts(a, SplitAtEnd(a, at, rest, word), word);
  }

  lemma SplitApartInserts(a: Arena, at: nat, rest: string, word: string, iEnd: nat)
    requires CanSplitApart(a, at, rest, word, iEnd) && Unspelled(a, word)
    ensures InsertedInto(a, SplitApart(a, at, rest, word, iEnd), word)
  {
    SplitApartValid(a, at, rest, word, iEnd);
    assert word[..|a.paths[at]| + iEnd] == a.paths[at] + rest[..iEnd];
    GrowthInserts(a, SplitApart(a, at, rest, word, iEnd), word);
  }
}
