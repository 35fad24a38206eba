/** The trie of module_2/examples/D.cpp: every node holds a label `key`,
    an `end` mark, its first child and its next sibling (`right`). A word is
    spelled by the labels on a path of child links that ends at an `end`
    node. The nodes are values here: `insert` and `split` rebuild the links
    they change instead of rewriting them in place. */
module SiblingTries {
  import opened TrieDistance

  /** A possibly-null `Node *`. */
  datatype Link = Nil | Node(key: string, end: bool, child: Link, right: Link)

  function Size(t: Link): nat {
    match t
    case Nil => 0
    case Node(_, _, c, r) => 1 + Size(c) + Size(r)
  }

  /** `k + w` for every `w` in `s`. */
  function Prefixed(k: string, s: set<string>): set<string> {
    set w | w in s :: k + w
  }

  /** The words stored in the sibling list that starts at `t`. */
  function Words(t: Link): set<string>
    decreases Size(t), 1
  {
    match t
    case Nil => {}
    case Node(_, _, _, r) => Below(t) + Words(r)
  }

  /** The words stored at one node and under it: its own label when it is
      an end node, and its label followed by every word of its children. */
  function Below(t: Link): set<string>
    requires t.Node?
    decreases Size(t), 0
  {
    (if t.end then {t.key} else {}) + Prefixed(t.key, Words(t.child))
  }

  /** Every label in the structure is non-empty. */
  predicate Labelled(t: Link) {
    match t
    case Nil => true
    case Node(k, _, c, r) => |k| > 0 && Labelled(c) && Labelled(r)
  }

  /** The first letters of the labels of a sibling list. */
  function Firsts(t: Link): set<char> {
    match t
    case Nil => {}
    case Node(k, _, _, r) => (if |k| > 0 then {k[0]} else {}) + Firsts(r)
  }

  /** Labels are non-empty and no two siblings start with the same letter. */
  predicate Apart(t: Link) {
    match t
    case Nil => true
    case Node(k, _, c, r) => |k| > 0 && k[0] !in Firsts(r) && Apart(c) && Apart(r)
  }

  // ---------------------------------------------------------------------
  // prefix, split and insert

  /** The length of the longest common prefix of `a` and `b`. */
  function Lcp(a: string, b: string): (k: nat)
    ensures k <= |a| && k <= |b| && a[..k] == b[..k]
    ensures k < |a| && k < |b| ==> a[k] != b[k]
  {
    if |a| == 0 || |b| == 0 || a[0] != b[0] then 0
    else
      var k := 1 + Lcp(a[1..], b[1..]);
      assert a[..k] == [a[0]] + a[1..][..k - 1];
      assert b[..k] == [b[0]] + b[1..][..k - 1];
      k
  }

  /** A common prefix that cannot be extended is the longest one. */
  lemma LcpUnique(a: string, b: string, k: nat)
    requires k <= |a| && k <= |b| && a[..k] == b[..k]
    requires k == |a| || k == |b| || a[k] != b[k]
    ensures k == Lcp(a, b)
  {
  }

  /** `prefix`: scans `str` until `key` ends or the letters differ. */
  method Prefix(str: string, key: string) returns (k: nat)
    ensures k == Lcp(str, key)
  {
    k := 0;
    while k < |str|
      invariant k <= |str| && k <= |key| && str[..k] == key[..k]
    {
      if k == |key| || str[k] != key[k] {
        LcpUnique(str, key, k);
        return k;
      }
      k := k + 1;
    }
    LcpUnique(str, key, k);
  }

  /** `split(node, k)`: the node keeps the first `k` letters of its label;
      a new first child takes the rest of the label, the node's `end` mark
      and its old children. The sibling link is untouched, and so is the
      node's own `end` mark (both callers set it next). */
  function Split(t: Link, k: nat): (r: Link)
    requires t.Node? && k <= |t.key|
    ensures r.Node? && r.child.Node? && r.key + r.child.key == t.key
  {
    Node(t.key[..k], t.end, Node(t.key[k..], t.end, t.child, Nil), t.right)
  }

  /** A split that clears the node's own mark stores the same words. */
  lemma SplitWords(t: Link, k: nat)
    requires t.Node? && k <= |t.key|
    ensures var s := Split(t, k); Below(s.(end := false)) == Below(t)
    ensures var s := Split(t, k); Words(s.(end := false)) == Words(t)
  {
    var moved := Node(t.key[k..], t.end, t.child, Nil);
    assert Words(moved) == Below(moved);
    PrefixedUnion(t.key[..k], if t.end then {t.key[k..]} else {}, Prefixed(t.key[k..], Words(t.child)));
    PrefixedPrefixed(t.key[..k], t.key[k..], Words(t.child));
    assert t.key[..k] + t.key[k..] == t.key;
  }

  lemma PrefixedUnion(k: string, a: set<string>, b: set<string>)
    ensures Prefixed(k, a + b) == Prefixed(k, a) + Prefixed(k, b)
  {
  }

  lemma PrefixedPrefixed(a: string, b: string, s: set<string>)
    ensures Prefixed(a, Prefixed(b, s)) == Prefixed(a + b, s)
  {
    forall w | w in s
      ensures a + (b + w) == (a + b) + w
    {
    }
    forall x | x in Prefixed(a + b, s)
      ensures x in Prefixed(a, Prefixed(b, s))
    {
      var w :| w in s && x == (a + b) + w;
      assert b + w in Prefixed(b, s);
    }
  }

  /** The private `insert(node, word, count)`: a `count` of 0 stands for
      the length of the word. A node sharing no first letter passes the
      word to its sibling; a node sharing part of its label is split there,
      loses its mark and passes the rest of the word to its children; a
      node whose label starts with the whole word is split there and
      marked. */
  function InsertNode(t: Link, word: string, count: nat): (r: Link)
    ensures r.Node?
    decreases |word|, Size(t)
  {
    var n := if count == 0 then |word| else count;
    match t
    case Nil => Node(word, true, Nil, Nil)
    case Node(key, end, child, right) =>
      var k := Lcp(word, key);
      if k == 0 then Node(key, end, child, InsertNode(right, word, n))
      else if k < n then
        var s := if k < |key| then (var u := Split(t, k); u.(end := false)) else t;
        s.(child := InsertNode(s.child, word[k..], n - k))
      else if k == n then
        var s := if k < |key| then Split(t, k) else t;
        s.(end := true)
      else t
  }

  /** Inserting stores the word and keeps every word stored before; no
      other word appears. */
  lemma {:induction false} InsertWords(t: Link, word: string, count: nat)
    requires count == 0 || count == |word|
    ensures Words(InsertNode(t, word, count)) == Words(t) + {word}
    decreases |word|, Size(t)
  {
    match t
    case Nil =>
      var r := InsertNode(t, word, count);
      assert Words(r) == Below(r);
    case Node(key, end, child, right) =>
      var k := Lcp(word, key);
      if k == 0 {
        InsertWords(right, word, |word|);
        InsertPasses(t, word, count);
      } else if k < |word| {
        var s := if k < |key| then (var u := Split(t, k); u.(end := false)) else t;
        InsertWords(s.child, word[k..], |word| - k);
        OpenWords(t, word, count);
      } else {
        MarkWords(t, word, count);
      }
  }

  /** The step of `InsertWords` for a word that is a prefix of the label. */
  lemma MarkWords(t: Link, word: string, count: nat)
    requires t.Node? && (count == 0 || count == |word|)
    requires 0 < Lcp(word, t.key) && |word| <= Lcp(word, t.key)
    ensures Words(InsertNode(t, word, count)) == Words(t) + {word}
  {
    InsertMarks(t, word, count);
    WholeStep(t, word, if |word| < |t.key| then Split(t, |word|) else t);
  }

  /** The step of `InsertWords` for a word that opens the node. */
  lemma OpenWords(t: Link, word: string, count: nat)
    requires t.Node? && (count == 0 || count == |word|) && 0 < Lcp(word, t.key) < |word|
    requires var k := Lcp(word, t.key);
             var s := if k < |t.key| then (var u := Split(t, k); u.(end := false)) else t;
             Words(InsertNode(s.child, word[k..], |word| - k)) == Words(s.child) + {word[k..]}
    ensures Words(InsertNode(t, word, count)) == Words(t) + {word}
  {
    var k := Lcp(word, t.key);
    var s := if k < |t.key| then (var u := Split(t, k); u.(end := false)) else t;
    InsertOpens(t, word, count);
    SharedStep(t, word, k, s, InsertNode(s.child, word[k..], |word| - k));
  }

  /** `insert` on a node sharing no first letter with the word passes the
      word to the node's sibling. */
  lemma InsertPasses(t: Link, word: string, count: nat)
    requires t.Node? && (count == 0 || count == |word|) && Lcp(word, t.key) == 0
    ensures InsertNode(t, word, count) == t.(right := InsertNode(t.right, word, |word|))
  {
  }

  /** `insert` on a node sharing some, but not all, letters of the word:
      the node is opened and the rest of the word goes to its children. */
  lemma InsertOpens(t: Link, word: string, count: nat)
    requires t.Node? && (count == 0 || count == |word|) && 0 < Lcp(word, t.key) < |word|
    ensures var k := Lcp(word, t.key);
            var s := if k < |t.key| then (var u := Split(t, k); u.(end := false)) else t;
            InsertNode(t, word, count) == s.(child := InsertNode(s.child, word[k..], |word| - k))
  {
  }

  /** `insert` on a node whose label starts with the whole word: the node
      is split after the word when the label is longer, and marked. */
  lemma InsertMarks(t: Link, word: string, count: nat)
    requires t.Node? && (count == 0 || count == |word|) && 0 < Lcp(word, t.key) && |word| <= Lcp(word, t.key)
    ensures var s := if |word| < |t.key| then Split(t, |word|) else t;
            InsertNode(t, word, count) == s.(end := true)
  {
  }

  /** The step of `insert` for a word that shares `k` letters, but not all
      of them, with the label: the opened node's children gain the rest of
      the word. */
  lemma SharedStep(t: Link, word: string, k: nat, s: Link, c: Link)
    requires t.Node? && 0 < k < |word| && k <= |t.key| && t.key[..k] == word[..k]
    requires s == if k < |t.key| then (var u := Split(t, k); u.(end := false)) else t
    requires Words(c) == Words(s.child) + {word[k..]}
    ensures Words(s.(child := c)) == Words(t) + {word}
  {
    if k < |t.key| {
      SplitWords(t, k);
    }
    AddBelow(s, word[k..], c);
    assert s.key + word[k..] == word by {
      assert word[..k] + word[k..] == word;
    }
  }

  /** The step of `insert` for a word that is a prefix of the label: the
      node, split after the word when the label is longer, is marked. */
  lemma WholeStep(t: Link, word: string, s: Link)
    requires t.Node? && |word| <= |t.key| && t.key[..|word|] == word
    requires s == if |word| < |t.key| then Split(t, |word|) else t
    ensures Words(s.(end := true)) == Words(t) + {word}
  {
    var k := |word|;
    if k < |t.key| {
      var u := Split(t, k);
      SplitWords(t, k);
      assert s.(end := true) == u.(end := false).(end := true);
      MarkBelow(u.(end := false));
    } else {
      assert t.key == word;
      MarkBelow(t);
    }
  }

  /** A node whose children gain the word `v` gains its label followed by `v`. */
  lemma AddBelow(s: Link, v: string, c: Link)
    requires s.Node? && Words(c) == Words(s.child) + {v}
    ensures Below(s.(child := c)) == Below(s) + {s.key + v}
  {
    PrefixedUnion(s.key, Words(s.child), {v});
  }

  /** Marking a node stores its label. */
  lemma MarkBelow(s: Link)
    requires s.Node?
    ensures Below(s.(end := true)) == Below(s) + {s.key}
  {
  }

  /** For a non-empty word, inserting keeps every label non-empty. */
  lemma {:induction false} InsertLabelled(t: Link, word: string, count: nat)
    requires Labelled(t) && |word| > 0 && (count == 0 || count == |word|)
    ensures Labelled(InsertNode(t, word, count))
    decreases |word|, Size(t)
  {
    match t
    case Nil =>
    case Node(key, end, child, right) =>
      var k := Lcp(word, key);
      if k == 0 {
        InsertLabelled(right, word, |word|);
        InsertPasses(t, word, count);
      } else if k < |word| {
        var s := if k < |key| then (var u := Split(t, k); u.(end := false)) else t;
        InsertLabelled(s.child, word[k..], |word| - k);
        InsertOpens(t, word, count);
      } else {
        InsertMarks(t, word, count);
      }
  }

  /** A word that shares no first letter with a node goes to the node's
      sibling, so the first letters of siblings stay distinct; the list
      gains the first letter of the word. */
  lemma {:induction false} InsertApart(t: Link, word: string, count: nat)
    requires Apart(t) && |word| > 0 && (count == 0 || count == |word|)
    ensures Apart(InsertNode(t, word, count))
    ensures Firsts(InsertNode(t, word, count)) == Firsts(t) + {word[0]}
    decreases |word|, Size(t)
  {
    match t
    case Nil =>
    case Node(key, end, child, right) =>
      var k := Lcp(word, key);
      if k == 0 {
        InsertApart(right, word, |word|);
        PassStep(t, word, count);
      } else if k < |word| {
        var s := if k < |key| then (var u := Split(t, k); u.(end := false)) else t;
        if k < |key| {
          SplitApart(t, k, false);
        }
        InsertApart(s.child, word[k..], |word| - k);
        OpenStep(t, word, count);
      } else {
        MarkStep(t, word, count);
      }
  }

  /** The step of `InsertApart` for a word passed to the sibling. */
  lemma PassStep(t: Link, word: string, count: nat)
    requires t.Node? && Apart(t) && |word| > 0 && (count == 0 || count == |word|) && Lcp(word, t.key) == 0
    requires Apart(InsertNode(t.right, word, |word|))
    requires Firsts(InsertNode(t.right, word, |word|)) == Firsts(t.right) + {word[0]}
    ensures Apart(InsertNode(t, word, count))
    ensures Firsts(InsertNode(t, word, count)) == Firsts(t) + {word[0]}
  {
    InsertPasses(t, word, count);
    assert word[0] != t.key[0];
    PassApart(t, InsertNode(t.right, word, |word|));
  }

  /** The step of `InsertApart` for a word that opens the node. */
  lemma OpenStep(t: Link, word: string, count: nat)
    requires t.Node? && Apart(t) && |word| > 0 && (count == 0 || count == |word|)
    requires 0 < Lcp(word, t.key) < |word|
    requires var k := Lcp(word, t.key);
             var s := if k < |t.key| then (var u := Split(t, k); u.(end := false)) else t;
             Apart(s) && Apart(InsertNode(s.child, word[k..], |word| - k))
    ensures Apart(InsertNode(t, word, count))
    ensures Firsts(InsertNode(t, word, count)) == Firsts(t) + {word[0]}
  {
    var k := Lcp(word, t.key);
    assert word[0] == word[..k][0] == t.key[..k][0] == t.key[0];
    var s := if k < |t.key| then (var u := Split(t, k); u.(end := false)) else t;
    InsertOpens(t, word, count);
    ChildApart(t, s, InsertNode(s.child, word[k..], |word| - k));
  }

  /** The step of `InsertApart` for a word that is a prefix of the label. */
  lemma MarkStep(t: Link, word: string, count: nat)
    requires t.Node? && Apart(t) && |word| > 0 && (count == 0 || count == |word|)
    requires 0 < Lcp(word, t.key) && |word| <= Lcp(word, t.key)
    ensures Apart(InsertNode(t, word, count))
    ensures Firsts(InsertNode(t, word, count)) == Firsts(t) + {word[0]}
  {
    var k := Lcp(word, t.key);
    assert word[0] == word[..k][0] == t.key[..k][0] == t.key[0];
    var s := if k < |t.key| then Split(t, k) else t;
    if k < |t.key| {
      SplitApart(t, k, t.end);
    }
    InsertMarks(t, word, count);
    ChildApart(t, s, s.child);
  }

  /** Splitting a node, whatever mark it is left with, keeps the siblings'
      first letters and their being distinct. */
  lemma SplitApart(t: Link, k: nat, mark: bool)
    requires t.Node? && Apart(t) && 0 < k < |t.key|
    ensures var u := Split(t, k); Apart(u.(end := mark)) && Firsts(u.(end := mark)) == Firsts(t)
  {
    assert t.key[..k][0] == t.key[0];
  }

  /** Replacing the sibling list of a node by one that is apart and does
      not hold the node's first letter keeps the list apart. */
  lemma PassApart(t: Link, r: Link)
    requires t.Node? && Apart(t.(right := Nil)) && Apart(r) && t.key[0] !in Firsts(r)
    ensures Apart(t.(right := r)) && Firsts(t.(right := r)) == {t.key[0]} + Firsts(r)
  {
  }

  /** Replacing the children or the mark of a node by ones that are apart
      keeps the siblings apart, with the same first letters. */
  lemma ChildApart(t: Link, s: Link, c: Link)
    requires t.Node? && Apart(t) && s.Node? && Apart(s) && Apart(c)
    requires s.key != [] && s.key[0] == t.key[0] && s.right == t.right
    ensures Apart(s.(child := c)) && Firsts(s.(child := c)) == Firsts(t)
    ensures Apart(s.(end := true)) && Firsts(s.(end := true)) == Firsts(t)
  {
  }

  // ---------------------------------------------------------------------
  // The restricted Damerau-Levenshtein distance that `r_search` tabulates

  /** Whether the last two letters of `s` are those of `t`, swapped. */
  predicate Transposed(s: string, t: string) {
    |s| > 1 && |t| > 1 && s[|s| - 1] == t[|t| - 2] && s[|s| - 2] == t[|t| - 1]
  }

  /** One table entry from the entry to its left, the one above, the
      diagonal one, the substitution cost and, after a swap of the last two
      letters, the entry two back on the diagonal: the cheapest of an
      insertion, a deletion, a substitution and a swap. */
  function Cell(left: nat, up: nat, diag: nat, cost: nat, swapped: bool, diag2: nat): nat {
    var base := Min(Min(left + 1, up + 1), diag + cost);
    if swapped then Min(base, diag2 + 1) else base
  }

  /** The optimal-string-alignment distance: insertions, deletions and
      substitutions cost 1, and so does swapping two adjacent letters. */
  function Osa(s: string, t: string): nat
    decreases |s| + |t|
  {
    if |s| == 0 then |t|
    else if |t| == 0 then |s|
    else
      var i, j := |s|, |t|;
      Cell(Osa(s, t[..j - 1]), Osa(s[..i - 1], t), Osa(s[..i - 1], t[..j - 1]), Cost(s[i - 1], t[j - 1]),
           Transposed(s, t), if Transposed(s, t) then Osa(s[..i - 2], t[..j - 2]) else 0)
  }

  /** The query as `r_search` reads it: its last column compares against
      the string terminator. */
  function Padded(word: string): string {
    word + ['\0']
  }

  /** The table row of `s` against the prefixes of `w`. */
  function Row(s: string, w: string): (r: seq<nat>)
    ensures |r| == |w| + 1
  {
    seq(|w| + 1, j requires 0 <= j <= |w| => Osa(s, w[..j]))
  }

  /** The row two letters back that `r_search` keeps in `vector_row`: empty
      before the second letter. */
  function TwoBack(s: string, w: string): seq<nat> {
    if |s| == 0 then [] else Row(s[..|s| - 1], w)
  }

  /** One entry of the row of `s` from the row of `s` without its last
      letter, the entry to its left and the row two letters back. */
  lemma OsaCell(s: string, w: string, j: nat)
    requires |s| >= 1 && 1 <= j <= |w|
    ensures Transposed(s, w[..j]) <==> |s| > 1 && j > 1 && s[|s| - 1] == w[j - 2] && s[|s| - 2] == w[j - 1]
    ensures Osa(s, w[..j]) ==
      Cell(Osa(s, w[..j - 1]), Osa(s[..|s| - 1], w[..j]), Osa(s[..|s| - 1], w[..j - 1]),
           Cost(s[|s| - 1], w[j - 1]), Transposed(s, w[..j]),
           if Transposed(s, w[..j]) then Osa(s[..|s| - 2], w[..j - 2]) else 0)
  {
    var t := w[..j];
    assert t[..j - 1] == w[..j - 1];
    assert t[j - 1] == w[j - 1];
    if j > 1 {
      assert t[..j - 2] == w[..j - 2] && t[j - 2] == w[j - 2];
    }
  }

  /** Entry `j` of the row of `s` as the inner loop of `r_search` computes
      it from the entry to its left, the row of `s` without its last letter
      (`previous`) and the row before that (`vector_row`). */
  lemma NextEntry(s: string, w: string, j: nat, left: nat, previous: seq<nat>, vectorRow: seq<nat>)
    requires |s| >= 1 && 1 <= j <= |w|
    requires left == Row(s, w)[j - 1]
    requires previous == Row(s[..|s| - 1], w)
    requires vectorRow == TwoBack(s[..|s| - 1], w)
    ensures var swapped := vectorRow != [] && j >= 2 && w[j - 2] == s[|s| - 1] && w[j - 1] == s[|s| - 2];
      Row(s, w)[j] == Cell(left, previous[j], previous[j - 1], Cost(s[|s| - 1], w[j - 1]),
                           swapped, if swapped then vectorRow[j - 2] else 0)
  {
    OsaCell(s, w, j);
    var p := s[..|s| - 1];
    assert previous[j] == Osa(p, w[..j]) && previous[j - 1] == Osa(p, w[..j - 1]);
    assert vectorRow != [] <==> |s| >= 2;
    if |s| >= 2 && j >= 2 {
      assert p[..|p| - 1] == s[..|s| - 2];
      assert vectorRow[j - 2] == Osa(s[..|s| - 2], w[..j - 2]);
    }
  }

  /** The row of `currentWord` computed from the rows of `currentWord`
      without its last letter and without its last two letters, the way
      the inner loop of `r_search` does. */
  method NextRow(vectorRow: seq<nat>, previous: seq<nat>, currentWord: string, word: string)
    returns (current: seq<nat>)
    requires |currentWord| >= 1
    requires previous == Row(currentWord[..|currentWord| - 1], Padded(word))
    requires vectorRow == TwoBack(currentWord[..|currentWord| - 1], Padded(word))
    ensures current == Row(currentWord, Padded(word))
  {
    var w := Padded(word);
    var s := currentWord;
    var columns := |word| + 2;
    current := [previous[0] + 1];
    assert s[..|s| - 1][..0] == [] && w[..0] == [];
    assert current == Row(s, w)[..1];
    var column := 1;
    while column < columns
      invariant 1 <= column <= columns && current == Row(s, w)[..column]
    {
      current := NextColumn(vectorRow, previous, current, s, word, column);
      column := column + 1;
    }
  }

  /** One pass of the inner loop of `r_search`: appends entry `column` of
      the row of `s`, the cheapest of an insertion, a deletion and a
      substitution, lowered to a swap when the last two letters of `s` are
      the two query letters before the column, swapped. */
  method NextColumn(vectorRow: seq<nat>, previous: seq<nat>, current: seq<nat>, s: string, word: string, column: nat)
    returns (next: seq<nat>)
    requires |s| >= 1 && 1 <= column <= |word| + 1
    requires previous == Row(s[..|s| - 1], Padded(word))
    requires vectorRow == TwoBack(s[..|s| - 1], Padded(word))
    requires current == Row(s, Padded(word))[..column]
    ensures next == Row(s, Padded(word))[..column + 1]
  {
    var w := Padded(word);
    var letter := s[|s| - 1];
    var insertCost := current[column - 1] + 1;
    var deleteCost := previous[column] + 1;
    var replaceCost := if w[column - 1] != letter then previous[column - 1] + 1 else previous[column - 1];
    next := current + [Min(Min(insertCost, deleteCost), replaceCost)];
    NextEntry(s, w, column, current[column - 1], previous, vectorRow);
    ghost var cost := Cost(letter, w[column - 1]);
    assert replaceCost == previous[column - 1] + cost;
    if vectorRow != [] && column >= 2 && w[column - 2] == letter && w[column - 1] == s[|s| - 2] {
      next := next[column := Min(next[column], vectorRow[column - 2] + 1)];
      assert next[column] == Cell(current[column - 1], previous[column], previous[column - 1], cost, true, vectorRow[column - 2]);
      assert next == current + [next[column]];
    } else {
      assert next[column] == Cell(current[column - 1], previous[column], previous[column - 1], cost, false, 0);
    }
    Extend(Row(s, w), current, column);
  }

  lemma Extend(row: seq<nat>, done: seq<nat>, k: nat)
    requires k < |row| && done == row[..k]
    ensures done + [row[k]] == row[..k + 1]
  {
  }

  /** An entry whose left, upper and diagonal neighbours are above `max`
      (the left and upper ones at least `max`), and whose swap candidate is
      at least `max`, is above `max`. */
  lemma CellAbove(left: nat, up: nat, diag: nat, cost: nat, swapped: bool, diag2: nat, max: nat)
    requires left >= max && up >= max && diag > max && (swapped ==> diag2 >= max)
    ensures Cell(left, up, diag, cost, swapped, diag2) > max
  {
  }

  /** An entry is at most one more than its diagonal neighbour. */
  lemma CellBelowDiag(left: nat, up: nat, diag: nat, cost: nat, swapped: bool, diag2: nat)
    requires cost <= 1
    ensures Cell(left, up, diag, cost, swapped, diag2) <= diag + 1
  {
  }

  /** A row with no entry within `max` is followed only by such rows: every
      candidate of the next entry is above `max`, the swap candidate
      because the diagonal step bounds the row two letters back. */
  lemma {:induction false} PruneCell(s: string, c: char, w: string, max: nat, j: nat)
    requires forall i :: 0 <= i <= |w| ==> Osa(s, w[..i]) > max
    requires j <= |w|
    ensures Osa(s + [c], w[..j]) > max
  {
    var s' := s + [c];
    assert s'[..|s'| - 1] == s;
    if j == 0 {
      assert Osa(s, w[..0]) > max;
    } else {
      PruneCell(s, c, w, max, j - 1);
      var up, diag := Osa(s, w[..j]), Osa(s, w[..j - 1]);
      assert up > max && diag > max;
      OsaCell(s', w, j);
      var t := Transposed(s', w[..j]);
      var d2 := if t then Osa(s'[..|s'| - 2], w[..j - 2]) else 0;
      if t {
        PruneSwap(s, c, w, max, j);
      }
      CellAbove(Osa(s', w[..j - 1]), up, diag, Cost(c, w[j - 1]), t, d2, max);
    }
  }

  /** The swap candidate of PruneCell: the entry two back on the diagonal
      is at least `max`, because the entry it is one step diagonal from,
      in the row with nothing within `max`, is above `max`. */
  lemma PruneSwap(s: string, c: char, w: string, max: nat, j: nat)
    requires forall i :: 0 <= i <= |w| ==> Osa(s, w[..i]) > max
    requires 1 <= j <= |w| && Transposed(s + [c], w[..j])
    ensures Osa((s + [c])[..|s| - 1], w[..j - 2]) >= max
  {
    var s' := s + [c];
    OsaCell(s', w, j);
    assert s'[..|s| - 1] == s[..|s| - 1];
    OsaCell(s, w, j - 1);
    assert Osa(s, w[..j - 1]) > max;
    CellBelowDiag(Osa(s, w[..j - 2]), Osa(s[..|s| - 1], w[..j - 1]), Osa(s[..|s| - 1], w[..j - 2]),
                  Cost(s[|s| - 1], w[j - 2]), Transposed(s, w[..j - 1]),
                  if Transposed(s, w[..j - 1]) then Osa(s[..|s| - 2], w[..j - 3]) else 0);
  }

  /** Once a row has no entry within `max`, no longer string comes within
      `max` of the query. */
  lemma {:induction false} Prune(s: string, u: string, word: string, max: nat)
    requires forall i :: 0 <= i <= |Padded(word)| ==> Osa(s, Padded(word)[..i]) > max
    ensures forall i :: 0 <= i <= |Padded(word)| ==> Osa(s + u, Padded(word)[..i]) > max
    ensures Osa(s + u, word) > max
    decreases |u|
  {
    var w := Padded(word);
    if u == [] {
      assert s + u == s;
    } else {
      var v := u[..|u| - 1];
      Prune(s, v, word, max);
      PruneRow(s + v, u[|u| - 1], w, max);
      assert (s + v) + [u[|u| - 1]] == s + u;
    }
    assert w[..|word|] == word;
    assert Osa(s + u, w[..|word|]) > max;
  }

  /** `PruneCell` for every column. */
  lemma PruneRow(s: string, c: char, w: string, max: nat)
    requires forall i :: 0 <= i <= |w| ==> Osa(s, w[..i]) > max
    ensures forall i :: 0 <= i <= |w| ==> Osa(s + [c], w[..i]) > max
  {
    forall i | 0 <= i <= |w|
      ensures Osa(s + [c], w[..i]) > max
    {
      PruneCell(s, c, w, max, i);
    }
  }

  /** `*min_element`: the smallest entry of a non-empty row. */
  function Lowest(r: seq<nat>): (m: nat)
    requires |r| > 0
    ensures m in r && forall x :: x in r ==> m <= x
  {
    if |r| == 1 then r[0]
    else
      var m := Lowest(r[1..]);
      assert forall x :: x in r ==> x == r[0] || x in r[1..];
      if r[0] <= m then r[0] else m
  }

  // ---------------------------------------------------------------------
  // search

  /** The words of the sibling list `t`, each after `prefix`, that are
      within `max` of `word`. */
  function Hits(t: Link, prefix: string, word: string, max: nat): set<string> {
    set w | w in Words(t) && Osa(prefix + w, word) <= max :: prefix + w
  }

  /** The same for the words at and under the node `t`. */
  function NodeHits(t: Link, prefix: string, word: string, max: nat): set<string>
    requires t.Node?
  {
    set w | w in Below(t) && Osa(prefix + w, word) <= max :: prefix + w
  }

  lemma HitsCons(t: Link, prefix: string, word: string, max: nat)
    requires t.Node?
    ensures Hits(t, prefix, word, max) == NodeHits(t, prefix, word, max) + Hits(t.right, prefix, word, max)
  {
  }

  /** When the whole label has been read into `prefix + t.key`, the hits at
      `t` are that word (when `t` is an end node within budget) and the hits
      of its children. */
  lemma NodeHitsFull(t: Link, prefix: string, word: string, max: nat)
    requires t.Node?
    ensures NodeHits(t, prefix, word, max) ==
      (if t.end && Osa(prefix + t.key, word) <= max then {prefix + t.key} else {}) +
      Hits(t.child, prefix + t.key, word, max)
  {
    var cw := prefix + t.key;
    forall v | v in Words(t.child)
      ensures prefix + (t.key + v) == cw + v
    {
    }
    forall x | x in Hits(t.child, cw, word, max)
      ensures x in NodeHits(t, prefix, word, max)
    {
      var v :| v in Words(t.child) && Osa(cw + v, word) <= max && x == cw + v;
      assert t.key + v in Below(t);
    }
  }

  /** When the row after the first `m` letters of the label has no entry
      within budget, nothing at or under `t` is a hit. */
  lemma NodeHitsPruned(t: Link, prefix: string, word: string, max: nat, m: nat)
    requires t.Node? && 1 <= m <= |t.key|
    requires forall i :: 0 <= i <= |Padded(word)| ==> Osa(prefix + t.key[..m], Padded(word)[..i]) > max
    ensures NodeHits(t, prefix, word, max) == {}
  {
    var cw := prefix + t.key[..m];
    forall w | w in Below(t)
      ensures Osa(prefix + w, word) > max
    {
      var v :| w == t.key || (v in Words(t.child) && w == t.key + v);
      var rest := if w == t.key then t.key[m..] else t.key[m..] + v;
      assert prefix + w == cw + rest by {
        assert t.key == t.key[..m] + t.key[m..];
      }
      Prune(cw, rest, word, max);
    }
  }

  /** The first half of `r_search`: reads the label of `node` letter by
      letter into `currentWord`, extending the row each time; records the
      word at the last letter of an end node whose entry for the whole
      query is within `maxCost`; and stops after the last letter or as soon
      as a row has no entry within `maxCost`. It returns what was read, the
      last two rows and the hits so far. */
  method ReadLabel(node: Link, word: string, vectorRow: seq<nat>, previous: seq<nat>,
                   result: set<string>, currentWord: string, maxCost: nat)
    returns (r: set<string>, cw: string, prev: seq<nat>, current: seq<nat>, m: nat)
    requires node.Node? && node.key != []
    requires previous == Row(currentWord, Padded(word))
    requires vectorRow == TwoBack(currentWord, Padded(word))
    ensures 1 <= m <= |node.key| && cw == currentWord + node.key[..m]
    ensures current == Row(cw, Padded(word)) && prev == TwoBack(cw, Padded(word))
    ensures Lowest(current) <= maxCost ==> m == |node.key|
    ensures r == result + if node.end && m == |node.key| && current[|current| - 2] <= maxCost then {cw} else {}
  {
    var w := Padded(word);
    var letters := node.key;
    cw := currentWord;
    var vr := vectorRow;
    prev := previous;
    current := [];
    r := result;
    var i := 0;
    while i < |letters|
      invariant i < |letters|
      invariant cw == currentWord + letters[..i]
      invariant prev == Row(cw, w) && vr == TwoBack(cw, w)
      invariant r == result
    {
      ghost var before := cw;
      cw := cw + [letters[i]];
      LabelStep(currentWord, letters, i, before, w);
      current := NextRow(vr, prev, cw, word);
      if current[|current| - 2] <= maxCost && node.end && i == |letters| - 1 {
        r := r + {cw};
      }
      if Lowest(current) <= maxCost && i != |letters| - 1 {
        vr := prev;
        prev := current;
        i := i + 1;
      } else {
        break;
      }
    }
    m := i + 1;
  }

  /** Reading letter i of a label extends the word read so far by it, and
      the row two letters back becomes the row before the letter. */
  lemma LabelStep(currentWord: string, letters: string, i: nat, before: string, w: string)
    requires i < |letters| && before == currentWord + letters[..i]
    ensures before + [letters[i]] == currentWord + letters[..i + 1]
    ensures (before + [letters[i]])[..|before|] == before
    ensures TwoBack(before + [letters[i]], w) == Row(before, w)
  {
    assert letters[..i + 1] == letters[..i] + [letters[i]];
    assert (before + [letters[i]])[..|before|] == before;
  }

  /** `r_search` on one node: reads its label (`ReadLabel`) and, unless the
      last row has no entry within `maxCost`, visits the children with the
      last two rows. The label is the node's own `key`, which is what every
      caller passes. */
  method RSearch(node: Link, word: string, vectorRow: seq<nat>, previous: seq<nat>,
                 result: set<string>, currentWord: string, maxCost: nat)
    returns (r: set<string>)
    requires node.Node? && Labelled(node.(right := Nil))
    requires previous == Row(currentWord, Padded(word))
    requires vectorRow == TwoBack(currentWord, Padded(word))
    ensures r == result + NodeHits(node, currentWord, word, maxCost)
    decreases Size(node)
  {
    var cw, prev, current, m;
    r, cw, prev, current, m := ReadLabel(node, word, vectorRow, previous, result, currentWord, maxCost);
    LabelRead(node, currentWord, word, maxCost, m, current);
    ghost var own := if node.end && m == |node.key| && current[|current| - 2] <= maxCost then {cw} else {};
    if Lowest(current) <= maxCost {
      assert node.key[..m] == node.key;
      ghost var hits := Hits(node.child, cw, word, maxCost);
      assert NodeHits(node, currentWord, word, maxCost) == own + hits;
      var childNode := node.child;
      while childNode != Nil
        invariant Size(childNode) <= Size(node.child) && Labelled(childNode)
        invariant r + Hits(childNode, cw, word, maxCost) == result + own + hits
        decreases Size(childNode)
      {
        HitsCons(childNode, cw, word, maxCost);
        r := RSearch(childNode, word, prev, current, r, cw, maxCost);
        childNode := childNode.right;
      }
      assert r == result + (own + hits);
    } else {
      assert current[|current| - 2] > maxCost;
      assert own == {};
    }
  }

  /** What `r_search` concludes once it has read the first `m` letters of
      the label and holds their row: the entry for the whole query is the
      distance of what was read; a row with no entry within `max` leaves no
      hit at or under the node; and once the whole label is read, the hits
      are the label itself (for an end node within `max`) and the hits of
      the children. */
  lemma LabelRead(node: Link, prefix: string, word: string, max: nat, m: nat, current: seq<nat>)
    requires node.Node? && 1 <= m <= |node.key|
    requires current == Row(prefix + node.key[..m], Padded(word))
    ensures current[|current| - 2] == Osa(prefix + node.key[..m], word)
    ensures Lowest(current) <= current[|current| - 2]
    ensures Lowest(current) > max ==> NodeHits(node, prefix, word, max) == {}
    ensures m == |node.key| ==>
              NodeHits(node, prefix, word, max) ==
              (if node.end && current[|current| - 2] <= max then {prefix + node.key} else {}) +
              Hits(node.child, prefix + node.key, word, max)
  {
    var w := Padded(word);
    assert w[..|word|] == word;
    assert current[|current| - 2] in current;
    if Lowest(current) > max {
      forall i | 0 <= i <= |w|
        ensures Osa(prefix + node.key[..m], w[..i]) > max
      {
        assert current[i] in current;
      }
      NodeHitsPruned(node, prefix, word, max, m);
    }
    if m == |node.key| {
      assert node.key[..m] == node.key;
      NodeHitsFull(node, prefix, word, max);
    }
  }

  /** With nothing read yet, the hits are the stored words within `max`. */
  lemma HitsFromRoot(t: Link, word: string, max: nat)
    ensures Hits(t, [], word, max) == set w | w in Words(t) && Osa(w, word) <= max
  {
    forall w | w in Words(t)
      ensures [] + w == w
    {
    }
  }

  /** The structure that `insert` and `search` work on. */
  class Trie {
    var root: Link

    constructor ()
      ensures root == Nil
    {
      root := Nil;
    }

    /** `insert`: the word is stored and nothing else changes in the set
        of stored words; a non-empty word keeps siblings apart. */
    method Insert(word: string)
      modifies this
      ensures root == InsertNode(old(root), word, 0)
      ensures Words(root) == old(Words(root)) + {word}
      ensures |word| > 0 && old(Apart(root)) ==> Apart(root)
      ensures |word| > 0 && old(Labelled(root)) ==> Labelled(root)
    {
      InsertWords(root, word, 0);
      if |word| > 0 && Apart(root) {
        InsertApart(root, word, 0);
      }
      if |word| > 0 && Labelled(root) {
        InsertLabelled(root, word, 0);
      }
      root := InsertNode(root, word, 0);
    }

    /** `search`: every stored word within `maxCost` of `word` in the
        restricted Damerau-Levenshtein distance, and no other string. */
    method Search(word: string, maxCost: nat) returns (result: set<string>)
      requires Labelled(root)
      ensures result == set w | w in Words(root) && Osa(w, word) <= maxCost
    {
      var current: seq<nat> := [];
      var i := 0;
      while i <= |word| + 1
        invariant i <= |word| + 2 && current == seq(i, j => j)
      {
        current := current + [i];
        i := i + 1;
      }
      forall j | 0 <= j < |current|
        ensures current[j] == Row([], Padded(word))[j]
      {
      }
      result := {};
      var currentWord: string := [];
      var prevRow: seq<nat> := [];
      var node := root;
      while node != Nil
        invariant Labelled(node)
        invariant result + Hits(node, currentWord, word, maxCost) == Hits(root, currentWord, word, maxCost)
        decreases Size(node)
      {
        HitsCons(node, currentWord, word, maxCost);
        result := RSearch(node, word, prevRow, current, result, currentWord, maxCost);
        node := node.right;
      }
      HitsFromRoot(root, word, maxCost);
    }
  }
}
