/** How the command-driven containers lay out a line of values: each value
    followed by a separator, a space between values and a newline after the
    last one. */
module TextOutput {

  /** Every value followed by a single space. */
  function Spaced(vs: seq<string>): (r: string)
    ensures |r| == Width(vs) + |vs|
  {
    if vs == [] then "" else Spaced(vs[..|vs| - 1]) + vs[|vs| - 1] + " "
  }

  /** Total number of characters in the values. */
  function Width(vs: seq<string>): nat {
    if vs == [] then 0 else Width(vs[..|vs| - 1]) + |vs[|vs| - 1]|
  }

  /** One output line: the values separated by spaces, ended by a newline. */
  function Line(vs: seq<string>): (r: string)
    requires vs != []
    ensures |r| == Width(vs) + |vs| && r[|r| - 1] == '\n'
  {
    Spaced(vs[..|vs| - 1]) + vs[|vs| - 1] + "\n"
  }

  /** A value with no blank or newline in it. */
  predicate Plain(v: string) {
    forall k :: 0 <= k < |v| ==> v[k] != ' ' && v[k] != '\n'
  }

  /** Splits a text at blanks: the pieces between the blanks, where the
      text must end with a blank. */
  function Pieces(t: string): seq<string>
    decreases |t|
  {
    if t == [] then []
    else
      var k := FirstBlank(t, 0);
      if k == |t| then [t] else [t[..k]] + Pieces(t[k + 1..])
  }

  /** The first index at or after `from` holding a blank, or |t|. */
  function FirstBlank(t: string, from: nat): (k: nat)
    requires from <= |t|
    ensures from <= k <= |t| && (k < |t| ==> t[k] == ' ')
    ensures forall m :: from <= m < k ==> t[m] != ' '
    decreases |t| - from
  {
    if from == |t| || t[from] == ' ' then from else FirstBlank(t, from + 1)
  }

  /** Spaced text of plain values splits back into the values. */
  lemma {:induction false} SpacedPieces(vs: seq<string>)
    requires forall k :: 0 <= k < |vs| ==> Plain(vs[k]) && vs[k] != ""
    ensures Pieces(Spaced(vs)) == vs
    decreases |vs|
  {
    if vs != [] {
      SpacedFront(vs);
      PiecesFront(vs[0], Spaced(vs[1..]));
      SpacedPieces(vs[1..]);
      assert vs == [vs[0]] + vs[1..];
    }
  }

  /** A plain value, a blank and the rest split into the value and the
      pieces of the rest. */
  lemma PiecesFront(v: string, rest: string)
    requires Plain(v)
    ensures Pieces(v + " " + rest) == [v] + Pieces(rest)
  {
    var t := v + " " + rest;
    forall m | 0 <= m < |v| ensures t[m] != ' ' {
      assert t[m] == v[m];
    }
    FirstBlankAt(t, |v|);
    assert t[..|v|] == v;
    assert t[|v| + 1..] == rest;
  }

  /** A printed line of plain values, read back with its newline taken
      for a blank, gives the values again. */
  lemma LinePieces(vs: seq<string>)
    requires vs != []
    requires forall k :: 0 <= k < |vs| ==> Plain(vs[k]) && vs[k] != ""
    ensures var t := Line(vs); Pieces(t[..|t| - 1] + " ") == vs
  {
    var t := Line(vs);
    assert t[..|t| - 1] + " " == Spaced(vs);
    SpacedPieces(vs);
  }

  /** Spaced text opens with the first value and a blank. */
  lemma {:induction false} SpacedFront(vs: seq<string>)
    requires vs != []
    ensures Spaced(vs) == vs[0] + " " + Spaced(vs[1..])
    decreases |vs|
  {
    if |vs| > 1 {
      var init, tail := vs[..|vs| - 1], vs[1..];
      SpacedFront(init);
      assert init[1..] == tail[..|tail| - 1];
      assert init[0] == vs[0] && tail[|tail| - 1] == vs[|vs| - 1];
      assert Spaced(tail) == Spaced(init[1..]) + vs[|vs| - 1] + " ";
    } else {
      assert vs[1..] == [];
    }
  }

  /** Where the text holds no blank before `k` but does at `k`, the first
      blank is at `k`. */
  lemma FirstBlankAt(t: string, k: nat)
    requires k < |t| && t[k] == ' '
    requires forall m :: 0 <= m < k ==> t[m] != ' '
    ensures FirstBlank(t, 0) == k
  {
  }
}
