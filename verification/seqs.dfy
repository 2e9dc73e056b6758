/** Identities of sequence concatenation, stated for any element type so that
    the verifier never has to compare strings character by character to use
    them. */
module Seqs {

  /** Concatenation is associative. */
  lemma AppendAssoc<T>(xs: seq<T>, ys: seq<T>, zs: seq<T>)
    ensures xs + (ys + zs) == (xs + ys) + zs
  {
  }

  /** The head and tail of a concatenation whose left part is non-empty. */
  lemma AppendSplit<T>(xs: seq<T>, ys: seq<T>)
    requires |xs| >= 1
    ensures (xs + ys)[0] == xs[0] && (xs + ys)[1..] == xs[1..] + ys
  {
  }

  /** Three singletons concatenated are the three-element sequence. */
  lemma Triple<T>(x: T, y: T, z: T)
    ensures [x] + ([y] + [z]) == [x, y, z]
  {
  }

  /** Where each part sits in `[g] + r + [l] + a + s + u + o`, the layout of a
      command's arguments. */
  lemma Layout<T>(g: T, r: seq<T>, l: T, a: seq<T>, s: seq<T>, u: seq<T>, o: seq<T>)
    ensures var x := [g] + (r + ([l] + (a + (s + (u + o)))));
      var k := |r| + 2;
      && |x| == k + |a| + |s| + |u| + |o|
      && x[0] == g && x[1..k - 1] == r && x[k - 1] == l
      && x[k..k + |a|] == a
      && x[k + |a|..|x| - |o|] == s + u
      && x[|x| - |o|..] == o
  {
    var x := [g] + (r + ([l] + (a + (s + (u + o)))));
    var k := |r| + 2;
    assert x[1..] == r + ([l] + (a + (s + (u + o))));
    assert x[k..] == a + (s + (u + o));
    assert x[k + |a|..] == s + (u + o);
  }

  /** With `r`, `s` and `u` empty the layout shrinks to `[g, l] + a + o`. */
  lemma LayoutWithoutFlags<T>(g: T, r: seq<T>, l: T, a: seq<T>, s: seq<T>, u: seq<T>, o: seq<T>)
    requires r == [] && s == [] && u == []
    ensures [g] + (r + ([l] + (a + (s + (u + o))))) == [g, l] + a + o
  {
  }

  /** Four singletons with empty sequences between them. */
  lemma Quad<T>(a: T, b: T, c: T, d: T, e1: seq<T>, e2: seq<T>)
    requires e1 == [] && e2 == []
    ensures [a] + (e1 + ([b] + (e2 + ([c] + [d])))) == [a, b, c, d]
  {
  }
}
