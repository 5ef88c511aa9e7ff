/** Types and selections that several modules share. */
module Common {

  datatype Option<T> = None | Some(value: T)

  type byte = x: int | 0 <= x < 256

  /** The elements of s for which keep holds, in order. */
  function Filtered<T>(keep: T -> bool, s: seq<T>): seq<T>
  {
    if s == [] then []
    else Filtered(keep, s[..|s| - 1]) + if keep(s[|s| - 1]) then [s[|s| - 1]] else []
  }

  /** r is the elements of s at the indices f, which are in order and just those at which keep
      holds. */
  ghost predicate IsSelection<T>(keep: T -> bool, s: seq<T>, f: seq<nat>, r: seq<T>)
  {
    && |f| == |r|
    && (forall i, j | 0 <= i < j < |f| :: f[i] < f[j])
    && (forall i | 0 <= i < |f| :: f[i] < |s| && r[i] == s[f[i]])
    && (forall k | 0 <= k < |s| :: k in f <==> keep(s[k]))
  }

  lemma {:induction false} FilteredIsSelection<T>(keep: T -> bool, s: seq<T>) returns (f: seq<nat>)
    ensures IsSelection(keep, s, f, Filtered(keep, s))
  {
    if s == [] {
      f := [];
    } else {
      var n := |s| - 1;
      var g := FilteredIsSelection(keep, s[..n]);
      f := if keep(s[n]) then g + [n] else g;
      SelectNext(keep, s, g, Filtered(keep, s[..n]), f, Filtered(keep, s));
    }
  }

  lemma SelectNext<T>(keep: T -> bool, s: seq<T>, g: seq<nat>, q: seq<T>, f: seq<nat>, r: seq<T>)
    requires s != [] && IsSelection(keep, s[..|s| - 1], g, q)
    requires var n := |s| - 1; if keep(s[n]) then f == g + [n] && r == q + [s[n]] else f == g && r == q
    ensures IsSelection(keep, s, f, r)
  {
    var n := |s| - 1;
    forall k | 0 <= k < |s| ensures k in f <==> keep(s[k]) {
      if k < n { assert s[..n][k] == s[k]; }
    }
  }

  lemma FilteredOne<T>(keep: T -> bool, x: T)
    ensures Filtered(keep, [x]) == if keep(x) then [x] else []
  {
    assert [x][..0] == [] && Filtered(keep, []) == [];
  }

  lemma {:induction false} FilteredConcat<T>(keep: T -> bool, a: seq<T>, b: seq<T>)
    ensures Filtered(keep, a + b) == Filtered(keep, a) + Filtered(keep, b)
  {
    if b == [] {
      assert a + b == a;
    } else {
      assert (a + b)[..|a + b| - 1] == a + b[..|b| - 1];
      FilteredConcat(keep, a, b[..|b| - 1]);
    }
  }
}
