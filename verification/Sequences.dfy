/** Functions on sequences shared by the models. */
module Sequences {

  datatype Option<+T> = None | Some(value: T)

  /** The concatenation of all pieces, in order. */
  function Flatten<T>(pieces: seq<seq<T>>): seq<T> {
    if pieces == [] then [] else Flatten(pieces[..|pieces| - 1]) + pieces[|pieces| - 1]
  }

  lemma FlattenAppend<T>(pieces: seq<seq<T>>, last: seq<T>)
    ensures Flatten(pieces + [last]) == Flatten(pieces) + last
  {
    assert (pieces + [last])[..|pieces|] == pieces;
  }

  lemma FlattenOne<T>(piece: seq<T>)
    ensures Flatten([piece]) == piece
  {
    assert [piece][..0] == [];
    assert Flatten([piece][..0]) == [];
  }

  lemma {:induction false} FlattenFront<T>(pieces: seq<seq<T>>)
    requires pieces != []
    ensures Flatten(pieces) == pieces[0] + Flatten(pieces[1..])
  {
    hide Flatten;
    var n := |pieces| - 1;
    if n == 0 {
      FlattenOne(pieces[0]);
      assert pieces == [pieces[0]] && pieces[1..] == [];
      FlattenNone<T>();
    } else {
      var front, middle, last := pieces[..n], pieces[1..n], pieces[n];
      FlattenFront(front);
      assert front[1..] == middle;
      FlattenAppend(front, last);
      assert pieces == front + [last];
      FlattenAppend(middle, last);
      assert pieces[1..] == middle + [last];
      Regroup(pieces[0], Flatten(middle), last);
    }
  }

  lemma FlattenNone<T>()
    ensures Flatten<T>([]) == []
  {
  }

  lemma Regroup<T>(a: seq<T>, b: seq<T>, c: seq<T>)
    ensures (a + b) + c == a + (b + c)
  {
  }

  /** With pieces of equal length, the k-th piece is the k-th block of the concatenation. */
  lemma {:induction false} FlattenBlock<T>(pieces: seq<seq<T>>, size: nat, k: nat)
    requires forall i :: 0 <= i < |pieces| ==> |pieces[i]| == size
    requires k < |pieces|
    ensures |Flatten(pieces)| == size * |pieces|
    ensures 0 <= size * k <= size * k + size <= |Flatten(pieces)|
    ensures pieces[k] == Flatten(pieces)[size * k..size * k + size]
  {
    var n := |pieces| - 1;
    var front := pieces[..n];
    assert size * |pieces| == size * n + size;
    if n > 0 {
      FlattenBlock(front, size, if k < n then k else 0);
      if k < n {
        assert front[k] == pieces[k];
      }
    } else {
      assert front == [];
    }
  }

  /** The numbers below n. */
  function Below(n: nat): (s: set<nat>)
    ensures |s| == n
    ensures forall e: nat :: e in s <==> e < n
  {
    if n == 0 then {} else Below(n - 1) + {n - 1}
  }

  lemma {:induction false} CountDistinct<T(!new)>(items: seq<T>)
    requires forall i, j :: 0 <= i < j < |items| ==> items[i] != items[j]
    ensures |set e | e in items| == |items|
  {
    if items != [] {
      var n := |items| - 1;
      var front := items[..n];
      CountDistinct(front);
      assert items == front + [items[n]];
      assert (set e | e in items) == (set e | e in front) + {items[n]};
    }
  }

  lemma {:induction false} SubsetSize<T>(a: set<T>, b: set<T>)
    requires a <= b
    ensures |a| <= |b|
    ensures b <= a ==> |a| == |b|
  {
    if a != {} {
      var x :| x in a;
      SubsetSize(a - {x}, b - {x});
    }
  }

  /** The order of texts by their first difference, a prefix coming first. */
  predicate TextLess(a: string, b: string)
    decreases |a|
  {
    if b == [] then false
    else if a == [] then true
    else a[0] < b[0] || (a[0] == b[0] && TextLess(a[1..], b[1..]))
  }

  /** Texts that begin with fields of one width compare by the field first, then by the rest. */
  lemma {:induction false} FieldOrder(x: string, x': string, u: string, u': string)
    requires |x| == |x'|
    ensures TextLess(x + u, x' + u') <==> TextLess(x, x') || (x == x' && TextLess(u, u'))
    decreases |x|
  {
    if x == [] {
      assert x + u == u && x' + u' == u';
    } else {
      FieldOrder(x[1..], x'[1..], u, u');
      assert (x + u)[1..] == x[1..] + u && (x' + u')[1..] == x'[1..] + u';
      assert x == [x[0]] + x[1..] && x' == [x'[0]] + x'[1..];
    }
  }

  lemma {:induction false} NotLessThanItself(x: string)
    ensures !TextLess(x, x)
    decreases |x|
  {
    if x != [] {
      NotLessThanItself(x[1..]);
    }
  }

  lemma {:induction false} TextOrderIsTransitive(x: string, y: string, z: string)
    requires TextLess(x, y) && TextLess(y, z)
    ensures TextLess(x, z)
    decreases |x|
  {
    if x != [] && x[0] == y[0] == z[0] {
      TextOrderIsTransitive(x[1..], y[1..], z[1..]);
    }
  }

  lemma {:induction false} TextOrderIsTotal(x: string, y: string)
    ensures TextLess(x, y) || TextLess(y, x) || x == y
    decreases |x|
  {
    if x != [] && y != [] && x[0] == y[0] {
      TextOrderIsTotal(x[1..], y[1..]);
      assert x == [x[0]] + x[1..] && y == [y[0]] + y[1..];
    }
  }
}
