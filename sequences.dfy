/**
 * Generic sequence operations that the session relies on: the search
 * primitives of QByteArray and QString (indexOf, startsWith, contains),
 * splitting on a separator (QString::split) and its inverse, and
 * flattening a sequence of sequences.
 */
module Sequences {

  /** Index of the first occurrence of `x` in `s`, or -1 when there is none. */
  function IndexOf<T(==)>(s: seq<T>, x: T): (r: int)
    ensures r == -1 <==> x !in s
    ensures r != -1 ==> 0 <= r < |s| && s[r] == x && x !in s[..r]
  {
    if |s| == 0 then -1
    else if s[0] == x then 0
    else
      var k := IndexOf(s[1..], x);
      if k == -1 then -1
      else
        assert s[..k + 1] == [s[0]] + s[1..][..k];
        k + 1
  }

  /** The first occurrence is the only position holding `x` with no `x` before it. */
  lemma IndexOfAt<T>(s: seq<T>, x: T, j: int)
    requires 0 <= j < |s| && s[j] == x && x !in s[..j]
    ensures IndexOf(s, x) == j
  {
  }

  /** Index of the last occurrence of `x` in `s`, or -1 when there is none. */
  function LastIndexOf<T(==)>(s: seq<T>, x: T): (r: int)
    ensures r == -1 <==> x !in s
    ensures r != -1 ==> 0 <= r < |s| && s[r] == x && x !in s[r + 1..]
  {
    if |s| == 0 then -1
    else if s[|s| - 1] == x then |s| - 1
    else
      var k := LastIndexOf(s[..|s| - 1], x);
      assert k != -1 ==> s[k + 1..] == s[..|s| - 1][k + 1..] + [s[|s| - 1]];
      assert k == -1 ==> s == s[..|s| - 1] + [s[|s| - 1]];
      k
  }

  /** The last occurrence is the only position holding `x` with no `x` after it. */
  lemma LastIndexOfAt<T>(s: seq<T>, x: T, j: int)
    requires 0 <= j < |s| && s[j] == x && x !in s[j + 1..]
    ensures LastIndexOf(s, x) == j
  {
  }

  /** QString::startsWith / QByteArray::startsWith. */
  predicate StartsWith<T(==)>(s: seq<T>, prefix: seq<T>) {
    |prefix| <= |s| && s[..|prefix|] == prefix
  }

  /** `p` occurs in `s` starting at position `i`. */
  ghost predicate OccursAt<T>(s: seq<T>, p: seq<T>, i: int) {
    0 <= i && i + |p| <= |s| && s[i..i + |p|] == p
  }

  lemma OccursAtTail<T>(s: seq<T>, p: seq<T>)
    requires |s| > 0
    ensures forall i :: 0 <= i ==> (OccursAt(s[1..], p, i) <==> OccursAt(s, p, i + 1))
  {
    forall i | 0 <= i
      ensures OccursAt(s[1..], p, i) <==> OccursAt(s, p, i + 1)
    {
      if 0 <= i && i + 1 + |p| <= |s| {
        assert s[1..][i..i + |p|] == s[i + 1..i + 1 + |p|];
      }
    }
  }

  /** QString::contains: `p` occurs somewhere in `s`. */
  function Contains<T(==)>(s: seq<T>, p: seq<T>): (r: bool)
    ensures r <==> exists i :: OccursAt(s, p, i)
    decreases |s|
  {
    if StartsWith(s, p) then
      assert OccursAt(s, p, 0);
      true
    else if |s| == 0 then
      assert forall i :: OccursAt(s, p, i) ==> i == 0 && |p| == 0;
      false
    else
      OccursAtTail(s, p);
      assert !OccursAt(s, p, 0);
      assert forall i :: OccursAt(s, p, i) ==> i >= 1 && OccursAt(s[1..], p, i - 1);
      Contains(s[1..], p)
  }

  /** The concatenation of all the sequences in `ss`, in order. */
  /** Concatenation is associative. */
  lemma Associate<T>(a: seq<T>, b: seq<T>, c: seq<T>)
    ensures (a + b) + c == a + (b + c)
  {
  }

  function Concat<T>(ss: seq<seq<T>>): seq<T> {
    if ss == [] then [] else ss[0] + Concat(ss[1..])
  }

  /** The parts joined with one `sep` between neighbours (QStringList::join). */
  function Join<T>(parts: seq<seq<T>>, sep: T): seq<T> {
    if |parts| == 0 then []
    else if |parts| == 1 then parts[0]
    else parts[0] + [sep] + Join(parts[1..], sep)
  }

  /**
   * QString::split(sep) with the default KeepEmptyParts behaviour: the
   * maximal `sep`-free pieces of `s`, empty ones included, so there is
   * always one more part than there are separators.
   */
  function Split<T(==)>(s: seq<T>, sep: T): (parts: seq<seq<T>>)
    ensures |parts| == multiset(s)[sep] + 1
    ensures forall i :: 0 <= i < |parts| ==> sep !in parts[i]
    ensures Join(parts, sep) == s
    decreases |s|
  {
    var k := IndexOf(s, sep);
    if k == -1 then
      assert multiset(s)[sep] == 0;
      [s]
    else
      var rest := Split(s[k + 1..], sep);
      SplitStep(s, sep, k, rest);
      [s[..k]] + rest
  }

  /** One step of `Split`: the piece before the first separator, then the pieces after it. */
  lemma SplitStep<T>(s: seq<T>, sep: T, k: int, rest: seq<seq<T>>)
    requires 0 <= k < |s| && s[k] == sep && sep !in s[..k]
    requires |rest| == multiset(s[k + 1..])[sep] + 1
    requires forall i :: 0 <= i < |rest| ==> sep !in rest[i]
    requires Join(rest, sep) == s[k + 1..]
    ensures |[s[..k]] + rest| == multiset(s)[sep] + 1
    ensures forall i :: 0 <= i < |[s[..k]] + rest| ==> sep !in ([s[..k]] + rest)[i]
    ensures Join([s[..k]] + rest, sep) == s
  {
    var parts := [s[..k]] + rest;
    assert s == s[..k] + [sep] + s[k + 1..];
    assert multiset(s) == multiset(s[..k]) + multiset([sep]) + multiset(s[k + 1..]);
    assert multiset(s[..k])[sep] == 0;
    assert parts[1..] == rest;
  }

  /** Splitting a join of `sep`-free parts gives the parts back. */
  lemma {:induction false} SplitJoin<T>(parts: seq<seq<T>>, sep: T)
    requires |parts| >= 1
    requires forall i :: 0 <= i < |parts| ==> sep !in parts[i]
    ensures Split(Join(parts, sep), sep) == parts
  {
    var s := Join(parts, sep);
    if |parts| == 1 {
      assert IndexOf(s, sep) == -1;
    } else {
      var p, rest := parts[0], parts[1..];
      var tail := Join(rest, sep);
      assert s == p + [sep] + tail;
      SplitJoin(rest, sep);
      SplitAfterPiece(p, tail, sep);
      assert parts == [p] + rest;
    }
  }

  /** A `sep`-free piece, then `sep`: the piece is the first part and splitting goes on after it. */
  lemma SplitAfterPiece<T>(p: seq<T>, tail: seq<T>, sep: T)
    requires sep !in p
    ensures Split(p + [sep] + tail, sep) == [p] + Split(tail, sep)
  {
    var s := p + [sep] + tail;
    assert s[..|p|] == p;
    IndexOfAt(s, sep, |p|);
    assert s[|p| + 1..] == tail;
  }

  /** The non-empty members of `parts`, in order. */
  function NonEmpty<T>(parts: seq<seq<T>>): (r: seq<seq<T>>)
    ensures |r| <= |parts|
    ensures forall i :: 0 <= i < |r| ==> r[i] != []
    ensures forall i :: 0 <= i < |r| ==> r[i] in parts
    ensures Concat(r) == Concat(parts)
  {
    if parts == [] then []
    else
      var tail := NonEmpty(parts[1..]);
      assert forall i :: 0 <= i < |tail| ==> tail[i] in parts[1..];
      if parts[0] == [] then tail
      else
        assert ([parts[0]] + tail)[1..] == tail;
        [parts[0]] + tail
  }

  /** Dropping empty parts works part by part: a run of parts, then another, keeps theirs in that order. */
  lemma {:induction false} NonEmptyAppend<T>(a: seq<seq<T>>, b: seq<seq<T>>)
    ensures NonEmpty(a + b) == NonEmpty(a) + NonEmpty(b)
  {
    if a == [] {
      assert a + b == b;
    } else {
      assert (a + b)[0] == a[0] && (a + b)[1..] == a[1..] + b;
      NonEmptyAppend(a[1..], b);
    }
  }

  /** A single part is kept exactly when it is not empty. */
  lemma NonEmptyOne<T>(p: seq<T>)
    ensures NonEmpty([p]) == if p == [] then [] else [p]
  {
    assert [p][1..] == [];
  }

  /** Every member of `parts` is non-empty. */
  ghost predicate AllNonEmpty<T>(parts: seq<seq<T>>) {
    forall i :: 0 <= i < |parts| ==> parts[i] != []
  }

  lemma {:induction false} NonEmptyOfNonEmpty<T>(parts: seq<seq<T>>)
    requires AllNonEmpty(parts)
    ensures NonEmpty(parts) == parts
  {
    if parts != [] {
      NonEmptyOfNonEmpty(parts[1..]);
    }
  }

  /**
   * QString::split(sep, Qt::SkipEmptyParts): the non-empty maximal
   * `sep`-free pieces of `s`. Together they hold every element of `s`
   * except the separators.
   */
  function SplitSkipEmpty<T(==)>(s: seq<T>, sep: T): (tokens: seq<seq<T>>)
    ensures forall i :: 0 <= i < |tokens| ==> tokens[i] != [] && sep !in tokens[i]
    ensures multiset(Concat(tokens)) == multiset(s)[sep := 0]
  {
    var parts := Split(s, sep);
    SplitMultiset(s, sep);
    NonEmpty(parts)
  }

  lemma {:induction false} SplitMultiset<T>(s: seq<T>, sep: T)
    ensures multiset(Concat(Split(s, sep))) == multiset(s)[sep := 0]
    decreases |s|
  {
    var k := IndexOf(s, sep);
    if k == -1 {
      assert Split(s, sep) == [s];
      ConcatOne(s);
    } else {
      var a, b := s[..k], s[k + 1..];
      var rest := Split(b, sep);
      assert Split(s, sep) == [a] + rest;
      ConcatCons(a, rest);
      SplitMultiset(b, sep);
      assert s == a + [sep] + b;
      MultisetDropSeparator(a, b, Concat(rest), sep);
    }
  }

  lemma ConcatOne<T>(s: seq<T>)
    ensures Concat([s]) == s
  {
    assert [s][1..] == [];
  }

  lemma ConcatCons<T>(a: seq<T>, rest: seq<seq<T>>)
    ensures Concat([a] + rest) == a + Concat(rest)
  {
    assert ([a] + rest)[1..] == rest;
  }

  lemma MultisetDropSeparator<T>(a: seq<T>, b: seq<T>, c: seq<T>, sep: T)
    requires sep !in a
    requires multiset(c) == multiset(b)[sep := 0]
    ensures multiset(a + c) == multiset(a + [sep] + b)[sep := 0]
  {
    var lhs := multiset(a + c);
    var rhs := multiset(a + [sep] + b)[sep := 0];
    assert multiset(a)[sep] == 0;
    forall y
      ensures lhs[y] == rhs[y]
    {
      assert lhs[y] == multiset(a)[y] + multiset(c)[y];
      assert multiset(a + [sep] + b)[y] == multiset(a)[y] + multiset([sep])[y] + multiset(b)[y];
    }
    assert lhs == rhs;
  }

  /**
   * Splitting a join of `sep`-free parts, skipping empty parts, gives the
   * non-empty parts in order: runs of separators count as one, and
   * separators at either end are dropped. As every text is the join of
   * its `Split` parts, this determines the split of any text.
   */
  lemma SplitSkipEmptyOfJoin<T>(parts: seq<seq<T>>, sep: T)
    requires |parts| >= 1
    requires forall i :: 0 <= i < |parts| ==> sep !in parts[i]
    ensures SplitSkipEmpty(Join(parts, sep), sep) == NonEmpty(parts)
  {
    SplitJoin(parts, sep);
  }

  /** Splitting a join of non-empty, `sep`-free tokens, skipping empty parts, gives the tokens back. */
  lemma SplitSkipEmptyJoin<T>(tokens: seq<seq<T>>, sep: T)
    requires |tokens| >= 1
    requires forall i :: 0 <= i < |tokens| ==> tokens[i] != [] && sep !in tokens[i]
    ensures SplitSkipEmpty(Join(tokens, sep), sep) == tokens
  {
    SplitJoin(tokens, sep);
    NonEmptyOfNonEmpty(tokens);
  }

  /** `f` applied to every element, the results concatenated in order. */
  function FlatMap<A, B>(xs: seq<A>, f: A -> seq<B>): seq<B> {
    if xs == [] then [] else FlatMap(xs[..|xs| - 1], f) + f(xs[|xs| - 1])
  }

  lemma FlatMapSnoc<A, B>(xs: seq<A>, x: A, f: A -> seq<B>)
    ensures FlatMap(xs + [x], f) == FlatMap(xs, f) + f(x)
  {
    assert (xs + [x])[..|xs|] == xs;
  }

  lemma FlatMapOne<A, B>(x: A, f: A -> seq<B>)
    ensures FlatMap([x], f) == f(x)
  {
    FlatMapSnoc([], x, f);
    assert [] + [x] == [x];
  }

  /** Mapping twice over one more element: the images of the old elements, then those of the new one. */
  lemma FlatMapSnocThen<A, B, C>(xs: seq<A>, x: A, g: A -> seq<B>, f: B -> seq<C>)
    ensures FlatMap(FlatMap(xs + [x], g), f) == FlatMap(FlatMap(xs, g), f) + FlatMap(g(x), f)
  {
    FlatMapSnoc(xs, x, g);
    FlatMapAppend(FlatMap(xs, g), g(x), f);
  }

  lemma {:induction false} FlatMapAppend<A, B>(a: seq<A>, b: seq<A>, f: A -> seq<B>)
    ensures FlatMap(a + b, f) == FlatMap(a, f) + FlatMap(b, f)
    decreases |b|
  {
    if b == [] {
      assert a + b == a;
    } else {
      var init, last := b[..|b| - 1], b[|b| - 1];
      assert a + b == (a + init) + [last];
      assert b == init + [last];
      FlatMapSnoc(a + init, last, f);
      FlatMapSnoc(init, last, f);
      FlatMapAppend(a, init, f);
    }
  }

  /** Every element of the result comes from the image of some element. */
  lemma {:induction false} FlatMapMember<A, B>(xs: seq<A>, f: A -> seq<B>, y: B)
    requires y in FlatMap(xs, f)
    ensures exists x :: x in xs && y in f(x)
    decreases |xs|
  {
    var init, last := xs[..|xs| - 1], xs[|xs| - 1];
    if y in FlatMap(init, f) {
      FlatMapMember(init, f, y);
      var x :| x in init && y in f(x);
      assert x in xs;
    } else {
      assert last in xs;
    }
  }

  /** When every element maps to exactly one value, the result lists those values in order. */
  lemma {:induction false} FlatMapSingletons<A, B>(xs: seq<A>, f: A -> seq<B>)
    requires forall i :: 0 <= i < |xs| ==> |f(xs[i])| == 1
    ensures |FlatMap(xs, f)| == |xs|
    ensures forall i :: 0 <= i < |xs| ==> FlatMap(xs, f)[i] == f(xs[i])[0]
    decreases |xs|
  {
    if xs != [] {
      var n := |xs| - 1;
      var init := xs[..n];
      assert forall i :: 0 <= i < n ==> init[i] == xs[i];
      FlatMapSingletons(init, f);
      assert FlatMap(xs, f) == FlatMap(init, f) + f(xs[n]);
    }
  }

  /** When every element maps to nothing, the result is empty. */
  lemma {:induction false} FlatMapNone<A, B>(xs: seq<A>, f: A -> seq<B>)
    requires forall i :: 0 <= i < |xs| ==> f(xs[i]) == []
    ensures FlatMap(xs, f) == []
    decreases |xs|
  {
    if xs != [] {
      var init := xs[..|xs| - 1];
      assert forall i :: 0 <= i < |init| ==> init[i] == xs[i];
      FlatMapNone(init, f);
    }
  }
}
