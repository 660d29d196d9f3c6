/** Flattening an array of arrays in place. A slot whose node was moved out is empty. */
module TomlFlatten {

  import opened Options

  datatype Node<T> = Leaf(value: T) | Array(elems: seq<Node<T>>)

  /** The leaves from left to right, at any depth. */
  function Leaves<T>(n: Node<T>): (r: seq<Node<T>>)
    ensures forall i :: 0 <= i < |r| ==> r[i].Leaf?
    decreases n, if n.Array? then |n.elems| + 1 else 0
  {
    if n.Leaf? then [n] else LeavesUpTo(n, |n.elems|)
  }

  /** Those of the first `k` elements of an array. */
  function LeavesUpTo<T>(n: Node<T>, k: nat): (r: seq<Node<T>>)
    requires n.Array? && k <= |n.elems|
    ensures forall i :: 0 <= i < |r| ==> r[i].Leaf?
    decreases n, k
  {
    if k == 0 then [] else LeavesUpTo(n, k - 1) + Leaves(n.elems[k - 1])
  }

  function LeavesAll<T>(ns: seq<Node<T>>): (r: seq<Node<T>>)
    ensures forall i :: 0 <= i < |r| ==> r[i].Leaf?
  {
    if ns == [] then [] else LeavesAll(ns[..|ns| - 1]) + Leaves(ns[|ns| - 1])
  }

  lemma {:induction false} LeavesAllConcat<T>(a: seq<Node<T>>, b: seq<Node<T>>)
    ensures LeavesAll(a + b) == LeavesAll(a) + LeavesAll(b)
  {
    if b == [] {
      assert a + b == a;
    } else {
      assert (a + b)[..|a + b| - 1] == a + b[..|b| - 1];
      LeavesAllConcat(a, b[..|b| - 1]);
    }
  }

  lemma LeavesAllOne<T>(n: Node<T>)
    ensures LeavesAll([n]) == Leaves(n)
  {
    assert [n][..0] == [];
  }

  lemma {:induction false} LeavesAreThoseOfElems<T>(n: Node<T>, k: nat)
    requires n.Array? && k <= |n.elems|
    ensures LeavesUpTo(n, k) == LeavesAll(n.elems[..k])
  {
    if k > 0 {
      LeavesAreThoseOfElems(n, k - 1);
      assert n.elems[..k][..k - 1] == n.elems[..k - 1];
    }
  }

  /** Flat already: every element is its own leaf. */
  lemma {:induction false} LeavesOfLeaves<T>(ns: seq<Node<T>>)
    requires forall i :: 0 <= i < |ns| ==> ns[i].Leaf?
    ensures LeavesAll(ns) == ns
  {
    if ns != [] { LeavesOfLeaves(ns[..|ns| - 1]); }
  }

  /** The elements without the arrays that hold no leaf. */
  function Kept<T>(ns: seq<Node<T>>): (r: seq<Node<T>>)
    ensures forall i :: 0 <= i < |r| ==> Leaves(r[i]) != []
  {
    if ns == [] then [] else (if Leaves(ns[0]) == [] then [] else [ns[0]]) + Kept(ns[1..])
  }

  lemma {:induction false} KeptLeaves<T>(ns: seq<Node<T>>)
    ensures LeavesAll(Kept(ns)) == LeavesAll(ns)
  {
    if ns != [] {
      hide Leaves;
      KeptLeaves(ns[1..]);
      var head := if Leaves(ns[0]) == [] then [] else [ns[0]];
      LeavesAllOne(ns[0]);
      assert [ns[0]] + ns[1..] == ns;
      LeavesAllConcat([ns[0]], ns[1..]);
      LeavesAllConcat(head, Kept(ns[1..]));
    }
  }

  function Filled<T>(ns: seq<Node<T>>): (r: seq<Option<Node<T>>>)
    ensures |r| == |ns| && forall i :: 0 <= i < |ns| ==> r[i] == Some(ns[i])
  {
    seq(|ns|, i requires 0 <= i < |ns| => Some(ns[i]))
  }

  function Empty<T>(n: nat): seq<Option<Node<T>>> { seq(n, _ => None) }

  method LeafCount<T>(n: Node<T>) returns (leaves: nat)
    requires n.Array?
    ensures leaves == |Leaves(n)|
    decreases n
  {
    leaves := 0;
    for i := 0 to |n.elems|
      invariant leaves == |LeavesUpTo(n, i)|
    {
      if n.elems[i].Array? {
        var c := LeafCount(n.elems[i]);
        leaves := leaves + c;
      } else {
        leaves := leaves + 1;
      }
    }
  }

  class TomlArray<T> {
    var elems: seq<Option<Node<T>>>

    constructor (ns: seq<Node<T>>)
      ensures elems == Filled(ns)
    {
      elems := Filled(ns);
    }

    /** Makes room for `count` slots at `idx`: what stood there and behind is moved up. */
    method PreinsertionResize(idx: nat, count: nat)
      requires idx <= |elems| && count >= 1
      modifies this
      ensures elems == old(elems)[..idx] + Empty(count) + old(elems)[idx..]
    {
      var oldSize := |elems|;
      var insertingAtEnd := idx == oldSize;
      elems := elems + Empty(count);
      if !insertingAtEnd {
        var left, right := oldSize, oldSize + count - 1;
        while left > idx
          invariant idx <= left <= oldSize && right == left + count - 1
          invariant elems == old(elems)[..left] + Empty(count) + old(elems)[left..]
        {
          left := left - 1;
          MoveUp(old(elems), left, count);
          elems := elems[right := elems[left]][left := None];
          right := right - 1;
        }
      }
      assert old(elems)[..oldSize] == old(elems);
    }

    /** Moves the leaves of `child` into the empty slots from `destIndex` on. */
    method FlattenChild(child: Node<T>, destIndex: nat) returns (next: nat)
      requires child.Array? && destIndex + |Leaves(child)| <= |elems|
      requires forall i :: destIndex <= i < destIndex + |Leaves(child)| ==> elems[i] == None
      modifies this
      ensures next == destIndex + |Leaves(child)|
      ensures elems == FilledFrom(old(elems), destIndex, Leaves(child))
      decreases child
    {
      hide Leaves, LeavesUpTo, FilledFrom;
      next := destIndex;
      ghost var start := elems;
      WholeArray(child);
      NothingFilled(start, destIndex);
      for i := 0 to |child.elems|
        invariant next == destIndex + |LeavesUpTo(child, i)| <= |start|
        invariant elems == FilledFrom(start, destIndex, LeavesUpTo(child, i))
      {
        PartOfArray(child, i);
        FillMore(start, destIndex, LeavesUpTo(child, i), Leaves(child.elems[i]));
        if child.elems[i].Array? {
          if child.elems[i].elems != [] {
            next := FlattenChild(child.elems[i], next);
          } else {
            NoLeaves(child.elems[i]);
          }
        } else {
          LeafIs(child.elems[i]);
          elems := elems[next := Some(child.elems[i])];
          next := next + 1;
        }
      }
    }

    /** The arrays without leaves are dropped, from the back; returns the size after flattening. */
    method EraseLeafless(ghost ns: seq<Node<T>>) returns (requiresFlattening: bool, sizeAfter: nat)
      requires elems == Filled(ns)
      modifies this
      ensures elems == Filled(Kept(ns)) && sizeAfter == |LeavesAll(ns)|
      ensures !requiresFlattening ==> forall i :: 0 <= i < |Kept(ns)| ==> Kept(ns)[i].Leaf?
    {
      hide Leaves, Kept, LeavesAll;
      requiresFlattening, sizeAfter := false, |elems|;
      var i := |elems|;
      NothingKept(ns[i..]);
      while i > 0
        invariant 0 <= i <= |ns|
        invariant elems == Filled(ns[..i]) + Filled(Kept(ns[i..]))
        invariant sizeAfter == i + |LeavesAll(ns[i..])|
        invariant !requiresFlattening ==> forall k :: 0 <= k < |Kept(ns[i..])| ==> Kept(ns[i..])[k].Leaf?
      {
        i := i - 1;
        ghost var n := ns[i];
        ghost var behind := Kept(ns[i + 1..]);
        assert ns[i..][0] == n && ns[i..][1..] == ns[i + 1..];
        KeptFirst(ns[i..]);
        DropOrKeep(elems, ns, i, behind);
        match elems[i].value {
          case Leaf(_) => LeafIs(n);
          case Array(_) =>
            sizeAfter := sizeAfter - 1;
            var leafCount := LeafCount(elems[i].value);
            if leafCount > 0 {
              requiresFlattening := true;
              sizeAfter := sizeAfter + leafCount;
            } else {
              elems := elems[..i] + elems[i + 1..];
              assert [] + behind == behind;
            }
        }
      }
      assert elems == Filled(Kept(ns)) by { assert ns[0..] == ns && ns[..0] == []; }
    }

    /** An array taken out of its slot: room is made for its leaves, and they are moved there. */
    method MoveLeaves(arr: Node<T>, i: nat, ghost done: seq<Node<T>>, ghost after: seq<Node<T>>) returns (next: nat)
      requires arr.Array? && Leaves(arr) != [] && i == |done|
      requires elems == Filled(done) + Empty(1) + Filled(after)
      modifies this
      ensures next == i + |Leaves(arr)|
      ensures elems == Filled(done + Leaves(arr)) + Filled(after)
    {
      hide Leaves, Filled, Empty, FilledFrom;
      var leafCount := LeafCount(arr);
      OneSlotPerLeaf(done, leafCount, after);
      if leafCount > 1 {
        PreinsertionResize(i + 1, leafCount - 1);
      }
      SlotsFilled(done, Leaves(arr), after);
      next := FlattenChild(arr, i);
    }

    /** `flatten`. */
    method Flatten(ghost ns: seq<Node<T>>)
      requires elems == Filled(ns)
      modifies this
      ensures elems == Filled(LeavesAll(ns))
    {
      hide *;
      if elems == [] {
        NothingKept(ns);
        return;
      }
      var requiresFlattening, sizeAfter := EraseLeafless(ns);
      ghost var kept := Kept(ns);
      KeptLeaves(ns);
      if !requiresFlattening {
        LeavesOfLeaves(kept);
        return;
      }
      var i := 0;
      ghost var j := 0;
      NothingKept(kept[..0]);
      assert kept[0..] == kept && Filled(LeavesAll(kept[..0])) == [];
      while i < |elems|
        invariant j <= |kept|
        invariant i == |LeavesAll(kept[..j])|
        invariant elems == Filled(LeavesAll(kept[..j])) + Filled(kept[j..])
        decreases |kept| - j
      {
        ghost var n := kept[j];
        ghost var done := LeavesAll(kept[..j]);
        ghost var after := kept[j + 1..];
        NextElement(kept, j);
        LeafStays(done, n, after);
        match elems[i].value {
          case Leaf(_) =>
            LeafIs(n);
            i := i + 1;
          case Array(_) =>
            var arr := elems[i].value;
            elems := elems[i := None];
            i := MoveLeaves(arr, i, done, after);
        }
        j := j + 1;
      }
      assert kept[..j] == kept && kept[j..] == [];
      assert Filled(kept[j..]) == [];
      assert |elems| == sizeAfter;
    }
  }

  lemma MoveUp<A>(s: seq<Option<Node<A>>>, left: nat, count: nat)
    requires left < |s| && count >= 1
    ensures var t := s[..left + 1] + Empty(count) + s[left + 1..];
            t[left + count := t[left]][left := None] == s[..left] + Empty(count) + s[left..]
  {
  }

  lemma WholeArray<T>(n: Node<T>)
    requires n.Array?
    ensures Leaves(n) == LeavesUpTo(n, |n.elems|) && LeavesUpTo(n, 0) == []
  {
  }

  lemma PartOfArray<T>(n: Node<T>, i: nat)
    requires n.Array? && i < |n.elems|
    ensures LeavesUpTo(n, i + 1) == LeavesUpTo(n, i) + Leaves(n.elems[i])
    ensures |LeavesUpTo(n, i + 1)| <= |Leaves(n)|
  {
    LongerPrefix(n, i + 1, |n.elems|);
  }

  lemma {:induction false} LongerPrefix<T>(n: Node<T>, a: nat, b: nat)
    requires n.Array? && a <= b <= |n.elems|
    ensures |LeavesUpTo(n, a)| <= |LeavesUpTo(n, b)|
  {
    if a < b { LongerPrefix(n, a, b - 1); }
  }

  /** The slots from `dest` on, filled with `leaves`. */
  function FilledFrom<T>(start: seq<Option<Node<T>>>, dest: nat, leaves: seq<Node<T>>): (r: seq<Option<Node<T>>>)
    requires dest + |leaves| <= |start|
    ensures |r| == |start|
  {
    start[..dest] + Filled(leaves) + start[dest + |leaves|..]
  }

  lemma NothingFilled<T>(start: seq<Option<Node<T>>>, dest: nat)
    requires dest <= |start|
    ensures FilledFrom(start, dest, []) == start
  {
  }

  /** Filling a further stretch behind what is filled already. */
  lemma FillMore<T>(start: seq<Option<Node<T>>>, dest: nat, done: seq<Node<T>>, more: seq<Node<T>>)
    requires dest + |done| + |more| <= |start|
    ensures var now := FilledFrom(start, dest, done);
            && FilledFrom(now, dest + |done|, more) == FilledFrom(start, dest, done + more)
            && (forall i :: dest + |done| <= i < |start| ==> now[i] == start[i])
            && (|more| == 1 ==> now[dest + |done| := Some(more[0])] == FilledFrom(start, dest, done + more))
            && (more == [] ==> now == FilledFrom(start, dest, done + more))
  {
    if more == [] { assert done + more == done; }
  }

  lemma NoLeaves<T>(n: Node<T>)
    requires n.Array? && n.elems == []
    ensures Leaves(n) == []
  {
  }

  lemma LeafIs<T>(n: Node<T>)
    requires n.Leaf?
    ensures Leaves(n) == [n]
  {
  }

  lemma NothingKept<T>(ns: seq<Node<T>>)
    requires ns == []
    ensures Kept(ns) == [] && LeavesAll(ns) == []
  {
  }

  lemma KeptFirst<T>(ns: seq<Node<T>>)
    requires ns != []
    ensures Kept(ns) == (if Leaves(ns[0]) == [] then [] else [ns[0]]) + Kept(ns[1..])
    ensures |LeavesAll(ns)| == |Leaves(ns[0])| + |LeavesAll(ns[1..])|
  {
    LeavesAllOne(ns[0]);
    assert [ns[0]] + ns[1..] == ns;
    LeavesAllConcat([ns[0]], ns[1..]);
  }

  lemma DropOrKeep<T>(elems: seq<Option<Node<T>>>, ns: seq<Node<T>>, i: nat, behind: seq<Node<T>>)
    requires i < |ns| && elems == Filled(ns[..i + 1]) + Filled(behind)
    ensures elems[i] == Some(ns[i])
    ensures elems == Filled(ns[..i]) + Filled([ns[i]] + behind)
    ensures elems[..i] + elems[i + 1..] == Filled(ns[..i]) + Filled(behind)
  {
  }

  lemma NextElement<T>(ns: seq<Node<T>>, j: nat)
    requires j < |ns|
    ensures ns[j..] == [ns[j]] + ns[j + 1..]
    ensures LeavesAll(ns[..j + 1]) == LeavesAll(ns[..j]) + Leaves(ns[j])
  {
    assert ns[..j + 1][..j] == ns[..j];
  }

  lemma LeafStays<T>(done: seq<Node<T>>, n: Node<T>, after: seq<Node<T>>)
    ensures var elems := Filled(done) + Filled([n] + after);
            && elems[|done|] == Some(n)
            && elems == Filled(done + [n]) + Filled(after)
            && elems[|done| := None] == Filled(done) + Empty(1) + Filled(after)
  {
  }

  /** The slots of an array's leaves, filled. */
  lemma SlotsFilled<T>(done: seq<Node<T>>, leaves: seq<Node<T>>, after: seq<Node<T>>)
    ensures var elems := Filled(done) + Empty(|leaves|) + Filled(after);
            && |elems| == |done| + |leaves| + |after|
            && (forall i :: |done| <= i < |done| + |leaves| ==> elems[i] == None)
            && FilledFrom(elems, |done|, leaves) == Filled(done + leaves) + Filled(after)
  {
  }

  lemma OneSlotPerLeaf<T>(done: seq<Node<T>>, count: nat, after: seq<Node<T>>)
    requires count >= 1
    ensures var now := Filled(done) + Empty(1) + Filled(after);
            && now[..|done| + 1] + Empty(count - 1) + now[|done| + 1..]
               == Filled(done) + Empty(count) + Filled(after)
            && |now| == |done| + 1 + |after|
  {
  }

  /** What flattening leaves is flat, and flattening it again changes nothing. */
  lemma FlatStaysFlat<T>(ns: seq<Node<T>>)
    ensures LeavesAll(LeavesAll(ns)) == LeavesAll(ns)
  {
    LeavesOfLeaves(LeavesAll(ns));
  }

  /** Nesting does not matter: wrapping a stretch of elements in an array gives the same leaves. */
  lemma NestingDoesNotMatter<T>(a: seq<Node<T>>, b: seq<Node<T>>, c: seq<Node<T>>)
    ensures LeavesAll(a + [Array(b)] + c) == LeavesAll(a + b + c)
  {
    LeavesAreThoseOfElems(Array(b), |b|);
    assert b[..|b|] == b;
    LeavesAllOne(Array(b));
    LeavesAllConcat(a, [Array(b)]);
    LeavesAllConcat(a + [Array(b)], c);
    LeavesAllConcat(a, b);
    LeavesAllConcat(a + b, c);
  }
}
