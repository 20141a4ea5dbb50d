/** Sequence helpers standing for the Ruby Array methods the library calls:
    `uniq`, `reverse`, `concat` in a fold, and the lookup of an accessor by
    the method name `define_method` gave it. */
module Lists {
  import opened Wrappers
  import Text

  /** `xs.uniq`: each element once, at its first occurrence. */
  function Uniq<T(==,!new)>(xs: seq<T>): (r: seq<T>)
    ensures forall x :: x in r <==> x in xs
    ensures forall i, j :: 0 <= i < j < |r| ==> r[i] != r[j]
  {
    UniqAfterMembers(xs, {});
    UniqAfterDistinct(xs, {});
    UniqAfter(xs, {})
  }

  /** The elements of `xs` not in `seen`, each once, in first-occurrence order. */
  function UniqAfter<T(==,!new)>(xs: seq<T>, seen: set<T>): seq<T>
  {
    if xs == [] then []
    else if xs[0] in seen then UniqAfter(xs[1..], seen)
    else [xs[0]] + UniqAfter(xs[1..], seen + {xs[0]})
  }

  /** What survives is what `xs` holds beyond `seen`. */
  lemma {:induction false} UniqAfterMembers<T(!new)>(xs: seq<T>, seen: set<T>)
    ensures forall x :: x in UniqAfter(xs, seen) <==> x in xs && x !in seen
  {
    if xs != [] {
      assert forall x :: x in xs <==> x == xs[0] || x in xs[1..];
      if xs[0] in seen {
        UniqAfterMembers(xs[1..], seen);
      } else {
        UniqAfterMembers(xs[1..], seen + {xs[0]});
      }
    }
  }

  /** Nothing survives twice. */
  lemma {:induction false} UniqAfterDistinct<T(!new)>(xs: seq<T>, seen: set<T>)
    ensures forall i, j :: 0 <= i < j < |UniqAfter(xs, seen)| ==> UniqAfter(xs, seen)[i] != UniqAfter(xs, seen)[j]
  {
    if xs != [] {
      if xs[0] in seen {
        UniqAfterDistinct(xs[1..], seen);
      } else {
        var rest := UniqAfter(xs[1..], seen + {xs[0]});
        UniqAfterDistinct(xs[1..], seen + {xs[0]});
        UniqAfterMembers(xs[1..], seen + {xs[0]});
        var r := UniqAfter(xs, seen);
        assert r == [xs[0]] + rest;
        forall i, j | 0 <= i < j < |r| ensures r[i] != r[j] {
          assert r[j] == rest[j - 1];
          if i == 0 {
            assert rest[j - 1] in rest;
          } else {
            assert r[i] == rest[i - 1];
          }
        }
      }
    }
  }

  /** Position of the first occurrence of `x` in `xs`. */
  function FirstIndex<T(==)>(xs: seq<T>, x: T): (i: nat)
    requires x in xs
    ensures i < |xs| && xs[i] == x && x !in xs[..i]
  {
    if xs[0] == x then 0 else 1 + FirstIndex(xs[1..], x)
  }

  /** `uniq` keeps first-occurrence order: of two kept elements, the one
      that shows up first in `xs` comes first. */
  lemma {:induction false} UniqOrder<T(!new)>(xs: seq<T>, seen: set<T>, a: nat, b: nat)
    requires a < b < |UniqAfter(xs, seen)|
    ensures UniqAfter(xs, seen)[a] in xs && UniqAfter(xs, seen)[b] in xs
    ensures FirstIndex(xs, UniqAfter(xs, seen)[a]) < FirstIndex(xs, UniqAfter(xs, seen)[b])
    decreases |xs|, 1
  {
    assert xs != [];
    if xs[0] in seen {
      UniqOrderSkipped(xs, seen, a, b);
    } else if a == 0 {
      UniqOrderHead(xs, seen, b);
    } else {
      UniqOrderKept(xs, seen, a, b);
    }
  }

  lemma UniqAfterSkip<T(!new)>(xs: seq<T>, seen: set<T>)
    requires xs != [] && xs[0] in seen
    ensures UniqAfter(xs, seen) == UniqAfter(xs[1..], seen)
  {
  }

  lemma UniqAfterKeep<T(!new)>(xs: seq<T>, seen: set<T>)
    requires xs != [] && xs[0] !in seen
    ensures UniqAfter(xs, seen) == [xs[0]] + UniqAfter(xs[1..], seen + {xs[0]})
  {
  }

  /** UniqOrder past a head that was already seen. */
  lemma {:induction false} UniqOrderSkipped<T(!new)>(xs: seq<T>, seen: set<T>, a: nat, b: nat)
    requires xs != [] && xs[0] in seen && a < b < |UniqAfter(xs, seen)|
    ensures UniqAfter(xs, seen)[a] in xs && UniqAfter(xs, seen)[b] in xs
    ensures FirstIndex(xs, UniqAfter(xs, seen)[a]) < FirstIndex(xs, UniqAfter(xs, seen)[b])
    decreases |xs|, 0
  {
    UniqAfterSkip(xs, seen);
    var rest := UniqAfter(xs[1..], seen);
    UniqOrder(xs[1..], seen, a, b);
    UniqAfterMembers(xs[1..], seen);
    assert rest[a] in rest && rest[b] in rest;
    TailOrder(xs, rest[a], rest[b]);
  }

  /** UniqOrder when the first kept element is the head. */
  lemma UniqOrderHead<T(!new)>(xs: seq<T>, seen: set<T>, b: nat)
    requires xs != [] && xs[0] !in seen && 0 < b < |UniqAfter(xs, seen)|
    ensures UniqAfter(xs, seen)[0] in xs && UniqAfter(xs, seen)[b] in xs
    ensures FirstIndex(xs, UniqAfter(xs, seen)[0]) < FirstIndex(xs, UniqAfter(xs, seen)[b])
  {
    UniqAfterKeep(xs, seen);
    var rest := UniqAfter(xs[1..], seen + {xs[0]});
    UniqAfterMembers(xs[1..], seen + {xs[0]});
    assert rest[b - 1] in rest;
    FirstIndexTail(xs, rest[b - 1]);
  }

  /** UniqOrder past a head that is kept. */
  lemma {:induction false} UniqOrderKept<T(!new)>(xs: seq<T>, seen: set<T>, a: nat, b: nat)
    requires xs != [] && xs[0] !in seen && 0 < a < b < |UniqAfter(xs, seen)|
    ensures UniqAfter(xs, seen)[a] in xs && UniqAfter(xs, seen)[b] in xs
    ensures FirstIndex(xs, UniqAfter(xs, seen)[a]) < FirstIndex(xs, UniqAfter(xs, seen)[b])
    decreases |xs|, 0
  {
    UniqAfterKeep(xs, seen);
    UniqOrder(xs[1..], seen + {xs[0]}, a - 1, b - 1);
    UniqAfterMembers(xs[1..], seen + {xs[0]});
    ConsOrder(xs, UniqAfter(xs[1..], seen + {xs[0]}), a, b);
  }

  /** Order in the tail carries over once a head that the rest does not
      hold is put in front of both. */
  lemma ConsOrder<T>(xs: seq<T>, rest: seq<T>, a: nat, b: nat)
    requires xs != [] && xs[0] !in rest && 0 < a < b <= |rest|
    requires rest[a - 1] in xs[1..] && rest[b - 1] in xs[1..]
    requires FirstIndex(xs[1..], rest[a - 1]) < FirstIndex(xs[1..], rest[b - 1])
    ensures ([xs[0]] + rest)[a] in xs && ([xs[0]] + rest)[b] in xs
    ensures FirstIndex(xs, ([xs[0]] + rest)[a]) < FirstIndex(xs, ([xs[0]] + rest)[b])
  {
    var x, y := rest[a - 1], rest[b - 1];
    assert x in rest && y in rest;
    TailOrder(xs, x, y);
    ConsIndex(xs[0], rest, a);
    ConsIndex(xs[0], rest, b);
  }

  lemma ConsIndex<T>(h: T, rest: seq<T>, k: nat)
    requires 0 < k <= |rest|
    ensures ([h] + rest)[k] == rest[k - 1]
  {
  }

  /** First-occurrence order in the tail carries over to the whole
      sequence for elements other than its head. */
  lemma TailOrder<T>(xs: seq<T>, x: T, y: T)
    requires |xs| > 0 && x in xs[1..] && y in xs[1..] && x != xs[0] && y != xs[0]
    requires FirstIndex(xs[1..], x) < FirstIndex(xs[1..], y)
    ensures x in xs && y in xs && FirstIndex(xs, x) < FirstIndex(xs, y)
  {
    FirstIndexTail(xs, x);
    FirstIndexTail(xs, y);
  }

  lemma FirstIndexTail<T>(xs: seq<T>, x: T)
    requires |xs| > 0 && x in xs[1..] && xs[0] != x
    ensures x in xs && FirstIndex(xs, x) == 1 + FirstIndex(xs[1..], x)
  {
  }

  /** `xs.reverse`. */
  function Reverse<T>(xs: seq<T>): (r: seq<T>)
    ensures |r| == |xs|
    ensures forall i :: 0 <= i < |xs| ==> r[i] == xs[|xs| - 1 - i]
  {
    if xs == [] then [] else Reverse(xs[1..]) + [xs[0]]
  }

  lemma ReverseAppend<T>(a: seq<T>, b: seq<T>)
    ensures Reverse(a + b) == Reverse(b) + Reverse(a)
  {
    assert |Reverse(a + b)| == |Reverse(b) + Reverse(a)|;
  }

  lemma ReverseReverse<T>(xs: seq<T>)
    ensures Reverse(Reverse(xs)) == xs
  {
    assert |Reverse(Reverse(xs))| == |xs|;
  }

  /** The stat read by the accessor named `accessor` that `define_method` made for
      each of `names`, hyphens turned into underscores. */
  function StatForMethod(names: seq<string>, accessor: string): (r: Option<string>)
    ensures r.Some? ==> r.value in names && Text.Underscore(r.value) == accessor
    ensures r.None? ==> forall i :: 0 <= i < |names| ==> Text.Underscore(names[i]) != accessor
  {
    if names == [] then None
    else if Text.Underscore(names[0]) == accessor then Some(names[0])
    else StatForMethod(names[1..], accessor)
  }

  /** Replacing hyphens loses nothing on names without underscores. */
  lemma UnderscoreInjective(a: string, b: string)
    requires '_' !in a && '_' !in b && Text.Underscore(a) == Text.Underscore(b)
    ensures a == b
  {
    assert |a| == |b|;
    forall i | 0 <= i < |a| ensures a[i] == b[i] {
      assert Text.Underscore(a)[i] == Text.Underscore(b)[i];
    }
  }

  /** A name without hyphens is its own accessor name. */
  lemma UnderscoreNoHyphen(s: string)
    requires '-' !in s
    ensures Text.Underscore(s) == s
  {
    assert |Text.Underscore(s)| == |s|;
  }

  /** Only a name itself turns into a name that has no underscore. */
  lemma UnderscoreOntoPlain(name: string, target: string)
    requires '_' !in target && Text.Underscore(name) == target
    ensures name == target
  {
    assert |name| == |target|;
    forall i | 0 <= i < |name| ensures name[i] == target[i] {
      assert Text.Underscore(name)[i] == target[i];
    }
  }

  /** Among names free of underscores, each accessor reads its own stat. */
  lemma {:induction false} StatForMethodFinds(names: seq<string>, name: string)
    requires name in names && '_' !in name
    requires forall i :: 0 <= i < |names| ==> '_' !in names[i]
    ensures StatForMethod(names, Text.Underscore(name)) == Some(name)
  {
    if names[0] == name {
    } else {
      if Text.Underscore(names[0]) == Text.Underscore(name) {
        UnderscoreInjective(names[0], name);
      }
      StatForMethodFinds(names[1..], name);
    }
  }

  /** `xs.detect { |x| p(x, a) }`: the position of the first element the
      block accepts, None when it accepts none. */
  function Detect<T, A>(xs: seq<T>, p: (T, A) -> bool, a: A): (r: Option<nat>)
    ensures r.Some? ==> r.value < |xs| && p(xs[r.value], a) && forall j :: 0 <= j < r.value ==> !p(xs[j], a)
    ensures r.None? ==> forall j :: 0 <= j < |xs| ==> !p(xs[j], a)
  {
    if xs == [] then None
    else if p(xs[0], a) then Some(0)
    else
      var rest := Detect(xs[1..], p, a);
      if rest.Some? then Some(rest.value + 1) else None
  }

  /** `xs.select { |x| p(x, a) }`: the accepted elements, in order. */
  function Select<T(==,!new), A>(xs: seq<T>, p: (T, A) -> bool, a: A): (r: seq<T>)
    ensures |r| <= |xs|
    ensures forall x :: x in r <==> x in xs && p(x, a)
    ensures forall x :: multiset(r)[x] == if p(x, a) then multiset(xs)[x] else 0
  {
    if xs == [] then []
    else
      assert xs == [xs[0]] + xs[1..];
      if p(xs[0], a) then [xs[0]] + Select(xs[1..], p, a)
      else Select(xs[1..], p, a)
  }

  /** `select` keeps order: selecting from a concatenation is selecting
      from each part and concatenating the results. */
  lemma {:induction false} SelectAppend<T(!new), A>(xs: seq<T>, ys: seq<T>, p: (T, A) -> bool, a: A)
    ensures Select(xs + ys, p, a) == Select(xs, p, a) + Select(ys, p, a)
  {
    if xs == [] {
      assert xs + ys == ys;
    } else {
      var zs := xs + ys;
      assert zs[0] == xs[0];
      assert zs[1..] == xs[1..] + ys;
      SelectAppend(xs[1..], ys, p, a);
      if p(xs[0], a) {
        calc {
          Select(zs, p, a);
          [xs[0]] + Select(xs[1..] + ys, p, a);
          [xs[0]] + (Select(xs[1..], p, a) + Select(ys, p, a));
          ([xs[0]] + Select(xs[1..], p, a)) + Select(ys, p, a);
        }
      }
    }
  }

  /** `detect` stops at the first match: whatever follows it is never
      looked at. */
  lemma {:induction false} DetectIgnoresRest<T, A>(xs: seq<T>, ys: seq<T>, p: (T, A) -> bool, a: A)
    requires Detect(xs, p, a).Some?
    ensures Detect(xs + ys, p, a) == Detect(xs, p, a)
  {
    if !p(xs[0], a) {
      assert (xs + ys)[1..] == xs[1..] + ys;
      DetectIgnoresRest(xs[1..], ys, p, a);
    }
  }

  /** `detect` finds something exactly when `select` does, and what it
      finds is the first element `select` keeps. */
  lemma {:induction false} DetectIsFirstSelected<T(!new), A>(xs: seq<T>, p: (T, A) -> bool, a: A)
    ensures Detect(xs, p, a).Some? <==> Select(xs, p, a) != []
    ensures Detect(xs, p, a).Some? ==> Select(xs, p, a)[0] == xs[Detect(xs, p, a).value]
  {
    if xs != [] && !p(xs[0], a) {
      DetectIsFirstSelected(xs[1..], p, a);
    }
  }
}
