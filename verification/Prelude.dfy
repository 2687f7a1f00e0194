/** Machine integers, option values and the two sequence operations that the
    server's iterator chains are made of: `filter`/`retain` and `find`. */
module Prelude {
  datatype Option<+T> = None | Some(value: T)

  datatype Result<+T, +E> = Success(value: T) | Failure(error: E)

  type u8 = x: int | 0 <= x < 0x100
  type u16 = x: int | 0 <= x < 0x1_0000
  type u32 = x: int | 0 <= x < 0x1_0000_0000

  function Max(a: int, b: int): int {
    if a < b then b else a
  }

  lemma ConcatAssociates<T>(a: seq<T>, b: seq<T>, c: seq<T>)
    ensures (a + b) + c == a + (b + c)
  {
  }

  /** The elements of `s` that satisfy `keep`, in order. */
  function Filter<T>(keep: T -> bool, s: seq<T>): (r: seq<T>)
    ensures |r| <= |s|
  {
    if s == [] then [] else (if keep(s[0]) then [s[0]] else []) + Filter(keep, s[1..])
  }

  /** The first element of `s` that satisfies `want`. */
  function Find<T>(want: T -> bool, s: seq<T>): Option<T> {
    if s == [] then None else if want(s[0]) then Some(s[0]) else Find(want, s[1..])
  }

  lemma {:induction false} FilterMembers<T>(keep: T -> bool, s: seq<T>)
    ensures forall x :: x in Filter(keep, s) <==> x in s && keep(x)
  {
    if s != [] {
      FilterMembers(keep, s[1..]);
      assert s == [s[0]] + s[1..];
    }
  }

  lemma FilterMember<T>(keep: T -> bool, s: seq<T>, x: T)
    ensures x in Filter(keep, s) <==> x in s && keep(x)
  {
    FilterMembers(keep, s);
  }

  lemma {:induction false} FilterAppend<T>(keep: T -> bool, a: seq<T>, b: seq<T>)
    ensures Filter(keep, a + b) == Filter(keep, a) + Filter(keep, b)
  {
    if a == [] {
      assert a + b == b;
    } else {
      var head := if keep(a[0]) then [a[0]] else [];
      FilterAppend(keep, a[1..], b);
      assert (a + b)[1..] == a[1..] + b;
      assert Filter(keep, a + b) == head + Filter(keep, a[1..] + b);
      assert head + (Filter(keep, a[1..]) + Filter(keep, b)) == (head + Filter(keep, a[1..])) + Filter(keep, b);
    }
  }

  lemma {:induction false} FilterCommutes<T>(f: T -> bool, g: T -> bool, s: seq<T>)
    ensures Filter(f, Filter(g, s)) == Filter(g, Filter(f, s))
  {
    if s != [] {
      FilterCommutes(f, g, s[1..]);
      var head := if g(s[0]) then [s[0]] else [];
      var head' := if f(s[0]) then [s[0]] else [];
      FilterAppend(f, head, Filter(g, s[1..]));
      FilterAppend(g, head', Filter(f, s[1..]));
    }
  }

  /** Filtering first by a weaker test changes nothing. */
  lemma {:induction false} FilterAbsorbs<T>(f: T -> bool, g: T -> bool, s: seq<T>)
    requires forall x :: x in s && f(x) ==> g(x)
    ensures Filter(f, Filter(g, s)) == Filter(f, s)
  {
    if s != [] {
      assert s[0] in s && forall x :: x in s[1..] ==> x in s;
      FilterAbsorbs(f, g, s[1..]);
      FilterAppend(f, if g(s[0]) then [s[0]] else [], Filter(g, s[1..]));
    }
  }

  /** A relation that holds between every earlier and every later element. */
  ghost predicate Pairwise<T>(rel: (T, T) -> bool, s: seq<T>) {
    forall i, j :: 0 <= i < j < |s| ==> rel(s[i], s[j])
  }

  lemma {:induction false} FilterPairwise<T>(rel: (T, T) -> bool, keep: T -> bool, s: seq<T>)
    requires Pairwise(rel, s)
    ensures Pairwise(rel, Filter(keep, s))
  {
    if s != [] {
      var tail := s[1..];
      assert Pairwise(rel, tail) by {
        forall i, j | 0 <= i < j < |tail| ensures rel(tail[i], tail[j]) {
          assert tail[i] == s[i + 1] && tail[j] == s[j + 1];
        }
      }
      FilterPairwise(rel, keep, tail);
      FilterMembers(keep, tail);
      var rest := Filter(keep, tail);
      if keep(s[0]) {
        var r := Filter(keep, s);
        assert r == [s[0]] + rest;
        forall i, j | 0 <= i < j < |r| ensures rel(r[i], r[j]) {
          if i == 0 {
            assert r[j] == rest[j - 1] && rest[j - 1] in rest;
            FilterMember(keep, tail, r[j]);
            var k :| 0 <= k < |tail| && tail[k] == r[j];
            assert s[k + 1] == r[j];
          } else {
            assert r[i] == rest[i - 1] && r[j] == rest[j - 1];
          }
        }
      } else {
        assert Filter(keep, s) == rest;
      }
    }
  }

  /** `r` lists, in order and once each, exactly the positions of `s` whose element satisfies `keep`. */
  ghost predicate Selects<T>(positions: seq<int>, keep: T -> bool, s: seq<T>, r: seq<T>) {
    && |positions| == |r|
    && (forall i, j :: 0 <= i < j < |positions| ==> positions[i] < positions[j])
    && (forall i :: 0 <= i < |positions| ==> 0 <= positions[i] < |s| && keep(s[positions[i]]) && r[i] == s[positions[i]])
    && (forall k :: 0 <= k < |s| && keep(s[k]) ==> k in positions)
  }

  /** An element more that is not kept. */
  lemma SelectsSkip<T>(positions: seq<int>, keep: T -> bool, front: seq<T>, last: T, r: seq<T>)
    requires Selects(positions, keep, front, r) && !keep(last)
    ensures Selects(positions, keep, front + [last], r)
  {
    var s := front + [last];
    forall k | 0 <= k < |s| && keep(s[k]) ensures k in positions {
      assert front[k] == s[k];
    }
    forall i | 0 <= i < |positions| ensures keep(s[positions[i]]) && r[i] == s[positions[i]] {
      assert s[positions[i]] == front[positions[i]];
    }
  }

  /** An element more that is kept. */
  lemma SelectsKeep<T>(before: seq<int>, keep: T -> bool, front: seq<T>, last: T, r: seq<T>)
    requires Selects(before, keep, front, r) && keep(last)
    ensures Selects(before + [|front|], keep, front + [last], r + [last])
  {
    var s, positions := front + [last], before + [|front|];
    forall k | 0 <= k < |s| && keep(s[k]) ensures k in positions {
      if k < |front| {
        assert front[k] == s[k];
      } else {
        assert positions[|before|] == k;
      }
    }
    forall i | 0 <= i < |positions| ensures 0 <= positions[i] < |s| && keep(s[positions[i]]) && (r + [last])[i] == s[positions[i]] {
      if i < |before| {
        assert positions[i] == before[i] && s[before[i]] == front[before[i]];
      }
    }
  }

  lemma {:induction false} FilterSelects<T>(keep: T -> bool, s: seq<T>) returns (positions: seq<int>)
    ensures Selects(positions, keep, s, Filter(keep, s))
  {
    positions := [];
    if s != [] {
      var front, last := s[..|s| - 1], s[|s| - 1];
      positions := FilterSelects(keep, front);
      FilterEnd(keep, front, last);
      assert s == front + [last];
      if keep(last) {
        SelectsKeep(positions, keep, front, last, Filter(keep, front));
        positions := positions + [|front|];
      } else {
        SelectsSkip(positions, keep, front, last, Filter(keep, front));
      }
    }
  }

  lemma FilterEnd<T>(keep: T -> bool, front: seq<T>, last: T)
    ensures Filter(keep, front + [last]) == if keep(last) then Filter(keep, front) + [last] else Filter(keep, front)
  {
    FilterAppend(keep, front, [last]);
    assert Filter(keep, [last]) == if keep(last) then [last] else [];
  }

  /** The element at position `k` is the first of `s` that satisfies `want`. */
  predicate IsFirstMatch<T>(want: T -> bool, s: seq<T>, k: int) {
    0 <= k < |s| && want(s[k]) && forall j :: 0 <= j < k ==> !want(s[j])
  }

  /** `Find` returns the first match and fails only when there is none. */
  lemma {:induction false} FindSpec<T>(want: T -> bool, s: seq<T>)
    ensures Find(want, s).None? <==> forall x :: x in s ==> !want(x)
    ensures Find(want, s).Some? ==> Find(want, s).value in s && want(Find(want, s).value)
  {
    if s != [] {
      FindSpec(want, s[1..]);
      assert s == [s[0]] + s[1..];
    }
  }

  lemma {:induction false} FirstMatch<T>(want: T -> bool, s: seq<T>) returns (k: int)
    requires exists x :: x in s && want(x)
    ensures IsFirstMatch(want, s, k) && Find(want, s) == Some(s[k])
  {
    if want(s[0]) {
      k := 0;
    } else {
      assert s == [s[0]] + s[1..];
      k := FirstMatch(want, s[1..]);
      k := k + 1;
    }
  }

  lemma {:induction false} FindAppend<T>(want: T -> bool, a: seq<T>, b: seq<T>)
    ensures Find(want, a + b) == if Find(want, a).Some? then Find(want, a) else Find(want, b)
  {
    if a == [] {
      assert a + b == b;
    } else {
      assert (a + b)[1..] == a[1..] + b;
      FindAppend(want, a[1..], b);
    }
  }

  /** Searching among the elements kept by a weaker test finds the same element. */
  lemma {:induction false} FindInFilter<T>(want: T -> bool, keep: T -> bool, s: seq<T>)
    requires forall x :: x in s && want(x) ==> keep(x)
    ensures Find(want, Filter(keep, s)) == Find(want, s)
  {
    if s != [] {
      assert s[0] in s && forall x :: x in s[1..] ==> x in s;
      FindInFilter(want, keep, s[1..]);
      FindAppend(want, if keep(s[0]) then [s[0]] else [], Filter(keep, s[1..]));
    }
  }
}
