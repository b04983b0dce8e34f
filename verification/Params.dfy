/**
 The parameter map of a request as `std::map<string, string>` iterates it: pairs in strictly
 ascending order of their names, compared byte by byte.
 */
module Params {
  import opened Text

  type Pair = (string, string)

  predicate Less(a: string, b: string)
    decreases |a|
  {
    b != "" && (a == "" || a[0] < b[0] || (a[0] == b[0] && Less(a[1..], b[1..])))
  }

  predicate Sorted(ps: seq<Pair>) {
    ps == [] || (Sorted(ps[1..]) && forall q | q in ps[1..] :: Less(ps[0].0, q.0))
  }

  function Get(ps: seq<Pair>, k: string): Option<string> {
    if ps == [] then None else if ps[0].0 == k then Some(ps[0].1) else Get(ps[1..], k)
  }

  /** `params[k] = v`. */
  function Put(ps: seq<Pair>, k: string, v: string): seq<Pair> {
    if ps == [] then [(k, v)]
    else if ps[0].0 == k then [(k, v)] + ps[1..]
    else if Less(k, ps[0].0) then [(k, v)] + ps
    else [ps[0]] + Put(ps[1..], k, v)
  }

  /** `params.erase(k)`. */
  function Erase(ps: seq<Pair>, k: string): seq<Pair> {
    if ps == [] then [] else if ps[0].0 == k then Erase(ps[1..], k) else [ps[0]] + Erase(ps[1..], k)
  }

  // ----- The order

  /** The order of `std::string` on bytes, and of section 3.4.1.3.2 of RFC 5849: a proper beginning comes first, and
      otherwise the first difference decides. */
  predicate Before(a: string, b: string) { a < b || exists i | 0 <= i < |a| && i < |b| :: DiffersAt(a, b, i) }

  predicate DiffersAt(a: string, b: string, i: nat)
    requires i < |a| && i < |b|
  {
    a[..i] == b[..i] && a[i] < b[i]
  }

  lemma {:induction false} LessIs(a: string, b: string)
    ensures Less(a, b) <==> Before(a, b)
    decreases |a|
  {
    if a != "" && b != "" {
      if a[0] == b[0] {
        LessIs(a[1..], b[1..]);
        BeforeTail(a, b);
      } else if a[0] < b[0] {
        assert DiffersAt(a, b, 0);
      } else if Before(a, b) {
        HeadDecides(a, b);
      }
    }
  }

  lemma HeadDecides(a: string, b: string)
    requires a != "" && b != "" && Before(a, b)
    ensures a[0] <= b[0]
  {
    if !(a < b) {
      var i :| 0 <= i < |a| && i < |b| && DiffersAt(a, b, i);
      if i > 0 { assert a[0] == a[..i][0] && b[0] == b[..i][0]; }
    }
  }

  lemma {:induction false} BeforeTail(a: string, b: string)
    requires a != "" && b != "" && a[0] == b[0]
    ensures Before(a, b) <==> Before(a[1..], b[1..])
  {
    var c, d := a[1..], b[1..];
    assert a == [a[0]] + c && b == [b[0]] + d;
    if Before(a, b) && !(a < b) {
      var i :| 0 <= i < |a| && i < |b| && DiffersAt(a, b, i);
      assert c[..i - 1] == a[..i][1..] && d[..i - 1] == b[..i][1..];
      assert DiffersAt(c, d, i - 1);
    }
    if Before(c, d) && !(c < d) {
      var i :| 0 <= i < |c| && i < |d| && DiffersAt(c, d, i);
      assert a[..i + 1] == [a[0]] + c[..i] && b[..i + 1] == [b[0]] + d[..i];
      assert DiffersAt(a, b, i + 1);
    }
  }

  lemma {:induction false} LessIrreflexive(a: string)
    ensures !Less(a, a)
  {
    if a != "" { LessIrreflexive(a[1..]); }
  }

  lemma {:induction false} LessTransitive(a: string, b: string, c: string)
    requires Less(a, b) && Less(b, c)
    ensures Less(a, c)
    decreases |a|
  {
    if a != "" && a[0] == b[0] == c[0] { LessTransitive(a[1..], b[1..], c[1..]); }
  }

  lemma {:induction false} LessTotal(a: string, b: string)
    ensures a == b || Less(a, b) || Less(b, a)
    decreases |a|
  {
    if a != "" && b != "" && a[0] == b[0] {
      LessTotal(a[1..], b[1..]);
      assert a == [a[0]] + a[1..] && b == [b[0]] + b[1..];
    }
  }

  // ----- The map

  lemma {:induction false} GetPut(ps: seq<Pair>, k: string, v: string, k': string)
    ensures Get(Put(ps, k, v), k') == if k' == k then Some(v) else Get(ps, k')
  {
    if ps != [] {
      assert ([(k, v)] + ps[1..])[1..] == ps[1..] && ([(k, v)] + ps)[1..] == ps;
      GetPut(ps[1..], k, v, k');
      assert ([ps[0]] + Put(ps[1..], k, v))[1..] == Put(ps[1..], k, v);
    }
  }

  lemma {:induction false} GetErase(ps: seq<Pair>, k: string, k': string)
    ensures Get(Erase(ps, k), k') == if k' == k then None else Get(ps, k')
  {
    if ps != [] {
      GetErase(ps[1..], k, k');
      assert ([ps[0]] + Erase(ps[1..], k))[1..] == Erase(ps[1..], k);
    }
  }

  lemma {:induction false} GetIs(ps: seq<Pair>, k: string)
    ensures Get(ps, k).Some? ==> (k, Get(ps, k).value) in ps
    ensures Get(ps, k).None? <==> forall p | p in ps :: p.0 != k
  {
    if ps != [] && ps[0].0 != k {
      GetIs(ps[1..], k);
    } else if ps != [] {
      assert ps[0] in ps && ps[0] == (k, ps[0].1);
    }
  }

  lemma {:induction false} ErasedPairs(ps: seq<Pair>, k: string)
    ensures forall p :: p in Erase(ps, k) <==> p in ps && p.0 != k
  {
    if ps != [] { ErasedPairs(ps[1..], k); }
  }

  lemma {:induction false} PutPairs(ps: seq<Pair>, k: string, v: string)
    ensures forall p :: p in Put(ps, k, v) ==> p == (k, v) || p in ps
  {
    if ps != [] { PutPairs(ps[1..], k, v); }
  }

  /** A sorted list: every later name is above the first, and the tail is sorted. */
  lemma SortedCons(p: Pair, ps: seq<Pair>)
    ensures Sorted([p] + ps) <==> Sorted(ps) && forall q | q in ps :: Less(p.0, q.0)
  {
    assert ([p] + ps)[1..] == ps;
  }

  lemma Uncons(ps: seq<Pair>)
    requires Sorted(ps) && ps != []
    ensures ps == [ps[0]] + ps[1..] && Sorted(ps[1..]) && forall q | q in ps[1..] :: Less(ps[0].0, q.0)
  {
    assert ps == [ps[0]] + ps[1..];
    SortedCons(ps[0], ps[1..]);
  }

  lemma {:induction false} PutSorted(ps: seq<Pair>, k: string, v: string)
    requires Sorted(ps)
    ensures Sorted(Put(ps, k, v))
  {
    if ps == [] {
    } else {
      Uncons(ps);
      LessTotal(k, ps[0].0);
      if ps[0].0 == k {
        SortedCons((k, v), ps[1..]);
      } else if Less(k, ps[0].0) {
        forall q | q in ps ensures Less(k, q.0) {
          if q != ps[0] { assert q in ps[1..]; LessTransitive(k, ps[0].0, q.0); }
        }
        SortedCons((k, v), ps);
      } else {
        PutSorted(ps[1..], k, v);
        PutPairs(ps[1..], k, v);
        SortedCons(ps[0], Put(ps[1..], k, v));
      }
    }
  }

  lemma {:induction false} EraseSorted(ps: seq<Pair>, k: string)
    requires Sorted(ps)
    ensures Sorted(Erase(ps, k))
  {
    if ps != [] {
      Uncons(ps);
      EraseSorted(ps[1..], k);
      ErasedPairs(ps[1..], k);
      SortedCons(ps[0], Erase(ps[1..], k));
    }
  }

  lemma TailGet(ps: seq<Pair>, k: string)
    requires Sorted(ps) && ps != []
    ensures Get(ps[1..], k) == if k == ps[0].0 then None else Get(ps, k)
  {
    if k == ps[0].0 {
      Uncons(ps);
      LessIrreflexive(k);
      GetIs(ps[1..], k);
    }
  }

  lemma BelowAll(ps: seq<Pair>, k: string)
    requires Sorted(ps) && ps != [] && Less(k, ps[0].0)
    ensures Get(ps, k) == None
  {
    forall p | p in ps ensures p.0 != k {
      Uncons(ps);
      LessIrreflexive(k);
      if p != ps[0] { assert p in ps[1..]; LessTransitive(k, ps[0].0, p.0); }
    }
    GetIs(ps, k);
  }

  /** Two sorted lists with the same lookups are the same list. */
  lemma {:induction false} SameLookups(a: seq<Pair>, b: seq<Pair>)
    requires Sorted(a) && Sorted(b) && forall k :: Get(a, k) == Get(b, k)
    ensures a == b
    decreases |a|
  {
    var k' := if b == [] then "" else b[0].0;
    assert Get(a, k') == Get(b, k');
    if a != [] {
      assert Get(a, a[0].0) == Get(b, a[0].0);
      LessTotal(a[0].0, b[0].0);
      if Less(a[0].0, b[0].0) { BelowAll(b, a[0].0); }
      if Less(b[0].0, a[0].0) { BelowAll(a, b[0].0); }
      forall k ensures Get(a[1..], k) == Get(b[1..], k) {
        TailGet(a, k);
        TailGet(b, k);
      }
      Uncons(a);
      Uncons(b);
      SameLookups(a[1..], b[1..]);
    }
  }

  /** In a sorted list every name comes before all later ones. */
  lemma {:induction false} NamesAscend(ps: seq<Pair>, i: nat, j: nat)
    requires Sorted(ps) && i < j < |ps|
    ensures Before(ps[i].0, ps[j].0)
  {
    Uncons(ps);
    if i > 0 {
      NamesAscend(ps[1..], i - 1, j - 1);
    } else {
      assert ps[j] == ps[1..][j - 1];
      LessIs(ps[0].0, ps[j].0);
    }
  }
}
