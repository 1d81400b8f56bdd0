/**
 * The load callback's choice of frog meshes (src/script.js, lines 95-158):
 * a pass over the model's meshes collects the house and the frog
 * candidates, the candidates are ordered by bounding radius, at most two
 * are picked (falling back to any frog-named meshes when no candidate
 * passes the size test), and the picked meshes become the male and female
 * frog references.
 */
module Picking {
  import opened Optional
  import opened Geometry

  /**
   * A mesh of the loaded model: its name (`''` when it has none), the
   * radius of its geometry's bounding sphere (0 when it has no geometry) and
   * its position.
   */
  datatype Mesh = Mesh(name: string, radius: real, pos: Vec3)

  /** `toLowerCase` on the ASCII letters; the names compared against are ASCII. */
  function LowerChar(c: char): (r: char)
    ensures 'A' <= c <= 'Z' ==> r as int == c as int + 32
    ensures !('A' <= c <= 'Z') ==> r == c
  {
    if 'A' <= c <= 'Z' then (c as int + 32) as char else c
  }

  function Lower(s: string): (r: string)
    ensures |r| == |s|
  {
    if |s| == 0 then "" else [LowerChar(s[0])] + Lower(s[1..])
  }

  const HouseName: string := "casita"
  const MaleName: string := "ranito"
  const FemaleName: string := "ranita"

  predicate NamedAs(m: Mesh, name: string) {
    Lower(m.name) == name
  }

  predicate IsFrogNamed(m: Mesh) {
    NamedAs(m, MaleName) || NamedAs(m, FemaleName)
  }

  /** The size test: a radius in (0, 2), or no measurable geometry at all. */
  predicate ReasonableSize(m: Mesh) {
    (0.0 < m.radius < 2.0) || m.radius == 0.0
  }

  predicate IsCandidate(m: Mesh) {
    !NamedAs(m, HouseName) && IsFrogNamed(m) && ReasonableSize(m)
  }

  /** The meshes satisfying `keep`, in traversal order. */
  function Filter(meshes: seq<Mesh>, keep: Mesh -> bool): (r: seq<Mesh>)
    ensures |r| <= |meshes|
  {
    if |meshes| == 0 then []
    else if keep(meshes[0]) then [meshes[0]] + Filter(meshes[1..], keep)
    else Filter(meshes[1..], keep)
  }

  /** `Filter` keeps exactly the meshes that pass, each as often as it occurs. */
  lemma {:induction false} FilterMembers(meshes: seq<Mesh>, keep: Mesh -> bool)
    ensures forall x :: x in Filter(meshes, keep) <==> x in meshes && keep(x)
    ensures multiset(Filter(meshes, keep)) <= multiset(meshes)
    decreases |meshes|
  {
    if |meshes| > 0 {
      FilterMembers(meshes[1..], keep);
      assert meshes == [meshes[0]] + meshes[1..];
    }
  }

  function Candidates(meshes: seq<Mesh>): seq<Mesh> {
    Filter(meshes, IsCandidate)
  }

  /** The first mesh with the given lower-cased name, if any. */
  function FirstNamed(meshes: seq<Mesh>, name: string): (r: Option<Mesh>)
    ensures r.Some? <==> exists i :: 0 <= i < |meshes| && NamedAs(meshes[i], name)
    ensures r.Some? ==> r.value in meshes && NamedAs(r.value, name)
    ensures r.Some? ==> exists i :: 0 <= i < |meshes| && meshes[i] == r.value &&
                          forall j :: 0 <= j < i ==> !NamedAs(meshes[j], name)
  {
    if |meshes| == 0 then None
    else if NamedAs(meshes[0], name) then Some(meshes[0])
    else
      var r := FirstNamed(meshes[1..], name);
      assert forall i :: 1 <= i < |meshes| ==> meshes[i] == meshes[1..][i - 1];
      if r.Some? then
        var k :| 0 <= k < |meshes[1..]| && meshes[1..][k] == r.value &&
                 forall j :: 0 <= j < k ==> !NamedAs(meshes[1..][j], name);
        assert meshes[k + 1] == r.value;
        r
      else r
  }

  /**
   * The traversal itself: every mesh in turn, keeping the first house seen
   * (unless one is already known) and appending each size-tested frog.
   */
  method Traverse(meshes: seq<Mesh>, house: Option<Mesh>) returns (cands: seq<Mesh>, house': Option<Mesh>)
    ensures cands == Candidates(meshes)
    ensures house.Some? ==> house' == house
    ensures house.None? ==> house' == FirstNamed(meshes, HouseName)
  {
    cands, house' := [], house;
    var i := 0;
    while i < |meshes|
      invariant 0 <= i <= |meshes|
      invariant cands == Candidates(meshes[..i])
      invariant house.Some? ==> house' == house
      invariant house.None? ==> house' == FirstNamed(meshes[..i], HouseName)
    {
      var child := meshes[i];
      CandidatesStep(meshes, i);
      FirstNamedStep(meshes, i, HouseName);
      house' := if NamedAs(child, HouseName) && house'.None? then Some(child) else house';
      cands := cands + if IsCandidate(child) then [child] else [];
      i := i + 1;
    }
    assert meshes[..i] == meshes;
  }

  lemma {:induction false} FirstNamedSnoc(s: seq<Mesh>, x: Mesh, name: string)
    ensures FirstNamed(s + [x], name) ==
              if FirstNamed(s, name).Some? then FirstNamed(s, name)
              else if NamedAs(x, name) then Some(x) else None
    decreases |s|
  {
    if |s| > 0 {
      assert (s + [x])[1..] == s[1..] + [x];
      FirstNamedSnoc(s[1..], x, name);
    }
  }

  lemma {:induction false} FilterAppend(a: seq<Mesh>, b: seq<Mesh>, keep: Mesh -> bool)
    ensures Filter(a + b, keep) == Filter(a, keep) + Filter(b, keep)
    decreases |a|
  {
    if |a| == 0 {
      assert a + b == b;
    } else {
      assert (a + b)[0] == a[0];
      assert (a + b)[1..] == a[1..] + b;
      FilterAppend(a[1..], b, keep);
    }
  }

  lemma CandidatesStep(meshes: seq<Mesh>, i: nat)
    requires i < |meshes|
    ensures Candidates(meshes[..i + 1]) ==
              Candidates(meshes[..i]) + (if IsCandidate(meshes[i]) then [meshes[i]] else [])
  {
    assert meshes[..i + 1] == meshes[..i] + [meshes[i]];
    FilterAppend(meshes[..i], [meshes[i]], IsCandidate);
    assert [meshes[i]][1..] == [];
  }

  lemma FirstNamedStep(meshes: seq<Mesh>, i: nat, name: string)
    requires i < |meshes|
    ensures FirstNamed(meshes[..i + 1], name) ==
              if FirstNamed(meshes[..i], name).Some? then FirstNamed(meshes[..i], name)
              else if NamedAs(meshes[i], name) then Some(meshes[i]) else None
  {
    assert meshes[..i + 1] == meshes[..i] + [meshes[i]];
    FirstNamedSnoc(meshes[..i], meshes[i], name);
  }

  /** Each radius is at most the next one. */
  predicate Sorted(s: seq<Mesh>)
    decreases |s|
  {
    |s| < 2 || (s[0].radius <= s[1].radius && Sorted(s[1..]))
  }

  /** Sortedness between neighbours gives it between any two positions. */
  lemma {:induction false} SortedPairwise(s: seq<Mesh>)
    requires Sorted(s)
    ensures forall i, j :: 0 <= i < j < |s| ==> s[i].radius <= s[j].radius
    decreases |s|
  {
    if |s| >= 2 {
      SortedPairwise(s[1..]);
      forall i, j | 0 <= i < j < |s|
        ensures s[i].radius <= s[j].radius
      {
        if i > 0 {
          assert s[i] == s[1..][i - 1] && s[j] == s[1..][j - 1];
        } else if j > 1 {
          assert s[1] == s[1..][0] && s[j] == s[1..][j - 1];
        }
      }
    }
  }

  /** The meshes of `s` with radius `k`, in order: what a stable sort must keep. */
  function WithRadius(s: seq<Mesh>, k: real): seq<Mesh> {
    if |s| == 0 then []
    else (if s[0].radius == k then [s[0]] else []) + WithRadius(s[1..], k)
  }

  lemma {:induction false} WithRadiusAppend(a: seq<Mesh>, b: seq<Mesh>, k: real)
    ensures WithRadius(a + b, k) == WithRadius(a, k) + WithRadius(b, k)
    decreases |a|
  {
    if |a| == 0 {
      assert a + b == b;
    } else {
      assert (a + b)[0] == a[0];
      assert (a + b)[1..] == a[1..] + b;
      WithRadiusAppend(a[1..], b, k);
    }
  }

  /** Insertion after every element of no larger radius keeps equal radii in arrival order. */
  function Insert(x: Mesh, t: seq<Mesh>): (r: seq<Mesh>)
    requires Sorted(t)
    ensures Sorted(r)
    ensures multiset(r) == multiset(t) + multiset{x}
    ensures |r| == |t| + 1
    ensures r[0] == x || (|t| > 0 && r[0] == t[0])
    decreases |t|
  {
    if |t| == 0 || x.radius <= t[0].radius then
      [x] + t
    else
      assert t == [t[0]] + t[1..];
      assert |t| >= 2 ==> t[1] == t[1..][0];
      [t[0]] + Insert(x, t[1..])
  }

  /**
   * `frogCandidates.sort((a, b) => a.radius - b.radius)`: ascending radius;
   * the sort is stable, which the model makes explicit by sorting with
   * insertions taken from the back of the list.
   */
  function SortByRadius(s: seq<Mesh>): (r: seq<Mesh>)
    ensures Sorted(r)
    ensures multiset(r) == multiset(s)
    ensures |r| == |s|
  {
    if |s| == 0 then []
    else
      assert s == [s[0]] + s[1..];
      Insert(s[0], SortByRadius(s[1..]))
  }

  lemma {:induction false} InsertStable(x: Mesh, t: seq<Mesh>, k: real)
    requires Sorted(t)
    ensures WithRadius(Insert(x, t), k) ==
              if x.radius == k then [x] + WithRadius(t, k) else WithRadius(t, k)
    decreases |t|
  {
    var wt := WithRadius(t, k);
    if |t| == 0 || x.radius <= t[0].radius {
      InsertFront(x, t);
      WithRadiusAppend([x], t, k);
      WithRadiusSingle(x, k);
      if x.radius != k {
        assert [] + wt == wt;
      }
    } else {
      var rest := t[1..];
      InsertBehind(x, t);
      var ins := Insert(x, rest);
      var wr := WithRadius(rest, k);
      InsertStable(x, rest, k);
      WithRadiusAppend([t[0]], ins, k);
      WithRadiusAppend([t[0]], rest, k);
      WithRadiusSingle(t[0], k);
      if x.radius == k {
        assert WithRadius(ins, k) == [x] + wr;
        assert wt == [] + wr == wr;
        assert WithRadius(Insert(x, t), k) == [] + ([x] + wr) == [x] + wr;
      } else {
        assert WithRadius(ins, k) == wr;
        assert WithRadius(Insert(x, t), k) == WithRadius([t[0]], k) + wr == wt;
      }
    }
  }

  lemma InsertFront(x: Mesh, t: seq<Mesh>)
    requires Sorted(t) && (|t| == 0 || x.radius <= t[0].radius)
    ensures Insert(x, t) == [x] + t
  {
  }

  lemma InsertBehind(x: Mesh, t: seq<Mesh>)
    requires Sorted(t) && |t| > 0 && t[0].radius < x.radius
    ensures Sorted(t[1..]) && Insert(x, t) == [t[0]] + Insert(x, t[1..])
    ensures t == [t[0]] + t[1..]
  {
  }

  lemma WithRadiusSingle(x: Mesh, k: real)
    ensures WithRadius([x], k) == if x.radius == k then [x] else []
  {
    assert [x][1..] == [];
  }

  /** The sort is stable: among equal radii the traversal order survives. */
  lemma {:induction false} SortStable(s: seq<Mesh>, k: real)
    ensures WithRadius(SortByRadius(s), k) == WithRadius(s, k)
    decreases |s|
  {
    if |s| > 0 {
      SortStable(s[1..], k);
      InsertStable(s[0], SortByRadius(s[1..]), k);
      assert s == [s[0]] + s[1..];
      WithRadiusAppend([s[0]], s[1..], k);
    }
  }

  /** `slice(0, n)`. */
  function Take(s: seq<Mesh>, n: nat): (r: seq<Mesh>)
    ensures |r| <= n && |r| <= |s| && (|r| == n || |r| == |s|)
    ensures r == s[..|r|]
  {
    if |s| <= n then s else s[..n]
  }

  /** `frogCandidates.slice(0, 2)` after the sort. */
  function Smallest(meshes: seq<Mesh>): (r: seq<Mesh>)
    ensures |r| <= 2
    ensures forall m :: m in r ==> m in meshes && IsCandidate(m)
    ensures r == [] <==> Candidates(meshes) == []
  {
    var c := Candidates(meshes);
    var sorted := SortByRadius(c);
    var r := Take(sorted, 2);
    FilterMembers(meshes, IsCandidate);
    forall m | m in r
      ensures m in c
    {
      assert m in sorted;
      assert m in multiset(sorted);
    }
    r
  }

  /** The fallback pass: the first two frog-named meshes, whatever their size. */
  function Fallback(meshes: seq<Mesh>): (r: seq<Mesh>)
    ensures |r| <= 2
    ensures forall m :: m in r ==> m in meshes && IsFrogNamed(m)
    ensures r == [] <==> forall m :: m in meshes ==> !IsFrogNamed(m)
    ensures var n := |Filter(meshes, IsFrogNamed)|; |r| == if n < 2 then n else 2
  {
    var named := Filter(meshes, IsFrogNamed);
    FilterMembers(meshes, IsFrogNamed);
    assert named != [] ==> named[0] in named;
    Take(named, 2)
  }

  /**
   * The fallback takes frog-named meshes in traversal order: what it picks
   * is exactly the frog-named meshes of some prefix of the traversal.
   */
  lemma FallbackTakesFirst(meshes: seq<Mesh>)
    ensures exists k :: 0 <= k <= |meshes| && Fallback(meshes) == Filter(meshes[..k], IsFrogNamed)
  {
    TakeFilterPrefix(meshes, 2, IsFrogNamed);
  }

  /** The first `n` kept meshes are the kept meshes of some prefix. */
  lemma {:induction false} TakeFilterPrefix(s: seq<Mesh>, n: nat, keep: Mesh -> bool)
    ensures exists k :: 0 <= k <= |s| && Take(Filter(s, keep), n) == Filter(s[..k], keep)
    decreases |s|
  {
    var f := Filter(s, keep);
    if |f| <= n {
      assert s[..|s|] == s;
      assert Take(f, n) == Filter(s[..|s|], keep);
    } else if n == 0 {
      assert s[..0] == [];
      assert Take(f, n) == Filter(s[..0], keep);
    } else {
      var n' := if keep(s[0]) then n - 1 else n;
      TakeFilterPrefix(s[1..], n', keep);
      var k :| 0 <= k <= |s[1..]| && Take(Filter(s[1..], keep), n') == Filter(s[1..][..k], keep);
      assert s[..k + 1] == [s[0]] + s[1..][..k];
      assert s[..k + 1][0] == s[0] && s[..k + 1][1..] == s[1..][..k];
      if keep(s[0]) {
        assert f == [s[0]] + Filter(s[1..], keep);
        assert Take(f, n) == [s[0]] + Take(Filter(s[1..], keep), n');
      } else {
        assert f == Filter(s[1..], keep);
      }
      assert Take(f, n) == Filter(s[..k + 1], keep);
    }
  }

  /**
   * The picked frog meshes: the two smallest candidates or, when no mesh
   * passes the size test, the first two frog-named meshes in traversal order.
   */
  function Pick(meshes: seq<Mesh>): (r: seq<Mesh>)
    ensures |r| <= 2
    ensures forall m :: m in r ==> m in meshes && IsFrogNamed(m)
    ensures r == [] <==> forall m :: m in meshes ==> !IsFrogNamed(m)
  {
    var smallest := Smallest(meshes);
    if smallest != [] then
      assert smallest[0] in smallest;
      smallest
    else Fallback(meshes)
  }

  /**
   * When some mesh passes the size test the picked meshes are the smallest
   * candidates: as many as there are, up to two, and none of the candidates
   * left over is smaller than a picked one.
   */
  lemma PickSmallest(meshes: seq<Mesh>)
    requires Candidates(meshes) != []
    ensures var c, r := Candidates(meshes), Pick(meshes);
            && |r| == (if |c| < 2 then |c| else 2)
            && multiset(r) <= multiset(c)
            && forall p, q :: p in r && q in multiset(c) - multiset(r) ==> p.radius <= q.radius
  {
    var c := Candidates(meshes);
    var sorted := SortByRadius(c);
    var r := Take(sorted, 2);
    assert Pick(meshes) == r;
    var rest := sorted[|r|..];
    assert sorted == r + rest;
    assert multiset(c) == multiset(r) + multiset(rest);
    SortedSplit(sorted, |r|);
    forall p, q | p in r && q in multiset(c) - multiset(r)
      ensures p.radius <= q.radius
    {
      assert q in multiset(rest);
    }
  }

  /** In a sorted list nothing before position `n` is larger than anything from `n` on. */
  lemma SortedSplit(s: seq<Mesh>, n: nat)
    requires Sorted(s) && n <= |s|
    ensures forall p, q :: p in s[..n] && q in s[n..] ==> p.radius <= q.radius
  {
    SortedPairwise(s);
    forall p, q | p in s[..n] && q in s[n..]
      ensures p.radius <= q.radius
    {
      var i :| 0 <= i < n && s[..n][i] == p;
      var j :| 0 <= j < |s| - n && s[n..][j] == q;
      assert s[i] == p && s[n + j] == q;
    }
  }

  /**
   * The `forEach` over the picked meshes: a mesh named "ranito" becomes the
   * male frog and one named "ranita" the female frog, each only while that
   * reference is still unset.
   */
  function Assign(male: Option<Mesh>, female: Option<Mesh>, picked: seq<Mesh>): (r: (Option<Mesh>, Option<Mesh>))
    ensures r.0 == if male.Some? then male else FirstNamed(picked, MaleName)
    ensures r.1 == if female.Some? then female else FirstNamed(picked, FemaleName)
    decreases |picked|
  {
    if |picked| == 0 then (male, female)
    else
      var m := picked[0];
      if male.None? && NamedAs(m, MaleName) then Assign(Some(m), female, picked[1..])
      else if female.None? && NamedAs(m, FemaleName) then Assign(male, Some(m), picked[1..])
      else Assign(male, female, picked[1..])
  }
}
