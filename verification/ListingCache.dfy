/** cache.go: the listing cache, a map and a recency list under a hard cap. */
module ListingCache {
  import opened Paths

  datatype TreeNode = TreeNode(name: string, path: string, isDir: bool, size: nat)

  type Nodes = seq<TreeNode>
  type Key = string

  const MAX_ENTRIES := 1000

  /** `cacheKey`. */
  function CacheKey(rel: string): Key {
    Trim(rel, "/\\")
  }

  // ---------------------------------------------------------------- recency lists

  /** The list `l` (most recent first) without `k`. */
  function Except(l: seq<Key>, k: Key): seq<Key> {
    if l == [] then [] else (if l[0] == k then [] else [l[0]]) + Except(l[1..], k)
  }

  /** `k` moved, or added, to the front. */
  function Touch(l: seq<Key>, k: Key): seq<Key> {
    [k] + Except(l, k)
  }

  function Take(l: seq<Key>, n: nat): seq<Key> {
    if |l| <= n then l else l[..n]
  }

  predicate Distinct(l: seq<Key>) {
    forall i, j :: 0 <= i < j < |l| ==> l[i] != l[j]
  }

  lemma {:induction false} ExceptFacts(l: seq<Key>, k: Key)
    ensures forall x :: x in Except(l, k) <==> x in l && x != k
    ensures k !in l ==> Except(l, k) == l
    ensures |Except(l, k)| <= |l|
  {
    if l != [] {
      ExceptFacts(l[1..], k);
      assert l == [l[0]] + l[1..];
    }
  }

  lemma {:induction false} ExceptConcat(a: seq<Key>, b: seq<Key>, k: Key)
    ensures Except(a + b, k) == Except(a, k) + Except(b, k)
  {
    if a == [] {
      assert a + b == b;
    } else {
      assert (a + b)[1..] == a[1..] + b;
      ExceptConcat(a[1..], b, k);
    }
  }

  lemma DistinctTail(l: seq<Key>)
    requires Distinct(l) && l != []
    ensures Distinct(l[1..]) && l[0] !in l[1..]
  {
    var rest := l[1..];
    forall i, j | 0 <= i < j < |rest| ensures rest[i] != rest[j] {
      assert l[i + 1] != l[j + 1];
    }
    forall i | 0 <= i < |rest| ensures rest[i] != l[0] {
      assert l[i + 1] != l[0];
    }
  }

  lemma DistinctCons(k: Key, l: seq<Key>)
    requires Distinct(l) && k !in l
    ensures Distinct([k] + l)
  {
  }

  lemma DistinctPrefix(l: seq<Key>, n: nat)
    requires Distinct(l) && n <= |l|
    ensures Distinct(l[..n])
  {
  }

  lemma {:induction false} ExceptDistinct(l: seq<Key>, k: Key)
    requires Distinct(l)
    ensures Distinct(Except(l, k)) && Distinct(Touch(l, k))
    ensures k in l ==> |Except(l, k)| == |l| - 1
  {
    hide Distinct;
    ExceptFacts(l, k);
    if l != [] {
      DistinctTail(l);
      ExceptDistinct(l[1..], k);
      ExceptFacts(l[1..], k);
      if l[0] != k {
        DistinctCons(l[0], Except(l[1..], k));
      } else {
        assert [] + Except(l[1..], k) == Except(l[1..], k);
      }
    } else {
      NoneDistinct();
    }
    DistinctCons(k, Except(l, k));
  }

  lemma NoneDistinct()
    ensures Distinct([])
  {
  }

  lemma CutFront(k: Key, a: seq<Key>, b: seq<Key>, m: nat)
    requires m - 1 <= |a| <= m
    ensures Take([k] + a, m) == Take([k] + (a + b), m) && (|a| == m - 1 ==> Take([k] + (a + b), m) == [k] + a)
  {
    assert [k] + (a + b) == [k] + a + b;
  }

  /** What lies beyond the cap never matters: touching first and cutting after is the same. */
  lemma TakeTouch(d: seq<Key>, k: Key, m: nat)
    requires Distinct(d) && m >= 1
    ensures Take(Touch(Take(d, m), k), m) == Take(Touch(d, k), m)
    ensures k in Take(d, m) ==> Touch(Take(d, m), k) == Take(Touch(d, k), m)
  {
    hide Except, Distinct;
    if |d| > m {
      var a, b := d[..m], d[m..];
      assert d == a + b;
      ExceptConcat(a, b, k);
      ExceptFacts(a, k);
      DistinctPrefix(d, m);
      ExceptDistinct(a, k);
      CutFront(k, Except(a, k), Except(b, k), m);
    } else {
      ExceptDistinct(d, k);
      ExceptFacts(d, k);
    }
  }

  // ---------------------------------------------------------------- traces

  datatype Op = Get(key: Key) | Set(key: Key, nodes: Nodes) | Invalidate

  /** The cache: its keys by recency and their listings. */
  datatype State = State(order: seq<Key>, vals: map<Key, Nodes>)

  const EMPTY := State([], map[])

  function Kept(vals: map<Key, Nodes>, order: seq<Key>): map<Key, Nodes> {
    map k | k in vals && k in order :: vals[k]
  }

  function Step(s: State, op: Op, max: nat): State {
    match op
    case Get(k) => if k in s.order then s.(order := Touch(s.order, k)) else s
    case Set(k, nodes) =>
      var order := Take(Touch(s.order, k), max);
      State(order, Kept(s.vals[k := nodes], order))
    case Invalidate => EMPTY
  }

  function Run(ops: seq<Op>, max: nat): State {
    if ops == [] then EMPTY else Step(Run(ops[..|ops| - 1], max), ops[|ops| - 1], max)
  }

  /** The distinct keys of a touch history, most recent first. */
  function Recent(h: seq<Key>): seq<Key> {
    if h == [] then [] else Touch(Recent(h[1..]), h[0])
  }

  lemma {:induction false} RecentFacts(h: seq<Key>)
    ensures Distinct(Recent(h)) && forall x :: x in Recent(h) <==> x in h
  {
    if h != [] {
      RecentFacts(h[1..]);
      ExceptDistinct(Recent(h[1..]), h[0]);
      ExceptFacts(Recent(h[1..]), h[0]);
    }
  }

  /** The keys touched since the last touch of `k`. */
  function Since(h: seq<Key>, k: Key): set<Key> {
    if h == [] || h[0] == k then {} else {h[0]} + Since(h[1..], k)
  }

  /** In the recency list, `k` comes right after the keys touched since. */
  lemma {:induction false} PositionOf(h: seq<Key>, k: Key) returns (p: seq<Key>, q: seq<Key>)
    requires k in h
    ensures Recent(h) == p + [k] + q && Distinct(p) && k !in p && forall x :: x in p <==> x in Since(h, k)
  {
    hide Except, Distinct;
    var d := Recent(h[1..]);
    if h[0] == k {
      p, q := [], Except(d, k);
      NothingRepeats();
      assert Recent(h) == [] + [k] + q;
    } else {
      var p', q' := PositionOf(h[1..], k);
      ExceptAround(p', k, q', h[0]);
      ExceptFacts(p', h[0]);
      ExceptDistinct(p', h[0]);
      p, q := Touch(p', h[0]), Except(q', h[0]);
      assert [h[0]] + (Except(p', h[0]) + [k] + q) == p + [k] + q;
    }
  }

  lemma NothingRepeats()
    ensures Distinct([])
  {
  }

  lemma ExceptAround(p: seq<Key>, k: Key, q: seq<Key>, x: Key)
    requires x != k
    ensures Except(p + [k] + q, x) == Except(p, x) + [k] + Except(q, x)
  {
    ExceptConcat(p + [k], q, x);
    ExceptConcat(p, [k], x);
    assert Except([k], x) == [k];
  }

  lemma {:induction false} DistinctCount(p: seq<Key>, s: set<Key>)
    requires Distinct(p) && forall x :: x in p <==> x in s
    ensures |p| == |s|
  {
    if p == [] {
      assert s == {};
    } else {
      DistinctTail(p);
      assert p == [p[0]] + p[1..];
      DistinctCount(p[1..], s - {p[0]});
    }
  }

  lemma InTake(p: seq<Key>, k: Key, q: seq<Key>, m: nat)
    requires Distinct(p + [k] + q)
    ensures k in Take(p + [k] + q, m) <==> |p| < m
  {
    var l := p + [k] + q;
    assert l[|p|] == k;
    if |l| > m && k in l[..m] {
      var i :| 0 <= i < m && l[..m][i] == k;
      assert l[i] == k;
    }
    if |p| < m < |l| {
      assert l[..m][|p|] == k;
    }
  }

  // ---------------------------------------------------------------- what the operations alone tell

  /** The keys touched since the last invalidation, most recent first: every key set, and every key looked up
      while fewer than `max` others had been touched since its own last touch. No list is kept here. */
  function Touches(ops: seq<Op>, max: nat): seq<Key> {
    if ops == [] then []
    else
      var h := Touches(ops[..|ops| - 1], max);
      match ops[|ops| - 1]
      case Get(k) => if k in h && |Since(h, k)| < max then [k] + h else h
      case Set(k, _) => [k] + h
      case Invalidate => []
  }

  /** The listing last set for each key since the last invalidation. */
  function LastSet(ops: seq<Op>): map<Key, Nodes> {
    if ops == [] then map[]
    else
      var last := LastSet(ops[..|ops| - 1]);
      match ops[|ops| - 1]
      case Get(_) => last
      case Set(k, nodes) => last[k := nodes]
      case Invalidate => map[]
  }

  ghost predicate Inv(s: State, h: seq<Key>, last: map<Key, Nodes>, max: nat) {
    && s.order == Take(Recent(h), max)
    && (forall k :: k in s.vals <==> k in s.order)
    && (forall k :: k in s.vals ==> k in last && s.vals[k] == last[k])
    && (forall k :: k in h <==> k in last)
  }

  /** Where the recency list is cut. */
  lemma HeldExactly(h: seq<Key>, max: nat, k: Key)
    ensures k in Take(Recent(h), max) <==> k in h && |Since(h, k)| < max
  {
    RecentFacts(h);
    if k in h {
      var p, q := PositionOf(h, k);
      DistinctCount(p, Since(h, k));
      InTake(p, k, q, max);
    } else {
      InTake1(Recent(h), max);
    }
  }

  lemma InTake1(l: seq<Key>, max: nat)
    ensures forall x :: x in Take(l, max) ==> x in l
  {
  }

  /** Touching `k` in the list is touching it in the history. */
  lemma TouchKeeps(h: seq<Key>, k: Key, max: nat)
    requires max >= 1
    ensures var order := Take(Recent(h), max);
            && Take(Touch(order, k), max) == Take(Recent([k] + h), max)
            && (k in order ==> Touch(order, k) == Take(Recent([k] + h), max))
            && forall x :: x in Touch(order, k) <==> x == k || x in order
  {
    hide Distinct, Except, Take;
    RecentFacts(h);
    TakeTouch(Recent(h), k, max);
    assert ([k] + h)[1..] == h;
    ExceptFacts(Take(Recent(h), max), k);
  }

  lemma GetKeeps(s: State, h: seq<Key>, last: map<Key, Nodes>, k: Key, max: nat)
    requires Inv(s, h, last, max) && max >= 1
    ensures Inv(Step(s, Get(k), max), if k in h && |Since(h, k)| < max then [k] + h else h, last, max)
  {
    hide Distinct, Touch, Take, Recent, Since;
    HeldExactly(h, max, k);
    TouchKeeps(h, k, max);
  }

  lemma SetKeeps(s: State, h: seq<Key>, last: map<Key, Nodes>, k: Key, nodes: Nodes, max: nat)
    requires Inv(s, h, last, max) && max >= 1
    ensures Inv(Step(s, Set(k, nodes), max), [k] + h, last[k := nodes], max)
  {
    hide Distinct, Touch, Take, Recent;
    TouchKeeps(h, k, max);
    InTake1(Touch(s.order, k), max);
  }

  lemma {:induction false} RunKeeps(ops: seq<Op>, max: nat)
    requires max >= 1
    ensures Inv(Run(ops, max), Touches(ops, max), LastSet(ops), max)
  {
    hide Inv, Step;
    if ops == [] {
      EmptyOk(max);
    } else {
      var before := ops[..|ops| - 1];
      RunKeeps(before, max);
      match ops[|ops| - 1]
      case Get(k) => GetKeeps(Run(before, max), Touches(before, max), LastSet(before), k, max);
      case Set(k, nodes) => SetKeeps(Run(before, max), Touches(before, max), LastSet(before), k, nodes, max);
      case Invalidate =>
        InvalidatedOk(Run(before, max), max);
        EmptyOk(max);
    }
  }

  lemma EmptyOk(max: nat)
    ensures Inv(EMPTY, [], map[], max)
  {
  }

  lemma InvalidatedOk(s: State, max: nat)
    ensures Step(s, Invalidate, max) == EMPTY
  {
  }

  /** After any run of operations: a lookup of `k` hits exactly when `k` was set since the last
      invalidation and fewer than `max` other keys were touched since its last touch, and then it yields
      the listing last set. The cache never holds more than `max` entries, and list and map agree. */
  lemma HitExactly(ops: seq<Op>, max: nat, k: Key)
    requires max >= 1
    ensures var s := Run(ops, max);
            && (k in s.order <==> k in LastSet(ops) && |Since(Touches(ops, max), k)| < max)
            && (k in s.order ==> k in s.vals && k in LastSet(ops) && s.vals[k] == LastSet(ops)[k])
            && |s.order| <= max && Distinct(s.order) && s.vals.Keys == set x | x in s.order
  {
    RunKeeps(ops, max);
    HeldExactly(Touches(ops, max), max, k);
    RecentFacts(Touches(ops, max));
  }

  // ---------------------------------------------------------------- a larger cache holds at least as much

  /** The keys of `l` that `s` holds, in the order of `l`. */
  function Restrict(l: seq<Key>, s: set<Key>): seq<Key> {
    if l == [] then [] else (if l[0] in s then [l[0]] else []) + Restrict(l[1..], s)
  }

  lemma {:induction false} RestrictFacts(l: seq<Key>, s: set<Key>)
    ensures forall x :: x in Restrict(l, s) <==> x in l && x in s
  {
    if l != [] {
      RestrictFacts(l[1..], s);
      assert l == [l[0]] + l[1..];
    }
  }

  lemma {:induction false} RestrictConcat(a: seq<Key>, b: seq<Key>, s: set<Key>)
    ensures Restrict(a + b, s) == Restrict(a, s) + Restrict(b, s)
  {
    if a == [] {
      assert a + b == b;
    } else {
      assert (a + b)[1..] == a[1..] + b;
      RestrictConcat(a[1..], b, s);
    }
  }

  /** Removing a key and restricting commute. */
  lemma {:induction false} RestrictExcept(l: seq<Key>, s: set<Key>, k: Key)
    ensures Except(Restrict(l, s), k) == Restrict(Except(l, k), s)
    ensures Restrict(Except(l, k), s) == Restrict(Except(l, k), s + {k})
  {
    if l != [] {
      RestrictExcept(l[1..], s, k);
      var head := if l[0] in s then [l[0]] else [];
      ExceptConcat(head, Restrict(l[1..], s), k);
      var kept := if l[0] == k then [] else [l[0]];
      RestrictConcat(kept, Except(l[1..], k), s);
      RestrictConcat(kept, Except(l[1..], k), s + {k});
      assert Restrict(kept, s) == Except(head, k);
      assert Restrict(kept, s) == Restrict(kept, s + {k});
    }
  }

  /** Touching a key keeps one list the restriction of the other. */
  lemma RestrictTouch(l: seq<Key>, s: set<Key>, k: Key)
    ensures Touch(Restrict(l, s), k) == Restrict(Touch(l, k), s + {k})
  {
    RestrictExcept(l, s, k);
    assert Touch(l, k)[0] == k && Touch(l, k)[1..] == Except(l, k);
  }

  /** The small list holds some of the large one's keys in its order, and all of them until it is full. */
  ghost predicate Nested(small: seq<Key>, large: seq<Key>, m: nat) {
    small == Restrict(large, set x | x in small) && (|small| < m ==> small == large)
  }

  lemma {:induction false} RestrictSame(l: seq<Key>, s: set<Key>, s': set<Key>)
    requires forall x :: x in l ==> (x in s <==> x in s')
    ensures Restrict(l, s) == Restrict(l, s')
  {
    if l != [] {
      RestrictSame(l[1..], s, s');
    }
  }

  /** Dropping the least recent key of the small list. */
  lemma {:induction false} RestrictDrop(l: seq<Key>, s: set<Key>)
    requires Distinct(l) && Restrict(l, s) != []
    ensures var r := Restrict(l, s); r[..|r| - 1] == Restrict(l, s - {r[|r| - 1]})
  {
    var rest := l[1..];
    DistinctTail(l);
    var r, t := Restrict(l, s), Restrict(rest, s);
    RestrictFacts(rest, s);
    if t == [] {
      RestrictSame(rest, s, s - {l[0]});
    } else {
      RestrictDrop(rest, s);
      assert t[|t| - 1] in t && r[|r| - 1] == t[|t| - 1];
      assert l[0] in s ==> r == [l[0]] + t && r[..|r| - 1] == [l[0]] + t[..|t| - 1];
    }
  }

  /** Dropping the least recent key of the large list, which the small one does not hold. */
  lemma {:induction false} RestrictLast(l: seq<Key>, s: set<Key>)
    requires l != [] && l[|l| - 1] !in s
    ensures Restrict(l[..|l| - 1], s) == Restrict(l, s)
  {
    var a := l[..|l| - 1];
    assert l == a + [l[|l| - 1]];
    RestrictConcat(a, [l[|l| - 1]], s);
  }

  lemma {:induction false} RestrictEnds(l: seq<Key>, s: set<Key>)
    requires l != [] && l[|l| - 1] in s
    ensures var r := Restrict(l, s); r != [] && r[|r| - 1] == l[|l| - 1]
  {
    var a := l[..|l| - 1];
    assert l == a + [l[|l| - 1]];
    RestrictConcat(a, [l[|l| - 1]], s);
    assert Restrict([l[|l| - 1]], s) == [l[|l| - 1]];
  }

  lemma {:induction false} RestrictLength(l: seq<Key>, s: set<Key>)
    ensures |Restrict(l, s)| <= |l|
    ensures |Restrict(l, s)| == |l| ==> Restrict(l, s) == l
  {
    if l != [] {
      RestrictLength(l[1..], s);
    }
  }

  lemma TouchNested(small: seq<Key>, large: seq<Key>, k: Key, m: nat)
    requires Nested(small, large, m)
    ensures var s, l := Touch(small, k), Touch(large, k);
            s == Restrict(l, set x | x in s) && (|small| < m ==> s == l)
  {
    hide Restrict, Except;
    var held := set x | x in small;
    RestrictTouch(large, held, k);
    ExceptFacts(small, k);
    var s := Touch(small, k);
    assert (set x | x in s) == held + {k};
  }

  /** A key touched in both caches. */
  lemma HitNested(small: seq<Key>, large: seq<Key>, k: Key, m: nat)
    requires Nested(small, large, m) && k in small && Distinct(small)
    ensures Nested(Touch(small, k), Touch(large, k), m)
  {
    TouchNested(small, large, k, m);
    ExceptDistinct(small, k);
  }

  /** A lookup that only the larger cache answers. */
  lemma LargeHitNested(small: seq<Key>, large: seq<Key>, k: Key, m: nat)
    requires Nested(small, large, m) && k !in small && k in large
    ensures Nested(small, Touch(large, k), m)
  {
    var held := set x | x in small;
    RestrictExcept(large, held, k);
    ExceptFacts(small, k);
    assert Touch(large, k)[0] == k && Touch(large, k)[1..] == Except(large, k);
  }

  lemma CutNested(s: seq<Key>, l: seq<Key>, m: nat, n: nat)
    requires Distinct(l) && s == Restrict(l, set x | x in s) && 1 <= m <= n
    requires |s| <= m + 1 && |l| <= n + 1 && (|s| <= m ==> s == l || |l| <= n)
    requires |s| < m ==> s == l
    ensures Nested(Take(s, m), Take(l, n), m)
  {
    hide Distinct;
    if |s| > m {
      CutBoth(s, l, m, n);
    } else {
      assert Take(s, m) == s;
    }
  }

  /** The small list is over its cap: its last key goes, and the large list's last key, if that goes too,
      is no other one that the small list keeps. */
  lemma CutBoth(s: seq<Key>, l: seq<Key>, m: nat, n: nat)
    requires Distinct(l) && s == Restrict(l, set x | x in s) && 1 <= m <= n
    requires |s| == m + 1 && |l| <= n + 1
    ensures Nested(Take(s, m), Take(l, n), m)
  {
    hide Distinct;
    var held := set x | x in s;
    var s', gone := s[..m], s[m];
    RestrictDrop(l, held);
    SubDistinct(l, held);
    assert s[..|s| - 1] == s';
    WithoutLast(s, m);
    var kept := held - {gone};
    assert (set x | x in s') == kept;
    if |l| > n {
      if l[n] in held {
        RestrictEnds(l, held);
      }
      RestrictLast(l, kept);
      assert Take(l, n) == l[..|l| - 1];
    }
  }

  lemma WithoutLast(s: seq<Key>, m: nat)
    requires Distinct(s) && |s| == m + 1
    ensures forall x :: x in s[..m] <==> x in s && x != s[m]
  {
    var a := s[..m];
    forall x ensures x in a <==> x in s && x != s[m] {
      if x in a {
        var i :| 0 <= i < m && a[i] == x;
        assert s[i] == x;
      }
      if x in s && x != s[m] {
        var i :| 0 <= i < |s| && s[i] == x;
        assert a[i] == x;
      }
    }
  }

  lemma {:induction false} SubDistinct(l: seq<Key>, s: set<Key>)
    requires Distinct(l)
    ensures Distinct(Restrict(l, s))
  {
    hide Distinct;
    if l == [] {
      NoneDistinct();
    } else {
      DistinctTail(l);
      SubDistinct(l[1..], s);
      RestrictFacts(l[1..], s);
      if l[0] in s {
        DistinctCons(l[0], Restrict(l[1..], s));
      } else {
        assert [] + Restrict(l[1..], s) == Restrict(l[1..], s);
      }
    }
  }

  ghost predicate Pair(small: State, large: State, m: nat, n: nat) {
    && Nested(small.order, large.order, m) && Distinct(small.order) && Distinct(large.order)
    && |small.order| <= m && |large.order| <= n
  }

  lemma PairStep(small: State, large: State, op: Op, m: nat, n: nat)
    requires Pair(small, large, m, n) && 1 <= m <= n
    ensures Nested(Step(small, op, m).order, Step(large, op, n).order, m)
  {
    match op
    case Get(k) =>
      RestrictFacts(large.order, set x | x in small.order);
      if k in small.order {
        HitNested(small.order, large.order, k, m);
      } else if k in large.order {
        LargeHitNested(small.order, large.order, k, m);
      }
    case Set(k, _) =>
      TouchNested(small.order, large.order, k, m);
      ExceptDistinct(small.order, k);
      ExceptDistinct(large.order, k);
      ExceptFacts(small.order, k);
      ExceptFacts(large.order, k);
      RestrictFacts(large.order, set x | x in small.order);
      CutNested(Touch(small.order, k), Touch(large.order, k), m, n);
    case Invalidate =>
  }

  lemma {:induction false} RunNested(ops: seq<Op>, m: nat, n: nat)
    requires 1 <= m <= n
    ensures Nested(Run(ops, m).order, Run(ops, n).order, m)
  {
    hide Nested, Step;
    if ops == [] {
      EmptyNested(m);
    } else {
      var before := ops[..|ops| - 1];
      RunNested(before, m, n);
      HitExactly(before, m, "");
      HitExactly(before, n, "");
      PairStep(Run(before, m), Run(before, n), ops[|ops| - 1], m, n);
    }
  }

  lemma EmptyNested(m: nat)
    ensures Nested([], [], m)
  {
    var none: seq<Key> := [];
    assert (set x | x in none) == {};
  }

  /** On the same run of operations a larger cache always holds every key a smaller one holds. */
  lemma LargerHoldsMore(ops: seq<Op>, m: nat, n: nat, k: Key)
    requires 1 <= m <= n && k in Run(ops, m).order
    ensures k in Run(ops, n).order
  {
    RunNested(ops, m, n);
    var small, large := Run(ops, m).order, Run(ops, n).order;
    RestrictFacts(large, set x | x in small);
  }
}
