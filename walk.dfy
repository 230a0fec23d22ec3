/**
 * `walkWith`: a depth-first walk over any value that hands every node to a
 * callback, parent before children, and stops at the first node on which the
 * callback returns false. The callback may rewrite the node it is given (the
 * source mutates it in place); the walk then descends into the children of the
 * node as the callback left it.
 */
module TreeWalk {
  import opened Assoc
  import opened Js

  /** The outcome of a visit: the callback (or the walk) returned a boolean and the node as it now stands, or it threw. */
  datatype Walked<T> = Returned(cont: bool, node: T) | Threw

  predicate Continues<T>(w: Walked<T>) {
    w.Returned? && w.cont
  }

  /** How a visit or a walk ended. */
  datatype Outcome = Thrown | Stopped | WentOn

  function OutcomeOf<T>(w: Walked<T>): (o: Outcome)
    ensures o == WentOn <==> Continues(w)
    ensures o == Thrown <==> w.Threw?
  {
    match w
    case Threw => Thrown
    case Returned(cont, _) => if cont then WentOn else Stopped
  }

  function Last(s: seq<Value>): Value
    requires s != []
  {
    s[|s| - 1]
  }

  /** A callback never makes the node it is given deeper; every callback the tool passes is of this kind. */
  ghost predicate Shrinking(f: Value -> Walked<Value>) {
    forall v {:trigger f(v)} :: f(v).Returned? ==> Height(f(v).node) <= Height(v)
  }

  /** `walkWith(v, f)` together with the tree it leaves behind. */
  function Walk(v: Value, f: Value -> Walked<Value>): Walked<Value>
    requires Shrinking(f)
    decreases Height(v), 1
  {
    match f(v)
    case Threw => Threw
    case Returned(cont, n) =>
      if !cont then Returned(false, n)
      else
        match n
        case Obj(fs) =>
          (match WalkFields(fs, f)
           case Threw => Threw
           case Returned(ok, fs') => Returned(ok, Obj(fs')))
        case Arr(xs) =>
          (match WalkItems(xs, f)
           case Threw => Threw
           case Returned(ok, xs') => Returned(ok, Arr(xs')))
        case _ => Returned(true, n)
  }

  /** The `for..in` loop over an object's keys, returning false as soon as a child's walk does. */
  function WalkFields(fs: seq<Entry<Value>>, f: Value -> Walked<Value>): Walked<seq<Entry<Value>>>
    requires Shrinking(f)
    decreases FieldsHeight(fs), 2, |fs|
  {
    if fs == [] then Returned(true, [])
    else
      match Walk(fs[0].val, f)
      case Threw => Threw
      case Returned(cont, x) =>
        if !cont then Returned(false, [Entry(fs[0].key, x)] + fs[1..])
        else
          match WalkFields(fs[1..], f)
          case Threw => Threw
          case Returned(ok, rest) => Returned(ok, [Entry(fs[0].key, x)] + rest)
  }

  /** The `for..in` loop over an array's indices. */
  function WalkItems(xs: seq<Value>, f: Value -> Walked<Value>): Walked<seq<Value>>
    requires Shrinking(f)
    decreases ItemsHeight(xs), 2, |xs|
  {
    if xs == [] then Returned(true, [])
    else
      match Walk(xs[0], f)
      case Threw => Threw
      case Returned(cont, x) =>
        if !cont then Returned(false, [x] + xs[1..])
        else
          match WalkItems(xs[1..], f)
          case Threw => Threw
          case Returned(ok, rest) => Returned(ok, [x] + rest)
  }

  /** The nodes the walk hands to the callback, in order. */
  ghost function Visited(v: Value, f: Value -> Walked<Value>): seq<Value>
    requires Shrinking(f)
    decreases Height(v), 1
  {
    var below :=
      match f(v)
      case Threw => []
      case Returned(cont, n) =>
        if !cont then []
        else
          match n
          case Obj(fs) => VisitedFields(fs, f)
          case Arr(xs) => VisitedItems(xs, f)
          case _ => [];
    [v] + below
  }

  ghost function VisitedFields(fs: seq<Entry<Value>>, f: Value -> Walked<Value>): seq<Value>
    requires Shrinking(f)
    decreases FieldsHeight(fs), 2, |fs|
  {
    if fs == [] then []
    else Visited(fs[0].val, f) + (if Continues(Walk(fs[0].val, f)) then VisitedFields(fs[1..], f) else [])
  }

  ghost function VisitedItems(xs: seq<Value>, f: Value -> Walked<Value>): seq<Value>
    requires Shrinking(f)
    decreases ItemsHeight(xs), 2, |xs|
  {
    if xs == [] then []
    else Visited(xs[0], f) + (if Continues(Walk(xs[0], f)) then VisitedItems(xs[1..], f) else [])
  }

  /** Every callback result in `s` says "go on". */
  ghost predicate AllContinue(f: Value -> Walked<Value>, s: seq<Value>) {
    forall i :: 0 <= i < |s| ==> Continues(f(s[i]))
  }

  /** A non-empty trace in which only the last node may have stopped the walk. */
  ghost predicate StopsOnlyAtEnd(f: Value -> Walked<Value>, s: seq<Value>) {
    s != [] && AllContinue(f, s[..|s| - 1])
  }

  lemma AllContinueLast(f: Value -> Walked<Value>, s: seq<Value>)
    requires StopsOnlyAtEnd(f, s)
    ensures AllContinue(f, s) <==> Continues(f(Last(s)))
  {
    assert forall i :: 0 <= i < |s| - 1 ==> s[..|s| - 1][i] == s[i];
  }

  /** A trace that went on to its end, followed by another trace. */
  lemma AppendTrace(f: Value -> Walked<Value>, a: seq<Value>, b: seq<Value>)
    requires a != [] && AllContinue(f, a)
    requires StopsOnlyAtEnd(f, b)
    ensures StopsOnlyAtEnd(f, a + b) && Last(a + b) == Last(b)
  {
    var c := a + b;
    var init := c[..|c| - 1];
    forall i | 0 <= i < |init| ensures Continues(f(init[i])) {
      assert init[i] == c[i];
      if i >= |a| {
        assert c[i] == b[i - |a|] == b[..|b| - 1][i - |a|];
      }
    }
  }

  /**
   * The walk visits nothing after the first node on which the callback did
   * not return true, and ends as the visit of that last node ended: true
   * exactly when it went on (so exactly when the callback returned true on
   * every node it visited), thrown exactly when it threw.
   */
  lemma {:induction false} WalkVisits(v: Value, f: Value -> Walked<Value>)
    requires Shrinking(f)
    ensures StopsOnlyAtEnd(f, Visited(v, f)) && Visited(v, f)[0] == v
    ensures OutcomeOf(Walk(v, f)) == OutcomeOf(f(Last(Visited(v, f))))
    decreases Height(v), 1
  {
    match f(v)
    case Threw =>
    case Returned(cont, n) =>
      if cont {
        match n
        case Obj(fs) =>
          WalkFieldsVisits(fs, f);
          if fs != [] {
            AppendTrace(f, [v], VisitedFields(fs, f));
          }
        case Arr(xs) =>
          WalkItemsVisits(xs, f);
          if xs != [] {
            AppendTrace(f, [v], VisitedItems(xs, f));
          }
        case _ =>
      }
  }

  lemma {:induction false} WalkFieldsVisits(fs: seq<Entry<Value>>, f: Value -> Walked<Value>)
    requires Shrinking(f)
    ensures fs == [] ==> VisitedFields(fs, f) == [] && WalkFields(fs, f) == Returned(true, [])
    ensures fs != [] ==> StopsOnlyAtEnd(f, VisitedFields(fs, f))
    ensures fs != [] ==> OutcomeOf(WalkFields(fs, f)) == OutcomeOf(f(Last(VisitedFields(fs, f))))
    decreases FieldsHeight(fs), 2, |fs|
  {
    if fs != [] {
      var a := Visited(fs[0].val, f);
      WalkVisits(fs[0].val, f);
      if Continues(Walk(fs[0].val, f)) && fs[1..] != [] {
        var b := VisitedFields(fs[1..], f);
        WalkFieldsVisits(fs[1..], f);
        AllContinueLast(f, a);
        AppendTrace(f, a, b);
        assert VisitedFields(fs, f) == a + b;
        assert OutcomeOf(WalkFields(fs, f)) == OutcomeOf(WalkFields(fs[1..], f));
      } else if Continues(Walk(fs[0].val, f)) {
        assert WalkFields(fs[1..], f) == Returned(true, []);
        assert OutcomeOf(WalkFields(fs, f)) == WentOn;
        assert VisitedFields(fs, f) == a + [] == a;
      } else {
        assert OutcomeOf(WalkFields(fs, f)) == OutcomeOf(Walk(fs[0].val, f));
        assert VisitedFields(fs, f) == a + [] == a;
      }
    }
  }

  lemma {:induction false} WalkItemsVisits(xs: seq<Value>, f: Value -> Walked<Value>)
    requires Shrinking(f)
    ensures xs == [] ==> VisitedItems(xs, f) == [] && WalkItems(xs, f) == Returned(true, [])
    ensures xs != [] ==> StopsOnlyAtEnd(f, VisitedItems(xs, f))
    ensures xs != [] ==> OutcomeOf(WalkItems(xs, f)) == OutcomeOf(f(Last(VisitedItems(xs, f))))
    decreases ItemsHeight(xs), 2, |xs|
  {
    if xs != [] {
      var a := Visited(xs[0], f);
      WalkVisits(xs[0], f);
      if Continues(Walk(xs[0], f)) && xs[1..] != [] {
        var b := VisitedItems(xs[1..], f);
        WalkItemsVisits(xs[1..], f);
        AllContinueLast(f, a);
        AppendTrace(f, a, b);
        assert VisitedItems(xs, f) == a + b;
        assert OutcomeOf(WalkItems(xs, f)) == OutcomeOf(WalkItems(xs[1..], f));
      } else if Continues(Walk(xs[0], f)) {
        assert WalkItems(xs[1..], f) == Returned(true, []);
        assert OutcomeOf(WalkItems(xs, f)) == WentOn;
        assert VisitedItems(xs, f) == a + [] == a;
      } else {
        assert OutcomeOf(WalkItems(xs, f)) == OutcomeOf(Walk(xs[0], f));
        assert VisitedItems(xs, f) == a + [] == a;
      }
    }
  }

  /** `walkWith` returns true exactly when the callback returned true on every node it visited. */
  lemma WalkTrueIff(v: Value, f: Value -> Walked<Value>)
    requires Shrinking(f)
    ensures Continues(Walk(v, f)) <==> AllContinue(f, Visited(v, f))
  {
    WalkVisits(v, f);
    AllContinueLast(f, Visited(v, f));
  }

  /** Every node of a tree, parents before their children, children in key order. */
  function Preorder(v: Value): seq<Value> {
    [v] + match v
          case Obj(fs) => PreorderFields(fs)
          case Arr(xs) => PreorderItems(xs)
          case _ => []
  }

  function PreorderFields(fs: seq<Entry<Value>>): seq<Value> {
    if fs == [] then [] else Preorder(fs[0].val) + PreorderFields(fs[1..])
  }

  function PreorderItems(xs: seq<Value>): seq<Value> {
    if xs == [] then [] else Preorder(xs[0]) + PreorderItems(xs[1..])
  }

  /** A callback that only inspects: it never throws and leaves every node as it is. */
  ghost predicate ReadOnly(f: Value -> Walked<Value>) {
    forall v {:trigger f(v)} :: f(v).Returned? && f(v).node == v
  }

  /** The nodes of `s` a walk visits: those up to and including the first on which the callback does not go on. */
  ghost function Trace(f: Value -> Walked<Value>, s: seq<Value>): (t: seq<Value>)
    ensures t <= s
  {
    if s == [] then []
    else if !Continues(f(s[0])) then [s[0]]
    else [s[0]] + Trace(f, s[1..])
  }

  lemma AllContinueAppend(f: Value -> Walked<Value>, a: seq<Value>, b: seq<Value>)
    ensures AllContinue(f, a + b) <==> AllContinue(f, a) && AllContinue(f, b)
  {
    assert forall i :: 0 <= i < |a| ==> (a + b)[i] == a[i];
    assert forall i :: 0 <= i < |b| ==> (a + b)[|a| + i] == b[i];
  }

  /** A walk over `a` then `b` visits all of `a` and goes on into `b` exactly when every node of `a` went on. */
  lemma {:induction false} TraceAppend(f: Value -> Walked<Value>, a: seq<Value>, b: seq<Value>)
    ensures Trace(f, a + b) == if AllContinue(f, a) then a + Trace(f, b) else Trace(f, a)
  {
    if a == [] {
      assert a + b == b;
    } else {
      var c := a + b;
      assert c[0] == a[0] && c[1..] == a[1..] + b;
      if Continues(f(a[0])) {
        TraceAppend(f, a[1..], b);
        assert Trace(f, c) == [a[0]] + Trace(f, a[1..] + b);
        AllContinueAppend(f, [a[0]], a[1..]);
        assert [a[0]] + a[1..] == a;
      } else {
        assert !AllContinue(f, a);
      }
    }
  }

  /**
   * With a callback that only inspects, the walk leaves the tree unchanged,
   * returns true exactly when the callback holds on every node, and visits the
   * nodes in preorder up to and including the first on which it fails.
   */
  lemma {:induction false} ReadOnlyWalk(v: Value, f: Value -> Walked<Value>)
    requires ReadOnly(f)
    ensures Shrinking(f)
    ensures Walk(v, f) == Returned(AllContinue(f, Preorder(v)), v)
    ensures Visited(v, f) == Trace(f, Preorder(v))
    decreases Height(v), 1
  {
    var below := Preorder(v)[1..];
    assert Preorder(v) == [v] + below;
    TraceAppend(f, [v], below);
    AllContinueAppend(f, [v], below);
    if Continues(f(v)) {
      match v
      case Obj(fs) =>
        ReadOnlyWalkFields(fs, f);
        assert below == PreorderFields(fs);
      case Arr(xs) =>
        ReadOnlyWalkItems(xs, f);
        assert below == PreorderItems(xs);
      case _ =>
        assert below == [];
    }
  }

  lemma {:induction false} ReadOnlyWalkFields(fs: seq<Entry<Value>>, f: Value -> Walked<Value>)
    requires ReadOnly(f)
    ensures Shrinking(f)
    ensures WalkFields(fs, f) == Returned(AllContinue(f, PreorderFields(fs)), fs)
    ensures VisitedFields(fs, f) == Trace(f, PreorderFields(fs))
    decreases FieldsHeight(fs), 2, |fs|
  {
    if fs != [] {
      var x := fs[0].val;
      var a := Preorder(x);
      var b := PreorderFields(fs[1..]);
      ReadOnlyWalk(x, f);
      TraceAppend(f, a, b);
      AllContinueAppend(f, a, b);
      assert PreorderFields(fs) == a + b;
      if AllContinue(f, a) {
        ReadOnlyWalkFields(fs[1..], f);
        TraceAppend(f, a, []);
        assert a + [] == a;
        assert WalkFields(fs, f) == Returned(AllContinue(f, b), [Entry(fs[0].key, x)] + fs[1..]);
      } else {
        assert WalkFields(fs, f) == Returned(false, [Entry(fs[0].key, x)] + fs[1..]);
      }
      assert [Entry(fs[0].key, x)] + fs[1..] == fs;
    }
  }

  lemma {:induction false} ReadOnlyWalkItems(xs: seq<Value>, f: Value -> Walked<Value>)
    requires ReadOnly(f)
    ensures Shrinking(f)
    ensures WalkItems(xs, f) == Returned(AllContinue(f, PreorderItems(xs)), xs)
    ensures VisitedItems(xs, f) == Trace(f, PreorderItems(xs))
    decreases ItemsHeight(xs), 2, |xs|
  {
    if xs != [] {
      var x := xs[0];
      var a := Preorder(x);
      var b := PreorderItems(xs[1..]);
      ReadOnlyWalk(x, f);
      TraceAppend(f, a, b);
      AllContinueAppend(f, a, b);
      assert PreorderItems(xs) == a + b;
      if AllContinue(f, a) {
        ReadOnlyWalkItems(xs[1..], f);
        TraceAppend(f, a, []);
        assert a + [] == a;
        assert WalkItems(xs, f) == Returned(AllContinue(f, b), [x] + xs[1..]);
      } else {
        assert WalkItems(xs, f) == Returned(false, [x] + xs[1..]);
      }
      assert [x] + xs[1..] == xs;
    }
  }

  /** With a callback that always returns true and changes nothing, every node of the tree is visited, in preorder. */
  lemma AlwaysTrueVisitsAll(v: Value, f: Value -> Walked<Value>)
    requires forall x {:trigger f(x)} :: f(x) == Returned(true, x)
    ensures Shrinking(f)
    ensures Walk(v, f) == Returned(true, v) && Visited(v, f) == Preorder(v)
  {
    ReadOnlyWalk(v, f);
    var p := Preorder(v);
    TraceAppend(f, p, []);
    assert p + [] == p;
  }

  /**
   * `vis` and `pre` match position by position: walking the node visited at
   * position `i` goes on and yields the subtree at position `i` of `pre`.
   */
  ghost predicate Mirrors(f: Value -> Walked<Value>, vis: seq<Value>, pre: seq<Value>)
    requires Shrinking(f)
  {
    |vis| == |pre| && forall i :: 0 <= i < |vis| ==> Walk(vis[i], f) == Returned(true, pre[i])
  }

  lemma MirrorsAppend(f: Value -> Walked<Value>, a: seq<Value>, p: seq<Value>, b: seq<Value>, q: seq<Value>)
    requires Shrinking(f) && Mirrors(f, a, p) && Mirrors(f, b, q)
    ensures Mirrors(f, a + b, p + q)
  {
    forall i | 0 <= i < |a + b| ensures Walk((a + b)[i], f) == Returned(true, (p + q)[i]) {
      if i < |a| {
        assert (a + b)[i] == a[i] && (p + q)[i] == p[i];
      } else {
        assert (a + b)[i] == b[i - |a|] && (p + q)[i] == q[i - |a|];
      }
    }
  }

  /**
   * With a callback that always returns true (and may rewrite the node it is
   * given), the walk goes on to the end, and it visits exactly one node per
   * node of the tree it leaves behind: the node visited at each preorder
   * position is the one whose walk produced the subtree at that position.
   */
  lemma {:induction false} AlwaysTrueWalk(v: Value, f: Value -> Walked<Value>)
    requires Shrinking(f)
    requires forall x {:trigger f(x)} :: Continues(f(x))
    ensures Continues(Walk(v, f))
    ensures Visited(v, f)[0] == v && Mirrors(f, Visited(v, f), Preorder(Walk(v, f).node))
    decreases Height(v), 1
  {
    assert Continues(f(v));
    match f(v).node
    case Obj(fs) =>
      AlwaysTrueWalkFields(fs, f);
      var out := Obj(WalkFields(fs, f).node);
      assert Walk(v, f) == Returned(true, out);
      MirrorsAppend(f, [v], [out], VisitedFields(fs, f), PreorderFields(out.fields));
    case Arr(xs) =>
      AlwaysTrueWalkItems(xs, f);
      var out := Arr(WalkItems(xs, f).node);
      assert Walk(v, f) == Returned(true, out);
      MirrorsAppend(f, [v], [out], VisitedItems(xs, f), PreorderItems(out.items));
    case _ =>
      assert Walk(v, f) == Returned(true, f(v).node);
  }

  lemma {:induction false} AlwaysTrueWalkFields(fs: seq<Entry<Value>>, f: Value -> Walked<Value>)
    requires Shrinking(f)
    requires forall x {:trigger f(x)} :: Continues(f(x))
    ensures Continues(WalkFields(fs, f))
    ensures |WalkFields(fs, f).node| == |fs|
    ensures forall i :: 0 <= i < |fs| ==> WalkFields(fs, f).node[i].key == fs[i].key
    ensures Mirrors(f, VisitedFields(fs, f), PreorderFields(WalkFields(fs, f).node))
    decreases FieldsHeight(fs), 2, |fs|
  {
    if fs != [] {
      AlwaysTrueWalk(fs[0].val, f);
      AlwaysTrueWalkFields(fs[1..], f);
      var x := Walk(fs[0].val, f).node;
      var rest := WalkFields(fs[1..], f).node;
      var fs' := [Entry(fs[0].key, x)] + rest;
      assert WalkFields(fs, f).node == fs';
      assert fs'[0].val == x && fs'[1..] == rest;
      MirrorsAppend(f, Visited(fs[0].val, f), Preorder(x), VisitedFields(fs[1..], f), PreorderFields(rest));
    }
  }

  lemma {:induction false} AlwaysTrueWalkItems(xs: seq<Value>, f: Value -> Walked<Value>)
    requires Shrinking(f)
    requires forall x {:trigger f(x)} :: Continues(f(x))
    ensures Continues(WalkItems(xs, f))
    ensures |WalkItems(xs, f).node| == |xs|
    ensures Mirrors(f, VisitedItems(xs, f), PreorderItems(WalkItems(xs, f).node))
    decreases ItemsHeight(xs), 2, |xs|
  {
    if xs != [] {
      AlwaysTrueWalk(xs[0], f);
      AlwaysTrueWalkItems(xs[1..], f);
      var x := Walk(xs[0], f).node;
      var rest := WalkItems(xs[1..], f).node;
      var xs' := [x] + rest;
      assert WalkItems(xs, f).node == xs';
      assert xs'[0] == x && xs'[1..] == rest;
      MirrorsAppend(f, Visited(xs[0], f), Preorder(x), VisitedItems(xs[1..], f), PreorderItems(rest));
    }
  }

  /** Every field of an object, and every node below it, comes after the object in preorder. */
  lemma {:induction false} PreorderFieldsContain(fs: seq<Entry<Value>>, i: nat)
    requires i < |fs|
    ensures forall x :: x in Preorder(fs[i].val) ==> x in PreorderFields(fs)
  {
    if i > 0 {
      PreorderFieldsContain(fs[1..], i - 1);
      assert fs[1..][i - 1] == fs[i];
    }
  }

  lemma {:induction false} PreorderItemsContain(xs: seq<Value>, i: nat)
    requires i < |xs|
    ensures forall x :: x in Preorder(xs[i]) ==> x in PreorderItems(xs)
  {
    if i > 0 {
      PreorderItemsContain(xs[1..], i - 1);
      assert xs[1..][i - 1] == xs[i];
    }
  }
}
