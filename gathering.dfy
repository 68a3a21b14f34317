/**
 * Concatenating the lists a sequence of steps produces, stopping at the
 * first step that fails: the shape of every loop of the script that
 * extends a list step by step and exits on an error.
 */
module Gathering {
  import opened Wrappers

  /** The lists of the parts concatenated in order, or the error of the first part that failed. */
  function Gather<T>(parts: seq<Result<seq<T>>>): Result<seq<T>>
  {
    if parts == [] then Success([])
    else
      match Gather(parts[..|parts| - 1])
      case Failure(e) => Failure(e)
      case Success(done) =>
        match parts[|parts| - 1]
        case Failure(e) => Failure(e)
        case Success(more) => Success(done + more)
  }

  /** Once a prefix of the parts fails, all of them fail with the same error. */
  lemma {:induction false} GatherStopsAtFailure<T>(parts: seq<Result<seq<T>>>, i: nat)
    requires i <= |parts| && Gather(parts[..i]).Failure?
    ensures Gather(parts) == Gather(parts[..i])
    decreases |parts| - i
  {
    if i < |parts| {
      assert parts[..i + 1][..i] == parts[..i];
      GatherStopsAtFailure(parts, i + 1);
    } else {
      assert parts[..i] == parts;
    }
  }

  /** Gathering two runs of parts one after the other concatenates their lists. */
  lemma {:induction false} GatherAppend<T>(p: seq<Result<seq<T>>>, q: seq<Result<seq<T>>>)
    requires Gather(p).Success? && Gather(q).Success?
    ensures Gather(p + q) == Success(Gather(p).value + Gather(q).value)
  {
    if q == [] {
      assert p + q == p;
      assert Gather(p).value + [] == Gather(p).value;
    } else {
      var init := q[..|q| - 1];
      var last := q[|q| - 1];
      assert Gather(init).Success? && last.Success?;
      GatherAppend(p, init);
      assert (p + q)[..|p + q| - 1] == p + init;
      assert (p + q)[|p + q| - 1] == last;
      var vp, vi := Gather(p).value, Gather(init).value;
      assert Gather(q).value == vi + last.value;
      assert Gather(p + q) == Success(vp + vi + last.value);
      assert vp + vi + last.value == vp + (vi + last.value);
    }
  }

  /** When every part succeeds, so does the whole. */
  lemma {:induction false} GatherSucceeds<T>(parts: seq<Result<seq<T>>>)
    requires forall i :: 0 <= i < |parts| ==> parts[i].Success?
    ensures Gather(parts).Success?
  {
    if parts != [] {
      var init := parts[..|parts| - 1];
      assert forall i :: 0 <= i < |init| ==> init[i] == parts[i];
      GatherSucceeds(init);
    }
  }

  /** A failure is the error of the first part that failed. */
  lemma GatherFirstFailure<T>(parts: seq<Result<seq<T>>>, i: nat)
    requires i < |parts| && parts[i].Failure?
    requires forall j :: 0 <= j < i ==> parts[j].Success?
    ensures Gather(parts) == Failure(parts[i].error)
  {
    var pre := parts[..i];
    assert forall j :: 0 <= j < |pre| ==> pre[j] == parts[j];
    GatherSucceeds(pre);
    assert parts[..i + 1][..i] == pre;
    GatherStopsAtFailure(parts, i + 1);
  }

  /** `f` applied to each element, in order: the shape of every loop of the script that appends one item per input. */
  function Each<A, B>(f: A --> B, s: seq<A>): (r: seq<B>)
    requires forall i :: 0 <= i < |s| ==> f.requires(s[i])
    ensures |r| == |s|
  {
    if s == [] then [] else Each(f, s[..|s| - 1]) + [f(s[|s| - 1])]
  }

  /** The i-th item is made from the i-th input. */
  lemma {:induction false} EachAt<A, B>(f: A --> B, s: seq<A>, i: nat)
    requires forall i :: 0 <= i < |s| ==> f.requires(s[i])
    requires i < |s|
    ensures Each(f, s)[i] == f(s[i])
  {
    var init := s[..|s| - 1];
    if i < |init| {
      EachAt(f, init, i);
      assert init[i] == s[i];
    }
  }

  /** One more input adds its item at the end. */
  lemma EachSnoc<A, B>(f: A --> B, s: seq<A>, i: nat)
    requires forall i :: 0 <= i < |s| ==> f.requires(s[i])
    requires i < |s|
    ensures Each(f, s[..i + 1]) == Each(f, s[..i]) + [f(s[i])]
  {
    assert s[..i + 1][..i] == s[..i];
  }

  /** The items of a prefix of the inputs are the prefix of the items. */
  lemma {:induction false} EachPrefix<A, B>(f: A --> B, s: seq<A>, i: nat)
    requires forall i :: 0 <= i < |s| ==> f.requires(s[i])
    requires i <= |s|
    ensures Each(f, s)[..i] == Each(f, s[..i])
    decreases |s| - i
  {
    if i < |s| {
      EachPrefix(f, s, i + 1);
      EachSnoc(f, s, i);
    } else {
      assert s[..i] == s;
    }
  }

  /** Two runs of inputs one after the other give their items one after the other. */
  lemma {:induction false} EachAppend<A, B>(f: A --> B, a: seq<A>, b: seq<A>)
    requires forall i :: 0 <= i < |a| ==> f.requires(a[i])
    requires forall i :: 0 <= i < |b| ==> f.requires(b[i])
    ensures Each(f, a + b) == Each(f, a) + Each(f, b)
  {
    if b == [] {
      assert a + b == a;
    } else {
      var init := b[..|b| - 1];
      assert (a + b)[..|a + b| - 1] == a + init;
      assert (a + b)[|a + b| - 1] == b[|b| - 1];
      EachAppend(f, a, init);
    }
  }

  lemma EachOne<A, B>(f: A --> B, x: A)
    requires f.requires(x)
    ensures Each(f, [x]) == [f(x)]
  {
    assert [x][..0] == [];
  }

  /** Gathering what `f` makes of the inputs fails with the error of the first input it fails on. */
  lemma GatherEachStop<A, B>(f: A -> Result<seq<B>>, s: seq<A>, i: nat)
    requires i < |s| && Gather(Each(f, s[..i])).Success? && f(s[i]).Failure?
    ensures Gather(Each(f, s)) == Failure(f(s[i]).error)
  {
    EachPrefixSnoc(f, s, i);
    GatherSnocFailure(Each(f, s[..i]), f(s[i]));
    GatherStopsAtFailure(Each(f, s), i + 1);
  }

  lemma EachPrefixSnoc<A, B>(f: A -> B, s: seq<A>, i: nat)
    requires i < |s|
    ensures Each(f, s)[..i + 1] == Each(f, s[..i]) + [f(s[i])]
  {
    EachPrefix(f, s, i + 1);
    EachSnoc(f, s, i);
  }

  lemma GatherSnocFailure<T>(parts: seq<Result<seq<T>>>, bad: Result<seq<T>>)
    requires Gather(parts).Success? && bad.Failure?
    ensures Gather(parts + [bad]) == Failure(bad.error)
  {
    InitOfAppend(parts, [bad]);
  }

  /** Gathering what `f` makes of two inputs concatenates the two lists. */
  lemma GatherEachTwo<A, B>(f: A -> Result<seq<B>>, x: A, y: A)
    requires f(x).Success? && f(y).Success?
    ensures Gather(Each(f, [x, y])) == Success(f(x).value + f(y).value)
  {
    var p, q := f(x), f(y);
    assert [x, y][..1] == [x];
    EachOne(f, x);
    assert Each(f, [x, y]) == [p, q];
    assert [p, q][..1] == [p] && [p][..0] == [];
    assert Gather([p]) == Success([] + p.value);
    assert [] + p.value == p.value;
  }

  /** The last element of `p + q` and what comes before it, for a non-empty `q`. */
  lemma InitOfAppend<T>(p: seq<T>, q: seq<T>)
    requires q != []
    ensures (p + q)[..|p + q| - 1] == p + q[..|q| - 1]
    ensures (p + q)[|p + q| - 1] == q[|q| - 1]
  {
  }

  /** The lists `f` makes of the inputs, one after the other. */
  function ConcatMap<A, B>(f: A -> seq<B>, s: seq<A>): seq<B>
  {
    if s == [] then [] else ConcatMap(f, s[..|s| - 1]) + f(s[|s| - 1])
  }

  lemma ConcatMapSnoc<A, B>(f: A -> seq<B>, s: seq<A>, i: nat)
    requires i < |s|
    ensures ConcatMap(f, s[..i + 1]) == ConcatMap(f, s[..i]) + f(s[i])
  {
    assert s[..i + 1][..i] == s[..i];
  }

  lemma ConcatMapOne<A, B>(f: A -> seq<B>, x: A)
    ensures ConcatMap(f, [x]) == f(x)
  {
    assert [x][..0] == [];
  }

  /** Two runs of inputs one after the other give their lists one after the other. */
  lemma {:induction false} ConcatMapAppend<A, B>(f: A -> seq<B>, p: seq<A>, q: seq<A>)
    ensures ConcatMap(f, p + q) == ConcatMap(f, p) + ConcatMap(f, q)
  {
    if q == [] {
      assert p + q == p;
    } else {
      var init := q[..|q| - 1];
      InitOfAppend(p, q);
      ConcatMapAppend(f, p, init);
    }
  }

  /** The whole is empty exactly when every input yields an empty list. */
  lemma {:induction false} ConcatMapEmpty<A, B>(f: A -> seq<B>, s: seq<A>)
    ensures ConcatMap(f, s) == [] <==> forall i :: 0 <= i < |s| ==> f(s[i]) == []
  {
    if s != [] {
      var init := s[..|s| - 1];
      ConcatMapEmpty(f, init);
      assert forall i :: 0 <= i < |init| ==> init[i] == s[i];
    }
  }
}
