/** Failure-compatible wrappers used throughout the model: Python's
    `None`/value alternatives and its caught exceptions become values. */
module Wrappers {

  /** A value that may be absent (Python's `Optional`). */
  datatype Option<+T> = None | Some(value: T) {

    /** Returns the value in Some, or `default` when None */
    function GetOr(default: T): T {
      match this
      case Some(v) => v
      case None => default
    }
  }

  /** Either a computed value or the text of the exception that was raised. */
  datatype Result<+R, +E> = Ok(value: R) | Err(error: E)

  /** An order-preserving map that drops the elements `f` maps to `None`
      (a Python loop appending only some results). */
  function Collect<A, B>(xs: seq<A>, f: A -> Option<B>): (r: seq<B>)
    ensures |r| <= |xs|
    decreases |xs|
  {
    if |xs| == 0 then []
    else (if f(xs[0]).Some? then [f(xs[0]).value] else []) + Collect(xs[1..], f)
  }

  /** What holds of every result of `f` holds of every collected element. */
  lemma {:induction false} CollectAll<A, B>(xs: seq<A>, f: A -> Option<B>, p: B -> bool)
    requires forall x :: f(x).Some? ==> p(f(x).value)
    ensures forall k :: 0 <= k < |Collect(xs, f)| ==> p(Collect(xs, f)[k])
    decreases |xs|
  {
    if |xs| > 0 {
      CollectAll(xs[1..], f, p);
      var r := Collect(xs, f);
      var h := if f(xs[0]).Some? then [f(xs[0]).value] else [];
      forall k | 0 <= k < |r| ensures p(r[k]) {
        if k >= |h| {
          assert r[k] == Collect(xs[1..], f)[k - |h|];
        }
      }
    }
  }

  /** Collecting a concatenation collects the two parts in order. */
  lemma {:induction false} CollectConcat<A, B>(a: seq<A>, b: seq<A>, f: A -> Option<B>)
    ensures Collect(a + b, f) == Collect(a, f) + Collect(b, f)
    decreases |a|
  {
    if |a| > 0 {
      assert (a + b)[0] == a[0];
      assert (a + b)[1..] == a[1..] + b;
      CollectConcat(a[1..], b, f);
    } else {
      assert a + b == b;
    }
  }

  /** Nothing is collected exactly when `f` gives `None` everywhere. */
  lemma {:induction false} CollectEmpty<A, B>(xs: seq<A>, f: A -> Option<B>)
    ensures Collect(xs, f) == [] <==> forall k :: 0 <= k < |xs| ==> f(xs[k]).None?
    decreases |xs|
  {
    if |xs| > 0 {
      CollectEmpty(xs[1..], f);
      assert forall k :: 1 <= k < |xs| ==> xs[k] == xs[1..][k - 1];
    }
  }

  /** Every collected element is the result for some input element. */
  lemma {:induction false} CollectFrom<A, B>(xs: seq<A>, f: A -> Option<B>, k: nat)
    requires k < |Collect(xs, f)|
    ensures exists j :: 0 <= j < |xs| && f(xs[j]) == Some(Collect(xs, f)[k])
    decreases |xs|
  {
    var h := if f(xs[0]).Some? then [f(xs[0]).value] else [];
    if k < |h| {
      assert f(xs[0]) == Some(Collect(xs, f)[k]);
    } else {
      CollectFrom(xs[1..], f, k - |h|);
      var j :| 0 <= j < |xs[1..]| && f(xs[1..][j]) == Some(Collect(xs[1..], f)[k - |h|]);
      assert xs[1..][j] == xs[j + 1];
      assert f(xs[j + 1]) == Some(Collect(xs, f)[k]);
    }
  }

  /** Every result for an input element is collected. */
  lemma {:induction false} CollectHas<A, B>(xs: seq<A>, f: A -> Option<B>)
    ensures forall j :: 0 <= j < |xs| && f(xs[j]).Some? ==> f(xs[j]).value in Collect(xs, f)
    decreases |xs|
  {
    if |xs| > 0 {
      CollectHas(xs[1..], f);
      forall j | 1 <= j < |xs| && f(xs[j]).Some?
        ensures f(xs[j]).value in Collect(xs, f)
      {
        assert xs[1..][j - 1] == xs[j];
      }
    }
  }

  /** The elements satisfying `p`, in order (a list comprehension with a condition). */
  function Filter<A>(xs: seq<A>, p: A -> bool): (r: seq<A>)
    ensures |r| <= |xs|
    decreases |xs|
  {
    if |xs| == 0 then []
    else (if p(xs[0]) then [xs[0]] else []) + Filter(xs[1..], p)
  }

  /** When `f` gives a value exactly where `p` holds, collecting maps the
      filtered elements one to one. */
  lemma {:induction false} CollectFilter<A, B>(xs: seq<A>, f: A -> Option<B>, p: A -> bool)
    requires forall x :: f(x).Some? <==> p(x)
    ensures |Collect(xs, f)| == |Filter(xs, p)|
    ensures forall k :: 0 <= k < |Collect(xs, f)| ==> f(Filter(xs, p)[k]) == Some(Collect(xs, f)[k])
    decreases |xs|
  {
    if |xs| > 0 {
      CollectFilter(xs[1..], f, p);
      var r, q := Collect(xs, f), Filter(xs, p);
      var h := if f(xs[0]).Some? then [f(xs[0]).value] else [];
      forall k | 0 <= k < |r| ensures f(q[k]) == Some(r[k]) {
        if k >= |h| {
          assert r[k] == Collect(xs[1..], f)[k - |h|];
          assert q[k] == Filter(xs[1..], p)[k - |h|];
        }
      }
    }
  }
}
