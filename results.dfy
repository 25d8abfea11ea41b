/** Failure-compatible wrappers standing for Rust's `Option` and `anyhow::Result`.
    Every error of the solvers is modelled by the single variant `Err`. */
module Results {

  datatype Option<+T> = None | Some(value: T)

  datatype Result<+T> = Ok(value: T) | Err {

    predicate IsFailure() {
      Err?
    }

    function PropagateFailure<U>(): Result<U>
      requires Err?
    {
      Err
    }

    function Extract(): T
      requires Ok?
    {
      value
    }
  }

  /** `Option::ok_or`: a missing value becomes an error. */
  function OkOr<T>(o: Option<T>): (r: Result<T>)
    ensures r.Ok? <==> o.Some?
    ensures r.Ok? ==> r.value == o.value
  {
    match o
    case None => Err
    case Some(v) => Ok(v)
  }

  /** Every item is mapped to a success. */
  predicate AllOk<A, T>(f: A -> Result<T>, xs: seq<A>) {
    forall i :: 0 <= i < |xs| ==> f(xs[i]).Ok?
  }

  /** `collect::<Result<Vec<_>, _>>()` over items that all succeed: the
      successes, in the order of the items. */
  function CollectOk<A, T>(f: A -> Result<T>, xs: seq<A>): (r: seq<T>)
    requires AllOk(f, xs)
    ensures |r| == |xs| && forall i :: 0 <= i < |xs| ==> f(xs[i]) == Ok(r[i])
  {
    seq(|xs|, i requires 0 <= i < |xs| => f(xs[i]).value)
  }

  /** The item at `i` succeeds with the collected value at `i`. */
  lemma CollectOkAt<A, T>(f: A -> Result<T>, xs: seq<A>, i: nat)
    requires AllOk(f, xs) && i < |xs|
    ensures f(xs[i]) == Ok(CollectOk(f, xs)[i])
  {
  }

  /** A prefix one item longer is the shorter prefix and that item. */
  lemma PrefixSnoc<T>(s: seq<T>, i: nat)
    requires i < |s|
    ensures s[..i + 1] == s[..i] + [s[i]] && s[..i + 1][..i] == s[..i]
  {
    assert s[..i + 1] == s[..i] + [s[i]];
  }

  /** Collecting two successes. */
  lemma CollectTwo<A, T>(f: A -> Result<T>, a: A, b: A, p: T, q: T)
    requires f(a) == Ok(p) && f(b) == Ok(q)
    ensures AllOk(f, [a, b]) && CollectOk(f, [a, b]) == [p, q]
  {
    var xs := [a, b];
    assert xs[0] == a && xs[1] == b;
  }

  /** Collecting three successes. */
  lemma CollectThree<A, T>(f: A -> Result<T>, a: A, b: A, c: A, p: T, q: T, r: T)
    requires f(a) == Ok(p) && f(b) == Ok(q) && f(c) == Ok(r)
    ensures AllOk(f, [a, b, c]) && CollectOk(f, [a, b, c]) == [p, q, r]
  {
    var xs := [a, b, c];
    assert xs[0] == a && xs[1] == b && xs[2] == c;
  }

  /** Collecting four successes. */
  lemma CollectFour<A, T>(f: A -> Result<T>, a: A, b: A, c: A, d: A, p: T, q: T, r: T, t: T)
    requires f(a) == Ok(p) && f(b) == Ok(q) && f(c) == Ok(r) && f(d) == Ok(t)
    ensures AllOk(f, [a, b, c, d]) && CollectOk(f, [a, b, c, d]) == [p, q, r, t]
  {
    var xs := [a, b, c, d];
    assert xs[0] == a && xs[1] == b && xs[2] == c && xs[3] == d;
  }
}
