/** Walking a sequence with a step that may fail, as both loops of the
    executor do: the elements are visited in order and the first failure ends
    the walk with its error. The step is a parameter, so these facts hold for
    the WHERE filter and for the projection alike. */
module Lists {
  import opened Results

  /** A sequence `a` whose elements occur in `b` in the same order. */
  predicate IsSubsequence<T(==)>(a: seq<T>, b: seq<T>)
    decreases |b|
  {
    if a == [] then true
    else if b == [] then false
    else if a[0] == b[0] then IsSubsequence(a[1..], b[1..])
    else IsSubsequence(a, b[1..])
  }

  /** The elements that `keep` accepts, in order, or the error of the first
      element on which `keep` fails. */
  function Filter<T>(xs: seq<T>, keep: T -> Result<bool>): (r: Result<seq<T>>)
    ensures r.Ok? ==> |r.value| <= |xs|
  {
    if xs == [] then Ok([])
    else
      match keep(xs[0])
      case Err(e) => Err(e)
      case Ok(b) =>
        match Filter(xs[1..], keep)
        case Err(e) => Err(e)
        case Ok(rest) => Ok(if b then [xs[0]] + rest else rest)
  }

  /** A filter succeeds exactly when `keep` succeeds on every element; it then
      keeps, in order, exactly the elements accepted, each as many times as it
      occurs in the input. */
  lemma FilterExact<T>(xs: seq<T>, keep: T -> Result<bool>)
    ensures Filter(xs, keep).Ok? <==> forall i :: 0 <= i < |xs| ==> keep(xs[i]).Ok?
    ensures Filter(xs, keep).Ok? ==>
              var s := Filter(xs, keep).value;
              && IsSubsequence(s, xs)
              && (forall x :: x in s ==> x in xs && keep(x) == Ok(true))
              && (forall i :: 0 <= i < |xs| && keep(xs[i]) == Ok(true) ==> xs[i] in s)
    ensures Filter(xs, keep).Ok? ==>
              forall y :: multiset(Filter(xs, keep).value)[y] ==
                          if keep(y) == Ok(true) then multiset(xs)[y] else 0
  {
    FilterSucceeds(xs, keep);
    if Filter(xs, keep).Ok? {
      FilterKeeps(xs, keep);
      FilterCounts(xs, keep);
    }
  }

  /** A filter succeeds exactly when `keep` succeeds on every element. */
  lemma {:induction false} FilterSucceeds<T>(xs: seq<T>, keep: T -> Result<bool>)
    ensures Filter(xs, keep).Ok? <==> forall i :: 0 <= i < |xs| ==> keep(xs[i]).Ok?
  {
    if xs != [] {
      var tail := xs[1..];
      FilterSucceeds(tail, keep);
      assert forall i :: 1 <= i < |xs| ==> xs[i] == tail[i - 1];
    }
  }

  /** A successful filter keeps, in order, exactly the elements accepted. */
  lemma {:induction false} FilterKeeps<T>(xs: seq<T>, keep: T -> Result<bool>)
    requires Filter(xs, keep).Ok?
    ensures var s := Filter(xs, keep).value;
              && IsSubsequence(s, xs)
              && (forall x :: x in s ==> x in xs && keep(x) == Ok(true))
              && (forall i :: 0 <= i < |xs| && keep(xs[i]) == Ok(true) ==> xs[i] in s)
  {
    if xs != [] {
      var tail := xs[1..];
      FilterKeeps(tail, keep);
      assert forall i :: 1 <= i < |xs| ==> xs[i] == tail[i - 1];
      assert forall x :: x in tail ==> x in xs;
    }
  }

  /** The multiplicities kept by a successful filter. */
  lemma {:induction false} FilterCounts<T>(xs: seq<T>, keep: T -> Result<bool>)
    requires Filter(xs, keep).Ok?
    ensures forall y :: multiset(Filter(xs, keep).value)[y] ==
                        if keep(y) == Ok(true) then multiset(xs)[y] else 0
  {
    if xs != [] {
      var tail := xs[1..];
      assert xs == [xs[0]] + tail;
      assert multiset(xs) == multiset([xs[0]]) + multiset(tail);
      FilterCounts(tail, keep);
      var rest := Filter(tail, keep).value;
      if keep(xs[0]) == Ok(true) {
        assert Filter(xs, keep).value == [xs[0]] + rest;
        assert multiset(Filter(xs, keep).value) == multiset([xs[0]]) + multiset(rest);
      } else {
        assert Filter(xs, keep).value == rest;
      }
    }
  }

  /** A failing filter fails with the error of the first element on which
      `keep` fails; the elements after it are not examined. */
  lemma {:induction false} FilterFails<T>(xs: seq<T>, keep: T -> Result<bool>, k: nat)
    requires k < |xs| && keep(xs[k]).Err?
    requires forall j :: 0 <= j < k ==> keep(xs[j]).Ok?
    ensures Filter(xs, keep) == Err(keep(xs[k]).error)
  {
    if k > 0 {
      assert xs[1..][k - 1] == xs[k];
      FilterFails(xs[1..], keep, k - 1);
    }
  }

  /** A step that accepts every element keeps the whole sequence. */
  lemma {:induction false} FilterAll<T>(xs: seq<T>, keep: T -> Result<bool>)
    requires forall i :: 0 <= i < |xs| ==> keep(xs[i]) == Ok(true)
    ensures Filter(xs, keep) == Ok(xs)
  {
    if xs != [] {
      assert forall i :: 1 <= i < |xs| ==> xs[1..][i - 1] == xs[i];
      FilterAll(xs[1..], keep);
      assert xs == [xs[0]] + xs[1..];
    }
  }

  /** Filtering distributes over concatenation, failures of the first part
      first. */
  lemma {:induction false} FilterConcat<T>(a: seq<T>, b: seq<T>, keep: T -> Result<bool>)
    ensures Filter(a + b, keep) ==
      match Filter(a, keep)
      case Err(e) => Err(e)
      case Ok(sa) =>
        match Filter(b, keep)
        case Err(e) => Err(e)
        case Ok(sb) => Ok(sa + sb)
  {
    if a == [] {
      assert a + b == b;
      match Filter(b, keep)
      case Err(_) =>
      case Ok(sb) => assert [] + sb == sb;
    } else {
      assert (a + b)[0] == a[0];
      assert (a + b)[1..] == a[1..] + b;
      FilterConcat(a[1..], b, keep);
      match Filter(a[1..], keep)
      case Err(_) =>
      case Ok(sa) =>
        match Filter(b, keep)
        case Err(_) =>
        case Ok(sb) =>
          assert [a[0]] + (sa + sb) == ([a[0]] + sa) + sb;
    }
  }

  /** One turn of a filtering loop over `xs`, on an element that `keep`
      accepts or rejects. */
  lemma FilterStep<T>(xs: seq<T>, keep: T -> Result<bool>, i: nat, sel: seq<T>, b: bool)
    requires i < |xs| && Filter(xs[..i], keep) == Ok(sel) && keep(xs[i]) == Ok(b)
    ensures Filter(xs[..i + 1], keep) == Ok(if b then sel + [xs[i]] else sel)
  {
    var x, pre := xs[i], xs[..i];
    assert xs[..i + 1] == pre + [x];
    assert [x][0] == x && [x][1..] == [];
    assert [x] + [] == [x];
    assert Filter([x], keep) == Ok(if b then [x] else []);
    FilterConcat(pre, [x], keep);
    assert sel + [] == sel;
  }

  /** One turn of a filtering loop over `xs`, on an element on which `keep`
      fails: the whole filter fails with that error. */
  lemma FilterStepFails<T>(xs: seq<T>, keep: T -> Result<bool>, i: nat, sel: seq<T>)
    requires i < |xs| && Filter(xs[..i], keep) == Ok(sel) && keep(xs[i]).Err?
    ensures Filter(xs, keep) == Err(keep(xs[i]).error)
  {
    var pre, post := xs[..i], xs[i..];
    assert xs == pre + post;
    assert post[0] == xs[i];
    FilterConcat(pre, post, keep);
  }

  /** `f` applied to every element, in order, or the error of the first
      element on which it fails. */
  function MapAll<T, U>(xs: seq<T>, f: T -> Result<U>): (r: Result<seq<U>>)
    ensures r.Ok? ==> |r.value| == |xs|
  {
    if xs == [] then Ok([])
    else
      match f(xs[0])
      case Err(e) => Err(e)
      case Ok(y) =>
        match MapAll(xs[1..], f)
        case Err(e) => Err(e)
        case Ok(rest) => Ok([y] + rest)
  }

  /** A map succeeds exactly when `f` succeeds on every element, and then its
      i-th output is `f` of the i-th element. */
  lemma {:induction false} MapAllExact<T, U>(xs: seq<T>, f: T -> Result<U>)
    ensures MapAll(xs, f).Ok? <==> forall i :: 0 <= i < |xs| ==> f(xs[i]).Ok?
    ensures MapAll(xs, f).Ok? ==> forall i :: 0 <= i < |xs| ==> f(xs[i]) == Ok(MapAll(xs, f).value[i])
  {
    if xs != [] {
      var tail := xs[1..];
      MapAllExact(tail, f);
      assert forall i :: 1 <= i < |xs| ==> xs[i] == tail[i - 1];
      match f(xs[0])
      case Err(_) =>
      case Ok(y) =>
        match MapAll(tail, f)
        case Err(_) =>
          var k :| 0 <= k < |tail| && f(tail[k]).Err?;
          assert xs[k + 1] == tail[k];
        case Ok(rest) =>
          var out := [y] + rest;
          forall i | 0 <= i < |xs| ensures f(xs[i]) == Ok(out[i]) {
            if i > 0 {
              assert out[i] == rest[i - 1];
            }
          }
    }
  }

  /** A step that hands every element back unchanged maps a sequence to
      itself. */
  lemma {:induction false} MapAllIdentity<T>(xs: seq<T>, f: T -> Result<T>)
    requires forall i :: 0 <= i < |xs| ==> f(xs[i]) == Ok(xs[i])
    ensures MapAll(xs, f) == Ok(xs)
  {
    if xs != [] {
      assert forall i :: 1 <= i < |xs| ==> xs[1..][i - 1] == xs[i];
      MapAllIdentity(xs[1..], f);
      assert xs == [xs[0]] + xs[1..];
    }
  }

  /** Mapping distributes over concatenation, failures of the first part
      first. */
  lemma {:induction false} MapAllConcat<T, U>(a: seq<T>, b: seq<T>, f: T -> Result<U>)
    ensures MapAll(a + b, f) ==
      match MapAll(a, f)
      case Err(e) => Err(e)
      case Ok(pa) =>
        match MapAll(b, f)
        case Err(e) => Err(e)
        case Ok(pb) => Ok(pa + pb)
  {
    if a == [] {
      assert a + b == b;
      match MapAll(b, f)
      case Err(_) =>
      case Ok(pb) => assert [] + pb == pb;
    } else {
      assert (a + b)[0] == a[0];
      assert (a + b)[1..] == a[1..] + b;
      MapAllConcat(a[1..], b, f);
      match MapAll(a[1..], f)
      case Err(_) =>
      case Ok(pa) =>
        match MapAll(b, f)
        case Err(_) =>
        case Ok(pb) =>
          match f(a[0])
          case Err(_) =>
          case Ok(y) =>
            assert [y] + (pa + pb) == ([y] + pa) + pb;
    }
  }

  /** One turn of a mapping loop over `xs`, on an element that `f` maps. */
  lemma MapAllStep<T, U>(xs: seq<T>, f: T -> Result<U>, j: nat, out: seq<U>, y: U)
    requires j < |xs| && MapAll(xs[..j], f) == Ok(out) && f(xs[j]) == Ok(y)
    ensures MapAll(xs[..j + 1], f) == Ok(out + [y])
  {
    var x, pre := xs[j], xs[..j];
    assert xs[..j + 1] == pre + [x];
    assert [x][1..] == [];
    assert [y] + [] == [y];
    assert MapAll([x], f) == Ok([y]);
    MapAllConcat(pre, [x], f);
  }

  /** One turn of a mapping loop over `xs`, on an element on which `f` fails:
      the whole map fails with that error. */
  lemma MapAllStepFails<T, U>(xs: seq<T>, f: T -> Result<U>, j: nat, out: seq<U>)
    requires j < |xs| && MapAll(xs[..j], f) == Ok(out) && f(xs[j]).Err?
    ensures MapAll(xs, f) == Err(f(xs[j]).error)
  {
    var pre, post := xs[..j], xs[j..];
    assert xs == pre + post;
    assert post[0] == xs[j];
    MapAllConcat(pre, post, f);
  }

  /** The first element that `f` does not map to `v`, given that there is
      one. */
  lemma FirstDifferent<T, U>(xs: seq<T>, f: T -> U, v: U) returns (k: nat)
    requires exists j :: 0 <= j < |xs| && f(xs[j]) != v
    ensures k < |xs| && f(xs[k]) != v
    ensures forall j :: 0 <= j < k ==> f(xs[j]) == v
  {
    ghost var last :| 0 <= last < |xs| && f(xs[last]) != v;
    k := 0;
    while f(xs[k]) == v
      invariant k <= last
      invariant forall j :: 0 <= j < k ==> f(xs[j]) == v
      decreases last - k
    {
      k := k + 1;
    }
  }
}
