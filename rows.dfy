/** Rows of the in-memory store and the ordered mapping that projection builds.
    A row is a sequence of (column, value) fields; its keys are unique, as in
    a Python dictionary, and the sequence order is the mapping's iteration
    order, as in an `OrderedDict`. */
module Rows {
  import opened Results

  /** A scalar stored in a row or written as a literal: an integer or a string. */
  datatype Value = IntV(i: int) | StrV(s: string)

  type Field = (string, Value)
  type Row = seq<Field>

  /** The column names of a row, in order. */
  function Keys(d: Row): (ks: seq<string>)
    ensures |ks| == |d|
    ensures forall i :: 0 <= i < |d| ==> ks[i] == d[i].0
  {
    if d == [] then [] else [d[0].0] + Keys(d[1..])
  }

  predicate Distinct(s: seq<string>) {
    forall i, j :: 0 <= i < j < |s| ==> s[i] != s[j]
  }

  /** A row as a dictionary has it: no column appears twice. */
  predicate ValidRow(d: Row) {
    Distinct(Keys(d))
  }

  /** Position of the first occurrence of `x` in `s`. */
  function IndexOf(s: seq<string>, x: string): (n: nat)
    requires x in s
    ensures n < |s| && s[n] == x
    ensures forall j :: 0 <= j < n ==> s[j] != x
  {
    if s[0] == x then 0 else 1 + IndexOf(s[1..], x)
  }

  /** `d[k]`: the value stored under `k`, or `None` where indexing would raise. */
  function Lookup(d: Row, k: string): (r: Option<Value>)
    ensures r.None? <==> k !in Keys(d)
    ensures r.Some? ==> d[IndexOf(Keys(d), k)] == (k, r.value)
  {
    if d == [] then None
    else if d[0].0 == k then Some(d[0].1)
    else Lookup(d[1..], k)
  }

  /** In a row with unique keys every field is found by its own name. */
  lemma LookupField(d: Row, i: nat)
    requires ValidRow(d) && i < |d|
    ensures Lookup(d, d[i].0) == Some(d[i].1)
  {
    var ks := Keys(d);
    assert ks[i] == d[i].0;
    var n := IndexOf(ks, d[i].0);
    assert n == i;
  }

  /** `d[k] = v` on an `OrderedDict`: a key already present keeps its first
      position and takes the new value; a new key is appended at the end. */
  function Assign(d: Row, k: string, v: Value): (r: Row)
    ensures k !in Keys(d) ==> r == d + [(k, v)]
    ensures k in Keys(d) ==> |r| == |d|
    ensures k in Keys(d) ==>
              forall i :: 0 <= i < |d| ==> r[i] == if i == IndexOf(Keys(d), k) then (k, v) else d[i]
  {
    if d == [] then [(k, v)]
    else if d[0].0 == k then [(k, v)] + d[1..]
    else [d[0]] + Assign(d[1..], k, v)
  }

  /** Assigning a present key keeps the keys. */
  lemma AssignKeysPresent(d: Row, k: string, v: Value)
    requires k in Keys(d)
    ensures Keys(Assign(d, k, v)) == Keys(d)
  {
    var r, ks := Assign(d, k, v), Keys(d);
    var n := IndexOf(ks, k);
    forall i | 0 <= i < |d| ensures Keys(r)[i] == ks[i] {
      if i == n {
        assert r[i] == (k, v);
      } else {
        assert r[i] == d[i];
      }
    }
  }

  /** Assigning an absent key appends it to the keys. */
  lemma AssignKeysAbsent(d: Row, k: string, v: Value)
    requires k !in Keys(d)
    ensures Keys(Assign(d, k, v)) == Keys(d) + [k]
  {
    var r, want := Assign(d, k, v), Keys(d) + [k];
    forall i | 0 <= i < |r| ensures Keys(r)[i] == want[i] {
      if i < |d| {
        assert r[i] == d[i];
      }
    }
  }

  lemma DistinctSnoc(s: seq<string>, x: string)
    requires Distinct(s) && x !in s
    ensures Distinct(s + [x])
  {
    var t := s + [x];
    forall i, j | 0 <= i < j < |t| ensures t[i] != t[j] {
      if j < |s| {
        assert t[i] == s[i] && t[j] == s[j];
      } else {
        assert t[i] == s[i];
      }
    }
  }

  /** After `d[k] = v` the keys are those of `d`, with `k` appended when it
      was absent, and unique keys stay unique. */
  lemma AssignKeys(d: Row, k: string, v: Value)
    ensures Keys(Assign(d, k, v)) == if k in Keys(d) then Keys(d) else Keys(d) + [k]
    ensures ValidRow(d) ==> ValidRow(Assign(d, k, v))
  {
    if k in Keys(d) {
      AssignKeysPresent(d, k, v);
    } else {
      AssignKeysAbsent(d, k, v);
      if ValidRow(d) {
        DistinctSnoc(Keys(d), k);
      }
    }
  }

  /** After `d[k] = v`, `k` maps to `v`. */
  lemma AssignLookup(d: Row, k: string, v: Value)
    ensures Lookup(Assign(d, k, v), k) == Some(v)
  {
    AssignKeys(d, k, v);
    if k !in Keys(d) {
      assert IndexOf(Keys(Assign(d, k, v)), k) == |d|;
    }
  }

  /** `d[k] = v` leaves the value of every other key unchanged. */
  lemma AssignLookupOther(d: Row, k: string, v: Value, k': string)
    requires k' != k
    ensures Lookup(Assign(d, k, v), k') == Lookup(d, k')
  {
    var r := Assign(d, k, v);
    AssignKeys(d, k, v);
    if k' in Keys(d) {
      var n := IndexOf(Keys(d), k');
      if k !in Keys(d) {
        assert Keys(r)[..|d|] == Keys(d);
        IndexOfPrefix(Keys(r), |d|, k');
      }
      assert IndexOf(Keys(r), k') == n;
      assert r[n] == d[n];
    }
  }

  /** The distinct elements of `s`, each at the place of its first occurrence:
      the key order an `OrderedDict` ends up with after its keys are assigned
      in the order of `s`. */
  function Dedup(s: seq<string>): (d: seq<string>)
    ensures Distinct(d)
    ensures forall x :: x in d <==> x in s
  {
    if s == [] then []
    else
      var p := Dedup(s[..|s| - 1]);
      var x := s[|s| - 1];
      assert forall y :: y in s <==> y in s[..|s| - 1] || y == x;
      if x in p then p else p + [x]
  }

  lemma IndexOfPrefix(s: seq<string>, n: nat, x: string)
    requires n <= |s| && x in s[..n]
    ensures IndexOf(s, x) == IndexOf(s[..n], x)
  {
    if s[0] != x {
      assert s[1..][..n - 1] == s[..n][1..];
      IndexOfPrefix(s[1..], n - 1, x);
    }
  }

  /** `Dedup` keeps the order of first occurrences. */
  lemma {:induction false} DedupFirstOccurrence(s: seq<string>)
    ensures forall i, j :: 0 <= i < j < |Dedup(s)| ==>
      IndexOf(s, Dedup(s)[i]) < IndexOf(s, Dedup(s)[j])
  {
    if s != [] {
      var n := |s| - 1;
      var pre := s[..n];
      var p := Dedup(pre);
      DedupFirstOccurrence(pre);
      forall y | y in p ensures IndexOf(s, y) == IndexOf(pre, y) < n {
        IndexOfPrefix(s, n, y);
      }
      if s[n] !in p {
        assert s[n] !in pre;
        assert IndexOf(s, s[n]) == n;
      }
    }
  }
}
