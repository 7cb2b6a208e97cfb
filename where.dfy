/** The WHERE-clause evaluator: leaf conditions and the flattened AND/OR
    lists that the grammar's precedence levels produce. */
module Where {
  import opened Results
  import opened Rows
  import opened Lists

  /** The eight operator tags the grammar attaches to a condition. */
  datatype Op = Eq | Neq | Gt | Ge | Lt | Le | In | NotIn

  /** The right-hand side of a condition: one literal, or the
      parenthesised list that follows IN and NOT IN. */
  datatype Rhs = Scalar(value: Value) | List(values: seq<Value>)

  datatype WhereCondition = WhereCondition(lhs: string, op: Op, rhs: Rhs)

  const AndKeyword := "AND"
  const OrKeyword := "OR"

  /** A filter tree: a single condition, or a list whose even positions hold
      sub-trees and whose odd positions hold the keyword joining them. */
  datatype Tree = Leaf(cond: WhereCondition) | Chain(items: seq<Item>)
  datatype Item = Term(tree: Tree) | Keyword(word: string)

  predicate IsMembership(op: Op) {
    op == In || op == NotIn
  }

  predicate IsOrdering(op: Op) {
    op == Gt || op == Ge || op == Lt || op == Le
  }

  /** The grammar pairs IN and NOT IN with a list and every other operator
      with a single literal. */
  predicate WellTyped(c: WhereCondition) {
    IsMembership(c.op) <==> c.rhs.List?
  }

  function Max(s: seq<nat>): nat
  {
    if s == [] then 0
    else
      var m := Max(s[1..]);
      if s[0] >= m then s[0] else m
  }

  /** `Max` bounds every element and is one of them. */
  lemma {:induction false} MaxBounds(s: seq<nat>)
    ensures forall i :: 0 <= i < |s| ==> s[i] <= Max(s)
    ensures s != [] ==> exists i :: 0 <= i < |s| && s[i] == Max(s)
  {
    if s != [] {
      var t := s[1..];
      MaxBounds(t);
      assert forall i :: 1 <= i < |s| ==> s[i] == t[i - 1];
      if t != [] && s[0] < Max(t) {
        var j :| 0 <= j < |t| && t[j] == Max(t);
        assert s[j + 1] == Max(s);
      } else {
        assert s[0] == Max(s);
      }
    }
  }

  /** Nesting depth of a tree: the termination measure of the evaluator. */
  function Height(t: Tree): nat
    decreases t
  {
    match t
    case Leaf(_) => 0
    case Chain(items) =>
      1 + Max(seq(|items|, i requires 0 <= i < |items| =>
                if items[i].Term? then Height(items[i].tree) else 0))
  }

  /** The head of a list is shallower than the list, and dropping the head and
      its keyword does not make a list deeper. */
  lemma HeightTail(items: seq<Item>)
    requires |items| >= 1
    ensures items[0].Term? ==> Height(items[0].tree) < Height(Chain(items))
    ensures |items| >= 2 ==> Height(Chain(items[2..])) <= Height(Chain(items))
  {
    var tail := if |items| >= 2 then items[2..] else [];
    var hs := seq(|items|, i requires 0 <= i < |items| =>
                if items[i].Term? then Height(items[i].tree) else 0);
    var ts := seq(|tail|, i requires 0 <= i < |tail| =>
                if tail[i].Term? then Height(tail[i].tree) else 0);
    assert Height(Chain(items)) == 1 + Max(hs);
    assert Height(Chain(tail)) == 1 + Max(ts);
    MaxBounds(hs);
    MaxBounds(ts);
    if |items| >= 2 && ts != [] {
      var j :| 0 <= j < |ts| && ts[j] == Max(ts);
      assert ts[j] == hs[j + 2];
    }
  }

  predicate WellFormed(t: Tree)
    decreases Height(t), 1, 0
  {
    match t
    case Leaf(c) => WellTyped(c)
    case Chain(items) => WellFormedChain(items)
  }

  /** `[e0, w1, e1, ..., wn, en]` with every `wi` one of the two keywords. */
  predicate WellFormedChain(items: seq<Item>)
    decreases Height(Chain(items)), 0, |items|
  {
    if |items| == 0 || !items[0].Term? then false
    else if |items| == 1 then (HeightTail(items); WellFormed(items[0].tree))
    else
      HeightTail(items);
      && WellFormed(items[0].tree)
      && |items| >= 3
      && items[1].Keyword?
      && (items[1].word == AndKeyword || items[1].word == OrKeyword)
      && WellFormedChain(items[2..])
  }

  // ---------------------------------------------------------------------------
  // Ordering of scalars

  /** Python's comparison of two strings: lexicographic by character code,
      a proper prefix first. The answer is -1, 0 or 1, and 0 exactly on equal
      strings. */
  function StrCmp(a: string, b: string): (r: int)
    ensures -1 <= r <= 1
    ensures r == 0 <==> a == b
  {
    if a == [] && b == [] then 0
    else if a == [] then -1
    else if b == [] then 1
    else if a[0] < b[0] then -1
    else if a[0] > b[0] then 1
    else
      assert a == [a[0]] + a[1..] && b == [b[0]] + b[1..];
      StrCmp(a[1..], b[1..])
  }

  /** The three-way comparison behind `<`, `<=`, `>` and `>=` on two scalars:
      negative, zero or positive. Integers compare by value and strings by
      `StrCmp`; an integer and a string do not raise in Python 2, where every
      number orders before every string. */
  function Cmp(x: Value, y: Value): (r: int)
    ensures -1 <= r <= 1
    ensures r == 0 <==> x == y
    ensures x.IntV? && y.IntV? ==> (r < 0 <==> x.i < y.i)
    ensures x.IntV? && y.StrV? ==> r < 0
    ensures x.StrV? && y.IntV? ==> r > 0
  {
    match (x, y)
    case (IntV(a), IntV(b)) => if a < b then -1 else if a > b then 1 else 0
    case (StrV(a), StrV(b)) => StrCmp(a, b)
    case (IntV(_), StrV(_)) => -1
    case (StrV(_), IntV(_)) => 1
  }

  lemma {:induction false} StrCmpAntisymmetric(a: string, b: string)
    ensures StrCmp(a, b) == -StrCmp(b, a)
  {
    if a != [] && b != [] && a[0] == b[0] {
      StrCmpAntisymmetric(a[1..], b[1..]);
    }
  }

  lemma {:induction false} StrCmpTransitive(a: string, b: string, c: string)
    requires StrCmp(a, b) < 0 && StrCmp(b, c) < 0
    ensures StrCmp(a, c) < 0
  {
    if a != [] && b != [] && c != [] && a[0] == b[0] && b[0] == c[0] {
      StrCmpTransitive(a[1..], b[1..], c[1..]);
    }
  }

  /** Lexicographic order by character code, stated without recursion: `a`
      is a proper prefix of `b`, or the two agree up to a position where `a`
      has the smaller character. */
  predicate LexLess(a: string, b: string) {
    ProperPrefix(a, b) || DiffersLower(a, b)
  }

  predicate ProperPrefix(a: string, b: string) {
    |a| < |b| && a == b[..|a|]
  }

  predicate DiffersLower(a: string, b: string) {
    exists i :: 0 <= i < |a| && i < |b| && a[..i] == b[..i] && a[i] < b[i]
  }

  lemma PrefixTail(a: string, b: string)
    requires a != [] && b != [] && a[0] == b[0]
    ensures ProperPrefix(a, b) <==> ProperPrefix(a[1..], b[1..])
  {
    var a', b' := a[1..], b[1..];
    if ProperPrefix(a, b) {
      assert a' == b'[..|a'|];
    }
    if ProperPrefix(a', b') {
      assert a == [a[0]] + a' && b[..|a|] == [b[0]] + b'[..|a'|];
    }
  }

  lemma DiffersTail(a: string, b: string)
    requires a != [] && b != [] && a[0] == b[0]
    ensures DiffersLower(a, b) <==> DiffersLower(a[1..], b[1..])
  {
    var a', b' := a[1..], b[1..];
    if i :| 0 <= i < |a| && i < |b| && a[..i] == b[..i] && a[i] < b[i] {
      assert i != 0;
      assert a'[..i - 1] == a[..i][1..] && b'[..i - 1] == b[..i][1..];
      assert a'[i - 1] == a[i] && b'[i - 1] == b[i];
    }
    if j :| 0 <= j < |a'| && j < |b'| && a'[..j] == b'[..j] && a'[j] < b'[j] {
      assert a[..j + 1] == [a[0]] + a'[..j] && b[..j + 1] == [b[0]] + b'[..j];
      assert a[j + 1] == a'[j] && b[j + 1] == b'[j];
    }
  }

  /** `StrCmp` puts `a` below `b` exactly in lexicographic order. */
  lemma {:induction false} StrCmpLex(a: string, b: string)
    ensures StrCmp(a, b) < 0 <==> LexLess(a, b)
  {
    if a == [] && b != [] {
      assert a == b[..|a|];
    } else if a != [] && b != [] {
      if a[0] < b[0] {
        assert a[..0] == b[..0];
      } else if a[0] == b[0] {
        StrCmpLex(a[1..], b[1..]);
        PrefixTail(a, b);
        DiffersTail(a, b);
      } else {
        if i :| 0 <= i < |a| && i < |b| && a[..i] == b[..i] && a[i] < b[i] {
          assert i != 0;
          assert a[..i][0] == b[..i][0];
        }
      }
    }
  }

  /** Scalars are totally ordered: `Cmp` is zero exactly on equal values,
      flips sign when its arguments swap, and `<` is transitive, across the two
      types as well. */
  lemma CmpTotalOrder(x: Value, y: Value, z: Value)
    ensures Cmp(x, y) == 0 <==> x == y
    ensures Cmp(x, y) == -Cmp(y, x)
    ensures Cmp(x, y) < 0 && Cmp(y, z) < 0 ==> Cmp(x, z) < 0
  {
    if x.StrV? && y.StrV? {
      StrCmpAntisymmetric(x.s, y.s);
      if z.StrV? && Cmp(x, y) < 0 && Cmp(y, z) < 0 {
        StrCmpTransitive(x.s, y.s, z.s);
      }
    }
  }

  /** Python's `in` on a list: a scan from the left for an element equal to
      `v`. */
  function Listed(v: Value, vs: seq<Value>): bool
  {
    vs != [] && (vs[0] == v || Listed(v, vs[1..]))
  }

  /** The scan finds `v` exactly when some element equals it. */
  lemma {:induction false} ListedMembership(v: Value, vs: seq<Value>)
    ensures Listed(v, vs) <==> v in vs
  {
    if vs != [] {
      ListedMembership(v, vs[1..]);
      assert vs == [vs[0]] + vs[1..];
    }
  }

  // ---------------------------------------------------------------------------
  // Leaf conditions

  /** An ordering operator applied to the row's value `v` and the literal `w`. */
  function Ordered(op: Op, v: Value, w: Value): bool
    requires IsOrdering(op)
  {
    var c := Cmp(v, w);
    match op
    case Gt => c > 0
    case Ge => c >= 0
    case Lt => c < 0
    case Le => c <= 0
  }

  /** `evaluate_where_condition`: look the column up in the row and apply the
      operator to its value and the right-hand side. The lookup is the only
      step that can fail, and it fails exactly when the row lacks the column;
      a missing column is never read as false. */
  function EvalCondition(c: WhereCondition, row: Row): (r: Result<bool>)
    requires WellTyped(c)
    ensures r.Err? <==> c.lhs !in Keys(row)
    ensures r.Err? ==> r.error == MissingColumn(c.lhs)
  {
    match Lookup(row, c.lhs)
    case None => Err(MissingColumn(c.lhs))
    case Some(v) =>
      match c.op
      case Eq => Ok(v == c.rhs.value)
      case Neq => Ok(v != c.rhs.value)
      case In => Ok(Listed(v, c.rhs.values))
      case NotIn => Ok(!Listed(v, c.rhs.values))
      case _ => Ok(Ordered(c.op, v, c.rhs.value))
  }

  /** Logical negation carried through a result; errors pass unchanged. */
  function Not(r: Result<bool>): Result<bool> {
    match r
    case Ok(b) => Ok(!b)
    case Err(e) => Err(e)
  }

  /** `!=` is the negation of `=`, and NOT IN of IN, on the same column and
      right-hand side; a missing column fails both alike. */
  lemma NegatedOperators(lhs: string, rhs: Rhs, row: Row)
    ensures rhs.Scalar? ==>
      EvalCondition(WhereCondition(lhs, Neq, rhs), row) == Not(EvalCondition(WhereCondition(lhs, Eq, rhs), row))
    ensures rhs.List? ==>
      EvalCondition(WhereCondition(lhs, NotIn, rhs), row) == Not(EvalCondition(WhereCondition(lhs, In, rhs), row))
  {
  }

  /** An ordering condition on a present column compares the row's value
      with the literal. */
  lemma OrderingAt(lhs: string, op: Op, w: Value, row: Row, v: Value)
    requires IsOrdering(op) && Lookup(row, lhs) == Some(v)
    ensures EvalCondition(WhereCondition(lhs, op, Scalar(w)), row) == Ok(Ordered(op, v, w))
  {
  }

  /** An ordering operator and its complement give opposite answers on one
      row: `op` and `co` are `>=` and `<`, or `<=` and `>`. */
  lemma ComplementOrderings(lhs: string, w: Value, row: Row, op: Op, co: Op)
    requires (op == Ge && co == Lt) || (op == Le && co == Gt)
    ensures EvalCondition(WhereCondition(lhs, op, Scalar(w)), row) == Not(EvalCondition(WhereCondition(lhs, co, Scalar(w)), row))
  {
    match Lookup(row, lhs)
    case None =>
    case Some(v) =>
      OrderingAt(lhs, op, w, row, v);
      OrderingAt(lhs, co, w, row, v);
  }

  /** `>=` is the negation of `<` and `<=` of `>`, on every pair of values. */
  lemma NegatedOrderings(lhs: string, w: Value, row: Row)
    ensures EvalCondition(WhereCondition(lhs, Ge, Scalar(w)), row) == Not(EvalCondition(WhereCondition(lhs, Lt, Scalar(w)), row))
    ensures EvalCondition(WhereCondition(lhs, Le, Scalar(w)), row) == Not(EvalCondition(WhereCondition(lhs, Gt, Scalar(w)), row))
  {
    ComplementOrderings(lhs, w, row, Ge, Lt);
    ComplementOrderings(lhs, w, row, Le, Gt);
  }

  /** `=` agrees with the orderings: it holds exactly when the comparison
      is zero, that is, exactly when both `>=` and `<=` hold on the same row
      and literal. */
  lemma EqMeaning(lhs: string, w: Value, row: Row, v: Value)
    requires Lookup(row, lhs) == Some(v)
    ensures EvalCondition(WhereCondition(lhs, Eq, Scalar(w)), row) == Ok(true) <==> Cmp(v, w) == 0
    ensures EvalCondition(WhereCondition(lhs, Eq, Scalar(w)), row) == Ok(true) <==>
              EvalCondition(WhereCondition(lhs, Ge, Scalar(w)), row) == Ok(true) &&
              EvalCondition(WhereCondition(lhs, Le, Scalar(w)), row) == Ok(true)
  {
    OrderingAt(lhs, Ge, w, row, v);
    OrderingAt(lhs, Le, w, row, v);
  }

  /** IN and NOT IN on a present column test the row's value against the
      literal list. */
  lemma MembershipAt(lhs: string, op: Op, vs: seq<Value>, row: Row, v: Value)
    requires IsMembership(op) && Lookup(row, lhs) == Some(v)
    ensures EvalCondition(WhereCondition(lhs, op, List(vs)), row) == Ok(if op == In then Listed(v, vs) else !Listed(v, vs))
  {
  }

  /** IN and NOT IN look only at which values the literal list holds: neither
      the order in which the literals are written nor their repetitions change
      the answer. */
  lemma MembershipIgnoresOrder(lhs: string, vs: seq<Value>, ws: seq<Value>, row: Row)
    requires forall x :: x in vs <==> x in ws
    ensures EvalCondition(WhereCondition(lhs, In, List(vs)), row) == EvalCondition(WhereCondition(lhs, In, List(ws)), row)
    ensures EvalCondition(WhereCondition(lhs, NotIn, List(vs)), row) == EvalCondition(WhereCondition(lhs, NotIn, List(ws)), row)
  {
    match Lookup(row, lhs)
    case None =>
    case Some(v) =>
      MembershipAt(lhs, In, vs, row, v);
      MembershipAt(lhs, NotIn, vs, row, v);
      MembershipAt(lhs, In, ws, row, v);
      MembershipAt(lhs, NotIn, ws, row, v);
      ListedMembership(v, vs);
      ListedMembership(v, ws);
  }

  /** IN holds, and NOT IN fails, exactly when one of the literals equals the
      row's value. */
  lemma MembershipMeaning(lhs: string, vs: seq<Value>, row: Row, v: Value)
    requires Lookup(row, lhs) == Some(v)
    ensures (exists j :: 0 <= j < |vs| && vs[j] == v) ==>
              EvalCondition(WhereCondition(lhs, In, List(vs)), row) == Ok(true) &&
              EvalCondition(WhereCondition(lhs, NotIn, List(vs)), row) == Ok(false)
    ensures (forall j :: 0 <= j < |vs| ==> vs[j] != v) ==>
              EvalCondition(WhereCondition(lhs, In, List(vs)), row) == Ok(false) &&
              EvalCondition(WhereCondition(lhs, NotIn, List(vs)), row) == Ok(true)
  {
    MembershipAt(lhs, In, vs, row, v);
    MembershipAt(lhs, NotIn, vs, row, v);
    ListedMembership(v, vs);
  }

  /** The literal list of IN and NOT IN as the program holds it: the parser's
      group of literals. Its containment test asks whether a result name is
      defined on the group, not whether a literal equals the value, and a
      group of literals defines no result names. */
  datatype LiteralGroup = LiteralGroup(literals: seq<Value>, names: set<string>)

  function Grouped(vs: seq<Value>): (g: LiteralGroup)
    ensures g.literals == vs && g.names == {}
  {
    LiteralGroup(vs, {})
  }

  function GroupContains(g: LiteralGroup, v: Value): bool {
    v.StrV? && v.s in g.names
  }

  /** A condition as the program evaluates it, with IN and NOT IN applying the
      group's containment test to the row's value. */
  function EvalConditionAsWritten(c: WhereCondition, row: Row): (r: Result<bool>)
    requires WellTyped(c)
    ensures !IsMembership(c.op) ==> r == EvalCondition(c, row)
    ensures r.Err? <==> c.lhs !in Keys(row)
  {
    match c.op
    case In =>
      (match Lookup(row, c.lhs)
       case None => Err(MissingColumn(c.lhs))
       case Some(v) => Ok(GroupContains(Grouped(c.rhs.values), v)))
    case NotIn =>
      (match Lookup(row, c.lhs)
       case None => Err(MissingColumn(c.lhs))
       case Some(v) => Ok(!GroupContains(Grouped(c.rhs.values), v)))
    case _ => EvalCondition(c, row)
  }

  /** As written, IN is false and NOT IN true on every row holding the
      column, whatever the literals. */
  lemma AsWrittenMembershipConstant(c: WhereCondition, row: Row)
    requires WellTyped(c) && IsMembership(c.op) && c.lhs in Keys(row)
    ensures EvalConditionAsWritten(c, row) == Ok(c.op == NotIn)
  {
  }

  /** `id IN (1, 3)` on a row with `id` 1: false as written, true as intended. */
  lemma AsWrittenMembershipExample()
    ensures var row, c := [("id", IntV(1))], WhereCondition("id", In, List([IntV(1), IntV(3)]));
      && EvalConditionAsWritten(c, row) == Ok(false)
      && EvalCondition(c, row) == Ok(true)
  {
    var row, c := [("id", IntV(1))], WhereCondition("id", In, List([IntV(1), IntV(3)]));
    assert Lookup(row, "id") == Some(IntV(1));
    MembershipMeaning("id", [IntV(1), IntV(3)], row, IntV(1));
    assert [IntV(1), IntV(3)][0] == IntV(1);
  }

  /** `>` on two numbers is the numeric comparison. */
  lemma GtMeaning(c: WhereCondition, row: Row, v: Value)
    requires WellTyped(c) && c.op == Gt && Lookup(row, c.lhs) == Some(v)
    requires v.IntV? && c.rhs.value.IntV?
    ensures EvalCondition(c, row) == Ok(v.i > c.rhs.value.i)
  {
    OrderingAt(c.lhs, Gt, c.rhs.value, row, v);
  }

  /** `<` holds exactly when the literal orders after the row's value; a
      number is below every string. */
  lemma LtMeaning(c: WhereCondition, row: Row, v: Value)
    requires WellTyped(c) && c.op == Lt && Lookup(row, c.lhs) == Some(v)
    ensures v.IntV? && c.rhs.value.StrV? ==> EvalCondition(c, row) == Ok(true)
    ensures EvalCondition(c, row) == Ok(true) <==> Cmp(c.rhs.value, v) > 0
  {
    OrderingAt(c.lhs, Lt, c.rhs.value, row, v);
    CmpTotalOrder(v, c.rhs.value, v);
  }

  /** Between two strings the ordering operators are lexicographic order:
      `<` and `>` strict, `<=` and `>=` its complements. */
  lemma StringOrderingMeaning(lhs: string, op: Op, w: string, row: Row, v: string)
    requires IsOrdering(op) && Lookup(row, lhs) == Some(StrV(v))
    ensures op == Lt ==> (EvalCondition(WhereCondition(lhs, op, Scalar(StrV(w))), row) == Ok(true) <==> LexLess(v, w))
    ensures op == Gt ==> (EvalCondition(WhereCondition(lhs, op, Scalar(StrV(w))), row) == Ok(true) <==> LexLess(w, v))
    ensures op == Ge ==> (EvalCondition(WhereCondition(lhs, op, Scalar(StrV(w))), row) == Ok(true) <==> !LexLess(v, w))
    ensures op == Le ==> (EvalCondition(WhereCondition(lhs, op, Scalar(StrV(w))), row) == Ok(true) <==> !LexLess(w, v))
  {
    OrderingAt(lhs, op, StrV(w), row, StrV(v));
    StrCmpAntisymmetric(v, w);
    StrCmpLex(v, w);
    StrCmpLex(w, v);
  }

  /** A condition holds exactly as its operator says of the row's value. */
  lemma ConditionMeaning(c: WhereCondition, row: Row, v: Value)
    requires WellTyped(c) && Lookup(row, c.lhs) == Some(v)
    ensures c.op == Eq ==> (EvalCondition(c, row) == Ok(true) <==> Cmp(v, c.rhs.value) == 0)
    ensures c.op == In ==> (EvalCondition(c, row) == Ok(true) <==> exists j :: 0 <= j < |c.rhs.values| && c.rhs.values[j] == v)
    ensures c.op == Gt && v.IntV? && c.rhs.value.IntV? ==> EvalCondition(c, row) == Ok(v.i > c.rhs.value.i)
    ensures c.op == Lt && v.IntV? && c.rhs.value.StrV? ==> EvalCondition(c, row) == Ok(true)
    ensures c.op == Lt ==> (EvalCondition(c, row) == Ok(true) <==> Cmp(c.rhs.value, v) > 0)
    ensures c.op == Gt && v.StrV? && c.rhs.value.StrV? ==> (EvalCondition(c, row) == Ok(true) <==> LexLess(c.rhs.value.s, v.s))
    ensures c.op == Lt && v.StrV? && c.rhs.value.StrV? ==> (EvalCondition(c, row) == Ok(true) <==> LexLess(v.s, c.rhs.value.s))
  {
    if (c.op == Gt || c.op == Lt) && v.StrV? && c.rhs.value.StrV? {
      StringOrderingMeaning(c.lhs, c.op, c.rhs.value.s, row, v.s);
    }
    match c.op
    case Eq =>
      EqMeaning(c.lhs, c.rhs.value, row, v);
    case In =>
      MembershipAt(c.lhs, In, c.rhs.values, row, v);
      ListedMembership(v, c.rhs.values);
    case Gt => if v.IntV? && c.rhs.value.IntV? { GtMeaning(c, row, v); }
    case Lt => LtMeaning(c, row, v);
    case _ =>
  }

  // ---------------------------------------------------------------------------
  // Trees

  /** The columns a tree's conditions refer to. */
  function ColumnsOf(t: Tree): set<string>
    decreases Height(t), 1, 0
  {
    match t
    case Leaf(c) => {c.lhs}
    case Chain(items) => ChainColumns(items)
  }

  function ChainColumns(items: seq<Item>): set<string>
    decreases Height(Chain(items)), 0, |items|
  {
    if items == [] then {}
    else
      HeightTail(items);
      (if items[0].Term? then ColumnsOf(items[0].tree) else {})
      + (if |items| >= 2 then ChainColumns(items[2..]) else {})
  }

  /** `evaluate_where_expression` on a condition or on a list. A failure
      names a column that the tree refers to; a missing-column failure names
      one absent from the row, so a row holding every referenced column never
      fails that way. */
  function EvalTree(t: Tree, row: Row): (r: Result<bool>)
    requires WellFormed(t)
    ensures r.Err? ==> r.error.MissingColumn?
    ensures r.Err? ==> r.error.column in ColumnsOf(t) && r.error.column !in Keys(row)
    decreases Height(t), 1, 0
  {
    match t
    case Leaf(c) => EvalCondition(c, row)
    case Chain(items) => EvalChain(items, row)
  }

  /** `evaluate_where_expression` on a list: the head `tree[0]` joined to the
      tail slice `tree[2:]` by Python's short-circuit `and`/`or`; a list of
      one element stands for that element. */
  function EvalChain(items: seq<Item>, row: Row): (r: Result<bool>)
    requires WellFormedChain(items)
    ensures r.Err? ==> r.error.MissingColumn?
    ensures r.Err? ==> r.error.column in ChainColumns(items) && r.error.column !in Keys(row)
    decreases Height(Chain(items)), 0, |items|
  {
    if |items| > 1 then
      HeightTail(items);
      var head := EvalTree(items[0].tree, row);
      if items[1].word == AndKeyword then
        match head
        case Err(e) => Err(e)
        case Ok(b) => if !b then Ok(false) else EvalChain(items[2..], row)
      else
        match head
        case Err(e) => Err(e)
        case Ok(b) => if b then Ok(true) else EvalChain(items[2..], row)
    else
      HeightTail(items);
      EvalTree(items[0].tree, row)
  }

  // ---------------------------------------------------------------------------
  // Properties of lists

  /** Python's `and` stops at a false head: the tail is not evaluated, so
      whatever it would raise does not surface. */
  lemma AndShortCircuit(items: seq<Item>, row: Row)
    requires WellFormedChain(items) && |items| > 1 && items[1].word == AndKeyword
    requires EvalTree(items[0].tree, row) == Ok(false)
    ensures EvalChain(items, row) == Ok(false)
  {
  }

  /** Python's `or` stops at a true head: the tail is not evaluated. */
  lemma OrShortCircuit(items: seq<Item>, row: Row)
    requires WellFormedChain(items) && |items| > 1 && items[1].word == OrKeyword
    requires EvalTree(items[0].tree, row) == Ok(true)
    ensures EvalChain(items, row) == Ok(true)
  {
  }

  /** A tail that fails on its own, through a missing column, behind a head
      joined by `w`: a false head under AND or a true head under OR gives the
      list's answer without evaluating the tail, so the failure never
      surfaces; under the other head value the tail is evaluated and its
      failure is the list's. */
  lemma ShortCircuitHidesMissingColumn(h: Tree, w: string, tail: seq<Item>, row: Row)
    requires WellFormed(h) && WellFormedChain(tail) && (w == AndKeyword || w == OrKeyword)
    requires EvalChain(tail, row).Err?
    ensures WellFormedChain([Term(h), Keyword(w)] + tail)
    ensures EvalChain(tail, row).error.MissingColumn?
    ensures w == AndKeyword && EvalTree(h, row) == Ok(false) ==> EvalChain([Term(h), Keyword(w)] + tail, row) == Ok(false)
    ensures w == OrKeyword && EvalTree(h, row) == Ok(true) ==> EvalChain([Term(h), Keyword(w)] + tail, row) == Ok(true)
    ensures w == AndKeyword && EvalTree(h, row) == Ok(true) ==> EvalChain([Term(h), Keyword(w)] + tail, row) == EvalChain(tail, row)
    ensures w == OrKeyword && EvalTree(h, row) == Ok(false) ==> EvalChain([Term(h), Keyword(w)] + tail, row) == EvalChain(tail, row)
  {
    var items := [Term(h), Keyword(w)] + tail;
    assert items[0] == Term(h) && items[1] == Keyword(w);
    assert items[2..] == tail;
  }

  /** A list of one element evaluates to that element. */
  lemma SingletonChain(t: Tree, row: Row)
    requires WellFormed(t)
    ensures WellFormedChain([Term(t)])
    ensures EvalTree(Chain([Term(t)]), row) == EvalTree(t, row)
  {
  }

  /** The operands of a list, in order (its sub-trees at even positions,
      see `OperandsAt`). */
  function Operands(items: seq<Item>): (ops: seq<Tree>)
    requires WellFormedChain(items)
    ensures |ops| == (|items| + 1) / 2
    ensures AllWellFormed(ops)
    decreases |items|
  {
    if |items| == 1 then [items[0].tree] else [items[0].tree] + Operands(items[2..])
  }

  lemma {:induction false} OperandsAt(items: seq<Item>, k: nat)
    requires WellFormedChain(items) && k < |Operands(items)|
    ensures items[2 * k].Term? && Operands(items)[k] == items[2 * k].tree
  {
    if k > 0 {
      OperandsAt(items[2..], k - 1);
      assert items[2..][2 * (k - 1)] == items[2 * k];
    }
  }

  /** Every keyword of the list is `w`, as in one precedence level of the
      grammar's output. */
  predicate Uniform(items: seq<Item>, w: string)
    requires WellFormedChain(items)
    decreases |items|
  {
    |items| == 1 || (items[1].word == w && Uniform(items[2..], w))
  }

  predicate AllWellFormed(ops: seq<Tree>) {
    forall k :: 0 <= k < |ops| ==> WellFormed(ops[k])
  }

  /** The value under which a chain of `w` goes on to its next operand:
      true for AND, false for OR. */
  function Neutral(w: string): Result<bool> {
    Ok(w == AndKeyword)
  }

  /** One binary AND or OR node with short-circuit: the left result `acc`
      decides unless it is the neutral value, in which case the right operand
      is evaluated. */
  function Combine(w: string, acc: Result<bool>, t: Tree, row: Row): Result<bool>
    requires WellFormed(t)
  {
    if acc == Neutral(w) then EvalTree(t, row) else acc
  }

  /** The reference semantics of a chain: a left-associative binary tree,
      `((e0 w e1) w e2) w ...`, evaluated bottom-up. */
  function FoldLeft(w: string, ops: seq<Tree>, row: Row): Result<bool>
    requires |ops| >= 1 && AllWellFormed(ops)
  {
    if |ops| == 1 then EvalTree(ops[0], row)
    else Combine(w, FoldLeft(w, ops[..|ops| - 1], row), ops[|ops| - 1], row)
  }

  /** Peeling the first operand off a left fold. */
  lemma {:induction false} FoldLeftCons(w: string, ops: seq<Tree>, row: Row)
    requires |ops| >= 2 && AllWellFormed(ops)
    requires w == AndKeyword || w == OrKeyword
    ensures FoldLeft(w, ops, row) ==
      if EvalTree(ops[0], row) != Neutral(w) then EvalTree(ops[0], row) else FoldLeft(w, ops[1..], row)
  {
    var n := |ops|;
    if n > 2 {
      FoldLeftCons(w, ops[..n - 1], row);
      assert ops[..n - 1][1..] == ops[1..][..n - 2];
      assert ops[..n - 1][0] == ops[0];
    }
  }

  /** The source's right-nested recursion on the tail slice gives the same
      result, failures included, as folding the chain left to right. */
  lemma {:induction false} ChainIsLeftFold(items: seq<Item>, w: string, row: Row)
    requires WellFormedChain(items) && Uniform(items, w)
    ensures AllWellFormed(Operands(items))
    ensures EvalChain(items, row) == FoldLeft(w, Operands(items), row)
  {
    var ops := Operands(items);
    if |items| > 1 {
      ChainIsLeftFold(items[2..], w, row);
      assert ops[1..] == Operands(items[2..]);
      FoldLeftCons(w, ops, row);
    }
  }

  /** A head that takes the neutral value hands the list over to its tail. */
  lemma NeutralHead(items: seq<Item>, w: string, row: Row)
    requires WellFormedChain(items) && |items| > 1 && items[1].word == w
    requires EvalTree(items[0].tree, row) == Neutral(w)
    ensures WellFormedChain(items[2..])
    ensures EvalChain(items, row) == EvalChain(items[2..], row)
  {
  }

  /** A head that does not take the neutral value decides the list. */
  lemma DecidingHead(items: seq<Item>, w: string, row: Row)
    requires WellFormedChain(items) && (|items| > 1 ==> items[1].word == w)
    requires EvalTree(items[0].tree, row) != Neutral(w)
    ensures EvalChain(items, row) == EvalTree(items[0].tree, row)
  {
  }

  /** The operands of a longer list: its head, then the operands of its tail. */
  lemma OperandsCons(items: seq<Item>)
    requires WellFormedChain(items) && |items| > 1
    ensures WellFormedChain(items[2..])
    ensures Operands(items) == [items[0].tree] + Operands(items[2..])
    ensures forall j :: 0 <= j < |Operands(items[2..])| ==> Operands(items[2..])[j] == Operands(items)[j + 1]
  {
  }

  /** A chain of one keyword whose operands all take the neutral value
      (all true for AND, all false for OR) takes it too. */
  lemma {:induction false} ChainAllNeutral(items: seq<Item>, w: string, row: Row)
    requires WellFormedChain(items) && Uniform(items, w)
    requires forall k :: 0 <= k < |Operands(items)| ==> EvalTree(Operands(items)[k], row) == Neutral(w)
    ensures EvalChain(items, row) == Neutral(w)
  {
    var ops := Operands(items);
    assert ops[0] == items[0].tree;
    if |items| > 1 {
      OperandsCons(items);
      NeutralHead(items, w, row);
      ChainAllNeutral(items[2..], w, row);
    }
  }

  /** In a chain of one keyword the operands are tried left to right and the
      first one that is not the neutral value decides, failure or not: the
      operands after it are never evaluated. */
  lemma {:induction false} ChainFirstDecides(items: seq<Item>, w: string, row: Row, k: nat)
    requires WellFormedChain(items) && Uniform(items, w)
    requires k < |Operands(items)|
    requires forall j :: 0 <= j < k ==> EvalTree(Operands(items)[j], row) == Neutral(w)
    requires EvalTree(Operands(items)[k], row) != Neutral(w)
    ensures EvalChain(items, row) == EvalTree(Operands(items)[k], row)
  {
    var ops := Operands(items);
    assert ops[0] == items[0].tree;
    if k == 0 {
      DecidingHead(items, w, row);
    } else {
      OperandsCons(items);
      NeutralHead(items, w, row);
      ChainFirstDecides(items[2..], w, row, k - 1);
    }
  }

  /** An AND chain whose operands all evaluate is their conjunction. */
  lemma AndChain(items: seq<Item>, row: Row)
    requires WellFormedChain(items) && Uniform(items, AndKeyword)
    requires forall k :: 0 <= k < |Operands(items)| ==> EvalTree(Operands(items)[k], row).Ok?
    ensures EvalChain(items, row).Ok?
    ensures EvalChain(items, row).value <==>
              forall k :: 0 <= k < |Operands(items)| ==> EvalTree(Operands(items)[k], row) == Ok(true)
  {
    var ops := Operands(items);
    if forall k :: 0 <= k < |ops| ==> EvalTree(ops[k], row) == Ok(true) {
      ChainAllNeutral(items, AndKeyword, row);
    } else {
      var f := (t: Tree) => if WellFormed(t) then EvalTree(t, row) else Ok(true);
      var j :| 0 <= j < |ops| && EvalTree(ops[j], row) != Ok(true);
      assert f(ops[j]) != Ok(true);
      var k := FirstDifferent(ops, f, Ok(true));
      assert WellFormed(ops[k]);
      forall i | 0 <= i < k ensures EvalTree(ops[i], row) == Ok(true) {
        assert WellFormed(ops[i]) && f(ops[i]) == Ok(true);
      }
      ChainFirstDecides(items, AndKeyword, row, k);
      assert !EvalTree(ops[k], row).value;
    }
  }

  /** An OR chain whose operands all evaluate is their disjunction. */
  lemma OrChain(items: seq<Item>, row: Row)
    requires WellFormedChain(items) && Uniform(items, OrKeyword)
    requires forall k :: 0 <= k < |Operands(items)| ==> EvalTree(Operands(items)[k], row).Ok?
    ensures EvalChain(items, row).Ok?
    ensures EvalChain(items, row).value <==>
              exists k :: 0 <= k < |Operands(items)| && EvalTree(Operands(items)[k], row) == Ok(true)
  {
    var ops := Operands(items);
    if forall k :: 0 <= k < |ops| ==> EvalTree(ops[k], row) == Ok(false) {
      ChainAllNeutral(items, OrKeyword, row);
    } else {
      var f := (t: Tree) => if WellFormed(t) then EvalTree(t, row) else Ok(false);
      var j :| 0 <= j < |ops| && EvalTree(ops[j], row) != Ok(false);
      assert f(ops[j]) != Ok(false);
      var k := FirstDifferent(ops, f, Ok(false));
      assert WellFormed(ops[k]);
      forall i | 0 <= i < k ensures EvalTree(ops[i], row) == Ok(false) {
        assert WellFormed(ops[i]) && f(ops[i]) == Ok(false);
      }
      ChainFirstDecides(items, OrKeyword, row, k);
      assert EvalTree(ops[k], row).value;
    }
  }
}
