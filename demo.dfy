/** The demonstration query of the repository, over its four-record table:
    `SELECT * FROM records WHERE value > 30 OR name = 'Name2'`. */
module Demo {
  import opened Results
  import opened Rows
  import opened Where
  import opened Lists
  import opened Select

  /** A record of the demonstration table. */
  function Record(id: int, name: string, value: int): Row {
    [("id", IntV(id)), ("name", StrV(name)), ("description", StrV("Some description")), ("value", IntV(value))]
  }

  /** `value > 30 OR name = 'Name2'`, as the grammar groups it. */
  function ExampleFilter(): Tree {
    Chain([Term(Leaf(WhereCondition("value", Gt, Scalar(IntV(30))))),
           Keyword(OrKeyword),
           Term(Leaf(WhereCondition("name", Eq, Scalar(StrV("Name2")))))])
  }

  lemma RecordLookup(id: int, name: string, value: int)
    ensures Lookup(Record(id, name, value), "value") == Some(IntV(value))
    ensures Lookup(Record(id, name, value), "name") == Some(StrV(name))
  {
    var row := Record(id, name, value);
    var r1, r2, r3 := row[1..], row[2..], row[3..];
    assert r3[0] == ("value", IntV(value)) && Lookup(r3, "value") == Some(IntV(value));
    assert r2[0].0 == "description" && r2[1..] == r3;
    assert Lookup(r2, "value") == Lookup(r3, "value");
    assert r1[0] == ("name", StrV(name)) && r1[1..] == r2;
    assert Lookup(r1, "value") == Lookup(r2, "value");
    assert Lookup(r1, "name") == Some(StrV(name));
    assert row[0].0 == "id" && row[1..] == r1;
  }

  lemma ExampleFilterWellFormed()
    ensures WellFormed(ExampleFilter())
  {
    var items := ExampleFilter().items;
    assert WellFormedChain(items[2..]);
  }

  lemma ExampleGt(row: Row, value: int)
    requires Lookup(row, "value") == Some(IntV(value))
    ensures EvalTree(Leaf(WhereCondition("value", Gt, Scalar(IntV(30)))), row) == Ok(value > 30)
  {
    ConditionMeaning(WhereCondition("value", Gt, Scalar(IntV(30))), row, IntV(value));
  }

  lemma ExampleEq(row: Row, name: string)
    requires Lookup(row, "name") == Some(StrV(name))
    ensures EvalTree(Leaf(WhereCondition("name", Eq, Scalar(StrV("Name2")))), row) == Ok(name == "Name2")
  {
    ConditionMeaning(WhereCondition("name", Eq, Scalar(StrV("Name2"))), row, StrV(name));
  }

  /** On a row whose `value` and `name` are present the demonstration filter
      is the disjunction of its two comparisons. */
  lemma ExampleFilterOnRow(row: Row, name: string, value: int)
    requires Lookup(row, "value") == Some(IntV(value)) && Lookup(row, "name") == Some(StrV(name))
    ensures WellFormed(ExampleFilter())
    ensures EvalTree(ExampleFilter(), row) == Ok(value > 30 || name == "Name2")
  {
    ExampleFilterWellFormed();
    var items := ExampleFilter().items;
    ExampleGt(row, value);
    ExampleEq(row, name);
    assert items[2..] == [Term(Leaf(WhereCondition("name", Eq, Scalar(StrV("Name2")))))];
    assert EvalChain(items[2..], row) == Ok(name == "Name2");
  }

  lemma ExampleFilterOnRecord(id: int, name: string, value: int)
    ensures WellFormed(ExampleFilter())
    ensures EvalTree(ExampleFilter(), Record(id, name, value)) == Ok(value > 30 || name == "Name2")
  {
    RecordLookup(id, name, value);
    ExampleFilterOnRow(Record(id, name, value), name, value);
  }

  /** The demonstration query over four records: `SELECT * FROM records WHERE
      value > 30 OR name = 'Name2'` returns the second and fourth record, in
      table order, each once. */
  lemma RecordsExample()
    ensures ValidStatement(SelectStatement(Wildcard, "records", Some(ExampleFilter())))
    ensures
      var rows := [Record(1, "Name1", 10), Record(2, "Name2", 20), Record(3, "Name3", 30), Record(4, "Name4", 40)];
      Query(map["records" := rows], SelectStatement(Wildcard, "records", Some(ExampleFilter())))
        == Ok([rows[1], rows[3]])
  {
    var a, b, c, d := Record(1, "Name1", 10), Record(2, "Name2", 20), Record(3, "Name3", 30), Record(4, "Name4", 40);
    var w := Some(ExampleFilter());
    ExampleFilterOnRecord(1, "Name1", 10);
    ExampleFilterOnRecord(2, "Name2", 20);
    ExampleFilterOnRecord(3, "Name3", 30);
    ExampleFilterOnRecord(4, "Name4", 40);
    SecondAndFourth(a, b, c, d, Keep(w));
    ProjectAllWildcard([b, d]);
  }

  /** A filter over four elements that keeps the second and the fourth. */
  lemma SecondAndFourth<T>(a: T, b: T, c: T, d: T, keep: T -> Result<bool>)
    requires keep(a) == Ok(false) && keep(b) == Ok(true)
    requires keep(c) == Ok(false) && keep(d) == Ok(true)
    ensures Filter([a, b, c, d], keep) == Ok([b, d])
  {
    assert [a, b, c, d][1..] == [b, c, d];
    assert [b, c, d][1..] == [c, d];
    assert [c, d][1..] == [d];
    assert [d][0] == d && [d][1..] == [];
    assert [d] + [] == [d];
    assert Filter([d], keep) == Ok([d]);
    assert Filter([c, d], keep) == Ok([d]);
    assert [b] + [d] == [b, d];
  }
}
