/** The priority table (`HibernatePriorityRepository`): read-only reference
    data, given as its rows. Only `findPriorityByName` is implemented. */
module PriorityRepository {
  import opened Wrappers
  import opened Model

  /** The rows of `from Priority p where p.name = :name`, in table order. */
  function Named(rows: seq<Priority>, name: string): (r: seq<Priority>)
    ensures forall p :: p in r <==> p in rows && p.name == name
    ensures |r| <= |rows|
  {
    if rows == [] then []
    else (if rows[0].name == name then [rows[0]] else []) + Named(rows[1..], name)
  }

  /** `uniqueResult` of that query inside `execute`: one row gives it, no row
      gives null and so empty, and several rows make `uniqueResult` throw,
      which `execute` also reports as empty. `fault` is any other failure. */
  function FindPriorityByName(rows: seq<Priority>, name: string, fault: bool): (r: Option<Priority>)
    ensures r.Some? ==> r.value in rows && r.value.name == name
    ensures r.Some? <==> !fault && |Named(rows, name)| == 1
    ensures (forall p :: p in rows ==> p.name != name) ==> r == None
  {
    if fault then None
    else
      var found := Named(rows, name);
      if |found| == 1 then (assert found[0] in found; Some(found[0])) else None
  }

  lemma {:induction false} NamedNone(rows: seq<Priority>, name: string)
    requires forall j :: 0 <= j < |rows| ==> rows[j].name != name
    ensures Named(rows, name) == []
  {
    if rows != [] {
      NamedNone(rows[1..], name);
    }
  }

  /** A name held by exactly one row finds that row. */
  lemma {:induction false} UniqueNameFound(rows: seq<Priority>, i: int, name: string)
    requires 0 <= i < |rows| && rows[i].name == name
    requires forall j :: 0 <= j < |rows| && j != i ==> rows[j].name != name
    ensures FindPriorityByName(rows, name, false) == Some(rows[i])
  {
    NamedSingle(rows, i, name);
  }

  lemma {:induction false} NamedSingle(rows: seq<Priority>, i: int, name: string)
    requires 0 <= i < |rows| && rows[i].name == name
    requires forall j :: 0 <= j < |rows| && j != i ==> rows[j].name != name
    ensures Named(rows, name) == [rows[i]]
  {
    if i == 0 {
      NamedNone(rows[1..], name);
    } else {
      NamedSingle(rows[1..], i - 1, name);
    }
  }

  /** Two rows (two primary keys) with the same name make the lookup
      empty, even though a matching row exists. */
  lemma {:induction false} DuplicateNameNotFound(rows: seq<Priority>, i: int, j: int, name: string)
    requires 0 <= i < j < |rows| && rows[i].name == name && rows[j].name == name
    requires rows[i].id != rows[j].id
    ensures FindPriorityByName(rows, name, false) == None
  {
    NamedAtLeastTwo(rows, i, j, name);
  }

  lemma {:induction false} NamedAtLeastTwo(rows: seq<Priority>, i: int, j: int, name: string)
    requires 0 <= i < j < |rows| && rows[i].name == name && rows[j].name == name
    ensures |Named(rows, name)| >= 2
  {
    if i == 0 {
      assert rows[j] in rows[1..];
    } else {
      NamedAtLeastTwo(rows[1..], i - 1, j - 1, name);
    }
  }
}
