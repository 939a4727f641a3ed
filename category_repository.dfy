/** The category table (`HibernateCategoryRepository`). */
module CategoryRepository {
  import opened Wrappers
  import opened Model

  /** The `where` clause of the two listing queries: none, or `c.id in :ids`. */
  datatype IdFilter = AnyId | IdIn(ids: seq<int>)

  predicate Admits(f: IdFilter, id: int) {
    match f
    case AnyId => true
    case IdIn(ids) => id in ids
  }

  ghost predicate Keyed(m: map<int, Category>) {
    forall id :: id in m ==> m[id].id == id
  }

  /** `c` is the row stored under its id. */
  predicate Stored(m: map<int, Category>, c: Category) {
    c.id in m && m[c.id] == c
  }

  ghost predicate AscendingIds(s: seq<Category>) {
    forall i, j :: 0 <= i < j < |s| ==> s[i].id < s[j].id
  }

  /** The rows with an id in [lo, hi) that `f` admits, in the order of
      `order by c.id`. */
  function Select(m: map<int, Category>, lo: int, hi: int, f: IdFilter): (r: seq<Category>)
    requires Keyed(m)
    ensures AscendingIds(r)
    ensures forall c :: c in r <==> Stored(m, c) && lo <= c.id < hi && Admits(f, c.id)
    decreases hi - lo
  {
    if lo >= hi then []
    else
      var rest := Select(m, lo + 1, hi, f);
      if lo in m && Admits(f, lo) then [m[lo]] + rest else rest
  }

  /** `in :ids` is a set test: the order and the repetitions of the ids
      requested do not change the result. */
  lemma {:induction false} SelectByIdSet(m: map<int, Category>, lo: int, hi: int, ids: seq<int>, ids': seq<int>)
    requires Keyed(m)
    requires forall id :: id in ids <==> id in ids'
    ensures Select(m, lo, hi, IdIn(ids)) == Select(m, lo, hi, IdIn(ids'))
    decreases hi - lo
  {
    if lo < hi {
      SelectByIdSet(m, lo + 1, hi, ids, ids');
    }
  }

  /** Ids with no stored category contribute nothing: a list of unknown ids
      selects no row. */
  lemma {:induction false} UnknownIdsSelectNothing(m: map<int, Category>, lo: int, hi: int, ids: seq<int>)
    requires Keyed(m)
    requires forall id :: id in ids ==> id !in m
    ensures Select(m, lo, hi, IdIn(ids)) == []
    decreases hi - lo
  {
    if lo < hi {
      UnknownIdsSelectNothing(m, lo + 1, hi, ids);
    }
  }

  class HibernateCategoryRepository {
    var categories: map<int, Category>
    var nextId: int

    /** Ids are generated from 1 upwards. */
    ghost predicate Valid()
      reads this
    {
      && nextId >= 1
      && Keyed(categories)
      && forall id :: id in categories ==> 1 <= id < nextId
    }

    constructor ()
      ensures Valid() && categories == map[] && nextId == 1
    {
      categories := map[];
      nextId := 1;
    }

    /** `from Category c order by c.id`; `fault` is an exception raised by
        the store, which `execute` rethrows. */
    method FindAllCategories(fault: bool) returns (r: Result<seq<Category>>)
      requires Valid()
      ensures r.Err? <==> fault
      ensures r.Err? ==> r.error == StoreError
      ensures r.Ok? ==> r.value == Select(categories, 1, nextId, AnyId)
      ensures r.Ok? ==> AscendingIds(r.value) && forall c :: c in r.value <==> Stored(categories, c)
    {
      if fault {
        r := Err(StoreError);
      } else {
        r := Ok(Select(categories, 1, nextId, AnyId));
      }
    }

    /** `from Category c where c.id in :ids order by c.id`. */
    method FindCategoriesByIds(ids: seq<int>, fault: bool) returns (r: Result<seq<Category>>)
      requires Valid()
      ensures r.Err? <==> fault
      ensures r.Err? ==> r.error == StoreError
      ensures r.Ok? ==> r.value == Select(categories, 1, nextId, IdIn(ids))
      ensures r.Ok? ==> AscendingIds(r.value) && forall c :: c in r.value <==> Stored(categories, c) && c.id in ids
    {
      if fault {
        r := Err(StoreError);
      } else {
        r := Ok(Select(categories, 1, nextId, IdIn(ids)));
      }
    }

    /** `select distinct c from Category c where c.id = :id`. */
    method FindCategoryById(id: int, fault: bool) returns (r: Result<Option<Category>>)
      requires Valid()
      ensures r.Err? <==> fault
      ensures r.Err? ==> r.error == StoreError
      ensures r.Ok? ==> (r.value.Some? <==> exists c :: Stored(categories, c) && c.id == id)
      ensures r.Ok? && r.value.Some? ==> Stored(categories, r.value.value) && r.value.value.id == id
    {
      if fault {
        r := Err(StoreError);
      } else if id in categories {
        r := Ok(Some(categories[id]));
      } else {
        r := Ok(None);
      }
    }

    /** `session.update(category)`: replaces the row with the category's id;
        with no such row the flush fails and the failure is rethrown. */
    method Update(category: Category, fault: bool) returns (r: Result<Option<Category>>)
      requires Valid()
      modifies this
      ensures Valid() && nextId == old(nextId)
      ensures fault || category.id !in old(categories) ==> r == Err(StoreError) && categories == old(categories)
      ensures !fault && category.id in old(categories) ==>
                r == Ok(Some(category)) && categories == old(categories)[category.id := category]
    {
      if fault || category.id !in categories {
        r := Err(StoreError);
      } else {
        categories := categories[category.id := category];
        r := Ok(Some(category));
      }
    }

    /** `session.save(category)`: stores the category under a newly
        generated id and returns it with that id. */
    method Add(category: Category, fault: bool) returns (r: Result<Option<Category>>)
      requires Valid()
      modifies this
      ensures Valid()
      ensures fault ==> r == Err(StoreError) && categories == old(categories) && nextId == old(nextId)
      ensures !fault ==> r == Ok(Some(category.(id := old(nextId))))
      ensures !fault ==> old(nextId) !in old(categories) && old(nextId) != 0
      ensures !fault ==> categories == old(categories)[old(nextId) := category.(id := old(nextId))]
      ensures !fault ==> nextId == old(nextId) + 1
    {
      if fault {
        r := Err(StoreError);
      } else {
        var saved := category.(id := nextId);
        categories := categories[nextId := saved];
        nextId := nextId + 1;
        r := Ok(Some(saved));
      }
    }

    /** `delete Category where id = :id`: a no-op when there is no such row. */
    method DeleteCategoryById(id: int, fault: bool) returns (r: Result<()>)
      requires Valid()
      modifies this
      ensures Valid() && nextId == old(nextId)
      ensures fault ==> r == Err(StoreError) && categories == old(categories)
      ensures !fault ==> r == Ok(()) && categories == old(categories) - {id} && id !in categories
      ensures id !in old(categories) ==> categories == old(categories)
    {
      if fault {
        r := Err(StoreError);
      } else {
        categories := categories - {id};
        r := Ok(());
      }
    }
  }
}
