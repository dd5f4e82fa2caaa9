/** The category registry (`CategoryService`): menu categories, which cannot
    be deleted while a dish still belongs to them. */
module Categories {
  import opened Common
  import opened Queries

  datatype Category = Category(id: int, name: string)

  /** A dish (`Plat`), as far as the category guard looks at it. */
  datatype Dish = Dish(id: int, name: string, categoryId: int)

  function CategoryKey(c: Category): int { c.id }

  predicate CategoryExists(cs: seq<Category>, id: int) {
    exists j :: 0 <= j < |cs| && cs[j].id == id
  }

  /** `DeleteCategoryAsync`'s guard: some dish belongs to the category. */
  predicate HasDishes(dishes: seq<Dish>, categoryId: int) {
    exists i :: 0 <= i < |dishes| && dishes[i].categoryId == categoryId
  }

  /** Every dish names a stored category. */
  ghost predicate DishesResolved(cs: seq<Category>, dishes: seq<Dish>) {
    forall i :: 0 <= i < |dishes| ==> CategoryExists(cs, dishes[i].categoryId)
  }

  lemma {:induction false} AddKeepsDishesResolved(cs: seq<Category>, dishes: seq<Dish>, c: Category)
    requires DishesResolved(cs, dishes)
    ensures DishesResolved(cs + [c], dishes)
  {
    forall i | 0 <= i < |dishes| ensures CategoryExists(cs + [c], dishes[i].categoryId) {
      var j :| 0 <= j < |cs| && cs[j].id == dishes[i].categoryId;
      assert (cs + [c])[j] == cs[j];
    }
  }

  lemma {:induction false} UpdateKeepsDishesResolved(cs: seq<Category>, dishes: seq<Dish>, k: nat, c: Category)
    requires k < |cs| && cs[k].id == c.id && DishesResolved(cs, dishes)
    ensures DishesResolved(cs[k := c], dishes)
  {
    forall i | 0 <= i < |dishes| ensures CategoryExists(cs[k := c], dishes[i].categoryId) {
      var j :| 0 <= j < |cs| && cs[j].id == dishes[i].categoryId;
      assert cs[k := c][j].id == cs[j].id;
    }
  }

  /** A delete the guard permits never leaves a dish without its category. */
  lemma {:induction false} DeleteKeepsDishesResolved(cs: seq<Category>, dishes: seq<Dish>, k: nat)
    requires k < |cs| && DishesResolved(cs, dishes) && !HasDishes(dishes, cs[k].id)
    ensures DishesResolved(RemoveAt(cs, k), dishes)
  {
    var rest := RemoveAt(cs, k);
    forall i | 0 <= i < |dishes| ensures CategoryExists(rest, dishes[i].categoryId) {
      var j :| 0 <= j < |cs| && cs[j].id == dishes[i].categoryId;
      assert j != k;
      var j' := if j < k then j else j - 1;
      assert rest[j'] == cs[j];
    }
  }

  /** `GetCategoryAsync`: the category with this id, if stored. */
  function Find(cs: seq<Category>, id: int): (r: Option<Category>)
    ensures r.Some? ==> r.value in cs && r.value.id == id
    ensures r.None? <==> !CategoryExists(cs, id)
  {
    match IndexOfKey(cs, CategoryKey, id)
    case None => None
    case Some(k) => Some(cs[k])
  }

  class CategoryRegistry {
    var categories: seq<Category>
    var nextId: int

    ghost predicate Valid()
      reads this
    {
      && nextId > 0
      && (forall i :: 0 <= i < |categories| ==> 0 < categories[i].id < nextId)
      && KeysDistinct(categories, CategoryKey)
    }

    constructor ()
      ensures Valid() && categories == [] && nextId == 1
    {
      categories := [];
      nextId := 1;
    }

    /** `AddCategoryAsync`: stores the category under a fresh id, with no
        validation. */
    method AddCategory(c: Category) returns (ok: bool)
      requires Valid()
      modifies this
      ensures Valid() && ok
      ensures categories == old(categories) + [c.(id := old(nextId))] && nextId == old(nextId) + 1
    {
      categories := categories + [c.(id := nextId)];
      nextId := nextId + 1;
      ok := true;
    }

    /** `UpdateCategoryAsync`: refuses an unknown id; otherwise the stored row
        takes every value of `c`. The save reports success only when some
        value changed. */
    method UpdateCategory(c: Category) returns (ok: bool)
      requires Valid()
      modifies this
      ensures Valid() && nextId == old(nextId)
      ensures match IndexOfKey(old(categories), CategoryKey, c.id)
              case None => categories == old(categories) && !ok
              case Some(k) => categories == old(categories)[k := c] && ok == (old(categories)[k] != c)
    {
      var found := IndexOfKey(categories, CategoryKey, c.id);
      if found.None? {
        return false;
      }
      var k := found.value;
      ok := categories[k] != c;
      categories := categories[k := c];
    }

    /** `DeleteCategoryAsync`: refuses an unknown id, or a category that a
        dish in `dishes` belongs to; otherwise removes exactly that
        category. */
    method DeleteCategory(id: int, dishes: seq<Dish>) returns (ok: bool)
      requires Valid()
      modifies this
      ensures Valid() && nextId == old(nextId)
      ensures ok <==> CategoryExists(old(categories), id) && !HasDishes(dishes, id)
      ensures var k := IndexOfKey(old(categories), CategoryKey, id);
              if ok then k.Some? && categories == RemoveAt(old(categories), k.value)
              else categories == old(categories)
    {
      var found := IndexOfKey(categories, CategoryKey, id);
      if found.None? {
        return false;
      }
      if HasDishes(dishes, id) {
        return false;
      }
      var k := found.value;
      KeysDistinctAfterRemove(categories, CategoryKey, k);
      categories := RemoveAt(categories, k);
      ok := true;
    }
  }
}
