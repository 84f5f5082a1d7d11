/** DishService: dish reads through the cache, dish writes through the
    repository followed by the cache deletions they call for. */
module DishService {
  import opened Wrappers
  import opened Models
  import opened Schemas
  import opened Store
  import opened Cache
  import opened Price
  import opened ReadThrough
  import opened DishRepository

  class DishService {
    const repository: DishORMRepository
    const cache: RedisCacheRepository

    constructor (db: Database, client: RedisClient)
      ensures repository.db == db && cache.client == client
    {
      repository := new DishORMRepository(db);
      cache := new RedisCacheRepository(client);
    }

    /** True iff a dish has that id, or that title (in any submenu). */
    method IsDishExists(field: UniqueField) returns (b: bool)
      requires repository.db.Valid()
      ensures field.IdField? ==> (b <==> field.id in repository.db.dishes)
      ensures field.TitleField? ==> (b <==> repository.db.View().DishTitleTaken(field.title))
    {
      match field
      case IdField(x) =>
        var d := repository.GetById(x);
        b := d.Some?;
      case TitleField(t) =>
        var d := repository.GetByTitle(t);
        b := d.Some?;
    }

    /** True iff dish `d` exists and belongs to submenu `s`. */
    method IsDishExistsInSubmenu(s: Id, d: Id) returns (b: bool)
      requires repository.db.Valid()
      ensures b <==> d in repository.db.dishes && repository.db.dishes[d].submenuId == s
    {
      var dish := repository.GetById(d);
      b := if dish.Some? then dish.value.submenuId == s else false;
    }

    /** Probes `menu_<x>`, whose value can never be made into a dish; on a miss
        renders the row with its price to two decimals and caches it under
        `dish_<x>`. */
    method GetDishById(x: Id) returns (r: Result<Option<DishScheme>, Exception>)
      requires repository.db.Valid()
      modifies cache.client
      ensures r == DishLookup(repository.db.View(), old(cache.client.entries), x)
      ensures cache.client.entries == DishFill(repository.db.View(), old(cache.client.entries), x)
    {
      var hit := cache.Get(MenuKey(x));
      if hit.Some? {
        return Failure(DishFromCache(hit.value));
      }
      var dish := repository.GetById(x);
      if dish.None? {
        return Success(None);
      }
      var price := FormatPrice(dish.value.price);
      if price.None? {
        return Failure(ValueError);
      }
      var scheme := DishScheme(x, dish.value.title, dish.value.description, price.value);
      cache.Set(DishKey(x), DishSnap(scheme));
      r := Success(Some(scheme));
    }

    /** Reads every dish of submenu `s` through `GetDishById`, skipping None;
        the first exception ends the listing. */
    method GetAllDishes(s: Id) returns (r: Result<seq<DishScheme>, Exception>)
      requires repository.db.Valid()
      modifies cache.client
      ensures exists ids :: && Enumerates(ids, repository.db.View().DishesOf(s))
                            && (r, cache.client.entries) == DishScan(repository.db.View(), old(cache.client.entries), ids)
    {
      var dishes := repository.GetAll(s);
      ghost var c := repository.db.View();
      ghost var e0 := cache.client.entries;
      ghost var ids: seq<Id> := seq(|dishes|, i requires 0 <= i < |dishes| => dishes[i].id);
      assert Enumerates(ids, c.DishesOf(s));
      var list: seq<DishScheme> := [];
      var i := 0;
      while i < |dishes|
        invariant 0 <= i <= |dishes|
        invariant (Success(list), cache.client.entries) == DishScan(c, e0, ids[..i])
      {
        ghost var e1 := cache.client.entries;
        var scheme := GetDishById(dishes[i].id);
        DishScanNext(c, e0, ids, i, list, e1);
        if scheme.Failure? {
          DishScanStops(c, e0, ids, i + 1);
          r := Failure(scheme.error);
          assert c == repository.db.View() && e0 == old(cache.client.entries);
      assert (r, cache.client.entries) == DishScan(c, e0, ids);
          return;
        }
        if scheme.value.Some? {
          list := list + [scheme.value.value];
        }
        i := i + 1;
      }
      assert ids[..i] == ids;
      r := Success(list);
      assert c == repository.db.View() && e0 == old(cache.client.entries);
      assert (r, cache.client.entries) == DishScan(c, e0, ids);
    }

    /** A successful create drops the `menu_` key of the submenu's menu and
        `submenu_<s>`, whose counts grew. */
    method CreateDish(s: Id, data: DishCreate) returns (r: Option<Dish>)
      requires repository.db.Valid()
      modifies repository.db, cache.client
      ensures repository.db.Valid()
      ensures r.Some? <==> s in old(repository.db.submenus) && !old(repository.db.View()).DishTitleTaken(data.title)
      ensures r.Some? ==> r.value == Dish(old(repository.db.nextId), data.title, data.description, data.price, s)
      ensures repository.db.View()
           == if r.Some? then old(repository.db.View()).AddDish(data.title, data.description, data.price, s)
              else old(repository.db.View())
      ensures cache.client.entries
           == if r.Some? then old(cache.client.entries) - {MenuKey(old(repository.db.submenus[s]).menuId), SubmenuKey(s)}
              else old(cache.client.entries)
    {
      r := repository.Create(data, s);
      if r.Some? {
        var m := repository.db.submenus[s].menuId;
        cache.Delete(MenuKey(m));
        cache.Delete(SubmenuKey(s));
      }
    }

    /** A successful update drops `dish_<x>`. */
    method UpdateDish(x: Id, data: DishCreate) returns (r: Option<Dish>)
      requires repository.db.Valid()
      modifies repository.db, cache.client
      ensures repository.db.Valid()
      ensures r.Some? <==> x in old(repository.db.dishes) && !old(repository.db.View()).DishTitleClash(x, data.title)
      ensures r.Some? ==> r.value == old(repository.db.dishes[x]).(title := data.title, description := data.description, price := data.price)
      ensures repository.db.View()
           == if r.Some? then old(repository.db.View()).SetDish(x, data.title, data.description, data.price)
              else old(repository.db.View())
      ensures cache.client.entries
           == if r.Some? then old(cache.client.entries) - {DishKey(x)} else old(cache.client.entries)
    {
      r := repository.Update(x, data);
      if r.Some? {
        cache.Delete(DishKey(x));
      }
    }

    /** Reads the dish's submenu and menu, deletes the dish, then drops the
        `menu_`, `submenu_` and `dish_` keys of that ancestry. An absent dish
        raises AttributeError before anything changes. */
    method DeleteDish(x: Id) returns (r: Result<Dish, Exception>)
      requires repository.db.Valid()
      modifies repository.db, cache.client
      ensures repository.db.Valid()
      ensures r.Failure? <==> x !in old(repository.db.dishes)
      ensures r.Failure? ==> && r.error == AttributeError
                             && repository.db.View() == old(repository.db.View())
                             && cache.client.entries == old(cache.client.entries)
      ensures r.Success? ==>
        && r.value == old(repository.db.dishes[x])
        && repository.db.View() == old(repository.db.View()).RemoveDish(x)
        && cache.client.entries == old(cache.client.entries)
             - {MenuKey(old(repository.db.submenus[repository.db.dishes[x].submenuId]).menuId),
                SubmenuKey(old(repository.db.dishes[x]).submenuId), DishKey(x)}
    {
      var dish := repository.GetById(x);
      if dish.None? {
        return Failure(AttributeError);
      }
      var s := dish.value.submenuId;
      var m := repository.db.submenus[s].menuId;
      var deleted := repository.Delete(x);
      cache.Delete(MenuKey(m));
      cache.Delete(SubmenuKey(s));
      cache.Delete(DishKey(x));
      r := Success(deleted.value);
    }
  }
}
