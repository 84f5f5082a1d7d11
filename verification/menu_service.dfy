/** MenuService: menu reads through the cache, menu writes through the
    repository followed by the cache deletions they call for. */
module MenuService {
  import opened Wrappers
  import opened Models
  import opened Schemas
  import opened Store
  import opened Cache
  import opened Aggregates
  import opened ReadThrough
  import opened MenuRepository

  class MenuService {
    const repository: MenuORMRepository
    const cache: RedisCacheRepository

    constructor (db: Database, client: RedisClient)
      ensures repository.db == db && cache.client == client
    {
      repository := new MenuORMRepository(db);
      cache := new RedisCacheRepository(client);
    }

    /** The outer-join query: the menu with the number of distinct submenus and
        of dishes under them; None for an absent menu. */
    method GetMenuDetails(x: Id) returns (r: Option<MenuWithDetails>)
      requires repository.db.Valid()
      ensures r.Some? <==> x in repository.db.menus
      ensures r.Some? ==>
        && r.value.id == x
        && r.value.title == repository.db.menus[x].title
        && r.value.description == repository.db.menus[x].description
        && r.value.submenusCount == |repository.db.View().SubmenusOf(x)|
        && r.value.dishesCount == |repository.db.View().DishesUnder(x)|
    {
      var c := repository.db.View();
      if x !in c.menus {
        return None;
      }
      var rows := MenuJoin(c, x);
      MenuCounts(c, x);
      r := Some(MenuWithDetails(x, c.menus[x].title, c.menus[x].description,
                                CountDistinctSubmenus(rows), CountDishes(rows)));
    }

    /** True iff a menu has that id, or that title. */
    method IsMenuExists(field: UniqueField) returns (b: bool)
      requires repository.db.Valid()
      ensures field.IdField? ==> (b <==> field.id in repository.db.menus)
      ensures field.TitleField? ==> (b <==> repository.db.View().MenuTitleTaken(field.title))
    {
      match field
      case IdField(x) =>
        var m := repository.GetById(x);
        b := m.Some?;
      case TitleField(t) =>
        var m := repository.GetByTitle(t);
        b := m.Some?;
    }

    /** A hit on `menu_<x>` is converted and returned; a miss runs the query and
        caches the details of an existing menu. */
    method GetMenuById(x: Id) returns (r: Result<Option<MenuWithDetails>, Exception>)
      requires repository.db.Valid()
      modifies cache.client
      ensures r == MenuLookup(repository.db.View(), old(cache.client.entries), x)
      ensures cache.client.entries == MenuFill(repository.db.View(), old(cache.client.entries), x)
    {
      var hit := cache.Get(MenuKey(x));
      if hit.Some? {
        match MenuFromCache(hit.value)
        case Success(m) => return Success(Some(m));
        case Failure(err) => return Failure(err);
      }
      var details := GetMenuDetails(x);
      if details.None? {
        return Success(None);
      }
      cache.Set(MenuKey(x), MenuSnap(details.value));
      r := Success(details);
    }

    /** As written, the listing calls the repository's `get_all` without the
        positional `item_id` it requires, so every call raises TypeError before
        any query runs or any key is cached. */
    method GetAllMenus() returns (r: Result<seq<MenuWithDetails>, Exception>)
      ensures r == Failure(TypeError)
    {
      r := Failure(TypeError);
    }

    /** The listing as evidently intended, with `item_id` passed as None: reads
        every menu through `GetMenuById`, in the order the query returns them,
        skipping None; the first exception ends the listing. */
    method GetAllMenusCorrected() returns (r: Result<seq<MenuWithDetails>, Exception>)
      requires repository.db.Valid()
      modifies cache.client
      ensures exists ids :: && Enumerates(ids, repository.db.menus.Keys)
                            && (r, cache.client.entries) == MenuScan(repository.db.View(), old(cache.client.entries), ids)
    {
      var menus := repository.GetAll(None);
      ghost var c := repository.db.View();
      ghost var e0 := cache.client.entries;
      ghost var ids: seq<Id> := seq(|menus|, i requires 0 <= i < |menus| => menus[i].id);
      var list: seq<MenuWithDetails> := [];
      var i := 0;
      while i < |menus|
        invariant 0 <= i <= |menus|
        invariant (Success(list), cache.client.entries) == MenuScan(c, e0, ids[..i])
      {
        ghost var e1 := cache.client.entries;
        var details := GetMenuById(menus[i].id);
        MenuScanNext(c, e0, ids, i, list, e1);
        if details.Failure? {
          MenuScanStops(c, e0, ids, i + 1);
          return Failure(details.error);
        }
        if details.value.Some? {
          list := list + [details.value.value];
        }
        i := i + 1;
      }
      assert ids[..i] == ids;
      r := Success(list);
    }

    /** As written, creation calls the repository's `create` without the
        positional `item_id` it requires, so every call raises TypeError and
        nothing is stored. */
    method CreateMenu(data: MenuCreate) returns (r: Result<Option<Menu>, Exception>)
      ensures r == Failure(TypeError)
    {
      r := Failure(TypeError);
    }

    /** Creation as evidently intended, with `item_id` passed as None; it
        touches no cache key. */
    method CreateMenuCorrected(data: MenuCreate) returns (r: Option<Menu>)
      requires repository.db.Valid()
      modifies repository.db
      ensures repository.db.Valid()
      ensures r.Some? <==> !old(repository.db.View()).MenuTitleTaken(data.title)
      ensures r.Some? ==> r.value == Menu(old(repository.db.nextId), data.title, data.description)
      ensures repository.db.View()
           == if r.Some? then old(repository.db.View()).AddMenu(data.title, data.description) else old(repository.db.View())
      ensures cache.client.entries == old(cache.client.entries)
    {
      r := repository.Create(data, None);
    }

    /** A successful update drops `menu_<x>`. */
    method UpdateMenu(x: Id, data: MenuCreate) returns (r: Option<Menu>)
      requires repository.db.Valid()
      modifies repository.db, cache.client
      ensures repository.db.Valid()
      ensures r.Some? <==> x in old(repository.db.menus) && !old(repository.db.View()).MenuTitleClash(x, data.title)
      ensures r.Some? ==> r.value == Menu(x, data.title, data.description)
      ensures repository.db.View()
           == if r.Some? then old(repository.db.View()).SetMenu(x, data.title, data.description) else old(repository.db.View())
      ensures cache.client.entries
           == if r.Some? then old(cache.client.entries) - {MenuKey(x)} else old(cache.client.entries)
    {
      r := repository.Update(x, data);
      if r.Some? {
        cache.Delete(MenuKey(x));
      }
    }

    /** Collects the submenus and the dishes under them, deletes the menu (the
        database cascades), then drops the menu's key and the keys of every
        collected submenu and dish. An absent menu raises AttributeError before
        anything changes. */
    method DeleteMenu(x: Id) returns (r: Result<Menu, Exception>)
      requires repository.db.Valid()
      modifies repository.db, cache.client
      ensures repository.db.Valid()
      ensures r.Failure? <==> x !in old(repository.db.menus)
      ensures r.Failure? ==> && r.error == AttributeError
                             && repository.db.View() == old(repository.db.View())
                             && cache.client.entries == old(cache.client.entries)
      ensures r.Success? ==>
        && r.value == old(repository.db.menus[x])
        && repository.db.View() == old(repository.db.View()).RemoveMenu(x)
        && cache.client.entries == old(cache.client.entries)
             - ({MenuKey(x)}
                + KeysOf(SubmenuKind, old(repository.db.View()).SubmenusOf(x))
                + KeysOf(DishKind, old(repository.db.View()).DishesUnder(x)))
    {
      var menu := repository.GetById(x);
      if menu.None? {
        return Failure(AttributeError);
      }
      var c := repository.db.View();
      var submenus := Rows(c.SubmenusOf(x));
      var dishes := CollectDishes(c, submenus);
      IdSetOfEnumeration(submenus, c.SubmenusOf(x));
      ghost var e0 := cache.client.entries;
      var deleted := repository.Delete(x);
      cache.Delete(MenuKey(x));
      DeleteKeys(cache, SubmenuKind, submenus);
      DeleteKeys(cache, DishKind, dishes);
      assert cache.client.entries
          == e0 - ({MenuKey(x)} + KeysOf(SubmenuKind, c.SubmenusOf(x)) + KeysOf(DishKind, c.DishesUnder(x)));
      r := Success(deleted.value);
    }
  }

  /** The dishes of each listed submenu, one list after another. */
  method CollectDishes(c: Catalog, submenus: seq<Id>) returns (dishes: seq<Id>)
    ensures IdSet(dishes) == c.DishesIn(IdSet(submenus))
  {
    dishes := [];
    for i := 0 to |submenus|
      invariant IdSet(dishes) == c.DishesIn(IdSet(submenus[..i]))
    {
      var ds := Rows(c.DishesOf(submenus[i]));
      IdSetOfEnumeration(ds, c.DishesOf(submenus[i]));
      IdSetAppend(dishes, ds);
      assert submenus[..i + 1] == submenus[..i] + [submenus[i]];
      IdSetAppend(submenus[..i], [submenus[i]]);
      dishes := dishes + ds;
    }
    assert submenus[..|submenus|] == submenus;
  }
}
