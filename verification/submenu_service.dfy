/** SubmenuService: submenu reads through the cache, submenu writes through the
    repository followed by the cache deletions they call for. */
module SubmenuService {
  import opened Wrappers
  import opened Models
  import opened Schemas
  import opened Store
  import opened Cache
  import opened Aggregates
  import opened ReadThrough
  import opened SubmenuRepository

  class SubmenuService {
    const repository: SubmenuORMRepository
    const cache: RedisCacheRepository

    constructor (db: Database, client: RedisClient)
      ensures repository.db == db && cache.client == client
    {
      repository := new SubmenuORMRepository(db);
      cache := new RedisCacheRepository(client);
    }

    /** The outer-join query: the submenu with the number of distinct dishes in
        it; None for an absent submenu. */
    method GetSubmenuDetails(x: Id) returns (r: Option<SubmenuWithDishCount>)
      requires repository.db.Valid()
      ensures r.Some? <==> x in repository.db.submenus
      ensures r.Some? ==>
        && r.value.id == x
        && r.value.title == repository.db.submenus[x].title
        && r.value.description == repository.db.submenus[x].description
        && r.value.dishesCount == |repository.db.View().DishesOf(x)|
    {
      var c := repository.db.View();
      if x !in c.submenus {
        return None;
      }
      var rows := SubmenuJoin(c, x);
      SubmenuCount(c, x);
      r := Some(SubmenuWithDishCount(x, c.submenus[x].title, c.submenus[x].description, CountDistinctDishes(rows)));
    }

    /** True iff submenu `s` exists and belongs to menu `m`. */
    method IsSubmenuExistsInMenu(m: Id, s: Id) returns (b: bool)
      requires repository.db.Valid()
      ensures b <==> s in repository.db.submenus && repository.db.submenus[s].menuId == m
    {
      var submenu := repository.GetById(s);
      b := if submenu.Some? then submenu.value.menuId == m else false;
    }

    /** True iff a submenu has that id, or that title (in any menu). */
    method IsSubmenuExists(field: UniqueField) returns (b: bool)
      requires repository.db.Valid()
      ensures field.IdField? ==> (b <==> field.id in repository.db.submenus)
      ensures field.TitleField? ==> (b <==> repository.db.View().SubmenuTitleTaken(field.title))
    {
      match field
      case IdField(x) =>
        var s := repository.GetById(x);
        b := s.Some?;
      case TitleField(t) =>
        var s := repository.GetByTitle(t);
        b := s.Some?;
    }

    /** Probes `menu_<x>`; on a miss runs the query and caches the details of an
        existing submenu under `submenu_<x>`. */
    method GetSubmenuById(x: Id) returns (r: Result<Option<SubmenuWithDishCount>, Exception>)
      requires repository.db.Valid()
      modifies cache.client
      ensures r == SubmenuLookup(repository.db.View(), old(cache.client.entries), x)
      ensures cache.client.entries == SubmenuFill(repository.db.View(), old(cache.client.entries), x)
    {
      var hit := cache.Get(MenuKey(x));
      if hit.Some? {
        match SubmenuFromCache(hit.value)
        case Success(s) => return Success(Some(s));
        case Failure(err) => return Failure(err);
      }
      var details := GetSubmenuDetails(x);
      if details.None? {
        return Success(None);
      }
      cache.Set(SubmenuKey(x), SubmenuSnap(details.value));
      r := Success(details);
    }

    /** Reads every submenu of menu `m` through `GetSubmenuById`, skipping None;
        the first exception ends the listing. */
    method GetAllSubmenus(m: Id) returns (r: Result<seq<SubmenuWithDishCount>, Exception>)
      requires repository.db.Valid()
      modifies cache.client
      ensures exists ids :: && Enumerates(ids, repository.db.View().SubmenusOf(m))
                            && (r, cache.client.entries) == SubmenuScan(repository.db.View(), old(cache.client.entries), ids)
    {
      var submenus := repository.GetAll(m);
      ghost var c := repository.db.View();
      ghost var e0 := cache.client.entries;
      ghost var ids: seq<Id> := seq(|submenus|, i requires 0 <= i < |submenus| => submenus[i].id);
      assert Enumerates(ids, c.SubmenusOf(m));
      var list: seq<SubmenuWithDishCount> := [];
      var i := 0;
      while i < |submenus|
        invariant 0 <= i <= |submenus|
        invariant (Success(list), cache.client.entries) == SubmenuScan(c, e0, ids[..i])
      {
        ghost var e1 := cache.client.entries;
        var details := GetSubmenuById(submenus[i].id);
        SubmenuScanNext(c, e0, ids, i, list, e1);
        if details.Failure? {
          SubmenuScanStops(c, e0, ids, i + 1);
          r := Failure(details.error);
          assert c == repository.db.View() && e0 == old(cache.client.entries);
      assert (r, cache.client.entries) == SubmenuScan(c, e0, ids);
          return;
        }
        if details.value.Some? {
          list := list + [details.value.value];
        }
        i := i + 1;
      }
      assert ids[..i] == ids;
      r := Success(list);
      assert c == repository.db.View() && e0 == old(cache.client.entries);
      assert (r, cache.client.entries) == SubmenuScan(c, e0, ids);
    }

    /** A successful create drops `menu_<m>`, whose submenu count grew. */
    method CreateSubmenu(m: Id, data: SubmenuCreate) returns (r: Option<Submenu>)
      requires repository.db.Valid()
      modifies repository.db, cache.client
      ensures repository.db.Valid()
      ensures r.Some? <==> m in old(repository.db.menus) && !old(repository.db.View()).SubmenuTitleTaken(data.title)
      ensures r.Some? ==> r.value == Submenu(old(repository.db.nextId), data.title, data.description, m)
      ensures repository.db.View()
           == if r.Some? then old(repository.db.View()).AddSubmenu(data.title, data.description, m) else old(repository.db.View())
      ensures cache.client.entries
           == if r.Some? then old(cache.client.entries) - {MenuKey(m)} else old(cache.client.entries)
    {
      r := repository.Create(data, m);
      if r.Some? {
        cache.Delete(MenuKey(m));
      }
    }

    /** A successful update drops `submenu_<x>`. */
    method UpdateSubmenu(x: Id, data: SubmenuCreate) returns (r: Option<Submenu>)
      requires repository.db.Valid()
      modifies repository.db, cache.client
      ensures repository.db.Valid()
      ensures r.Some? <==> x in old(repository.db.submenus) && !old(repository.db.View()).SubmenuTitleClash(x, data.title)
      ensures r.Some? ==> r.value == old(repository.db.submenus[x]).(title := data.title, description := data.description)
      ensures repository.db.View()
           == if r.Some? then old(repository.db.View()).SetSubmenu(x, data.title, data.description) else old(repository.db.View())
      ensures cache.client.entries
           == if r.Some? then old(cache.client.entries) - {SubmenuKey(x)} else old(cache.client.entries)
    {
      r := repository.Update(x, data);
      if r.Some? {
        cache.Delete(SubmenuKey(x));
      }
    }

    /** Reads the parent menu and the dishes, deletes the submenu, then drops the
        parent's `menu_` key and every collected dish's key (not `submenu_<x>`).
        An absent submenu raises AttributeError before anything changes. */
    method DeleteSubmenu(x: Id) returns (r: Result<Submenu, Exception>)
      requires repository.db.Valid()
      modifies repository.db, cache.client
      ensures repository.db.Valid()
      ensures r.Failure? <==> x !in old(repository.db.submenus)
      ensures r.Failure? ==> && r.error == AttributeError
                             && repository.db.View() == old(repository.db.View())
                             && cache.client.entries == old(cache.client.entries)
      ensures r.Success? ==>
        && r.value == old(repository.db.submenus[x])
        && repository.db.View() == old(repository.db.View()).RemoveSubmenu(x)
        && cache.client.entries == old(cache.client.entries)
             - ({MenuKey(old(repository.db.submenus[x]).menuId)}
                + KeysOf(DishKind, old(repository.db.View()).DishesOf(x)))
    {
      var submenu := repository.GetById(x);
      if submenu.None? {
        return Failure(AttributeError);
      }
      var m := submenu.value.menuId;
      var c := repository.db.View();
      var dishes := Rows(c.DishesOf(x));
      IdSetOfEnumeration(dishes, c.DishesOf(x));
      ghost var e0 := cache.client.entries;
      var deleted := repository.Delete(x);
      cache.Delete(MenuKey(m));
      DeleteKeys(cache, DishKind, dishes);
      assert cache.client.entries == e0 - ({MenuKey(m)} + KeysOf(DishKind, c.DishesOf(x)));
      r := Success(deleted.value);
    }
  }
}
