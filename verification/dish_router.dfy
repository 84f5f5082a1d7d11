/** The mounted `/menus/{menu_id}/submenus/{submenu_id}/dishes` endpoints: a
    chain of existence checks through the three services, each failing one
    answering 404 (or 400 for a taken title), then one dish-service call. */
module DishRouter {
  import opened Wrappers
  import opened Models
  import opened Schemas
  import opened Store
  import opened Cache
  import opened ReadThrough
  import MenuService
  import SubmenuService
  import DishService

  /** The response body for a dish row: the row's own price text, unformatted. */
  function DishBody(x: Dish): (b: DishScheme)
    ensures b.id == x.id && b.price == x.price
  {
    DishScheme(x.id, x.title, x.description, x.price)
  }

  /** A service result as the endpoint answers it: the dish with 200, and a
      server error for an exception or for a None that fails response validation. */
  function DishAnswer(x: Result<Option<DishScheme>, Exception>): (r: Response<DishScheme>)
    ensures r.Ok? <==> x.Success? && x.value.Some?
    ensures r.Ok? ==> r == Ok(200, x.value.value)
    ensures r.HttpError? ==> r.status == 500
  {
    match x
    case Success(Some(v)) => Ok(200, v)
    case _ => HttpError(500, ServerError)
  }

  /** Submenu `s` is in menu `m` and dish `d` is in submenu `s`. */
  predicate InPath(c: Catalog, m: Id, s: Id, d: Id) {
    && m in c.menus
    && s in c.submenus && c.submenus[s].menuId == m
    && d in c.dishes && c.dishes[d].submenuId == s
  }

  /** The 404 the read, update and delete guard chain answers, if any: menu
      first, then submenu-in-menu, then dish-in-submenu. */
  function GuardChain(c: Catalog, m: Id, s: Id, d: Id): (r: Option<Response<DishScheme>>)
    ensures r.None? <==> InPath(c, m, s, d)
    ensures m !in c.menus ==> r == Some(HttpError(404, "menu not found"))
    ensures r.Some? ==> r.value.HttpError? && r.value.status == 404
  {
    if m !in c.menus then Some(HttpError(404, "menu not found"))
    else if !(s in c.submenus && c.submenus[s].menuId == m) then Some(HttpError(404, "submenu not found"))
    else if !(d in c.dishes && c.dishes[d].submenuId == s) then Some(HttpError(404, "dish not found"))
    else None
  }

  /** POST: 404 "menu not found", then 404 "submenu not found" when the submenu
      does not exist (in any menu), then 400 "dish exists"; otherwise 201 with
      the new dish under submenu `s`, whichever menu `s` belongs to. */
  method CreateDish(db: Database, client: RedisClient, m: Id, s: Id, data: DishCreate)
    returns (r: Response<DishScheme>)
    requires db.Valid()
    modifies db, client
    ensures db.Valid()
    ensures m !in old(db.menus) ==>
      r == HttpError(404, "menu not found") && db.View() == old(db.View()) && client.entries == old(client.entries)
    ensures m in old(db.menus) && s !in old(db.submenus) ==>
      r == HttpError(404, "submenu not found") && db.View() == old(db.View()) && client.entries == old(client.entries)
    ensures m in old(db.menus) && s in old(db.submenus) && old(db.View()).DishTitleTaken(data.title) ==>
      r == HttpError(400, "dish exists") && db.View() == old(db.View()) && client.entries == old(client.entries)
    ensures m in old(db.menus) && s in old(db.submenus) && !old(db.View()).DishTitleTaken(data.title) ==>
      && r == Ok(201, DishScheme(old(db.nextId), data.title, data.description, data.price))
      && db.View() == old(db.View()).AddDish(data.title, data.description, data.price, s)
      && client.entries == old(client.entries) - {MenuKey(old(db.submenus[s]).menuId), SubmenuKey(s)}
  {
    var menus := new MenuService.MenuService(db, client);
    var found := menus.IsMenuExists(IdField(m));
    if !found {
      return HttpError(404, "menu not found");
    }
    var submenus := new SubmenuService.SubmenuService(db, client);
    found := submenus.IsSubmenuExists(IdField(s));
    if !found {
      return HttpError(404, "submenu not found");
    }
    var dishes := new DishService.DishService(db, client);
    found := dishes.IsDishExists(TitleField(data.title));
    if found {
      return HttpError(400, "dish exists");
    }
    var dish := dishes.CreateDish(s, data);
    r := Ok(201, DishBody(dish.value));
  }

  /** GET one: the guard chain, then the dish service's cached read. */
  method ReadDish(db: Database, client: RedisClient, m: Id, s: Id, d: Id) returns (r: Response<DishScheme>)
    requires db.Valid()
    modifies client
    ensures GuardChain(db.View(), m, s, d).Some? ==>
      r == GuardChain(db.View(), m, s, d).value && client.entries == old(client.entries)
    ensures GuardChain(db.View(), m, s, d).None? ==>
      && r == DishAnswer(DishLookup(db.View(), old(client.entries), d))
      && client.entries == DishFill(db.View(), old(client.entries), d)
    ensures GuardChain(db.View(), m, s, d).None? && Inv(db.View(), old(client.entries)) ==>
      r == DishAnswer(DishRead(db.View(), d))
  {
    ghost var c, e0 := db.View(), client.entries;
    var menus := new MenuService.MenuService(db, client);
    var found := menus.IsMenuExists(IdField(m));
    if !found {
      return HttpError(404, "menu not found");
    }
    var submenus := new SubmenuService.SubmenuService(db, client);
    found := submenus.IsSubmenuExistsInMenu(m, s);
    if !found {
      return HttpError(404, "submenu not found");
    }
    var dishes := new DishService.DishService(db, client);
    found := dishes.IsDishExistsInSubmenu(s, d);
    if !found {
      return HttpError(404, "dish not found");
    }
    assert GuardChain(c, m, s, d).None?;
    var dish := dishes.GetDishById(d);
    assert dish == DishLookup(c, e0, d) && client.entries == DishFill(c, e0, d);
    r := DishAnswer(dish);
    if Inv(c, e0) {
      DishLookupTransparent(c, e0, d);
    }
  }

  /** GET all: 404 "menu not found", then 200 with no dishes when the submenu is
      not in that menu; otherwise the dish service's listing, a server error
      when it raises. */
  method ReadDishes(db: Database, client: RedisClient, m: Id, s: Id) returns (r: Response<seq<DishScheme>>)
    requires db.Valid()
    modifies client
    ensures m !in db.menus ==> r == HttpError(404, "menu not found") && client.entries == old(client.entries)
    ensures m in db.menus && !(s in db.submenus && db.submenus[s].menuId == m) ==>
      r == Ok(200, []) && client.entries == old(client.entries)
    ensures m in db.menus && s in db.submenus && db.submenus[s].menuId == m ==>
      exists ids :: && Enumerates(ids, db.View().DishesOf(s))
                    && client.entries == DishScan(db.View(), old(client.entries), ids).1
                    && r == match DishScan(db.View(), old(client.entries), ids).0
                            case Success(list) => Ok(200, list)
                            case Failure(_) => HttpError(500, ServerError)
  {
    var menus := new MenuService.MenuService(db, client);
    var found := menus.IsMenuExists(IdField(m));
    if !found {
      return HttpError(404, "menu not found");
    }
    var submenus := new SubmenuService.SubmenuService(db, client);
    found := submenus.IsSubmenuExistsInMenu(m, s);
    if !found {
      return Ok(200, []);
    }
    var dishes := new DishService.DishService(db, client);
    var list := dishes.GetAllDishes(s);
    r := match list
         case Success(v) => Ok(200, v)
         case Failure(_) => HttpError(500, ServerError);
  }

  /** PATCH: the guard chain, then the dish service's update; a title another
      dish has fails the commit, and the None the service returns then fails
      response validation. */
  method UpdateDish(db: Database, client: RedisClient, m: Id, s: Id, d: Id, data: DishCreate)
    returns (r: Response<DishScheme>)
    requires db.Valid()
    modifies db, client
    ensures db.Valid()
    ensures GuardChain(old(db.View()), m, s, d).Some? ==>
      && r == GuardChain(old(db.View()), m, s, d).value
      && db.View() == old(db.View()) && client.entries == old(client.entries)
    ensures GuardChain(old(db.View()), m, s, d).None? ==>
      if old(db.View()).DishTitleClash(d, data.title) then
        && r == HttpError(500, ServerError)
        && db.View() == old(db.View()) && client.entries == old(client.entries)
      else
        && r == Ok(200, DishScheme(d, data.title, data.description, data.price))
        && db.View() == old(db.View()).SetDish(d, data.title, data.description, data.price)
        && client.entries == old(client.entries) - {DishKey(d)}
  {
    var menus := new MenuService.MenuService(db, client);
    var found := menus.IsMenuExists(IdField(m));
    if !found {
      return HttpError(404, "menu not found");
    }
    var submenus := new SubmenuService.SubmenuService(db, client);
    found := submenus.IsSubmenuExistsInMenu(m, s);
    if !found {
      return HttpError(404, "submenu not found");
    }
    var dishes := new DishService.DishService(db, client);
    found := dishes.IsDishExistsInSubmenu(s, d);
    if !found {
      return HttpError(404, "dish not found");
    }
    var dish := dishes.UpdateDish(d, data);
    r := if dish.Some? then Ok(200, DishBody(dish.value)) else HttpError(500, ServerError);
  }

  /** DELETE: the guard chain, then the dish service's delete. */
  method DeleteDish(db: Database, client: RedisClient, m: Id, s: Id, d: Id) returns (r: Response<DishScheme>)
    requires db.Valid()
    modifies db, client
    ensures db.Valid()
    ensures GuardChain(old(db.View()), m, s, d).Some? ==>
      && r == GuardChain(old(db.View()), m, s, d).value
      && db.View() == old(db.View()) && client.entries == old(client.entries)
    ensures GuardChain(old(db.View()), m, s, d).None? ==>
      && r == Ok(200, DishBody(old(db.dishes[d])))
      && db.View() == old(db.View()).RemoveDish(d)
      && client.entries == old(client.entries) - {MenuKey(m), SubmenuKey(s), DishKey(d)}
  {
    var menus := new MenuService.MenuService(db, client);
    var found := menus.IsMenuExists(IdField(m));
    if !found {
      return HttpError(404, "menu not found");
    }
    var submenus := new SubmenuService.SubmenuService(db, client);
    found := submenus.IsSubmenuExistsInMenu(m, s);
    if !found {
      return HttpError(404, "submenu not found");
    }
    var dishes := new DishService.DishService(db, client);
    found := dishes.IsDishExistsInSubmenu(s, d);
    if !found {
      return HttpError(404, "dish not found");
    }
    var dish := dishes.DeleteDish(d);
    r := Ok(200, DishBody(dish.value));
  }
}
