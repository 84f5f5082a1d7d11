/** The application as mounted: the menu and submenu routers work on the tables
    alone, and only the dish router goes through the services and the cache.
    Every request keeps the tables and the cache coherent, so in the deployed
    application the cache never answers with data the tables no longer hold. */
module App {
  import opened Wrappers
  import opened Models
  import opened Schemas
  import opened Store
  import opened Cache
  import opened ReadThrough
  import opened Invalidation
  import MenuRouter
  import SubmenuRouter
  import DishRouter

  /** One request to one of the fifteen mounted endpoints, with its path ids and payload. */
  datatype Request =
    | CreateMenu(menu: MenuCreate)
    | ReadMenu(menuId: Id)
    | ReadMenus
    | UpdateMenu(menuId: Id, menu: MenuCreate)
    | DeleteMenu(menuId: Id)
    | CreateSubmenu(menuId: Id, submenu: SubmenuCreate)
    | ReadSubmenu(menuId: Id, submenuId: Id)
    | ReadSubmenus(menuId: Id)
    | UpdateSubmenu(menuId: Id, submenuId: Id, submenu: SubmenuCreate)
    | DeleteSubmenu(menuId: Id, submenuId: Id)
    | CreateDish(menuId: Id, submenuId: Id, dish: DishCreate)
    | ReadDish(menuId: Id, submenuId: Id, dishId: Id)
    | ReadDishes(menuId: Id, submenuId: Id)
    | UpdateDish(menuId: Id, submenuId: Id, dishId: Id, dish: DishCreate)
    | DeleteDish(menuId: Id, submenuId: Id, dishId: Id)

  /** Only the dish read path ever stores a key, so the cache holds `dish_` keys only. */
  predicate OnlyDishKeys(e: Entries) {
    forall k :: k in e ==> k.kind == DishKind
  }

  ghost predicate AppInv(c: Catalog, e: Entries) {
    Inv(c, e) && OnlyDishKeys(e)
  }

  /** An empty cache is coherent with any valid tables. */
  lemma EmptyCacheKeepsAppInv(c: Catalog)
    requires c.Valid()
    ensures AppInv(c, map[])
  {
  }

  /** A write that bypasses the cache keeps it coherent as long as it changes no
      dish that already existed (it may delete dishes): no `menu_` or
      `submenu_` key exists to go stale. */
  lemma BypassKeepsAppInv(c: Catalog, c2: Catalog, e: Entries)
    requires AppInv(c, e) && c2.Valid() && c.nextId <= c2.nextId
    requires forall d :: d in c2.dishes && d < c.nextId ==> d in c.dishes && c2.dishes[d] == c.dishes[d]
    ensures AppInv(c2, e)
  {
    forall k | k in e && SnapshotOf(c2, k).Some? ensures SnapshotOf(c2, k) == SnapshotOf(c, k) {
      assert k.kind == DishKind && k.id < c.nextId;
      assert k.id in c2.dishes;
      assert DishRead(c2, k.id) == DishRead(c, k.id);
    }
    assert Coherent(c2, e);
    assert Fresh(c2, e);
  }

  /** A dish listing stores `dish_` keys only. */
  lemma {:induction false} DishScanAddsDishKeys(c: Catalog, e: Entries, ids: seq<Id>)
    ensures forall k :: k in DishScan(c, e, ids).1 ==> k in e || k.kind == DishKind
  {
    if ids != [] {
      DishScanAddsDishKeys(c, e, ids[..|ids| - 1]);
    }
  }

  /** Serves one request. Whatever the request and its outcome, the tables stay
      valid and coherent with the cache. */
  method Handle(db: Database, client: RedisClient, req: Request) returns (status: nat)
    requires AppInv(db.View(), client.entries)
    modifies db, client
    ensures AppInv(db.View(), client.entries)
  {
    ghost var c := db.View();
    ghost var e := client.entries;
    match req
    case CreateMenu(data) =>
      var r := MenuRouter.CreateMenu(db, data);
      status := r.status;
      BypassKeepsAppInv(c, db.View(), e);
    case ReadMenu(m) =>
      var r := MenuRouter.ReadMenu(db, m);
      status := r.status;
    case ReadMenus =>
      var r := MenuRouter.ReadMenus(db);
      status := r.status;
    case UpdateMenu(m, data) =>
      var r := MenuRouter.UpdateMenu(db, m, data);
      status := r.status;
      BypassKeepsAppInv(c, db.View(), e);
    case DeleteMenu(m) =>
      var r := MenuRouter.DeleteMenu(db, m);
      status := r.status;
      BypassKeepsAppInv(c, db.View(), e);
    case CreateSubmenu(m, data) =>
      var r := SubmenuRouter.CreateSubmenu(db, m, data);
      status := r.status;
      BypassKeepsAppInv(c, db.View(), e);
    case ReadSubmenu(m, s) =>
      var r := SubmenuRouter.ReadSubmenu(db, m, s);
      status := r.status;
    case ReadSubmenus(m) =>
      var r := SubmenuRouter.ReadSubmenus(db, m);
      status := r.status;
    case UpdateSubmenu(m, s, data) =>
      var r := SubmenuRouter.UpdateSubmenu(db, m, s, data);
      status := r.status;
      BypassKeepsAppInv(c, db.View(), e);
    case DeleteSubmenu(m, s) =>
      var r := SubmenuRouter.DeleteSubmenu(db, m, s);
      status := r.status;
      BypassKeepsAppInv(c, db.View(), e);
    case CreateDish(m, s, data) =>
      var r := DishRouter.CreateDish(db, client, m, s, data);
      status := r.status;
      if m in c.menus && s in c.submenus && !c.DishTitleTaken(data.title) {
        CreateDishKeepsInv(c, e, data.title, data.description, data.price, s);
      }
    case ReadDish(m, s, d) =>
      var r := DishRouter.ReadDish(db, client, m, s, d);
      status := r.status;
      DishFillKeepsInv(c, e, d);
    case ReadDishes(m, s) =>
      var r := DishRouter.ReadDishes(db, client, m, s);
      status := r.status;
      if m in c.menus && s in c.submenus && c.submenus[s].menuId == m {
        var ids :| && Enumerates(ids, c.DishesOf(s))
                   && client.entries == DishScan(c, e, ids).1;
        DishScanTransparent(c, e, ids);
        DishScanAddsDishKeys(c, e, ids);
      }
    case UpdateDish(m, s, d, data) =>
      var r := DishRouter.UpdateDish(db, client, m, s, d, data);
      status := r.status;
      if DishRouter.InPath(c, m, s, d) && !c.DishTitleClash(d, data.title) {
        UpdateDishKeepsInv(c, e, d, data.title, data.description, data.price);
      }
    case DeleteDish(m, s, d) =>
      var r := DishRouter.DeleteDish(db, client, m, s, d);
      status := r.status;
      if DishRouter.InPath(c, m, s, d) {
        DeleteDishKeepsInv(c, e, d);
      }
  }
}
