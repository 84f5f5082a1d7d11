/** The cache keys each service write deletes are enough: after the write the
    tables and the remaining cache entries satisfy the read-through invariant
    again, so no later read observes a stale snapshot. */
module Invalidation {
  import opened Wrappers
  import opened Models
  import opened Schemas
  import opened Cache
  import opened Aggregates
  import opened ReadThrough

  /** If every key that survives still names a live menu where it must, and
      every surviving snapshot of a live entity is unchanged by the write, the
      invariant carries over. */
  lemma KeepsInv(c: Catalog, c2: Catalog, e: Entries, gone: set<CacheKey>)
    requires Inv(c, e) && c2.Valid() && c.nextId <= c2.nextId
    requires forall k :: k in e && k !in gone && k.kind == MenuKind ==> k.id in c2.menus
    requires forall k :: k in e && k !in gone && SnapshotOf(c2, k).Some? ==> SnapshotOf(c2, k) == SnapshotOf(c, k)
    ensures Inv(c2, e - gone)
  {
  }

  /** What a key's snapshot depends on: a menu's row and its two child sets, a
      submenu's row and its dish set, a dish's row. */
  predicate SameSources(c: Catalog, c2: Catalog, k: CacheKey) {
    match k.kind
    case MenuKind =>
      k.id in c2.menus ==> && k.id in c.menus && c2.menus[k.id] == c.menus[k.id]
                           && c2.SubmenusOf(k.id) == c.SubmenusOf(k.id)
                           && c2.DishesUnder(k.id) == c.DishesUnder(k.id)
    case SubmenuKind =>
      k.id in c2.submenus ==> && k.id in c.submenus && c2.submenus[k.id] == c.submenus[k.id]
                              && c2.DishesOf(k.id) == c.DishesOf(k.id)
    case DishKind =>
      k.id in c2.dishes ==> k.id in c.dishes && c2.dishes[k.id] == c.dishes[k.id]
  }

  lemma SnapshotStable(c: Catalog, c2: Catalog, k: CacheKey)
    requires c.Valid() && c2.Valid() && SameSources(c, c2, k)
    ensures SnapshotOf(c2, k).Some? ==> SnapshotOf(c2, k) == SnapshotOf(c, k)
  {
  }

  lemma AddMenuSources(c: Catalog, title: string, description: string, k: CacheKey)
    requires c.Valid() && k.id < c.nextId
    ensures SameSources(c, c.AddMenu(title, description), k)
  {
    var c2 := c.AddMenu(title, description);
    assert c2.SubmenusOf(k.id) == c.SubmenusOf(k.id);
    assert c2.DishesUnder(k.id) == c.DishesUnder(k.id);
  }

  lemma AddSubmenuSources(c: Catalog, title: string, description: string, m: Id, k: CacheKey)
    requires c.Valid() && k.id < c.nextId && k != MenuKey(m)
    ensures SameSources(c, c.AddSubmenu(title, description, m), k)
  {
    var c2 := c.AddSubmenu(title, description, m);
    if k.kind == MenuKind {
      assert c2.SubmenusOf(k.id) == c.SubmenusOf(k.id);
      assert c2.DishesUnder(k.id) == c.DishesUnder(k.id);
    }
  }

  lemma AddDishSources(c: Catalog, title: string, description: string, price: string, s: Id, k: CacheKey)
    requires c.Valid() && s in c.submenus && k.id < c.nextId
    requires k != MenuKey(c.submenus[s].menuId) && k != SubmenuKey(s)
    ensures SameSources(c, c.AddDish(title, description, price, s), k)
  {
    var c2 := c.AddDish(title, description, price, s);
    if k.kind == MenuKind {
      assert c2.DishesUnder(k.id) == c.DishesUnder(k.id);
    }
  }

  lemma SetMenuSources(c: Catalog, m: Id, title: string, description: string, k: CacheKey)
    requires c.Valid() && m in c.menus && k != MenuKey(m)
    ensures SameSources(c, c.SetMenu(m, title, description), k)
  {
  }

  lemma SetSubmenuSources(c: Catalog, s: Id, title: string, description: string, k: CacheKey)
    requires c.Valid() && s in c.submenus && k != SubmenuKey(s)
    ensures SameSources(c, c.SetSubmenu(s, title, description), k)
  {
    var c2 := c.SetSubmenu(s, title, description);
    if k.kind == MenuKind {
      assert c2.SubmenusOf(k.id) == c.SubmenusOf(k.id);
      assert c2.DishesUnder(k.id) == c.DishesUnder(k.id);
    }
  }

  lemma SetDishSources(c: Catalog, d: Id, title: string, description: string, price: string, k: CacheKey)
    requires c.Valid() && d in c.dishes && k != DishKey(d)
    ensures SameSources(c, c.SetDish(d, title, description, price), k)
  {
    var c2 := c.SetDish(d, title, description, price);
    if k.kind == MenuKind {
      assert c2.DishesUnder(k.id) == c.DishesUnder(k.id);
    } else if k.kind == SubmenuKind {
      assert c2.DishesOf(k.id) == c.DishesOf(k.id);
    }
  }

  lemma RemoveMenuSources(c: Catalog, m: Id, k: CacheKey)
    requires c.Valid() && k != MenuKey(m)
    ensures SameSources(c, c.RemoveMenu(m), k)
  {
    var c2 := c.RemoveMenu(m);
    if k.kind == MenuKind && k.id in c2.menus {
      RemoveMenuOtherMenu(c, m, k.id);
    } else if k.kind == SubmenuKind && k.id in c2.submenus {
      assert c2.DishesOf(k.id) == c.DishesOf(k.id) by {
        forall d | d in c.DishesOf(k.id) ensures d in c2.DishesOf(k.id) {
          assert d !in c.DishesUnder(m);
        }
      }
    }
  }

  /** The cascade from menu `m` leaves the children of every other menu alone. */
  lemma RemoveMenuOtherMenu(c: Catalog, m: Id, x: Id)
    requires x != m
    ensures c.RemoveMenu(m).SubmenusOf(x) == c.SubmenusOf(x)
    ensures c.RemoveMenu(m).DishesUnder(x) == c.DishesUnder(x)
  {
    var c2 := c.RemoveMenu(m);
    assert c2.SubmenusOf(x) == c.SubmenusOf(x);
    forall d | d in c.DishesUnder(x) ensures d in c2.DishesUnder(x) {
      assert c.dishes[d].submenuId !in c.SubmenusOf(m);
    }
  }

  lemma RemoveSubmenuSources(c: Catalog, s: Id, k: CacheKey)
    requires c.Valid() && s in c.submenus && k != MenuKey(c.submenus[s].menuId)
    ensures SameSources(c, c.RemoveSubmenu(s), k)
  {
    var c2 := c.RemoveSubmenu(s);
    if k.kind == MenuKind && k.id in c2.menus {
      RemoveSubmenuOtherMenu(c, s, k.id);
    } else if k.kind == SubmenuKind && k.id in c2.submenus {
      assert c2.DishesOf(k.id) == c.DishesOf(k.id);
    }
  }

  /** Deleting submenu `s` leaves the children of every menu but its own alone. */
  lemma RemoveSubmenuOtherMenu(c: Catalog, s: Id, x: Id)
    requires s in c.submenus && x != c.submenus[s].menuId
    ensures c.RemoveSubmenu(s).SubmenusOf(x) == c.SubmenusOf(x)
    ensures c.RemoveSubmenu(s).DishesUnder(x) == c.DishesUnder(x)
  {
    var c2 := c.RemoveSubmenu(s);
    assert c2.SubmenusOf(x) == c.SubmenusOf(x);
    forall d | d in c.DishesUnder(x) ensures d in c2.DishesUnder(x) {
      assert c.dishes[d].submenuId != s;
    }
  }

  lemma RemoveDishSources(c: Catalog, d: Id, k: CacheKey)
    requires c.Valid() && d in c.dishes
    requires k != MenuKey(c.submenus[c.dishes[d].submenuId].menuId) && k != SubmenuKey(c.dishes[d].submenuId)
    ensures SameSources(c, c.RemoveDish(d), k)
  {
    var c2 := c.RemoveDish(d);
    if k.kind == MenuKind && k.id in c2.menus {
      assert c2.DishesUnder(k.id) == c.DishesUnder(k.id);
    } else if k.kind == SubmenuKind && k.id in c2.submenus {
      assert c2.DishesOf(k.id) == c.DishesOf(k.id);
    }
  }

  /** Creating a menu needs no invalidation: the new id is named by no key. */
  lemma CreateMenuKeepsInv(c: Catalog, e: Entries, title: string, description: string)
    requires Inv(c, e) && !c.MenuTitleTaken(title)
    ensures Inv(c.AddMenu(title, description), e)
  {
    var c2 := c.AddMenu(title, description);
    AddMenuKeepsValid(c, title, description);
    forall k | k in e ensures SnapshotOf(c2, k).Some? ==> SnapshotOf(c2, k) == SnapshotOf(c, k) {
      AddMenuSnapshot(c, e, title, description, k);
    }
    assert Coherent(c2, e);
    assert Fresh(c2, e);
  }

  lemma AddMenuSnapshot(c: Catalog, e: Entries, title: string, description: string, k: CacheKey)
    requires Inv(c, e) && !c.MenuTitleTaken(title) && k in e
    ensures c.AddMenu(title, description).Valid()
    ensures SnapshotOf(c.AddMenu(title, description), k).Some? ==>
              SnapshotOf(c.AddMenu(title, description), k) == SnapshotOf(c, k)
  {
    AddMenuKeepsValid(c, title, description);
    AddMenuSources(c, title, description, k);
    SnapshotStable(c, c.AddMenu(title, description), k);
  }

  /** Creating a submenu of menu `m` stales only `menu_<m>`, whose count grows. */
  lemma CreateSubmenuKeepsInv(c: Catalog, e: Entries, title: string, description: string, m: Id)
    requires Inv(c, e) && !c.SubmenuTitleTaken(title) && m in c.menus
    ensures Inv(c.AddSubmenu(title, description, m), e - {MenuKey(m)})
  {
    var c2 := c.AddSubmenu(title, description, m);
    AddSubmenuKeepsValid(c, title, description, m);
    forall k | k in e && k !in {MenuKey(m)} ensures SnapshotOf(c2, k).Some? ==> SnapshotOf(c2, k) == SnapshotOf(c, k) {
      AddSubmenuSources(c, title, description, m, k);
      SnapshotStable(c, c2, k);
    }
    KeepsInv(c, c2, e, {MenuKey(m)});
  }

  /** Creating a dish of submenu `s` stales `menu_<menu of s>` and `submenu_<s>`. */
  lemma CreateDishKeepsInv(c: Catalog, e: Entries, title: string, description: string, price: string, s: Id)
    requires Inv(c, e) && !c.DishTitleTaken(title) && s in c.submenus
    ensures Inv(c.AddDish(title, description, price, s), e - {MenuKey(c.submenus[s].menuId), SubmenuKey(s)})
  {
    var c2 := c.AddDish(title, description, price, s);
    var gone := {MenuKey(c.submenus[s].menuId), SubmenuKey(s)};
    AddDishKeepsValid(c, title, description, price, s);
    forall k | k in e && k !in gone ensures SnapshotOf(c2, k).Some? ==> SnapshotOf(c2, k) == SnapshotOf(c, k) {
      AddDishSources(c, title, description, price, s, k);
      SnapshotStable(c, c2, k);
    }
    KeepsInv(c, c2, e, gone);
  }

  /** Renaming menu `m` stales only `menu_<m>`. */
  lemma UpdateMenuKeepsInv(c: Catalog, e: Entries, m: Id, title: string, description: string)
    requires Inv(c, e) && m in c.menus && !c.MenuTitleClash(m, title)
    ensures Inv(c.SetMenu(m, title, description), e - {MenuKey(m)})
  {
    var c2 := c.SetMenu(m, title, description);
    SetMenuKeepsValid(c, m, title, description);
    forall k | k in e && k !in {MenuKey(m)} ensures SnapshotOf(c2, k).Some? ==> SnapshotOf(c2, k) == SnapshotOf(c, k) {
      SetMenuSources(c, m, title, description, k);
      SnapshotStable(c, c2, k);
    }
    KeepsInv(c, c2, e, {MenuKey(m)});
  }

  /** Renaming submenu `s` stales only `submenu_<s>`: menu snapshots hold counts only. */
  lemma UpdateSubmenuKeepsInv(c: Catalog, e: Entries, s: Id, title: string, description: string)
    requires Inv(c, e) && s in c.submenus && !c.SubmenuTitleClash(s, title)
    ensures Inv(c.SetSubmenu(s, title, description), e - {SubmenuKey(s)})
  {
    var c2 := c.SetSubmenu(s, title, description);
    SetSubmenuKeepsValid(c, s, title, description);
    forall k | k in e && k !in {SubmenuKey(s)} ensures SnapshotOf(c2, k).Some? ==> SnapshotOf(c2, k) == SnapshotOf(c, k) {
      SetSubmenuSources(c, s, title, description, k);
      SnapshotStable(c, c2, k);
    }
    KeepsInv(c, c2, e, {SubmenuKey(s)});
  }

  /** Changing dish `d` stales only `dish_<d>`: counts do not change. */
  lemma UpdateDishKeepsInv(c: Catalog, e: Entries, d: Id, title: string, description: string, price: string)
    requires Inv(c, e) && d in c.dishes && !c.DishTitleClash(d, title)
    ensures Inv(c.SetDish(d, title, description, price), e - {DishKey(d)})
  {
    var c2 := c.SetDish(d, title, description, price);
    SetDishKeepsValid(c, d, title, description, price);
    forall k | k in e && k !in {DishKey(d)} ensures SnapshotOf(c2, k).Some? ==> SnapshotOf(c2, k) == SnapshotOf(c, k) {
      SetDishSources(c, d, title, description, price, k);
      SnapshotStable(c, c2, k);
    }
    KeepsInv(c, c2, e, {DishKey(d)});
  }

  /** Deleting menu `m` drops its key and those of its submenus and dishes; every
      other snapshot stays current. */
  lemma DeleteMenuKeepsInv(c: Catalog, e: Entries, m: Id)
    requires Inv(c, e) && m in c.menus
    ensures Inv(c.RemoveMenu(m),
                e - ({MenuKey(m)} + KeysOf(SubmenuKind, c.SubmenusOf(m)) + KeysOf(DishKind, c.DishesUnder(m))))
  {
    var c2 := c.RemoveMenu(m);
    var gone := {MenuKey(m)} + KeysOf(SubmenuKind, c.SubmenusOf(m)) + KeysOf(DishKind, c.DishesUnder(m));
    RemoveMenuKeepsValid(c, m);
    forall k | k in e && k !in gone ensures SnapshotOf(c2, k).Some? ==> SnapshotOf(c2, k) == SnapshotOf(c, k) {
      RemoveMenuSources(c, m, k);
      SnapshotStable(c, c2, k);
    }
    KeepsInv(c, c2, e, gone);
  }

  /** Deleting submenu `s` drops `menu_<parent>` and its dishes' keys; the
      `submenu_<s>` key it leaves holds no snapshot of a live entity. */
  lemma DeleteSubmenuKeepsInv(c: Catalog, e: Entries, s: Id)
    requires Inv(c, e) && s in c.submenus
    ensures Inv(c.RemoveSubmenu(s), e - ({MenuKey(c.submenus[s].menuId)} + KeysOf(DishKind, c.DishesOf(s))))
    ensures SnapshotOf(c.RemoveSubmenu(s), SubmenuKey(s)) == None
  {
    var c2 := c.RemoveSubmenu(s);
    var gone := {MenuKey(c.submenus[s].menuId)} + KeysOf(DishKind, c.DishesOf(s));
    RemoveSubmenuKeepsValid(c, s);
    forall k | k in e && k !in gone ensures SnapshotOf(c2, k).Some? ==> SnapshotOf(c2, k) == SnapshotOf(c, k) {
      RemoveSubmenuSources(c, s, k);
      SnapshotStable(c, c2, k);
    }
    KeepsInv(c, c2, e, gone);
  }

  /** Deleting dish `d` drops the `menu_`, `submenu_` and `dish_` keys of its ancestry. */
  lemma DeleteDishKeepsInv(c: Catalog, e: Entries, d: Id)
    requires Inv(c, e) && d in c.dishes
    ensures Inv(c.RemoveDish(d),
                e - {MenuKey(c.submenus[c.dishes[d].submenuId].menuId), SubmenuKey(c.dishes[d].submenuId), DishKey(d)})
  {
    var c2 := c.RemoveDish(d);
    var s := c.dishes[d].submenuId;
    var gone := {MenuKey(c.submenus[s].menuId), SubmenuKey(s), DishKey(d)};
    RemoveDishKeepsValid(c, d);
    forall k | k in e && k !in gone ensures SnapshotOf(c2, k).Some? ==> SnapshotOf(c2, k) == SnapshotOf(c, k) {
      RemoveDishSources(c, d, k);
      SnapshotStable(c, c2, k);
    }
    KeepsInv(c, c2, e, gone);
  }
}
