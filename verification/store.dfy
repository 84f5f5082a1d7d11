/** The database behind the session: three tables that each committed
    statement changes in place, enforcing the schema's primary keys, unique
    titles and cascading foreign keys. A statement the constraints reject
    commits nothing. */
module Store {
  import opened Wrappers
  import opened Models

  /** The rows a query matches, in the order the database returns them (unspecified). */
  method Rows(keys: set<Id>) returns (ids: seq<Id>)
    ensures Enumerates(ids, keys)
  {
    ids := [];
    var rest := keys;
    while rest != {}
      invariant rest <= keys
      invariant forall i, j :: 0 <= i < j < |ids| ==> ids[i] != ids[j]
      invariant forall i :: 0 <= i < |ids| ==> ids[i] in keys && ids[i] !in rest
      invariant forall k :: k in keys && k !in rest ==> k in ids
      decreases rest
    {
      var k :| k in rest;
      ids := ids + [k];
      rest := rest - {k};
    }
  }

  class Database {
    var menus: map<Id, Menu>
    var submenus: map<Id, Submenu>
    var dishes: map<Id, Dish>
    var nextId: Id

    /** The tables as a value. */
    function View(): Catalog
      reads this
    {
      Catalog(menus, submenus, dishes, nextId)
    }

    ghost predicate Valid()
      reads this
    {
      View().Valid()
    }

    constructor ()
      ensures Valid()
      ensures menus == map[] && submenus == map[] && dishes == map[]
    {
      menus, submenus, dishes, nextId := map[], map[], map[], 0;
    }

    /** INSERT INTO menus, with a generated id; a duplicate title fails the commit. */
    method InsertMenu(title: string, description: string) returns (r: Option<Menu>)
      requires Valid()
      modifies this
      ensures Valid()
      ensures r.Some? <==> !old(View()).MenuTitleTaken(title)
      ensures r.Some? ==> r.value == Menu(old(nextId), title, description)
      ensures View() == if r.Some? then old(View()).AddMenu(title, description) else old(View())
    {
      if View().MenuTitleTaken(title) {
        return None;
      }
      var c := View().AddMenu(title, description);
      AddMenuKeepsValid(View(), title, description);
      r := Some(Menu(nextId, title, description));
      menus, nextId := c.menus, c.nextId;
      assert View() == c;
    }

    /** INSERT INTO submenus; a duplicate title or a `menu_id` naming no menu fails the commit. */
    method InsertSubmenu(title: string, description: string, menuId: Id) returns (r: Option<Submenu>)
      requires Valid()
      modifies this
      ensures Valid()
      ensures r.Some? <==> menuId in old(menus) && !old(View()).SubmenuTitleTaken(title)
      ensures r.Some? ==> r.value == Submenu(old(nextId), title, description, menuId)
      ensures View() == if r.Some? then old(View()).AddSubmenu(title, description, menuId) else old(View())
    {
      if menuId !in menus || View().SubmenuTitleTaken(title) {
        return None;
      }
      var c := View().AddSubmenu(title, description, menuId);
      AddSubmenuKeepsValid(View(), title, description, menuId);
      r := Some(Submenu(nextId, title, description, menuId));
      submenus, nextId := c.submenus, c.nextId;
      assert View() == c;
    }

    /** INSERT INTO dishes; a duplicate title or a `submenu_id` naming no submenu fails the commit. */
    method InsertDish(title: string, description: string, price: string, submenuId: Id)
      returns (r: Option<Dish>)
      requires Valid()
      modifies this
      ensures Valid()
      ensures r.Some? <==> submenuId in old(submenus) && !old(View()).DishTitleTaken(title)
      ensures r.Some? ==> r.value == Dish(old(nextId), title, description, price, submenuId)
      ensures View() == if r.Some? then old(View()).AddDish(title, description, price, submenuId) else old(View())
    {
      if submenuId !in submenus || View().DishTitleTaken(title) {
        return None;
      }
      var c := View().AddDish(title, description, price, submenuId);
      AddDishKeepsValid(View(), title, description, price, submenuId);
      r := Some(Dish(nextId, title, description, price, submenuId));
      dishes, nextId := c.dishes, c.nextId;
      assert View() == c;
    }

    /** UPDATE menus SET title, description; another menu's title fails the commit. */
    method UpdateMenu(m: Id, title: string, description: string) returns (ok: bool)
      requires Valid() && m in menus
      modifies this
      ensures Valid()
      ensures ok <==> !old(View()).MenuTitleClash(m, title)
      ensures View() == if ok then old(View()).SetMenu(m, title, description) else old(View())
    {
      if View().MenuTitleClash(m, title) {
        return false;
      }
      SetMenuKeepsValid(View(), m, title, description);
      menus := menus[m := menus[m].(title := title, description := description)];
      ok := true;
    }

    method UpdateSubmenu(s: Id, title: string, description: string) returns (ok: bool)
      requires Valid() && s in submenus
      modifies this
      ensures Valid()
      ensures ok <==> !old(View()).SubmenuTitleClash(s, title)
      ensures View() == if ok then old(View()).SetSubmenu(s, title, description) else old(View())
    {
      if View().SubmenuTitleClash(s, title) {
        return false;
      }
      SetSubmenuKeepsValid(View(), s, title, description);
      submenus := submenus[s := submenus[s].(title := title, description := description)];
      ok := true;
    }

    method UpdateDish(d: Id, title: string, description: string, price: string) returns (ok: bool)
      requires Valid() && d in dishes
      modifies this
      ensures Valid()
      ensures ok <==> !old(View()).DishTitleClash(d, title)
      ensures View() == if ok then old(View()).SetDish(d, title, description, price) else old(View())
    {
      if View().DishTitleClash(d, title) {
        return false;
      }
      SetDishKeepsValid(View(), d, title, description, price);
      dishes := dishes[d := dishes[d].(title := title, description := description, price := price)];
      ok := true;
    }

    /** DELETE FROM menus, cascading to the menu's submenus and their dishes. */
    method DeleteMenu(m: Id)
      requires Valid() && m in menus
      modifies this
      ensures Valid()
      ensures View() == old(View()).RemoveMenu(m)
    {
      RemoveMenuKeepsValid(View(), m);
      var c := View();
      menus, submenus, dishes := menus - {m}, submenus - c.SubmenusOf(m), dishes - c.DishesUnder(m);
    }

    /** DELETE FROM submenus, cascading to the submenu's dishes. */
    method DeleteSubmenu(s: Id)
      requires Valid() && s in submenus
      modifies this
      ensures Valid()
      ensures View() == old(View()).RemoveSubmenu(s)
    {
      RemoveSubmenuKeepsValid(View(), s);
      var c := View();
      submenus, dishes := submenus - {s}, dishes - c.DishesOf(s);
    }

    /** One commit holding the session's staged deletions: the dish rows in
        `staged`, then submenu `s` (whose cascade takes any dish of `s` left). */
    method DeleteStaged(staged: set<Id>, s: Id)
      requires Valid() && s in submenus
      modifies this
      ensures Valid()
      ensures View() == old(View()).(dishes := old(dishes) - staged).RemoveSubmenu(s)
    {
      var c := View().(dishes := dishes - staged);
      assert c.Valid();
      RemoveSubmenuKeepsValid(c, s);
      submenus, dishes := submenus - {s}, c.dishes - c.DishesOf(s);
    }

    method DeleteDish(d: Id)
      requires Valid() && d in dishes
      modifies this
      ensures Valid()
      ensures View() == old(View()).RemoveDish(d)
    {
      RemoveDishKeepsValid(View(), d);
      dishes := dishes - {d};
    }
  }
}
