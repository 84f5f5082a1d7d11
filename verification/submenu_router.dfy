/** The mounted `/menus/{menu_id}/submenus` endpoints. They query and commit
    through the session directly and never touch the cache. */
module SubmenuRouter {
  import opened Wrappers
  import opened Models
  import opened Schemas
  import opened Store
  import opened Aggregates
  import opened SubmenuRepository

  /** POST: 404 "menu not found" first, then 400 "submenu exists" for a title
      any submenu has; otherwise 201 with the new submenu under menu `m`. */
  method CreateSubmenu(db: Database, m: Id, data: SubmenuCreate) returns (r: Response<Submenu>)
    requires db.Valid()
    modifies db
    ensures db.Valid()
    ensures m !in old(db.menus) ==> r == HttpError(404, "menu not found") && db.View() == old(db.View())
    ensures m in old(db.menus) && old(db.View()).SubmenuTitleTaken(data.title) ==>
      r == HttpError(400, "submenu exists") && db.View() == old(db.View())
    ensures m in old(db.menus) && !old(db.View()).SubmenuTitleTaken(data.title) ==>
      && r == Ok(201, Submenu(old(db.nextId), data.title, data.description, m))
      && db.View() == old(db.View()).AddSubmenu(data.title, data.description, m)
  {
    if m !in db.menus {
      return HttpError(404, "menu not found");
    }
    if db.View().SubmenuTitleTaken(data.title) {
      return HttpError(400, "submenu exists");
    }
    var row := db.InsertSubmenu(data.title, data.description, m);
    r := Ok(201, row.value);
  }

  /** GET one: 404 "submenu not found" for an absent submenu, whichever menu the
      path names; otherwise the submenu with the number of its dishes. */
  method ReadSubmenu(db: Database, m: Id, s: Id) returns (r: Response<SubmenuWithDishCount>)
    requires db.Valid()
    ensures r.HttpError? <==> s !in db.submenus
    ensures r.HttpError? ==> r == HttpError(404, "submenu not found")
    ensures r.Ok? ==> r == Ok(200, SubmenuWithDishCount(s, db.submenus[s].title, db.submenus[s].description,
                                                         |db.View().DishesOf(s)|))
  {
    if s !in db.submenus {
      return HttpError(404, "submenu not found");
    }
    var row := db.submenus[s];
    r := Ok(200, SubmenuWithDishCount(s, row.title, row.description, |db.View().DishesOf(s)|));
  }

  /** GET all: 404 "menu not found" for an absent menu; otherwise each submenu
      of `m` once, with the number of its dishes. */
  method ReadSubmenus(db: Database, m: Id) returns (r: Response<seq<SubmenuWithDishCount>>)
    requires db.Valid()
    ensures r.HttpError? <==> m !in db.menus
    ensures r.HttpError? ==> r == HttpError(404, "menu not found")
    ensures r.Ok? ==> && r.status == 200
                      && Enumerates(Ids(r.body, (x: SubmenuWithDishCount) => x.id), db.View().SubmenusOf(m))
                      && forall i :: 0 <= i < |r.body| ==> SubmenuDetails(db.View(), r.body[i].id) == Some(r.body[i])
  {
    if m !in db.menus {
      return HttpError(404, "menu not found");
    }
    var c := db.View();
    var ids := Rows(c.SubmenusOf(m));
    var list: seq<SubmenuWithDishCount> := [];
    for i := 0 to |ids|
      invariant |list| == i
      invariant forall j :: 0 <= j < i ==> list[j].id == ids[j] && SubmenuDetails(c, ids[j]) == Some(list[j])
    {
      var row := c.submenus[ids[i]];
      list := list + [SubmenuWithDishCount(ids[i], row.title, row.description, |c.DishesOf(ids[i])|)];
    }
    assert Ids(list, (x: SubmenuWithDishCount) => x.id) == ids;
    r := Ok(200, list);
  }

  /** PATCH: 404 "menu not found", then 404 "submenu not found" when the submenu
      is absent or belongs to another menu; otherwise both payload fields
      overwrite the row, and a title another submenu has fails the commit. */
  method UpdateSubmenu(db: Database, m: Id, s: Id, data: SubmenuCreate) returns (r: Response<Submenu>)
    requires db.Valid()
    modifies db
    ensures db.Valid()
    ensures m !in old(db.menus) ==> r == HttpError(404, "menu not found") && db.View() == old(db.View())
    ensures m in old(db.menus) && !(s in old(db.submenus) && old(db.submenus[s]).menuId == m) ==>
      r == HttpError(404, "submenu not found") && db.View() == old(db.View())
    ensures m in old(db.menus) && s in old(db.submenus) && old(db.submenus[s]).menuId == m ==>
      if old(db.View()).SubmenuTitleClash(s, data.title) then
        r == HttpError(500, ServerError) && db.View() == old(db.View())
      else
        && r == Ok(200, Submenu(s, data.title, data.description, m))
        && db.View() == old(db.View()).SetSubmenu(s, data.title, data.description)
  {
    if m !in db.menus {
      return HttpError(404, "menu not found");
    }
    if s !in db.submenus || db.submenus[s].menuId != m {
      return HttpError(404, "submenu not found");
    }
    var ok := db.UpdateSubmenu(s, data.title, data.description);
    if !ok {
      return HttpError(500, ServerError);
    }
    r := Ok(200, db.submenus[s]);
  }

  /** DELETE: the same two guards; then one commit deletes the submenu's dishes
      in bulk and the submenu after them. */
  method DeleteSubmenu(db: Database, m: Id, s: Id) returns (r: Response<Submenu>)
    requires db.Valid()
    modifies db
    ensures db.Valid()
    ensures m !in old(db.menus) ==> r == HttpError(404, "menu not found") && db.View() == old(db.View())
    ensures m in old(db.menus) && !(s in old(db.submenus) && old(db.submenus[s]).menuId == m) ==>
      r == HttpError(404, "submenu not found") && db.View() == old(db.View())
    ensures m in old(db.menus) && s in old(db.submenus) && old(db.submenus[s]).menuId == m ==>
      && r == Ok(200, old(db.submenus[s]))
      && db.View() == old(db.View()).RemoveSubmenu(s)
      && db.View().DishesOf(s) == {}
  {
    if m !in db.menus {
      return HttpError(404, "menu not found");
    }
    if s !in db.submenus || db.submenus[s].menuId != m {
      return HttpError(404, "submenu not found");
    }
    var row := db.submenus[s];
    DishesGoneFirst(db.View(), s);
    db.DeleteStaged(db.View().DishesOf(s), s);
    r := Ok(200, row);
  }
}
