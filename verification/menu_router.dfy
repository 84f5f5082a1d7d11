/** The mounted `/menus` endpoints. They query and commit through the session
    directly and never touch the cache. */
module MenuRouter {
  import opened Wrappers
  import opened Models
  import opened Schemas
  import opened Store
  import opened Aggregates

  /** POST /menus: 400 "menu exists" for a taken title, otherwise 201 with the new menu. */
  method CreateMenu(db: Database, data: MenuCreate) returns (r: Response<Menu>)
    requires db.Valid()
    modifies db
    ensures db.Valid()
    ensures r.HttpError? <==> old(db.View()).MenuTitleTaken(data.title)
    ensures r.HttpError? ==> r == HttpError(400, "menu exists") && db.View() == old(db.View())
    ensures r.Ok? ==> && r == Ok(201, Menu(old(db.nextId), data.title, data.description))
                      && db.View() == old(db.View()).AddMenu(data.title, data.description)
  {
    if db.View().MenuTitleTaken(data.title) {
      return HttpError(400, "menu exists");
    }
    var row := db.InsertMenu(data.title, data.description);
    r := Ok(201, row.value);
  }

  /** GET /menus/{id}: 404 "menu not found" for an absent menu, otherwise its
      details from the outer-join query. */
  method ReadMenu(db: Database, m: Id) returns (r: Response<MenuWithDetails>)
    requires db.Valid()
    ensures r.HttpError? <==> m !in db.menus
    ensures r.HttpError? ==> r == HttpError(404, "menu not found")
    ensures r.Ok? ==> && r.status == 200
                      && r.body == MenuWithDetails(m, db.menus[m].title, db.menus[m].description,
                                                   |db.View().SubmenusOf(m)|, |db.View().DishesUnder(m)|)
  {
    if m !in db.menus {
      return HttpError(404, "menu not found");
    }
    match MenuDetails(db.View(), m)
    case None =>
      // The query's second "menu not found" check cannot fire: the menu exists.
      assert false;
    case Some(details) => r := Ok(200, details);
  }

  /** GET /menus: every menu once, each with its details. */
  method ReadMenus(db: Database) returns (r: Response<seq<MenuWithDetails>>)
    requires db.Valid()
    ensures r.Ok? && r.status == 200
    ensures Enumerates(Ids(r.body, (x: MenuWithDetails) => x.id), db.menus.Keys)
    ensures forall i :: 0 <= i < |r.body| ==> MenuDetails(db.View(), r.body[i].id) == Some(r.body[i])
  {
    var c := db.View();
    var ids := Rows(c.menus.Keys);
    var list: seq<MenuWithDetails> := [];
    for i := 0 to |ids|
      invariant |list| == i
      invariant forall j :: 0 <= j < i ==> list[j].id == ids[j] && MenuDetails(c, ids[j]) == Some(list[j])
    {
      match MenuDetails(c, ids[i])
      case None =>
        // The per-menu "menu not found" check cannot fire: every listed menu exists.
        assert false;
      case Some(details) =>
        list := list + [details];
    }
    assert Ids(list, (x: MenuWithDetails) => x.id) == ids;
    r := Ok(200, list);
  }

  /** PATCH /menus/{id}: 404 "menu not found" for an absent menu; otherwise both
      payload fields overwrite the row, and a title another menu has fails the
      commit with a server error. */
  method UpdateMenu(db: Database, m: Id, data: MenuCreate) returns (r: Response<Menu>)
    requires db.Valid()
    modifies db
    ensures db.Valid()
    ensures m !in old(db.menus) ==> r == HttpError(404, "menu not found") && db.View() == old(db.View())
    ensures m in old(db.menus) && old(db.View()).MenuTitleClash(m, data.title) ==>
      r == HttpError(500, ServerError) && db.View() == old(db.View())
    ensures m in old(db.menus) && !old(db.View()).MenuTitleClash(m, data.title) ==>
      && r == Ok(200, Menu(m, data.title, data.description))
      && db.View() == old(db.View()).SetMenu(m, data.title, data.description)
  {
    if m !in db.menus {
      return HttpError(404, "menu not found");
    }
    var ok := db.UpdateMenu(m, data.title, data.description);
    if !ok {
      return HttpError(500, ServerError);
    }
    r := Ok(200, db.menus[m]);
  }

  /** DELETE /menus/{id}: 404 "menu not found" for an absent menu, otherwise the
      menu goes with its submenus and their dishes. */
  method DeleteMenu(db: Database, m: Id) returns (r: Response<Menu>)
    requires db.Valid()
    modifies db
    ensures db.Valid()
    ensures r.HttpError? <==> m !in old(db.menus)
    ensures r.HttpError? ==> r == HttpError(404, "menu not found") && db.View() == old(db.View())
    ensures r.Ok? ==> && r == Ok(200, old(db.menus[m]))
                      && db.View() == old(db.View()).RemoveMenu(m)
  {
    if m !in db.menus {
      return HttpError(404, "menu not found");
    }
    var row := db.menus[m];
    db.DeleteMenu(m);
    r := Ok(200, row);
  }
}
