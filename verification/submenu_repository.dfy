/** SubmenuORMRepository: submenu rows through the session; failures come back as None. */
module SubmenuRepository {
  import opened Wrappers
  import opened Models
  import opened Schemas
  import opened Store

  class SubmenuORMRepository {
    const db: Database

    constructor (db: Database)
      ensures this.db == db
    {
      this.db := db;
    }

    /** The submenus whose `menu_id` is `menuId`. */
    method GetAll(menuId: Id) returns (r: seq<Submenu>)
      requires db.Valid()
      ensures ListsSubmenus(r, db.submenus, db.View().SubmenusOf(menuId))
      ensures forall i :: 0 <= i < |r| ==> r[i].menuId == menuId
    {
      var ids := Rows(db.View().SubmenusOf(menuId));
      var table := db.submenus;
      r := seq(|ids|, i requires 0 <= i < |ids| => table[ids[i]]);
      assert seq(|r|, i requires 0 <= i < |r| => r[i].id) == ids;
    }

    method GetById(id: Id) returns (r: Option<Submenu>)
      requires db.Valid()
      ensures r.Some? <==> id in db.submenus
      ensures r.Some? ==> r.value == db.submenus[id] && r.value.id == id && r.value.menuId in db.menus
    {
      r := if id in db.submenus then Some(db.submenus[id]) else None;
    }

    /** The submenu carrying `title`, whatever menu it belongs to. */
    method GetByTitle(title: string) returns (r: Option<Submenu>)
      requires db.Valid()
      ensures r.Some? <==> db.View().SubmenuTitleTaken(title)
      ensures r.Some? ==> r.value.title == title && r.value.id in db.submenus && db.submenus[r.value.id] == r.value
    {
      if s :| s in db.submenus && db.submenus[s].title == title {
        r := Some(db.submenus[s]);
      } else {
        r := None;
      }
    }

    /** Inserts a submenu of menu `menuId`; None when the title is taken or no
        menu `menuId` exists (the commit fails), and then nothing is stored. */
    method Create(data: SubmenuCreate, menuId: Id) returns (r: Option<Submenu>)
      requires db.Valid()
      modifies db
      ensures db.Valid()
      ensures r.Some? <==> menuId in old(db.menus) && !old(db.View()).SubmenuTitleTaken(data.title)
      ensures r.Some? ==> r.value == Submenu(old(db.nextId), data.title, data.description, menuId)
      ensures db.View() == if r.Some? then old(db.View()).AddSubmenu(data.title, data.description, menuId) else old(db.View())
    {
      r := db.InsertSubmenu(data.title, data.description, menuId);
    }

    /** Overwrites title and description, keeping id and menu. */
    method Update(id: Id, data: SubmenuCreate) returns (r: Option<Submenu>)
      requires db.Valid()
      modifies db
      ensures db.Valid()
      ensures r.Some? <==> id in old(db.submenus) && !old(db.View()).SubmenuTitleClash(id, data.title)
      ensures r.Some? ==> r.value == old(db.submenus[id]).(title := data.title, description := data.description)
      ensures db.View() == if r.Some? then old(db.View()).SetSubmenu(id, data.title, data.description) else old(db.View())
    {
      if id !in db.submenus {
        return None;
      }
      var ok := db.UpdateSubmenu(id, data.title, data.description);
      r := if ok then Some(db.submenus[id]) else None;
    }

    /** Stages the deletion of each of the submenu's dishes, then of the submenu,
        and commits; returns the deleted row, or None, with nothing deleted, for
        an absent id. */
    method Delete(id: Id) returns (r: Option<Submenu>)
      requires db.Valid()
      modifies db
      ensures db.Valid()
      ensures r.Some? <==> id in old(db.submenus)
      ensures r.Some? ==> r.value == old(db.submenus[id])
      ensures db.View() == if r.Some? then old(db.View()).RemoveSubmenu(id) else old(db.View())
    {
      if id !in db.submenus {
        return None;
      }
      var row := db.submenus[id];
      var dishes := Rows(db.View().DishesOf(id));
      var staged: set<Id> := {};
      var i := 0;
      while i < |dishes|
        invariant 0 <= i <= |dishes|
        invariant staged == set j | 0 <= j < i :: dishes[j]
      {
        staged := staged + {dishes[i]};
        i := i + 1;
      }
      assert staged == db.View().DishesOf(id) by {
        forall k | k in db.View().DishesOf(id) ensures k in staged {
          var j :| 0 <= j < |dishes| && dishes[j] == k;
        }
      }
      DishesGoneFirst(db.View(), id);
      db.DeleteStaged(staged, id);
      r := Some(row);
    }
  }

  /** Removing a submenu's dishes first and the submenu afterwards leaves the
      same tables as deleting the submenu with its cascade. */
  lemma DishesGoneFirst(c: Catalog, s: Id)
    ensures c.(dishes := c.dishes - c.DishesOf(s)).RemoveSubmenu(s) == c.RemoveSubmenu(s)
  {
    var mid := c.(dishes := c.dishes - c.DishesOf(s));
    assert mid.DishesOf(s) == {};
  }
}
