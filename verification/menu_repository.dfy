/** MenuORMRepository: menu rows through the session. Every failure (an absent
    row, a rejected commit) comes back as None instead of an exception. */
module MenuRepository {
  import opened Wrappers
  import opened Models
  import opened Schemas
  import opened Store

  class MenuORMRepository {
    const db: Database

    constructor (db: Database)
      ensures this.db == db
    {
      this.db := db;
    }

    /** Every menu; the argument is ignored. */
    method GetAll(itemId: Option<Id>) returns (r: seq<Menu>)
      requires db.Valid()
      ensures ListsMenus(r, db.menus, db.menus.Keys)
    {
      var ids := Rows(db.menus.Keys);
      var table := db.menus;
      r := seq(|ids|, i requires 0 <= i < |ids| => table[ids[i]]);
      assert seq(|r|, i requires 0 <= i < |r| => r[i].id) == ids;
    }

    method GetById(id: Id) returns (r: Option<Menu>)
      requires db.Valid()
      ensures r.Some? <==> id in db.menus
      ensures r.Some? ==> r.value == db.menus[id] && r.value.id == id
    {
      r := if id in db.menus then Some(db.menus[id]) else None;
    }

    method GetByTitle(title: string) returns (r: Option<Menu>)
      requires db.Valid()
      ensures r.Some? <==> db.View().MenuTitleTaken(title)
      ensures r.Some? ==> r.value.title == title && r.value.id in db.menus && db.menus[r.value.id] == r.value
    {
      if m :| m in db.menus && db.menus[m].title == title {
        r := Some(db.menus[m]);
      } else {
        r := None;
      }
    }

    /** Inserts a menu with a generated id (`itemId` is ignored); None when the
        commit fails on a duplicate title, and then nothing is stored. */
    method Create(data: MenuCreate, itemId: Option<Id>) returns (r: Option<Menu>)
      requires db.Valid()
      modifies db
      ensures db.Valid()
      ensures r.Some? <==> !old(db.View()).MenuTitleTaken(data.title)
      ensures r.Some? ==> r.value == Menu(old(db.nextId), data.title, data.description)
      ensures db.View() == if r.Some? then old(db.View()).AddMenu(data.title, data.description) else old(db.View())
    {
      r := db.InsertMenu(data.title, data.description);
    }

    /** Overwrites title and description and keeps the id (and so the submenus);
        None for an absent id or a title another menu has. */
    method Update(id: Id, data: MenuCreate) returns (r: Option<Menu>)
      requires db.Valid()
      modifies db
      ensures db.Valid()
      ensures r.Some? <==> id in old(db.menus) && !old(db.View()).MenuTitleClash(id, data.title)
      ensures r.Some? ==> r.value == Menu(id, data.title, data.description)
      ensures db.View() == if r.Some? then old(db.View()).SetMenu(id, data.title, data.description) else old(db.View())
    {
      if id !in db.menus {
        return None;
      }
      var ok := db.UpdateMenu(id, data.title, data.description);
      r := if ok then Some(db.menus[id]) else None;
    }

    /** Deletes the menu (the database cascades to its submenus and dishes) and
        returns the deleted row; None, with nothing deleted, for an absent id. */
    method Delete(id: Id) returns (r: Option<Menu>)
      requires db.Valid()
      modifies db
      ensures db.Valid()
      ensures r.Some? <==> id in old(db.menus)
      ensures r.Some? ==> r.value == old(db.menus[id])
      ensures db.View() == if r.Some? then old(db.View()).RemoveMenu(id) else old(db.View())
    {
      if id !in db.menus {
        return None;
      }
      var row := db.menus[id];
      db.DeleteMenu(id);
      r := Some(row);
    }
  }
}
