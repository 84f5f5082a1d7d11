/** DishORMRepository: dish rows through the session; failures come back as None. */
module DishRepository {
  import opened Wrappers
  import opened Models
  import opened Schemas
  import opened Store

  class DishORMRepository {
    const db: Database

    constructor (db: Database)
      ensures this.db == db
    {
      this.db := db;
    }

    /** The dishes whose `submenu_id` is `submenuId`. */
    method GetAll(submenuId: Id) returns (r: seq<Dish>)
      requires db.Valid()
      ensures ListsDishes(r, db.dishes, db.View().DishesOf(submenuId))
      ensures forall i :: 0 <= i < |r| ==> r[i].submenuId == submenuId
    {
      var ids := Rows(db.View().DishesOf(submenuId));
      var table := db.dishes;
      r := seq(|ids|, i requires 0 <= i < |ids| => table[ids[i]]);
      assert seq(|r|, i requires 0 <= i < |r| => r[i].id) == ids;
    }

    method GetById(id: Id) returns (r: Option<Dish>)
      requires db.Valid()
      ensures r.Some? <==> id in db.dishes
      ensures r.Some? ==> r.value == db.dishes[id] && r.value.id == id && r.value.submenuId in db.submenus
    {
      r := if id in db.dishes then Some(db.dishes[id]) else None;
    }

    /** The dish carrying `title`, whatever submenu it belongs to. */
    method GetByTitle(title: string) returns (r: Option<Dish>)
      requires db.Valid()
      ensures r.Some? <==> db.View().DishTitleTaken(title)
      ensures r.Some? ==> r.value.title == title && r.value.id in db.dishes && db.dishes[r.value.id] == r.value
    {
      if d :| d in db.dishes && db.dishes[d].title == title {
        r := Some(db.dishes[d]);
      } else {
        r := None;
      }
    }

    /** Inserts a dish of submenu `submenuId`; None when the title is taken or no
        submenu `submenuId` exists, and then nothing is stored. */
    method Create(data: DishCreate, submenuId: Id) returns (r: Option<Dish>)
      requires db.Valid()
      modifies db
      ensures db.Valid()
      ensures r.Some? <==> submenuId in old(db.submenus) && !old(db.View()).DishTitleTaken(data.title)
      ensures r.Some? ==> r.value == Dish(old(db.nextId), data.title, data.description, data.price, submenuId)
      ensures db.View() == if r.Some? then old(db.View()).AddDish(data.title, data.description, data.price, submenuId) else old(db.View())
    {
      r := db.InsertDish(data.title, data.description, data.price, submenuId);
    }

    /** Overwrites title, description and price, keeping id and submenu. */
    method Update(id: Id, data: DishCreate) returns (r: Option<Dish>)
      requires db.Valid()
      modifies db
      ensures db.Valid()
      ensures r.Some? <==> id in old(db.dishes) && !old(db.View()).DishTitleClash(id, data.title)
      ensures r.Some? ==> r.value == old(db.dishes[id]).(title := data.title, description := data.description, price := data.price)
      ensures db.View() == if r.Some? then old(db.View()).SetDish(id, data.title, data.description, data.price) else old(db.View())
    {
      if id !in db.dishes {
        return None;
      }
      var ok := db.UpdateDish(id, data.title, data.description, data.price);
      r := if ok then Some(db.dishes[id]) else None;
    }

    /** Deletes the dish and returns the deleted row; None for an absent id. */
    method Delete(id: Id) returns (r: Option<Dish>)
      requires db.Valid()
      modifies db
      ensures db.Valid()
      ensures r.Some? <==> id in old(db.dishes)
      ensures r.Some? ==> r.value == old(db.dishes[id])
      ensures db.View() == if r.Some? then old(db.View()).RemoveDish(id) else old(db.View())
    {
      if id !in db.dishes {
        return None;
      }
      var row := db.dishes[id];
      db.DeleteDish(id);
      r := Some(row);
    }
  }
}
