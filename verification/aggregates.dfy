/** The aggregate queries behind the detailed views: a menu outer-joined with
    its submenus and their dishes, grouped by menu, counting distinct submenu
    ids and non-null dish ids; and a submenu outer-joined with its dishes,
    counting distinct dish ids. */
module Aggregates {
  import opened Wrappers
  import opened Models
  import opened Schemas

  /** One row of an outer join: the submenu and dish columns, NULL as None. */
  datatype JoinRow = JoinRow(submenu: Option<Id>, dish: Option<Id>)

  /** The rows `menus LEFT JOIN submenus LEFT JOIN dishes` yields for menu `m`.
      No row repeats: a dish occurs once, a dishless submenu once. */
  function MenuJoin(c: Catalog, m: Id): set<JoinRow>
    requires c.Valid()
  {
    if c.SubmenusOf(m) == {} then {JoinRow(None, None)}
    else
      (set s | s in c.SubmenusOf(m) && c.DishesOf(s) == {} :: JoinRow(Some(s), None))
      + (set d | d in c.DishesUnder(m) :: JoinRow(Some(c.dishes[d].submenuId), Some(d)))
  }

  /** The rows `submenus LEFT JOIN dishes` yields for submenu `s`. */
  function SubmenuJoin(c: Catalog, s: Id): set<JoinRow> {
    if c.DishesOf(s) == {} then {JoinRow(Some(s), None)}
    else set d | d in c.DishesOf(s) :: JoinRow(Some(s), Some(d))
  }

  /** `count(distinct submenus.id)` over a group. */
  function CountDistinctSubmenus(rows: set<JoinRow>): nat {
    |set r | r in rows && r.submenu.Some? :: r.submenu.value|
  }

  /** `count(dishes.id)` over a group: the rows whose dish column is not NULL. */
  function CountDishes(rows: set<JoinRow>): nat {
    |set r | r in rows && r.dish.Some?|
  }

  /** `count(distinct dishes.id)` over a group. */
  function CountDistinctDishes(rows: set<JoinRow>): nat {
    |set r | r in rows && r.dish.Some? :: r.dish.value|
  }

  /** The menu-details query: the menu's columns with its two counts, or None
      when no menu has id `m`. The counts are the number of its submenus and the
      number of dishes under them, both 0 for a menu without children. */
  function MenuDetails(c: Catalog, m: Id): (r: Option<MenuWithDetails>)
    requires c.Valid()
    ensures r.Some? <==> m in c.menus
    ensures r.Some? ==> && r.value.id == m
                        && r.value.title == c.menus[m].title
                        && r.value.description == c.menus[m].description
                        && r.value.submenusCount == |c.SubmenusOf(m)|
                        && r.value.dishesCount == |c.DishesUnder(m)|
  {
    if m !in c.menus then None
    else
      MenuCounts(c, m);
      var rows := MenuJoin(c, m);
      Some(MenuWithDetails(m, c.menus[m].title, c.menus[m].description,
                           CountDistinctSubmenus(rows), CountDishes(rows)))
  }

  /** The submenu-details query: the submenu's columns with the number of its
      dishes, or None when no submenu has id `s`. */
  function SubmenuDetails(c: Catalog, s: Id): (r: Option<SubmenuWithDishCount>)
    ensures r.Some? <==> s in c.submenus
    ensures r.Some? ==> && r.value.id == s
                        && r.value.title == c.submenus[s].title
                        && r.value.description == c.submenus[s].description
                        && r.value.dishesCount == |c.DishesOf(s)|
  {
    if s !in c.submenus then None
    else
      SubmenuCount(c, s);
      Some(SubmenuWithDishCount(s, c.submenus[s].title, c.submenus[s].description,
                                CountDistinctDishes(SubmenuJoin(c, s))))
  }

  /** The two counts of the menu join are the sizes of the menu's submenu set and
      of the set of dishes under it. */
  lemma MenuCounts(c: Catalog, m: Id)
    requires c.Valid()
    ensures CountDistinctSubmenus(MenuJoin(c, m)) == |c.SubmenusOf(m)|
    ensures CountDishes(MenuJoin(c, m)) == |c.DishesUnder(m)|
  {
    MenuSubmenuCount(c, m);
    MenuDishCount(c, m);
  }

  lemma MenuSubmenuCount(c: Catalog, m: Id)
    requires c.Valid()
    ensures CountDistinctSubmenus(MenuJoin(c, m)) == |c.SubmenusOf(m)|
  {
    var rows := MenuJoin(c, m);
    var subs := set r | r in rows && r.submenu.Some? :: r.submenu.value;
    if c.SubmenusOf(m) == {} {
      assert subs == {};
    } else {
      forall s | s in c.SubmenusOf(m) ensures s in subs {
        if c.DishesOf(s) == {} {
          assert JoinRow(Some(s), None) in rows;
        } else {
          var d :| d in c.DishesOf(s);
          assert d in c.DishesUnder(m);
          assert JoinRow(Some(s), Some(d)) in rows;
        }
      }
      forall s | s in subs ensures s in c.SubmenusOf(m) {
        var r :| r in rows && r.submenu == Some(s);
      }
      assert subs == c.SubmenusOf(m);
    }
  }

  lemma MenuDishCount(c: Catalog, m: Id)
    requires c.Valid()
    ensures CountDishes(MenuJoin(c, m)) == |c.DishesUnder(m)|
  {
    var rows := MenuJoin(c, m);
    var withDish := set r | r in rows && r.dish.Some?;
    if c.SubmenusOf(m) == {} {
      assert withDish == {};
      assert c.DishesUnder(m) == {};
    } else {
      var image := set d | d in c.DishesUnder(m) :: JoinRow(Some(c.dishes[d].submenuId), Some(d));
      assert withDish == image;
      forall d | d in c.DishesUnder(m) ensures exists r :: r in image && r.dish == Some(d) {
        assert JoinRow(Some(c.dishes[d].submenuId), Some(d)) in image;
      }
      RowsByDish(image, c.DishesUnder(m));
    }
  }

  /** The dish count of the submenu join is the size of the submenu's dish set. */
  lemma SubmenuCount(c: Catalog, s: Id)
    ensures CountDistinctDishes(SubmenuJoin(c, s)) == |c.DishesOf(s)|
  {
    var rows := SubmenuJoin(c, s);
    var dishes := set r | r in rows && r.dish.Some? :: r.dish.value;
    if c.DishesOf(s) != {} {
      forall d | d in c.DishesOf(s) ensures d in dishes {
        assert JoinRow(Some(s), Some(d)) in rows;
      }
    }
    assert dishes == c.DishesOf(s);
  }

  /** Rows told apart by their dish column are as many as the dishes they carry. */
  lemma {:induction false} RowsByDish(rows: set<JoinRow>, ds: set<Id>)
    requires forall r :: r in rows ==> r.dish.Some? && r.dish.value in ds
    requires forall d :: d in ds ==> exists r :: r in rows && r.dish == Some(d)
    requires forall r1, r2 :: r1 in rows && r2 in rows && r1.dish == r2.dish ==> r1 == r2
    ensures |rows| == |ds|
  {
    if ds != {} {
      var d :| d in ds;
      var r :| r in rows && r.dish == Some(d);
      RowsByDish(rows - {r}, ds - {d});
    } else {
      assert forall r :: r !in rows;
      assert rows == {};
    }
  }

  /** Total of the dish counts of the submenus listed in `ids`. */
  function DishCountTotal(c: Catalog, ids: seq<Id>): nat {
    if ids == [] then 0 else DishCountTotal(c, ids[..|ids| - 1]) + |c.DishesOf(ids[|ids| - 1])|
  }

  /** A menu's dish count is the total of its submenus' dish counts, whatever
      order the submenus are listed in. */
  lemma {:induction false} DishTotal(c: Catalog, ids: seq<Id>, keys: set<Id>)
    requires Enumerates(ids, keys)
    ensures DishCountTotal(c, ids) == |c.DishesIn(keys)|
  {
    if ids == [] {
      assert forall k :: k !in keys;
      assert c.DishesIn(keys) == {};
    } else {
      var last := ids[|ids| - 1];
      var init := ids[..|ids| - 1];
      assert Enumerates(init, keys - {last}) by {
        forall k | k in keys - {last} ensures k in init {
          var i :| 0 <= i < |ids| && ids[i] == k;
          assert init[i] == k;
        }
      }
      DishTotal(c, init, keys - {last});
      assert c.DishesIn(keys) == c.DishesIn(keys - {last}) + c.DishesOf(last);
      assert c.DishesIn(keys - {last}) !! c.DishesOf(last);
    }
  }
}
