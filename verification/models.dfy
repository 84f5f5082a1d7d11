/** The three tables of the catalogue (menus, submenus, dishes), the integrity
    constraints the schema declares for them, and the changes a committed
    transaction can make to them. */
module Models {

  /** A primary key. The schema generates a fresh UUID per row; here a row's id is
      taken from one counter shared by the three tables, so that no id is ever
      handed out twice, in any table. */
  type Id = nat

  datatype Menu = Menu(id: Id, title: string, description: string)

  datatype Submenu = Submenu(id: Id, title: string, description: string, menuId: Id)

  /** `price` is free text: the schema stores whatever string the client sent. */
  datatype Dish = Dish(id: Id, title: string, description: string, price: string, submenuId: Id)

  /** The database: each table keyed by primary key, and the next id to generate. */
  datatype Catalog = Catalog(
    menus: map<Id, Menu>,
    submenus: map<Id, Submenu>,
    dishes: map<Id, Dish>,
    nextId: Id)
  {
    /** Every row sits under its own primary key; every id was generated earlier,
        and no id names rows of two tables. */
    ghost predicate KeysAreIds() {
      && (forall m :: m in menus ==> menus[m].id == m && m < nextId)
      && (forall s :: s in submenus ==> submenus[s].id == s && s < nextId)
      && (forall d :: d in dishes ==> dishes[d].id == d && d < nextId)
      && menus.Keys !! submenus.Keys
      && menus.Keys !! dishes.Keys
      && submenus.Keys !! dishes.Keys
    }

    /** The non-null foreign keys `submenus.menu_id` and `dishes.submenu_id`. */
    ghost predicate ForeignKeysResolve() {
      && (forall s :: s in submenus ==> submenus[s].menuId in menus)
      && (forall d :: d in dishes ==> dishes[d].submenuId in submenus)
    }

    /** The unique constraint on `title`, table by table (not per parent). */
    ghost predicate TitlesUnique() {
      && (forall a, b :: a in menus && b in menus && menus[a].title == menus[b].title ==> a == b)
      && (forall a, b :: a in submenus && b in submenus && submenus[a].title == submenus[b].title ==> a == b)
      && (forall a, b :: a in dishes && b in dishes && dishes[a].title == dishes[b].title ==> a == b)
    }

    ghost predicate Valid() {
      KeysAreIds() && ForeignKeysResolve() && TitlesUnique()
    }

    predicate MenuTitleTaken(title: string) {
      exists m :: m in menus && menus[m].title == title
    }

    predicate SubmenuTitleTaken(title: string) {
      exists s :: s in submenus && submenus[s].title == title
    }

    predicate DishTitleTaken(title: string) {
      exists d :: d in dishes && dishes[d].title == title
    }

    /** Some menu other than `id` already carries `title`. */
    predicate MenuTitleClash(id: Id, title: string) {
      exists m :: m in menus && m != id && menus[m].title == title
    }

    predicate SubmenuTitleClash(id: Id, title: string) {
      exists s :: s in submenus && s != id && submenus[s].title == title
    }

    predicate DishTitleClash(id: Id, title: string) {
      exists d :: d in dishes && d != id && dishes[d].title == title
    }

    /** `menu.submenus`: the submenus whose `menu_id` is `m`. */
    function SubmenusOf(m: Id): set<Id> {
      set s | s in submenus && submenus[s].menuId == m
    }

    /** `submenu.dishes`: the dishes whose `submenu_id` is `s`. */
    function DishesOf(s: Id): set<Id> {
      set d | d in dishes && dishes[d].submenuId == s
    }

    /** The dishes of any submenu in `ss`. */
    function DishesIn(ss: set<Id>): set<Id> {
      set d | d in dishes && dishes[d].submenuId in ss
    }

    /** The dishes under menu `m`, through its submenus. */
    function DishesUnder(m: Id): set<Id> {
      DishesIn(SubmenusOf(m))
    }

    /** The tables after inserting a menu under a freshly generated id. */
    function AddMenu(title: string, description: string): Catalog {
      this.(menus := menus[nextId := Menu(nextId, title, description)], nextId := nextId + 1)
    }

    function AddSubmenu(title: string, description: string, menuId: Id): Catalog {
      this.(submenus := submenus[nextId := Submenu(nextId, title, description, menuId)],
            nextId := nextId + 1)
    }

    function AddDish(title: string, description: string, price: string, submenuId: Id): Catalog {
      this.(dishes := dishes[nextId := Dish(nextId, title, description, price, submenuId)],
            nextId := nextId + 1)
    }

    /** The tables after overwriting a menu's title and description in place. */
    function SetMenu(m: Id, title: string, description: string): Catalog
      requires m in menus
    {
      this.(menus := menus[m := menus[m].(title := title, description := description)])
    }

    function SetSubmenu(s: Id, title: string, description: string): Catalog
      requires s in submenus
    {
      this.(submenus := submenus[s := submenus[s].(title := title, description := description)])
    }

    function SetDish(d: Id, title: string, description: string, price: string): Catalog
      requires d in dishes
    {
      this.(dishes := dishes[d := dishes[d].(title := title, description := description, price := price)])
    }

    /** Deleting a menu row: ON DELETE CASCADE takes its submenus and, through
        them, their dishes. */
    function RemoveMenu(m: Id): Catalog {
      this.(menus := menus - {m}, submenus := submenus - SubmenusOf(m), dishes := dishes - DishesUnder(m))
    }

    /** Deleting a submenu row: ON DELETE CASCADE takes its dishes. */
    function RemoveSubmenu(s: Id): Catalog {
      this.(submenus := submenus - {s}, dishes := dishes - DishesOf(s))
    }

    function RemoveDish(d: Id): Catalog {
      this.(dishes := dishes - {d})
    }
  }

  /** `ids` lists every key of `keys` exactly once, in some order: what a query
      returns for the rows it matches. */
  predicate Enumerates(ids: seq<Id>, keys: set<Id>) {
    && (forall i, j :: 0 <= i < j < |ids| ==> ids[i] != ids[j])
    && (forall i :: 0 <= i < |ids| ==> ids[i] in keys)
    && (forall k :: k in keys ==> k in ids)
  }

  /** `rows` are the rows of `table` under the keys in `keys`, each exactly once. */
  predicate ListsMenus(rows: seq<Menu>, table: map<Id, Menu>, keys: set<Id>) {
    && Enumerates(seq(|rows|, i requires 0 <= i < |rows| => rows[i].id), keys)
    && forall i :: 0 <= i < |rows| ==> rows[i].id in table && table[rows[i].id] == rows[i]
  }

  predicate ListsSubmenus(rows: seq<Submenu>, table: map<Id, Submenu>, keys: set<Id>) {
    && Enumerates(seq(|rows|, i requires 0 <= i < |rows| => rows[i].id), keys)
    && forall i :: 0 <= i < |rows| ==> rows[i].id in table && table[rows[i].id] == rows[i]
  }

  predicate ListsDishes(rows: seq<Dish>, table: map<Id, Dish>, keys: set<Id>) {
    && Enumerates(seq(|rows|, i requires 0 <= i < |rows| => rows[i].id), keys)
    && forall i :: 0 <= i < |rows| ==> rows[i].id in table && table[rows[i].id] == rows[i]
  }

  /** The ids a list holds. */
  function IdSet(ids: seq<Id>): (r: set<Id>)
    ensures forall i :: 0 <= i < |ids| ==> ids[i] in r
    ensures forall x :: x in r ==> x in ids
  {
    set i | 0 <= i < |ids| :: ids[i]
  }

  lemma IdSetOfEnumeration(ids: seq<Id>, keys: set<Id>)
    requires Enumerates(ids, keys)
    ensures IdSet(ids) == keys
  {
  }

  lemma IdSetAppend(a: seq<Id>, b: seq<Id>)
    ensures IdSet(a + b) == IdSet(a) + IdSet(b)
  {
    forall x | x in IdSet(a) + IdSet(b) ensures x in IdSet(a + b) {
      if x in IdSet(a) {
        var i :| 0 <= i < |a| && a[i] == x;
        assert (a + b)[i] == x;
      } else {
        var i :| 0 <= i < |b| && b[i] == x;
        assert (a + b)[|a| + i] == x;
      }
    }
  }

  lemma {:induction false} EnumerationSize(ids: seq<Id>, keys: set<Id>)
    requires Enumerates(ids, keys)
    ensures |ids| == |keys|
  {
    if ids != [] {
      var last := ids[|ids| - 1];
      var init := ids[..|ids| - 1];
      assert Enumerates(init, keys - {last}) by {
        forall k | k in keys - {last} ensures k in init {
          var i :| 0 <= i < |ids| && ids[i] == k;
          assert i < |ids| - 1;
          assert init[i] == k;
        }
      }
      EnumerationSize(init, keys - {last});
    } else {
      assert forall k :: k !in keys;
      assert keys == {};
    }
  }

  lemma AddMenuKeepsValid(c: Catalog, title: string, description: string)
    requires c.Valid() && !c.MenuTitleTaken(title)
    ensures c.AddMenu(title, description).Valid()
  {
  }

  lemma AddSubmenuKeepsValid(c: Catalog, title: string, description: string, menuId: Id)
    requires c.Valid() && !c.SubmenuTitleTaken(title) && menuId in c.menus
    ensures c.AddSubmenu(title, description, menuId).Valid()
  {
  }

  lemma AddDishKeepsValid(c: Catalog, title: string, description: string, price: string, submenuId: Id)
    requires c.Valid() && !c.DishTitleTaken(title) && submenuId in c.submenus
    ensures c.AddDish(title, description, price, submenuId).Valid()
  {
  }

  lemma SetMenuKeepsValid(c: Catalog, m: Id, title: string, description: string)
    requires c.Valid() && m in c.menus && !c.MenuTitleClash(m, title)
    ensures c.SetMenu(m, title, description).Valid()
  {
  }

  lemma SetSubmenuKeepsValid(c: Catalog, s: Id, title: string, description: string)
    requires c.Valid() && s in c.submenus && !c.SubmenuTitleClash(s, title)
    ensures c.SetSubmenu(s, title, description).Valid()
  {
  }

  lemma SetDishKeepsValid(c: Catalog, d: Id, title: string, description: string, price: string)
    requires c.Valid() && d in c.dishes && !c.DishTitleClash(d, title)
    ensures c.SetDish(d, title, description, price).Valid()
  {
  }

  /** The cascade leaves no orphan: every surviving submenu still has its menu and
      every surviving dish its submenu, and nothing outside the menu's subtree goes. */
  lemma RemoveMenuKeepsValid(c: Catalog, m: Id)
    requires c.Valid()
    ensures c.RemoveMenu(m).Valid()
    ensures forall s :: s in c.submenus && c.submenus[s].menuId != m ==> s in c.RemoveMenu(m).submenus
    ensures forall d :: d in c.dishes && c.submenus[c.dishes[d].submenuId].menuId != m ==> d in c.RemoveMenu(m).dishes
  {
    var r := c.RemoveMenu(m);
    forall d | d in r.dishes ensures r.dishes[d].submenuId in r.submenus {
      assert d !in c.DishesUnder(m);
    }
  }

  lemma RemoveSubmenuKeepsValid(c: Catalog, s: Id)
    requires c.Valid()
    ensures c.RemoveSubmenu(s).Valid()
    ensures forall d :: d in c.dishes && c.dishes[d].submenuId != s ==> d in c.RemoveSubmenu(s).dishes
  {
  }

  lemma RemoveDishKeepsValid(c: Catalog, d: Id)
    requires c.Valid()
    ensures c.RemoveDish(d).Valid()
  {
  }
}
