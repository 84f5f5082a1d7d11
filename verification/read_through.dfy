/** The read-through cache on the service read paths, as functions of the
    tables and the cache entries: what a read returns, what it leaves in the
    cache, and the invariants under which the cache is invisible to readers. */
module ReadThrough {
  import opened Wrappers
  import opened Models
  import opened Schemas
  import opened Cache
  import opened Aggregates
  import opened Price

  /** What a read can raise past the service: pydantic's ValidationError when a
      cached mapping lacks a field the target scheme needs, TypeError when the
      cached value is an object rather than a mapping, ValueError when a stored
      price is not a number, AttributeError when a delete dereferences the
      None that looking up an absent row returns. */
  datatype Exception = ValidationError | TypeError | ValueError | AttributeError

  /** `MenuWithDetailsScheme(**cached)`. */
  function MenuFromCache(v: Snapshot): (r: Result<MenuWithDetails, Exception>)
    ensures r.Success? <==> v.MenuSnap?
    ensures r.Success? ==> r.value == v.menu
    ensures v.SubmenuSnap? ==> r == Failure(ValidationError)
  {
    match v
    case MenuSnap(m) => Success(m)
    case SubmenuSnap(_) => Failure(ValidationError)
    case DishSnap(_) => Failure(TypeError)
  }

  /** `SubmenuWithDishCountScheme(**cached)`: a cached menu mapping has every
      field the submenu scheme needs, so it converts, and its extra
      `submenus_count` is ignored. */
  function SubmenuFromCache(v: Snapshot): (r: Result<SubmenuWithDishCount, Exception>)
    ensures r.Success? <==> !v.DishSnap?
    ensures v.MenuSnap? ==> r.Success? && r.value.id == v.menu.id && r.value.dishesCount == v.menu.dishesCount
  {
    match v
    case MenuSnap(m) => Success(SubmenuWithDishCount(m.id, m.title, m.description, m.dishesCount))
    case SubmenuSnap(s) => Success(s)
    case DishSnap(_) => Failure(TypeError)
  }

  /** `DishScheme(**cached)`: no cached mapping carries a price, and a cached
      dish is an object, so the conversion never succeeds. */
  function DishFromCache(v: Snapshot): (x: Exception)
    ensures x == TypeError <==> v.DishSnap?
  {
    if v.DishSnap? then TypeError else ValidationError
  }

  /** A dish as its read renders it from the table: None when absent,
      ValueError when the price text is not a number. */
  function DishRead(c: Catalog, d: Id): (r: Result<Option<DishScheme>, Exception>)
    ensures r == Success(None) <==> d !in c.dishes
    ensures r.Failure? <==> d in c.dishes && FormatPrice(c.dishes[d].price).None?
    ensures r.Success? && r.value.Some? ==>
      && r.value.value == DishScheme(d, c.dishes[d].title, c.dishes[d].description, FormatPrice(c.dishes[d].price).value)
  {
    if d !in c.dishes then Success(None)
    else match FormatPrice(c.dishes[d].price)
      case None => Failure(ValueError)
      case Some(p) => Success(Some(DishScheme(d, c.dishes[d].title, c.dishes[d].description, p)))
  }

  /** What a menu read returns: the snapshot cached under `menu_<x>` if any,
      otherwise the menu-details query. */
  function MenuLookup(c: Catalog, e: Entries, x: Id): Result<Option<MenuWithDetails>, Exception>
    requires c.Valid()
  {
    if MenuKey(x) in e then
      match MenuFromCache(e[MenuKey(x)])
      case Success(m) => Success(Some(m))
      case Failure(err) => Failure(err)
    else Success(MenuDetails(c, x))
  }

  /** The cache after a menu read: a miss on an existing menu stores its details. */
  function MenuFill(c: Catalog, e: Entries, x: Id): Entries
    requires c.Valid()
  {
    if MenuKey(x) in e then e
    else match MenuDetails(c, x)
      case Some(m) => e[MenuKey(x) := MenuSnap(m)]
      case None => e
  }

  /** What a submenu read returns: it probes `menu_<x>`, not `submenu_<x>`. */
  function SubmenuLookup(c: Catalog, e: Entries, x: Id): Result<Option<SubmenuWithDishCount>, Exception> {
    if MenuKey(x) in e then
      match SubmenuFromCache(e[MenuKey(x)])
      case Success(s) => Success(Some(s))
      case Failure(err) => Failure(err)
    else Success(SubmenuDetails(c, x))
  }

  /** The cache after a submenu read: a miss on an existing submenu stores its
      details under `submenu_<x>`. */
  function SubmenuFill(c: Catalog, e: Entries, x: Id): Entries {
    if MenuKey(x) in e then e
    else match SubmenuDetails(c, x)
      case Some(s) => e[SubmenuKey(x) := SubmenuSnap(s)]
      case None => e
  }

  /** What a dish read returns: it probes `menu_<x>`, not `dish_<x>`. */
  function DishLookup(c: Catalog, e: Entries, x: Id): Result<Option<DishScheme>, Exception> {
    if MenuKey(x) in e then Failure(DishFromCache(e[MenuKey(x)]))
    else DishRead(c, x)
  }

  /** The cache after a dish read: a miss on a dish that renders stores it under `dish_<x>`. */
  function DishFill(c: Catalog, e: Entries, x: Id): Entries {
    if MenuKey(x) in e then e
    else match DishRead(c, x)
      case Success(Some(v)) => e[DishKey(x) := DishSnap(v)]
      case _ => e
  }

  /** The listing loop over menu ids: each id read in turn through the cache,
      absent ones skipped, the first exception ending the loop. Returns the
      result and the cache afterwards. */
  function MenuScan(c: Catalog, e: Entries, ids: seq<Id>): (Result<seq<MenuWithDetails>, Exception>, Entries)
    requires c.Valid()
  {
    if ids == [] then (Success([]), e)
    else
      var (r, e1) := MenuScan(c, e, ids[..|ids| - 1]);
      var x := ids[|ids| - 1];
      if r.Failure? then (r, e1)
      else match MenuLookup(c, e1, x)
        case Failure(err) => (Failure(err), e1)
        case Success(None) => (r, MenuFill(c, e1, x))
        case Success(Some(m)) => (Success(r.value + [m]), MenuFill(c, e1, x))
  }

  function SubmenuScan(c: Catalog, e: Entries, ids: seq<Id>): (Result<seq<SubmenuWithDishCount>, Exception>, Entries) {
    if ids == [] then (Success([]), e)
    else
      var (r, e1) := SubmenuScan(c, e, ids[..|ids| - 1]);
      var x := ids[|ids| - 1];
      if r.Failure? then (r, e1)
      else match SubmenuLookup(c, e1, x)
        case Failure(err) => (Failure(err), e1)
        case Success(None) => (r, SubmenuFill(c, e1, x))
        case Success(Some(s)) => (Success(r.value + [s]), SubmenuFill(c, e1, x))
  }

  function DishScan(c: Catalog, e: Entries, ids: seq<Id>): (Result<seq<DishScheme>, Exception>, Entries) {
    if ids == [] then (Success([]), e)
    else
      var (r, e1) := DishScan(c, e, ids[..|ids| - 1]);
      var x := ids[|ids| - 1];
      if r.Failure? then (r, e1)
      else match DishLookup(c, e1, x)
        case Failure(err) => (Failure(err), e1)
        case Success(None) => (r, DishFill(c, e1, x))
        case Success(Some(v)) => (Success(r.value + [v]), DishFill(c, e1, x))
  }

  /** The dishes `ids` rendered straight from the table, the first failure ending the list. */
  function DishReads(c: Catalog, ids: seq<Id>): Result<seq<DishScheme>, Exception> {
    if ids == [] then Success([])
    else
      var x := ids[|ids| - 1];
      match DishReads(c, ids[..|ids| - 1])
      case Failure(err) => Failure(err)
      case Success(vs) =>
        match DishRead(c, x)
        case Failure(err) => Failure(err)
        case Success(None) => Success(vs)
        case Success(Some(v)) => Success(vs + [v])
  }

  /** Rendering existing dishes from the table fails exactly when some price is
      not a number; otherwise it renders every dish, in order. */
  lemma {:induction false} DishReadsSucceed(c: Catalog, ids: seq<Id>)
    requires forall i :: 0 <= i < |ids| ==> ids[i] in c.dishes
    ensures DishReads(c, ids).Success? <==> forall i :: 0 <= i < |ids| ==> FormatPrice(c.dishes[ids[i]].price).Some?
    ensures DishReads(c, ids).Success? ==>
      && |DishReads(c, ids).value| == |ids|
      && forall i :: 0 <= i < |ids| ==> Success(Some(DishReads(c, ids).value[i])) == DishRead(c, ids[i])
  {
    if ids != [] {
      var init := ids[..|ids| - 1];
      var x := ids[|ids| - 1];
      DishReadsSucceed(c, init);
      assert forall i :: 0 <= i < |init| ==> init[i] == ids[i];
      if DishReads(c, ids).Success? {
        var vs := DishReads(c, init).value;
        var v := DishRead(c, x).value.value;
        var rs := DishReads(c, ids).value;
        assert rs == vs + [v];
        forall i | 0 <= i < |ids| ensures Success(Some(rs[i])) == DishRead(c, ids[i]) {
          if i < |init| {
            assert rs[i] == vs[i];
          }
        }
      }
    }
  }

  /** One more id read by the menu listing. */
  lemma MenuScanNext(c: Catalog, e: Entries, ids: seq<Id>, i: nat, list: seq<MenuWithDetails>, e1: Entries)
    requires c.Valid() && i < |ids| && MenuScan(c, e, ids[..i]) == (Success(list), e1)
    ensures MenuScan(c, e, ids[..i + 1])
         == match MenuLookup(c, e1, ids[i])
            case Failure(err) => (Failure(err), e1)
            case Success(None) => (Success(list), MenuFill(c, e1, ids[i]))
            case Success(Some(v)) => (Success(list + [v]), MenuFill(c, e1, ids[i]))
  {
    assert ids[..i + 1][..i] == ids[..i];
  }

  /** One more id read by the submenu listing. */
  lemma SubmenuScanNext(c: Catalog, e: Entries, ids: seq<Id>, i: nat, list: seq<SubmenuWithDishCount>, e1: Entries)
    requires i < |ids| && SubmenuScan(c, e, ids[..i]) == (Success(list), e1)
    ensures SubmenuScan(c, e, ids[..i + 1])
         == match SubmenuLookup(c, e1, ids[i])
            case Failure(err) => (Failure(err), e1)
            case Success(None) => (Success(list), SubmenuFill(c, e1, ids[i]))
            case Success(Some(v)) => (Success(list + [v]), SubmenuFill(c, e1, ids[i]))
  {
    assert ids[..i + 1][..i] == ids[..i];
  }

  /** One more id read by the dish listing. */
  lemma DishScanNext(c: Catalog, e: Entries, ids: seq<Id>, i: nat, list: seq<DishScheme>, e1: Entries)
    requires i < |ids| && DishScan(c, e, ids[..i]) == (Success(list), e1)
    ensures DishScan(c, e, ids[..i + 1])
         == match DishLookup(c, e1, ids[i])
            case Failure(err) => (Failure(err), e1)
            case Success(None) => (Success(list), DishFill(c, e1, ids[i]))
            case Success(Some(v)) => (Success(list + [v]), DishFill(c, e1, ids[i]))
  {
    assert ids[..i + 1][..i] == ids[..i];
  }

  /** A listing ends at its first exception: reading further ids changes
      neither the result nor the cache. */
  lemma {:induction false} MenuScanStops(c: Catalog, e: Entries, ids: seq<Id>, n: nat)
    requires c.Valid() && n <= |ids| && MenuScan(c, e, ids[..n]).0.Failure?
    ensures MenuScan(c, e, ids) == MenuScan(c, e, ids[..n])
  {
    if n < |ids| {
      var init := ids[..|ids| - 1];
      assert init[..n] == ids[..n];
      MenuScanStops(c, e, init, n);
    } else {
      assert ids[..n] == ids;
    }
  }

  lemma {:induction false} SubmenuScanStops(c: Catalog, e: Entries, ids: seq<Id>, n: nat)
    requires n <= |ids| && SubmenuScan(c, e, ids[..n]).0.Failure?
    ensures SubmenuScan(c, e, ids) == SubmenuScan(c, e, ids[..n])
  {
    if n < |ids| {
      var init := ids[..|ids| - 1];
      assert init[..n] == ids[..n];
      SubmenuScanStops(c, e, init, n);
    } else {
      assert ids[..n] == ids;
    }
  }

  lemma {:induction false} DishScanStops(c: Catalog, e: Entries, ids: seq<Id>, n: nat)
    requires n <= |ids| && DishScan(c, e, ids[..n]).0.Failure?
    ensures DishScan(c, e, ids) == DishScan(c, e, ids[..n])
  {
    if n < |ids| {
      var init := ids[..|ids| - 1];
      assert init[..n] == ids[..n];
      DishScanStops(c, e, init, n);
    } else {
      assert ids[..n] == ids;
    }
  }

  /** Each key holds a snapshot of its own kind, for its own id. */
  predicate Fits(k: CacheKey, v: Snapshot) {
    match k.kind
    case MenuKind => v.MenuSnap? && v.menu.id == k.id
    case SubmenuKind => v.SubmenuSnap? && v.submenu.id == k.id
    case DishKind => v.DishSnap? && v.dish.id == k.id
  }

  ghost predicate WellShaped(e: Entries) {
    forall k :: k in e ==> Fits(k, e[k])
  }

  /** Every key names an id already generated, and a `menu_` key names a menu
      that exists (so never a submenu or a dish). */
  ghost predicate Coherent(c: Catalog, e: Entries) {
    forall k :: k in e ==> k.id < c.nextId && (k.kind == MenuKind ==> k.id in c.menus)
  }

  /** The snapshot a read of key `k` would store now, if any. */
  function SnapshotOf(c: Catalog, k: CacheKey): Option<Snapshot>
    requires c.Valid()
  {
    match k.kind
    case MenuKind => (match MenuDetails(c, k.id) case Some(m) => Some(MenuSnap(m)) case None => None)
    case SubmenuKind => (match SubmenuDetails(c, k.id) case Some(s) => Some(SubmenuSnap(s)) case None => None)
    case DishKind => (match DishRead(c, k.id) case Success(Some(v)) => Some(DishSnap(v)) case _ => None)
  }

  /** Every cached snapshot of an existing entity is the one a read would store now. */
  ghost predicate Fresh(c: Catalog, e: Entries)
    requires c.Valid()
  {
    forall k :: k in e && SnapshotOf(c, k).Some? ==> e[k] == SnapshotOf(c, k).value
  }

  /** The invariant the services keep between the tables and the cache. */
  ghost predicate Inv(c: Catalog, e: Entries) {
    c.Valid() && WellShaped(e) && Coherent(c, e) && Fresh(c, e)
  }

  /** Under the invariant a menu read returns exactly what the details query returns. */
  lemma MenuLookupTransparent(c: Catalog, e: Entries, x: Id)
    requires Inv(c, e)
    ensures MenuLookup(c, e, x) == Success(MenuDetails(c, x))
  {
    if MenuKey(x) in e {
      assert SnapshotOf(c, MenuKey(x)).Some?;
    }
  }

  /** Under the invariant a submenu read of any id that is not a menu's returns
      exactly what the submenu-details query returns. */
  lemma SubmenuLookupTransparent(c: Catalog, e: Entries, x: Id)
    requires Inv(c, e) && x !in c.menus
    ensures SubmenuLookup(c, e, x) == Success(SubmenuDetails(c, x))
  {
  }

  /** Under the invariant a dish read of any id that is not a menu's returns
      exactly what reading the table returns. */
  lemma DishLookupTransparent(c: Catalog, e: Entries, x: Id)
    requires Inv(c, e) && x !in c.menus
    ensures DishLookup(c, e, x) == DishRead(c, x)
  {
  }

  /** A submenu read given a menu's id whose details are cached returns the menu
      as if it were a submenu, with the menu's dish count, although no submenu has
      that id; with the key absent the same read returns None. */
  lemma SubmenuLookupOfCachedMenu(c: Catalog, e: Entries, m: Id)
    requires Inv(c, e) && m in c.menus && MenuKey(m) in e
    ensures SubmenuDetails(c, m) == None
    ensures SubmenuLookup(c, e, m)
         == Success(Some(SubmenuWithDishCount(m, c.menus[m].title, c.menus[m].description, |c.DishesUnder(m)|)))
    ensures SubmenuLookup(c, e - {MenuKey(m)}, m) == Success(None)
  {
    assert SnapshotOf(c, MenuKey(m)).Some?;
  }

  /** A dish read given a menu's id whose details are cached raises ValidationError. */
  lemma DishLookupOfCachedMenu(c: Catalog, e: Entries, m: Id)
    requires WellShaped(e) && MenuKey(m) in e
    ensures DishLookup(c, e, m) == Failure(ValidationError)
  {
  }

  /** A submenu read never consults the `submenu_` keys it stores. */
  lemma SubmenuKeysNeverRead(c: Catalog, e: Entries, x: Id, y: Id, v: Snapshot)
    ensures SubmenuLookup(c, e[SubmenuKey(y) := v], x) == SubmenuLookup(c, e, x)
    ensures SubmenuLookup(c, e - {SubmenuKey(y)}, x) == SubmenuLookup(c, e, x)
  {
    assert MenuKey(x) in e[SubmenuKey(y) := v] <==> MenuKey(x) in e;
  }

  /** A dish read never consults the `dish_` keys it stores. */
  lemma DishKeysNeverRead(c: Catalog, e: Entries, x: Id, y: Id, v: Snapshot)
    ensures DishLookup(c, e[DishKey(y) := v], x) == DishLookup(c, e, x)
    ensures DishLookup(c, e - {DishKey(y)}, x) == DishLookup(c, e, x)
  {
    assert MenuKey(x) in e[DishKey(y) := v] <==> MenuKey(x) in e;
  }

  lemma MenuFillKeepsInv(c: Catalog, e: Entries, x: Id)
    requires Inv(c, e)
    ensures Inv(c, MenuFill(c, e, x))
  {
  }

  lemma SubmenuFillKeepsInv(c: Catalog, e: Entries, x: Id)
    requires Inv(c, e)
    ensures Inv(c, SubmenuFill(c, e, x))
  {
  }

  lemma DishFillKeepsInv(c: Catalog, e: Entries, x: Id)
    requires Inv(c, e)
    ensures Inv(c, DishFill(c, e, x))
  {
  }

  /** The details of the menus `ids` straight from the tables, absent ones skipped. */
  function MenuDetailsList(c: Catalog, ids: seq<Id>): seq<MenuWithDetails>
    requires c.Valid()
  {
    if ids == [] then []
    else
      var rest := MenuDetailsList(c, ids[..|ids| - 1]);
      match MenuDetails(c, ids[|ids| - 1])
      case Some(m) => rest + [m]
      case None => rest
  }

  /** The details of the submenus `ids` straight from the tables, absent ones skipped. */
  function SubmenuDetailsList(c: Catalog, ids: seq<Id>): seq<SubmenuWithDishCount> {
    if ids == [] then []
    else
      var rest := SubmenuDetailsList(c, ids[..|ids| - 1]);
      match SubmenuDetails(c, ids[|ids| - 1])
      case Some(s) => rest + [s]
      case None => rest
  }

  /** Listing existing menus gives one entry per menu, in order, with its details. */
  lemma {:induction false} MenuDetailsListAll(c: Catalog, ids: seq<Id>)
    requires c.Valid()
    requires forall i :: 0 <= i < |ids| ==> ids[i] in c.menus
    ensures |MenuDetailsList(c, ids)| == |ids|
    ensures forall i :: 0 <= i < |ids| ==> Some(MenuDetailsList(c, ids)[i]) == MenuDetails(c, ids[i])
  {
    if ids != [] {
      var init := ids[..|ids| - 1];
      MenuDetailsListAll(c, init);
      var rs := MenuDetailsList(c, ids);
      var prev := MenuDetailsList(c, init);
      forall i | 0 <= i < |ids| ensures Some(rs[i]) == MenuDetails(c, ids[i]) {
        if i < |init| {
          assert rs[i] == prev[i] && init[i] == ids[i];
        }
      }
    }
  }

  /** Listing existing submenus gives one entry per submenu, in order, with its details. */
  lemma {:induction false} SubmenuDetailsListAll(c: Catalog, ids: seq<Id>)
    requires forall i :: 0 <= i < |ids| ==> ids[i] in c.submenus
    ensures |SubmenuDetailsList(c, ids)| == |ids|
    ensures forall i :: 0 <= i < |ids| ==> Some(SubmenuDetailsList(c, ids)[i]) == SubmenuDetails(c, ids[i])
  {
    if ids != [] {
      var init := ids[..|ids| - 1];
      SubmenuDetailsListAll(c, init);
      var rs := SubmenuDetailsList(c, ids);
      var prev := SubmenuDetailsList(c, init);
      forall i | 0 <= i < |ids| ensures Some(rs[i]) == SubmenuDetails(c, ids[i]) {
        if i < |init| {
          assert rs[i] == prev[i] && init[i] == ids[i];
        }
      }
    }
  }

  /** Under the invariant, listing menus through the cache gives what the tables
      give, and keeps the invariant. */
  lemma {:induction false} MenuScanTransparent(c: Catalog, e: Entries, ids: seq<Id>)
    requires Inv(c, e)
    ensures MenuScan(c, e, ids).0 == Success(MenuDetailsList(c, ids))
    ensures Inv(c, MenuScan(c, e, ids).1)
  {
    if ids != [] {
      var init := ids[..|ids| - 1];
      var x := ids[|ids| - 1];
      MenuScanTransparent(c, e, init);
      var (r, e1) := MenuScan(c, e, init);
      MenuLookupTransparent(c, e1, x);
      MenuFillKeepsInv(c, e1, x);
    }
  }

  /** Under the invariant, listing submenus through the cache gives what the
      tables give, and keeps the invariant. */
  lemma {:induction false} SubmenuScanTransparent(c: Catalog, e: Entries, ids: seq<Id>)
    requires Inv(c, e)
    requires forall i :: 0 <= i < |ids| ==> ids[i] !in c.menus
    ensures SubmenuScan(c, e, ids).0 == Success(SubmenuDetailsList(c, ids))
    ensures Inv(c, SubmenuScan(c, e, ids).1)
  {
    if ids != [] {
      var init := ids[..|ids| - 1];
      var x := ids[|ids| - 1];
      SubmenuScanTransparent(c, e, init);
      var (r, e1) := SubmenuScan(c, e, init);
      SubmenuLookupTransparent(c, e1, x);
      SubmenuFillKeepsInv(c, e1, x);
    }
  }

  /** Under the invariant, listing dishes through the cache gives what rendering
      them straight from the table gives, and keeps the invariant. */
  lemma {:induction false} DishScanTransparent(c: Catalog, e: Entries, ids: seq<Id>)
    requires Inv(c, e)
    requires forall i :: 0 <= i < |ids| ==> ids[i] !in c.menus
    ensures DishScan(c, e, ids).0 == DishReads(c, ids)
    ensures Inv(c, DishScan(c, e, ids).1)
  {
    if ids != [] {
      var init := ids[..|ids| - 1];
      var x := ids[|ids| - 1];
      DishScanTransparent(c, e, init);
      var (r, e1) := DishScan(c, e, init);
      DishLookupTransparent(c, e1, x);
      DishFillKeepsInv(c, e1, x);
    }
  }
}
