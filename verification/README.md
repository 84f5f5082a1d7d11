# Restaurant menu API: a Dafny model of the catalogue core

The system is a REST API over a three-level restaurant catalogue. A **menu**
has **submenus** and a submenu has **dishes**. Each kind of entity lives in
its own database table:

- titles are unique table-wide;
- `submenus.menu_id` and `dishes.submenu_id` are required foreign keys with
  `ON DELETE CASCADE`.

Reads go through services. Each service keeps a Redis cache of response
snapshots under keys of the form `menu_<id>`, `submenu_<id>` and `dish_<id>`.
The snapshots are:

- a menu with its submenu and dish counts;
- a submenu with its dish count;
- a dish whose price is rendered to two decimals.

Each write deletes the cache keys whose snapshot it may have staled.

The application mounts three routers:

- The menu and submenu routers query the tables directly.
- The dish router goes through the menu, submenu and dish services, so it is
  the only router that uses the cache.

A custom router class can rebuild a route's URL from the route's name.

The model has these layers:

- `Models` holds the tables as a value `Catalog`. It has:
  - the schema's integrity constraints (`Valid`);
  - a transition for each committed change, such as `AddMenu` and
    `RemoveMenu`. A removal carries the cascade.
- `Store.Database` holds the tables as a class whose methods change them in
  place. Each method ensures `View() == old(View()).<transition>`.
- The `*Repository` classes model the ORM repositories. Each failure comes
  back as `None`, as the source's `try/except` does.
- `Cache` models the Redis cache repository as a map held by a client object.
- `Aggregates` models the grouped outer-join count queries. The model proves
  that the counts equal the cardinalities of the child sets.
- `ReadThrough` gives each service's read path as functions of the tables and
  the cache, and defines the coherence invariant `Inv` between them. Under
  `Inv`:
  - a read returns exactly what the tables give;
  - a read keeps `Inv`.

  The module also proves the source's key quirks: the submenu and dish reads
  probe `menu_<id>`.
- `Invalidation` proves that, for each service write, the keys the write
  deletes are enough to keep `Inv`.
- The `*Service` classes are proved against these functions.
- The three router modules state every status code and detail, in the order
  the guards check them.
- `App.Handle` dispatches each of the fifteen endpoints as mounted. It
  preserves the invariant of the whole application.
- `Routing` models `CustomAPIRouter.reverse`.
- `Price` models the two-decimal rendering of a stored price.

Ids are natural numbers drawn from a single counter shared by the three tables.
This stands for the UUIDs the schema generates: no id is issued twice, in any
table. A cache key is the pair (kind, id). The key strings `<kind>_<id>` are
distinct for distinct pairs, so the pair carries the same information.

The model follows the code as written, including:

- the submenu and dish reads probe `menu_<id>`, not their own key;
- deleting a submenu leaves `submenu_<id>` in the cache;
- the mounted menu and submenu routers bypass the services and the cache;
- dish creation checks only that the submenu exists, not that it belongs to the
  menu in the path.

## Model

| member | source | states |
|---|---|---|
| Models.AddMenuKeepsValid | app/database/models.py:19-28 | inserting a menu under a fresh id with a title no menu has keeps ids unique, foreign keys resolving and titles unique |
| Models.AddSubmenuKeepsValid | app/database/models.py:31-43 | inserting a submenu under an existing menu with an unused title keeps the tables valid |
| Models.AddDishKeepsValid | app/database/models.py:46-57 | inserting a dish under an existing submenu with an unused title keeps the tables valid |
| Models.SetMenuKeepsValid | app/database/models.py:23 | overwriting a menu's title and description keeps titles unique when no other menu has the new title |
| Models.SetSubmenuKeepsValid | app/database/models.py:35 | the same for a submenu |
| Models.SetDishKeepsValid | app/database/models.py:50 | the same for a dish |
| Models.RemoveMenuKeepsValid | app/database/models.py:40 | deleting a menu with its cascade leaves no orphan, and every submenu and dish outside the menu's subtree survives |
| Models.RemoveSubmenuKeepsValid | app/database/models.py:56 | deleting a submenu with its cascade leaves no orphan, and every dish of another submenu survives |
| Models.RemoveDishKeepsValid | app/database/models.py:46-57 | deleting a dish keeps the tables valid |
| Models.EnumerationSize | app/repositories/orm_repositories/menu_repository.py:12-14 | a query result that lists each matching key once has as many rows as there are keys |
| Store.Rows | app/repositories/orm_repositories/menu_repository.py:12-14 | a query returns every matching key exactly once, in an unspecified order |
| Store.Database.InsertMenu | app/database/models.py:10-28 | the insert commits iff the title is free; the row gets the next fresh id, and the tables become exactly `AddMenu`; on a rejected commit nothing changes |
| Store.Database.InsertSubmenu | app/database/models.py:31-40 | the insert commits iff the parent menu exists and the title is free; the tables become exactly `AddSubmenu` |
| Store.Database.InsertDish | app/database/models.py:46-56 | the insert commits iff the parent submenu exists and the title is free; the tables become exactly `AddDish` |
| Store.Database.UpdateMenu | app/database/models.py:23 | the update commits iff no other menu has the title, and then changes only that row's title and description |
| Store.Database.UpdateSubmenu | app/database/models.py:35 | the same for a submenu; `menu_id` is kept |
| Store.Database.UpdateDish | app/database/models.py:50-52 | the same for a dish, with the price overwritten too; `submenu_id` is kept |
| Store.Database.DeleteMenu | app/database/models.py:40 | deleting a menu removes it, its submenus and their dishes, and nothing else |
| Store.Database.DeleteSubmenu | app/database/models.py:56 | deleting a submenu removes it and its dishes, and nothing else |
| Store.Database.DeleteStaged | app/repositories/orm_repositories/submenu_repository.py:63-67 | staged dish deletions and a submenu deletion commit as one change |
| Store.Database.DeleteDish | app/database/models.py:46-57 | deleting a dish removes that row only |
| MenuRepository.MenuORMRepository.GetAll | app/repositories/orm_repositories/menu_repository.py:12-17 | ignores its argument and lists every menu once, each as stored |
| MenuRepository.MenuORMRepository.GetById | app/repositories/orm_repositories/menu_repository.py:19-24 | the menu with that id, or None iff there is none |
| MenuRepository.MenuORMRepository.GetByTitle | app/repositories/orm_repositories/menu_repository.py:26-31 | a stored menu with that title, or None iff no menu has it |
| MenuRepository.MenuORMRepository.Create | app/repositories/orm_repositories/menu_repository.py:33-42 | a new menu with a fresh id (the id argument is ignored), or None with nothing stored iff the title is taken |
| MenuRepository.MenuORMRepository.Update | app/repositories/orm_repositories/menu_repository.py:44-54 | overwrites title and description and keeps the id, so the submenus stay; None for an absent id or a title clash, with nothing changed |
| MenuRepository.MenuORMRepository.Delete | app/repositories/orm_repositories/menu_repository.py:56-64 | returns the deleted row and cascades; None with nothing changed for an absent id |
| SubmenuRepository.SubmenuORMRepository.GetAll | app/repositories/orm_repositories/submenu_repository.py:11-16 | exactly the submenus whose `menu_id` is the argument, each once |
| SubmenuRepository.SubmenuORMRepository.GetById | app/repositories/orm_repositories/submenu_repository.py:18-24 | the submenu with that id, or None iff absent |
| SubmenuRepository.SubmenuORMRepository.GetByTitle | app/repositories/orm_repositories/submenu_repository.py:26-32 | a submenu with that title, or None iff none has it |
| SubmenuRepository.SubmenuORMRepository.Create | app/repositories/orm_repositories/submenu_repository.py:34-43 | a new submenu under the given menu, or None with nothing stored iff the menu is absent or the title is taken |
| SubmenuRepository.SubmenuORMRepository.Update | app/repositories/orm_repositories/submenu_repository.py:45-56 | overwrites only title and description; `menu_id` and dishes are unchanged; None for an absent id or a title clash |
| SubmenuRepository.SubmenuORMRepository.Delete | app/repositories/orm_repositories/submenu_repository.py:58-71 | deletes the submenu's dishes and then the submenu in one commit, leaving other submenus' dishes alone; None with nothing changed for an absent id |
| SubmenuRepository.DishesGoneFirst | app/repositories/orm_repositories/submenu_repository.py:63-66 | deleting a submenu's dishes one by one before the submenu ends in the same tables as the cascade |
| DishRepository.DishORMRepository.GetAll | app/repositories/orm_repositories/dish_repository.py:11-17 | exactly the dishes of that submenu, each once |
| DishRepository.DishORMRepository.GetById | app/repositories/orm_repositories/dish_repository.py:19-24 | the dish with that id, or None iff absent |
| DishRepository.DishORMRepository.GetByTitle | app/repositories/orm_repositories/dish_repository.py:26-31 | a dish with that title, or None iff none has it |
| DishRepository.DishORMRepository.Create | app/repositories/orm_repositories/dish_repository.py:33-42 | stores title, description and the price string verbatim under the submenu; None iff the submenu is absent or the title is taken |
| DishRepository.DishORMRepository.Update | app/repositories/orm_repositories/dish_repository.py:44-55 | overwrites title, description and price and keeps `submenu_id`; None for an absent id or a title clash |
| DishRepository.DishORMRepository.Delete | app/repositories/orm_repositories/dish_repository.py:57-65 | removes only that dish and returns it; None with nothing changed when absent |
| Cache.RedisCacheRepository.Set | app/repositories/redis_repository/redis_cache_repository.py:10-11 | stores the value under the key, replacing an earlier one; every other key is unchanged |
| Cache.RedisCacheRepository.Get | app/repositories/redis_repository/redis_cache_repository.py:13-16 | the stored value, or None iff the key holds nothing |
| Cache.RedisCacheRepository.Delete | app/repositories/redis_repository/redis_cache_repository.py:18-19 | removes the key only; deleting an absent key changes nothing |
| Cache.SetThenGet | app/repositories/redis_repository/redis_cache_repository.py:10-16 | `get` after `set` returns the value set, and another key keeps its value |
| Cache.DeleteThenGet | app/repositories/redis_repository/redis_cache_repository.py:13-19 | `get` after `delete` returns None, and another key keeps its value |
| Cache.DeleteKeys | app/services/menu_service.py:111-115 | a loop deleting the key of each listed id removes exactly those keys |
| Aggregates.MenuDetails | app/services/menu_service.py:23-43 | the menu-details query returns a row iff the menu exists; the row holds the menu's columns and the counts of the menu's submenus and of the dishes under them |
| Aggregates.SubmenuDetails | app/services/submenu_service.py:23-36 | the submenu-details query returns a row iff the submenu exists; the row holds its columns and the number of its dishes |
| Aggregates.MenuCounts | app/routers/menu_router.py:14-23 | over the menu's outer-join rows, `count(distinct submenus.id)` is the number of its submenus and `count(dishes.id)` the number of dishes under them (0 with no children) |
| Aggregates.MenuSubmenuCount | app/services/menu_service.py:31 | the distinct-submenu count of the join is the size of the menu's submenu set |
| Aggregates.MenuDishCount | app/services/menu_service.py:32-35 | the dish count of the join is the size of the set of dishes under the menu; no dish row is counted twice |
| Aggregates.SubmenuCount | app/services/submenu_service.py:27-28 | the dish count of the submenu join is the size of the submenu's dish set |
| Aggregates.DishTotal | app/services/menu_service.py:32-35 | a menu's dish count is the total of its submenus' dish counts |
| ReadThrough.MenuFromCache | app/services/menu_service.py:69-70 | a cached menu snapshot rebuilds to itself; a cached submenu raises ValidationError |
| ReadThrough.SubmenuFromCache | app/services/submenu_service.py:64-65 | a cached mapping rebuilds into a submenu unless it is a dish; a cached menu becomes a submenu with the menu's id and dish count |
| ReadThrough.DishFromCache | app/services/dish_service.py:48-49 | a cached mapping never rebuilds into a dish: TypeError iff it is a dish object, ValidationError otherwise |
| ReadThrough.DishRead | app/services/dish_service.py:51-60 | None iff the dish is absent; ValueError iff its price is not a plain decimal literal (see Left out); otherwise its columns with the price formatted |
| ReadThrough.DishReadsSucceed | app/services/dish_service.py:35-45 | rendering existing dishes succeeds iff every price is a plain decimal literal (see Left out), and then gives one entry per dish in order |
| ReadThrough.MenuScanStops | app/services/menu_service.py:53-62 | the menu listing loop ends at the first exception: later ids are neither read nor cached; the loop is reached only in the corrected listing (see Findings) |
| ReadThrough.SubmenuScanStops | app/services/submenu_service.py:47-59 | the same for the submenu listing |
| ReadThrough.DishScanStops | app/services/dish_service.py:35-45 | the same for the dish listing |
| ReadThrough.MenuLookupTransparent | app/services/menu_service.py:64-88 | under the coherence invariant a menu read, hit or miss, returns exactly the menu-details query |
| ReadThrough.SubmenuLookupTransparent | app/services/submenu_service.py:61-83 | under the invariant a submenu read of an id that is not a menu's returns exactly the submenu-details query |
| ReadThrough.DishLookupTransparent | app/services/dish_service.py:47-62 | under the invariant a dish read of an id that is not a menu's returns exactly the dish rendered from its row |
| ReadThrough.SubmenuLookupOfCachedMenu | app/services/submenu_service.py:64-65 | a submenu read given a menu's id whose details are cached returns that menu as a submenu although no such submenu exists; with the key gone it returns None |
| ReadThrough.DishLookupOfCachedMenu | app/services/dish_service.py:48-49 | a dish read given a menu's id whose details are cached raises ValidationError |
| ReadThrough.SubmenuKeysNeverRead | app/services/submenu_service.py:64-82 | setting or deleting any `submenu_` key never changes what a submenu read returns |
| ReadThrough.DishKeysNeverRead | app/services/dish_service.py:48-61 | setting or deleting any `dish_` key never changes what a dish read returns |
| ReadThrough.MenuFillKeepsInv | app/services/menu_service.py:84-87 | storing a menu snapshot on a miss keeps the invariant |
| ReadThrough.SubmenuFillKeepsInv | app/services/submenu_service.py:79-82 | storing a submenu snapshot on a miss keeps the invariant |
| ReadThrough.DishFillKeepsInv | app/services/dish_service.py:61 | storing a dish snapshot on a miss keeps the invariant |
| ReadThrough.MenuDetailsListAll | app/services/menu_service.py:56-61 | listing existing menus from the tables gives one entry per id, in order, each its details; used by the corrected listing (see Findings) |
| ReadThrough.SubmenuDetailsListAll | app/services/submenu_service.py:52-57 | the same for submenus |
| ReadThrough.MenuScanTransparent | app/services/menu_service.py:53-62 | under the invariant the cached menu listing equals the listing from the tables and keeps the invariant; the loop is reached only in the corrected listing (see Findings) |
| ReadThrough.SubmenuScanTransparent | app/services/submenu_service.py:47-59 | the same for submenus whose ids are not menus' |
| ReadThrough.DishScanTransparent | app/services/dish_service.py:35-45 | the same for dishes whose ids are not menus' |
| Invalidation.AddMenuSources | app/services/menu_service.py:90-92 | a new menu changes what no existing key's snapshot depends on |
| Invalidation.AddSubmenuSources | app/services/submenu_service.py:85-90 | a new submenu of menu m changes the sources of no key except `menu_<m>` |
| Invalidation.AddDishSources | app/services/dish_service.py:64-70 | a new dish of submenu s changes the sources of no key except `menu_<menu of s>` and `submenu_<s>` |
| Invalidation.SetMenuSources | app/services/menu_service.py:94-99 | editing menu m changes the sources of no key except `menu_<m>` |
| Invalidation.SetSubmenuSources | app/services/submenu_service.py:92-97 | editing submenu s changes the sources of no key except `submenu_<s>` |
| Invalidation.SetDishSources | app/services/dish_service.py:72-76 | editing dish d changes the sources of no key except `dish_<d>` |
| Invalidation.RemoveMenuSources | app/services/menu_service.py:101-117 | deleting menu m leaves every other key's sources unchanged where its entity survives |
| Invalidation.RemoveMenuOtherMenu | app/database/models.py:40 | the cascade from one menu leaves every other menu's submenus and dishes alone |
| Invalidation.RemoveSubmenuSources | app/services/submenu_service.py:99-110 | deleting submenu s leaves the sources of every key but its menu's unchanged where the entity survives |
| Invalidation.RemoveSubmenuOtherMenu | app/database/models.py:56 | deleting a submenu leaves the children of every other menu alone |
| Invalidation.RemoveDishSources | app/services/dish_service.py:78-86 | deleting a dish leaves every key but its menu's and submenu's unchanged |
| Invalidation.CreateMenuKeepsInv | app/services/menu_service.py:90-92 | creating a menu with no key deleted keeps the invariant |
| Invalidation.CreateSubmenuKeepsInv | app/services/submenu_service.py:85-90 | creating a submenu and deleting `menu_<m>` keeps the invariant |
| Invalidation.CreateDishKeepsInv | app/services/dish_service.py:64-70 | creating a dish and deleting its menu's and submenu's keys keeps the invariant |
| Invalidation.UpdateMenuKeepsInv | app/services/menu_service.py:94-99 | updating a menu and deleting only `menu_<id>` keeps the invariant |
| Invalidation.UpdateSubmenuKeepsInv | app/services/submenu_service.py:92-97 | updating a submenu and deleting only `submenu_<id>` keeps the invariant |
| Invalidation.UpdateDishKeepsInv | app/services/dish_service.py:72-76 | updating a dish and deleting only `dish_<id>` keeps the invariant |
| Invalidation.DeleteMenuKeepsInv | app/services/menu_service.py:101-117 | deleting a menu and the keys of the menu, its former submenus and dishes keeps the invariant |
| Invalidation.DeleteSubmenuKeepsInv | app/services/submenu_service.py:99-110 | deleting a submenu and its menu's key and its former dishes' keys keeps the invariant, although `submenu_<id>` stays: its entity is gone |
| Invalidation.DeleteDishKeepsInv | app/services/dish_service.py:78-86 | deleting a dish and its ancestry's three keys keeps the invariant |
| MenuService.MenuService.GetMenuDetails | app/services/menu_service.py:23-43 | the menu's columns with the number of its submenus and of the dishes under them, or None iff the menu is absent |
| MenuService.MenuService.IsMenuExists | app/services/menu_service.py:45-51 | on an id: true iff a menu has it; on a title: true iff a menu has it |
| MenuService.MenuService.GetMenuById | app/services/menu_service.py:64-88 | returns the cached snapshot on a hit; on a miss returns the details query and caches it under `menu_<id>` iff the menu exists |
| MenuService.MenuService.GetAllMenus | app/services/menu_service.py:53-55 | as written, every call raises TypeError: the repository's `get_all` is called without its required `item_id`, so no menu is read and no key is cached |
| MenuService.MenuService.GetAllMenusCorrected | app/services/menu_service.py:53-62 | with `item_id` passed, reads every menu through the cache in the repository's order, skipping None results, as the listing function over some enumeration of the menus |
| MenuService.MenuService.CreateMenu | app/services/menu_service.py:90-92 | as written, every call raises TypeError: the repository's `create` is called without its required `item_id`, so nothing is stored |
| MenuService.MenuService.CreateMenuCorrected | app/services/menu_service.py:90-92 | with `item_id` passed, the repository's create: a new menu iff the title is free, and no cache key changes |
| MenuService.MenuService.UpdateMenu | app/services/menu_service.py:94-99 | the repository's update; on success deletes only `menu_<id>` |
| MenuService.MenuService.DeleteMenu | app/services/menu_service.py:101-117 | AttributeError with nothing changed for an absent menu; otherwise cascades and deletes `menu_<id>` and every former `submenu_` and `dish_` key of the subtree |
| MenuService.CollectDishes | app/services/menu_service.py:103-105 | the dishes gathered from the listed submenus are exactly the dishes of those submenus |
| SubmenuService.SubmenuService.GetSubmenuDetails | app/services/submenu_service.py:23-36 | the submenu's columns with the number of its dishes, or None iff absent |
| SubmenuService.SubmenuService.IsSubmenuExistsInMenu | app/services/submenu_service.py:38-40 | true iff the submenu exists and its `menu_id` is the given menu |
| SubmenuService.SubmenuService.IsSubmenuExists | app/services/submenu_service.py:42-45 | by id or by title, true iff such a submenu exists |
| SubmenuService.SubmenuService.GetSubmenuById | app/services/submenu_service.py:61-83 | probes `menu_<id>`; on a miss returns the details query and stores it under `submenu_<id>` iff the submenu exists |
| SubmenuService.SubmenuService.GetAllSubmenus | app/services/submenu_service.py:47-59 | reads every submenu of the menu through the cache, skipping None results |
| SubmenuService.SubmenuService.CreateSubmenu | app/services/submenu_service.py:85-90 | the repository's create; deletes `menu_<menu_id>` iff creation succeeded |
| SubmenuService.SubmenuService.UpdateSubmenu | app/services/submenu_service.py:92-97 | the repository's update; on success deletes only `submenu_<id>` |
| SubmenuService.SubmenuService.DeleteSubmenu | app/services/submenu_service.py:99-110 | AttributeError with nothing changed when absent; otherwise deletes the submenu and its dishes and the keys of its menu and former dishes, leaving `submenu_<id>` |
| DishService.DishService.IsDishExists | app/services/dish_service.py:24-27 | by id or by title, true iff such a dish exists |
| DishService.DishService.IsDishExistsInSubmenu | app/services/dish_service.py:29-33 | true iff the dish exists and its `submenu_id` is the given submenu |
| DishService.DishService.GetDishById | app/services/dish_service.py:47-62 | probes `menu_<id>`; a hit cannot rebuild a dish; on a miss returns the rendered dish and stores it under `dish_<id>`, or None for an absent dish |
| DishService.DishService.GetAllDishes | app/services/dish_service.py:35-45 | reads every dish of the submenu through the cache, skipping None results |
| DishService.DishService.CreateDish | app/services/dish_service.py:64-70 | the repository's create; on success deletes `menu_<menu of submenu>` and `submenu_<submenu_id>`, otherwise no key |
| DishService.DishService.UpdateDish | app/services/dish_service.py:72-76 | the repository's update; on success deletes only `dish_<id>` |
| DishService.DishService.DeleteDish | app/services/dish_service.py:78-86 | AttributeError with nothing changed when absent; otherwise deletes the dish and its `menu_`, `submenu_` and `dish_` keys |
| MenuRouter.CreateMenu | app/routers/menu_router.py:26-38 | 400 "menu exists" with the tables unchanged when the title is taken; otherwise 201 with a new menu carrying the payload |
| MenuRouter.ReadMenu | app/routers/menu_router.py:41-68 | 404 "menu not found" iff absent; otherwise 200 with the menu's submenu count and total dish count |
| MenuRouter.ReadMenus | app/routers/menu_router.py:71-94 | 200 with one entry per menu, each with its details (`[]` on an empty table) |
| MenuRouter.UpdateMenu | app/routers/menu_router.py:97-114 | 404 when absent; a commit the title constraint rejects gives a server error; otherwise every payload field is overwritten and the id kept |
| MenuRouter.DeleteMenu | app/routers/menu_router.py:117-128 | 404 when absent; otherwise 200 with the deleted row and the menu removed with its cascade |
| SubmenuRouter.CreateSubmenu | app/routers/submenu_router.py:13-28 | "menu not found" (404) is checked before "submenu exists" (400); a created submenu belongs to the path's menu |
| SubmenuRouter.ReadSubmenu | app/routers/submenu_router.py:31-49 | 404 only when the submenu is absent, whatever the path's menu; the count is the number of its dishes |
| SubmenuRouter.ReadSubmenus | app/routers/submenu_router.py:52-75 | 404 when the menu is absent; otherwise exactly the menu's submenus, each with its dish count |
| SubmenuRouter.UpdateSubmenu | app/routers/submenu_router.py:78-99 | "menu not found", then "submenu not found" when absent or in another menu, then a server error on a title clash; otherwise the fields are overwritten |
| SubmenuRouter.DeleteSubmenu | app/routers/submenu_router.py:102-120 | after the same guards removes the submenu and all its dishes, leaving it with no dishes to list |
| DishRouter.DishAnswer | app/routers/dish_router.py:71 | a service read that returns a dish answers 200 with it, and any other outcome a server error |
| DishRouter.GuardChain | app/routers/dish_router.py:59-69 | the first failing check among menu, submenu-in-menu and dish-in-submenu, with its 404 detail; none fails iff the dish lies on the path |
| DishRouter.CreateDish | app/routers/dish_router.py:23-42 | checks menu (404), submenu existence only (404), free title (400 "dish exists"), then creates under the submenu even when it belongs to another menu |
| DishRouter.ReadDish | app/routers/dish_router.py:52-71 | the guard chain, then the service's cached read; under the invariant the answer is the dish rendered from its row |
| DishRouter.ReadDishes | app/routers/dish_router.py:81-97 | 404 when the menu is absent; 200 with `[]` when the submenu is not in that menu; otherwise the cached dish listing |
| DishRouter.UpdateDish | app/routers/dish_router.py:107-127 | the three-step guard chain, then the update (a server error on a title clash) |
| DishRouter.DeleteDish | app/routers/dish_router.py:137-156 | the three-step guard chain, then the deletion with its three key deletions |
| App.EmptyCacheKeepsAppInv | app/main.py:43-46 | valid tables with an empty cache satisfy the application invariant |
| App.BypassKeepsAppInv | app/main.py:44-45 | a write from the menu or submenu router, which touches no cache key, keeps the invariant because only `dish_` keys are ever cached |
| App.DishScanAddsDishKeys | app/routers/dish_router.py:81-97 | the dish listing stores `dish_` keys only |
| App.Handle | app/main.py:43-46 | every request to the mounted application, whatever its outcome, keeps the tables valid and the cache coherent with them |
| Routing.Format | app/main.py:26 | template substitution succeeds iff every placeholder has a value; otherwise it fails naming a missing placeholder |
| Routing.FormatIgnoresExtraParams | app/main.py:26 | parameters the template does not name do not change the result |
| Routing.FormatConcat | app/main.py:26 | formatting a joined template joins the formatted parts |
| Routing.FirstNamed | app/main.py:24-25 | the index of the first route with that name, or None iff no route has it |
| Routing.FirstNamedIgnoresLater | app/main.py:24-25 | routes appended after a match never change the match |
| Routing.CustomAPIRouter.Reverse | app/main.py:23-27 | ValueError iff no route has the name; otherwise the first such route's template with the parameters substituted; the routes list is unchanged |
| Routing.ReverseReadSubmenu | app/main.py:44-46 | on the mounted routes, `read_submenu` reverses to `/api/v1/menus/<m>/submenus/<s>` |
| Routing.ReverseUnknownName | app/main.py:24-27 | on the mounted routes a name is found iff it is one of the fifteen endpoint names; every other name raises ValueError |
| Price.FormatPrice | app/services/dish_service.py:59 | a rendered price always has at least four characters, the third from the end being the decimal point |
| Price.ParseRender | app/services/dish_service.py:59 | rendering a price with at most 13 integer digits and reading it back gives the same sign and hundredths |
| Price.FormatPriceKeepsValue | app/services/dish_service.py:59 | the rendered text reads back to the same sign and hundredths as the stored text |
| Price.FormatPriceIdempotent | app/services/dish_service.py:59 | formatting is idempotent: a price that formats, formatted again, gives the same text |
| Price.FormatWholePrice | app/services/dish_service.py:59 | "100" is shown as "100.00" |
| Price.FormatOneDecimalPrice | app/services/dish_service.py:59 | "12.5" is shown as "12.50" |
| Price.FormatNegativeZero | app/services/dish_service.py:59 | "-0" is shown as "-0.00" |
| Price.FormatNonNumber | app/services/dish_service.py:59 | any text holding a character that no float literal can contain (a letter outside exponents, `inf` and `nan`, or punctuation other than a sign, a point or an underscore) has no rendering, so the read raises ValueError as `float` does |
| Price.FormatAbc | app/services/dish_service.py:59 | "abc" has no rendering |

## Findings

| source | as written | input that shows it | evidently intended | confidence | as-written member | corrected member |
|---|---|---|---|---|---|---|
| app/services/menu_service.py:55 | `get_all()` is called without the positional `item_id` that app/repositories/orm_repositories/menu_repository.py:12 requires | any call of `get_all_menus` raises TypeError | `get_all(None)`, listing every menu with its details | high (not executed) | MenuService.MenuService.GetAllMenus | MenuService.MenuService.GetAllMenusCorrected |
| app/services/menu_service.py:91 | `create(menu_data)` is called without the positional `item_id` that app/repositories/orm_repositories/menu_repository.py:33 requires | any call of `create_menu` raises TypeError | `create(menu_data, None)`, inserting the menu | high (not executed) | MenuService.MenuService.CreateMenu | MenuService.MenuService.CreateMenuCorrected |

The mounted menu router does not call these two service methods: it lists and
creates menus through the session directly. So the failures do not reach the
application.

## Left out

- The SQLAlchemy session, the engine and Postgres are left out. The tables are
  in-memory maps, and a commit the constraints reject is a `None` result.
  Connection failures, and the `print` in each `except`, are not modelled.
- After a failed commit the source does not roll back. The model commits
  nothing and leaves the session usable.
- The Redis client and pickle serialisation are left out. The cache is a map,
  and the pickle round trip is the identity.
- The services cache a pickled dict for menus and submenus, but the pickled
  scheme object itself for dishes. Only the difference in shape is modelled,
  as the exception a rebuild raises.
- Timestamps (`created_at`, `updated_at`) and their server defaults are left
  out.
- ORM lazy loading and how `session.delete` treats unloaded children are left
  out. A menu delete uses the database's `ON DELETE CASCADE`.
- UUID parsing and 422 validation of path ids and bodies are left out; they
  belong to the web framework.
- The pydantic schemas are folded into datatypes. `response_model` filtering
  of response bodies is not modelled: a created submenu's body still carries
  its `menu_id`.
- The abstract repository interface is left out: each repository is a
  concrete class.
- The unused module-level dish repository instance is left out.
- CORS, the uvicorn bootstrap and the FastAPI application object are left out.
  Only the route names, the route paths and the mount order are modelled.
- Test fixtures are left out.
- Concurrent requests are left out, including check-then-create races on
  titles and races between cache fills and invalidations. Each request runs
  alone.
- Price.FormatPrice: covers plain decimal literals only: an optional sign, at
  most 13 integer digits, and at most 2 fraction digits, where Python's
  `float` conversion and `:.2f` formatting are exact. Other text gives `None`,
  which the read path turns into ValueError. Exponents, `inf`/`nan`,
  underscores, surrounding whitespace, longer fractions that need rounding, and
  wider numbers that `float` can no longer represent exactly are not modelled.
- MenuService.MenuService.DeleteMenu: on an absent id, the source
  dereferences `None` and raises. The model returns AttributeError with
  nothing changed instead of requiring existence. The same holds for
  `SubmenuService.SubmenuService.DeleteSubmenu` and
  `DishService.DishService.DeleteDish`.
- The `except` branches of the details queries and the repositories' getters,
  which return `None` or `[]` on a database error, are not modelled, because
  the in-memory tables never fail.
- Cache keys are (kind, id) pairs rather than formatted strings. Formatting is
  injective, so no two keys collide in either form.
