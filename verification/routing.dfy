/** `CustomAPIRouter.reverse`: find the first route with a given name and
    substitute the given parameters into its path template. */
module Routing {
  import opened Wrappers

  /** A piece of a path template: literal text, or a `{name}` placeholder. */
  datatype Segment = Lit(text: string) | Param(name: string)

  datatype Route = Route(name: string, path: seq<Segment>)

  /** ValueError when no route has the name; KeyError for a placeholder with no value. */
  datatype RouteError = NoRoute(routeName: string) | MissingParam(param: string)

  /** The placeholder names a template uses. */
  function ParamNames(path: seq<Segment>): set<string> {
    set i | 0 <= i < |path| && path[i].Param? :: path[i].name
  }

  /** `str.format_map`: placeholders are filled left to right, and the first one
      with no value raises KeyError; extra values are ignored. */
  function Format(path: seq<Segment>, params: map<string, string>): (r: Result<string, RouteError>)
    ensures r.Success? <==> ParamNames(path) <= params.Keys
    ensures r.Failure? ==> r.error.MissingParam? && r.error.param in ParamNames(path) && r.error.param !in params
  {
    if path == [] then Success("")
    else
      var rest := Format(path[1..], params);
      assert ParamNames(path) == ParamNames(path[..1]) + ParamNames(path[1..]) by {
        forall n | n in ParamNames(path) ensures n in ParamNames(path[..1]) + ParamNames(path[1..]) {
          var i :| 0 <= i < |path| && path[i].Param? && path[i].name == n;
          if i > 0 {
            assert path[1..][i - 1] == path[i];
          }
        }
      }
      match path[0]
      case Lit(t) => if rest.Failure? then rest else Success(t + rest.value)
      case Param(n) =>
        if n !in params then Failure(MissingParam(n))
        else if rest.Failure? then rest
        else Success(params[n] + rest.value)
  }

  /** Values for names the template does not use change nothing. */
  lemma {:induction false} FormatIgnoresExtraParams(path: seq<Segment>, params: map<string, string>, k: string, v: string)
    requires k !in ParamNames(path)
    ensures Format(path, params[k := v]) == Format(path, params)
  {
    if path != [] {
      assert ParamNames(path[1..]) <= ParamNames(path) by {
        forall n | n in ParamNames(path[1..]) ensures n in ParamNames(path) {
          var i :| 0 <= i < |path[1..]| && path[1..][i].Param? && path[1..][i].name == n;
          assert path[i + 1] == path[1..][i];
        }
      }
      FormatIgnoresExtraParams(path[1..], params, k, v);
      if path[0].Param? {
        assert path[0].name in ParamNames(path);
      }
    }
  }

  /** Substitution works piece by piece: formatting a concatenated template
      concatenates the two results, and fails with the left part's error first. */
  lemma {:induction false} FormatConcat(a: seq<Segment>, b: seq<Segment>, params: map<string, string>)
    ensures Format(a + b, params)
         == if Format(a, params).Failure? then Format(a, params)
            else if Format(b, params).Failure? then Format(b, params)
            else Success(Format(a, params).value + Format(b, params).value)
  {
    if a == [] {
      assert a + b == b;
      if Format(b, params).Success? {
        assert "" + Format(b, params).value == Format(b, params).value;
      }
    } else {
      assert (a + b)[1..] == a[1..] + b;
      FormatConcat(a[1..], b, params);
      match a[0]
      case Lit(t) =>
        if Format(a, params).Success? && Format(b, params).Success? {
          assert t + (Format(a[1..], params).value + Format(b, params).value)
              == (t + Format(a[1..], params).value) + Format(b, params).value;
        }
      case Param(n) =>
        if Format(a, params).Success? && Format(b, params).Success? {
          assert params[n] + (Format(a[1..], params).value + Format(b, params).value)
              == (params[n] + Format(a[1..], params).value) + Format(b, params).value;
        }
    }
  }

  /** The index of the first route named `name`, if any. */
  function FirstNamed(routes: seq<Route>, name: string): (r: Option<nat>)
    ensures r.None? <==> forall i :: 0 <= i < |routes| ==> routes[i].name != name
    ensures r.Some? ==> && r.value < |routes| && routes[r.value].name == name
                        && forall j :: 0 <= j < r.value ==> routes[j].name != name
  {
    if routes == [] then None
    else if routes[0].name == name then Some(0)
    else match FirstNamed(routes[1..], name)
      case None => None
      case Some(i) => Some(i + 1)
  }

  /** Routes appended after a route named `name` do not change which one is found. */
  lemma FirstNamedIgnoresLater(routes: seq<Route>, more: seq<Route>, name: string)
    requires FirstNamed(routes, name).Some?
    ensures FirstNamed(routes + more, name) == FirstNamed(routes, name)
  {
    var i := FirstNamed(routes, name).value;
    assert forall j :: 0 <= j <= i ==> (routes + more)[j] == routes[j];
  }

  class CustomAPIRouter {
    var routes: seq<Route>

    constructor (routes: seq<Route>)
      ensures this.routes == routes
    {
      this.routes := routes;
    }

    /** The path of the first route named `routeName` with `params` substituted;
        ValueError when no route has that name. The route list is only read. */
    method Reverse(routeName: string, params: map<string, string>) returns (r: Result<string, RouteError>)
      ensures FirstNamed(routes, routeName).None? ==> r == Failure(NoRoute(routeName))
      ensures FirstNamed(routes, routeName).Some? ==> r == Format(routes[FirstNamed(routes, routeName).value].path, params)
    {
      for i := 0 to |routes|
        invariant forall j :: 0 <= j < i ==> routes[j].name != routeName
      {
        if routes[i].name == routeName {
          return Format(routes[i].path, params);
        }
      }
      r := Failure(NoRoute(routeName));
    }
  }

  const MenuPath: seq<Segment> := [Lit("/api/v1/menus/"), Param("menu_id")]
  const SubmenuPath: seq<Segment> := MenuPath + [Lit("/submenus/"), Param("submenu_id")]
  const DishPath: seq<Segment> := SubmenuPath + [Lit("/dishes/"), Param("dish_id")]

  /** The routes the application mounts, in order: the menu, submenu and dish
      routers under `/api/v1`, each route named after its endpoint. */
  const AppRoutes: seq<Route> := [
    Route("create_menu", [Lit("/api/v1/menus/")]),
    Route("read_menu", MenuPath),
    Route("read_menus", [Lit("/api/v1/menus/")]),
    Route("update_menu", MenuPath),
    Route("delete_menu", MenuPath),
    Route("create_submenu", MenuPath + [Lit("/submenus")]),
    Route("read_submenu", SubmenuPath),
    Route("read_submenus", MenuPath + [Lit("/submenus")]),
    Route("update_submenu", SubmenuPath),
    Route("delete_submenu", SubmenuPath),
    Route("create_dish", SubmenuPath + [Lit("/dishes")]),
    Route("read_dish", DishPath),
    Route("read_dishes", SubmenuPath + [Lit("/dishes")]),
    Route("update_dish", DishPath),
    Route("delete_dish", DishPath)
  ]

  /** Reversing `read_submenu` fills both ids into the submenu path. */
  lemma ReverseReadSubmenu(m: string, s: string)
    ensures FirstNamed(AppRoutes, "read_submenu") == Some(6)
    ensures Format(AppRoutes[6].path, map["menu_id" := m, "submenu_id" := s])
         == Success("/api/v1/menus/" + m + "/submenus/" + s)
  {
    var p := map["menu_id" := m, "submenu_id" := s];
    assert AppRoutes[6].name == "read_submenu";
    assert forall j :: 0 <= j < 6 ==> |AppRoutes[j].name| != |"read_submenu"|;
    assert Format([Param("menu_id")], p) == Success(m) by {
      assert [Param("menu_id")][1..] == [];
      assert m + "" == m;
    }
    assert Format(MenuPath, p) == Success("/api/v1/menus/" + m) by {
      assert MenuPath[1..] == [Param("menu_id")];
    }
    assert Format([Param("submenu_id")], p) == Success(s) by {
      assert [Param("submenu_id")][1..] == [];
      assert s + "" == s;
    }
    assert Format([Lit("/submenus/"), Param("submenu_id")], p) == Success("/submenus/" + s) by {
      assert [Lit("/submenus/"), Param("submenu_id")][1..] == [Param("submenu_id")];
    }
    FormatConcat(MenuPath, [Lit("/submenus/"), Param("submenu_id")], p);
    assert ("/api/v1/menus/" + m) + ("/submenus/" + s) == "/api/v1/menus/" + m + "/submenus/" + s;
  }

  /** The names of the mounted routes, in mount order. */
  const AppRouteNames: seq<string> := [
    "create_menu", "read_menu", "read_menus", "update_menu", "delete_menu",
    "create_submenu", "read_submenu", "read_submenus", "update_submenu", "delete_submenu",
    "create_dish", "read_dish", "read_dishes", "update_dish", "delete_dish"]

  lemma RouteNameAt(i: nat)
    requires i < |AppRoutes|
    ensures AppRoutes[i].name == AppRouteNames[i]
  {
    if i == 0 { } else if i == 1 { } else if i == 2 { } else if i == 3 { } else if i == 4 { } else if i == 5 { } else if i == 6 { } else if i == 7 { } else if i == 8 { } else if i == 9 { } else if i == 10 { } else if i == 11 { } else if i == 12 { } else if i == 13 { } else { }
  }

  /** On the mounted routes a name is found exactly when it is one of the fifteen
      endpoint names; any other name makes `reverse` raise ValueError, whatever
      the parameters. */
  lemma ReverseUnknownName(name: string)
    ensures FirstNamed(AppRoutes, name).None? <==> name !in AppRouteNames
  {
    if name in AppRouteNames {
      var i :| 0 <= i < |AppRouteNames| && AppRouteNames[i] == name;
      RouteNameAt(i);
    } else {
      forall i | 0 <= i < |AppRoutes| ensures AppRoutes[i].name != name {
        RouteNameAt(i);
      }
    }
  }
}
