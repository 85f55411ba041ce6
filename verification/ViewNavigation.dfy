/** lib/view-navigation.ts: the path of a view below a base path, and back. */
module ViewNavigation {
  import opened Wrappers
  import opened JsText

  predicate StartsWith(t: Text, prefix: Text) {
    prefix <= t
  }

  predicate EndsInSlash(t: Text) {
    t != [] && t[|t| - 1] == SLASH
  }

  function NormalizedBasePath(basePath: Text): (r: Text)
    ensures r != [] && r[0] == SLASH && EndsInSlash(r)
  {
    var leading := if basePath != [] && basePath[0] == SLASH then basePath else [SLASH] + basePath;
    if EndsInSlash(leading) then leading else leading + [SLASH]
  }

  function RoutedViewPath(basePath: Text, view: Text): Text {
    NormalizedBasePath(basePath) + view + [SLASH]
  }

  function ResolveRoutedView(pathname: Text, basePath: Text, views: seq<Text>): Option<Text> {
    var base := NormalizedBasePath(basePath);
    var path := if EndsInSlash(pathname) then pathname else pathname + [SLASH];
    if path == base || !StartsWith(path, base) then None
    else
      var candidate := path[|base|..|path| - 1];
      if candidate != [] && SLASH !in candidate && candidate in views then Some(candidate) else None
  }

  /** A view that routing can carry at all. */
  predicate Routable(view: Text, views: seq<Text>) {
    view != [] && SLASH !in view && view in views
  }

  /**
    * A pathname resolves to a view exactly when the view is routable and the pathname is, up to
    * one slash at the end, the path built for it.
    */
  lemma ResolvesToBuiltPath(pathname: Text, basePath: Text, views: seq<Text>, view: Text)
    ensures ResolveRoutedView(pathname, basePath, views) == Some(view) <==>
      (Routable(view, views)
       && (pathname == RoutedViewPath(basePath, view) || pathname + [SLASH] == RoutedViewPath(basePath, view)))
  {
    hide NormalizedBasePath;
    var base := NormalizedBasePath(basePath);
    var path := if EndsInSlash(pathname) then pathname else pathname + [SLASH];
    var built := RoutedViewPath(basePath, view);
    assert built[..|base|] == base && built[|base|..|built| - 1] == view;
    assert EndsInSlash(built);
    if ResolveRoutedView(pathname, basePath, views) == Some(view) {
      assert path[..|base|] == base;
      assert path == base + path[|base|..|path| - 1] + [SLASH];
    }
    if Routable(view, views) && pathname + [SLASH] == built {
      assert pathname == base + view;
      assert pathname[|pathname| - 1] == view[|view| - 1];
    }
  }

  /** Building and resolving give every routable view back, under any base path. */
  lemma RoutedRoundTrip(basePath: Text, views: seq<Text>, view: Text)
    ensures ResolveRoutedView(RoutedViewPath(basePath, view), basePath, views) == Some(view)
       <==> Routable(view, views)
  {
  }

  /** A built path is the base path given, between single slashes of its own or added, and the view. */
  lemma BuiltPath(basePath: Text, view: Text)
    ensures RoutedViewPath(basePath, view)
         == (if basePath != [] && basePath[0] == SLASH then [] else [SLASH]) + basePath
            + (if basePath == [] || basePath[|basePath| - 1] == SLASH then [] else [SLASH]) + view + [SLASH]
  {
    if basePath == [] {
      assert [SLASH] + basePath == [SLASH];
    }
  }

  /** Different views get different paths. */
  lemma RoutedPathInjective(basePath: Text, v: Text, w: Text)
    requires RoutedViewPath(basePath, v) == RoutedViewPath(basePath, w)
    ensures v == w
  {
    var base := NormalizedBasePath(basePath);
    var p, q := RoutedViewPath(basePath, v), RoutedViewPath(basePath, w);
    assert p[|base|..|p| - 1] == v && q[|base|..|q| - 1] == w;
  }
}
