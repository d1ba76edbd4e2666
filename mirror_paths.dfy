/**
 * The path and URL helpers of the site mirror: which links are assets, where
 * a downloaded URL is stored under the output directory, and whether a link
 * stays on the start URL's host.
 *
 * URLs arrive parsed (net/url is not modelled): a record of the parts the
 * helpers read. File paths follow path/filepath on a system whose separator
 * is '/': Join drops leading empty elements, joins with '/' and cleans the
 * result (repeated separators, "." and resolvable ".." elements removed).
 */
module MirrorPaths {
  import opened Wrappers
  import Text

  /** A parsed URL; `path` is already percent-decoded, as url.URL.Path is. */
  datatype Url = Url(scheme: string, host: string, path: string, rawQuery: string, fragment: string)

  // --------------------------------------------------------------- assets

  /** The endings of scripts, styles, images, fonts and icons. */
  const AssetSuffixes: seq<string> := [".js", ".css", ".png", ".jpg", ".jpeg", ".gif", ".svg", ".woff", ".ttf", ".ico"]

  /** A link is an asset when it ends, case-sensitively, in one of the asset suffixes. */
  function IsAsset(u: string): bool
  {
    Text.HasSuffix(u, ".js") || Text.HasSuffix(u, ".css")
    || Text.HasSuffix(u, ".png") || Text.HasSuffix(u, ".jpg")
    || Text.HasSuffix(u, ".jpeg") || Text.HasSuffix(u, ".gif")
    || Text.HasSuffix(u, ".svg") || Text.HasSuffix(u, ".woff")
    || Text.HasSuffix(u, ".ttf") || Text.HasSuffix(u, ".ico")
  }

  /** The ten tests are the list of asset suffixes. */
  lemma AssetSuffixList(u: string)
    ensures IsAsset(u) <==> exists k :: 0 <= k < |AssetSuffixes| && Text.HasSuffix(u, AssetSuffixes[k])
  {
    var a := AssetSuffixes;
    assert a[0] == ".js" && a[1] == ".css" && a[2] == ".png" && a[3] == ".jpg" && a[4] == ".jpeg";
    assert a[5] == ".gif" && a[6] == ".svg" && a[7] == ".woff" && a[8] == ".ttf" && a[9] == ".ico";
  }

  /** Only the end of a link decides: whatever comes before an asset name, it stays an asset. */
  lemma AssetWhateverPrefix(prefix: string, u: string)
    requires IsAsset(u)
    ensures IsAsset(prefix + u)
  {
    AssetSuffixList(u);
    AssetSuffixList(prefix + u);
    var k :| 0 <= k < |AssetSuffixes| && Text.HasSuffix(u, AssetSuffixes[k]);
    var e := AssetSuffixes[k];
    assert (prefix + u)[|prefix + u| - |e|..] == u[|u| - |e|..];
  }

  /** The test is on the raw link: a query string or an upper-case extension hides the asset. */
  lemma AssetTestIsLiteral()
    ensures IsAsset("/css/site.css") && !IsAsset("/css/site.css?v=2") && !IsAsset("/img/logo.PNG")
  {
    assert Text.HasSuffix("/css/site.css", ".css");
  }

  // --------------------------------------------------------------- paths

  /** A path element that names a file or directory: not empty, not "." or "..", no separator. */
  predicate IsName(e: string)
  {
    e != "" && e != "." && e != ".." && '/' !in e
  }

  predicate Rooted(p: string)
  {
    p != [] && p[0] == '/'
  }

  /** Clean's treatment of one element: skip empty and ".", let ".." remove the name before it. */
  function Step(names: seq<string>, e: string, rooted: bool): seq<string>
  {
    if e == "" || e == "." then names
    else if e == ".." then
      if |names| > 0 && names[|names| - 1] != ".." then names[..|names| - 1]
      else if rooted then names
      else names + [".."]
    else names + [e]
  }

  function Normalize(names: seq<string>, elems: seq<string>, rooted: bool): seq<string>
    decreases |elems|
  {
    if elems == [] then names else Normalize(Step(names, elems[0], rooted), elems[1..], rooted)
  }

  /** The elements a path keeps once cleaned. */
  function Names(p: string): seq<string>
  {
    Normalize([], Text.SplitOn(p, "/"), Rooted(p))
  }

  /** How a cleaned path is written: rooted or not, "." for an empty relative path. */
  function Render(rooted: bool, names: seq<string>): string
  {
    if rooted then "/" + Text.Join(names, "/")
    else if names == [] then "."
    else Text.Join(names, "/")
  }

  /** filepath.Clean. */
  function Clean(p: string): string
  {
    Render(Rooted(p), Names(p))
  }

  /** filepath.Join: leading empty elements are dropped; nothing left gives "". */
  function JoinPath(elems: seq<string>): string
    decreases |elems|
  {
    if elems == [] then ""
    else if elems[0] == "" then JoinPath(elems[1..])
    else Clean(Text.Join(elems, "/"))
  }

  /** The URL path with "index.html" added when it is empty or names a directory. */
  function IndexPath(path: string): string
  {
    if path == "" || Text.HasSuffix(path, "/") then path + "index.html" else path
  }

  /** Where the mirror stores the URL: the output directory, the host, then the path. */
  function URLToFilePath(u: Url, base: Url, outDir: string): string
  {
    JoinPath([outDir, u.host, IndexPath(u.path)])
  }

  /** The path ends in the name e: it is e, or e after a separator. */
  predicate EndsWithName(s: string, e: string)
  {
    IsName(e) && (s == e || Text.HasSuffix(s, "/" + e))
  }

  lemma {:induction false} NormalizeAppend(names: seq<string>, a: seq<string>, b: seq<string>, rooted: bool)
    ensures Normalize(names, a + b, rooted) == Normalize(Normalize(names, a, rooted), b, rooted)
    decreases |a|
  {
    if a == [] {
      assert a + b == b;
    } else {
      assert (a + b)[0] == a[0] && (a + b)[1..] == a[1..] + b;
      assert Normalize(names, a + b, rooted) == Normalize(Step(names, a[0], rooted), a[1..] + b, rooted);
      NormalizeAppend(Step(names, a[0], rooted), a[1..], b, rooted);
    }
  }

  /** Names are kept as they are, in order. */
  lemma {:induction false} NormalizeNames(names: seq<string>, elems: seq<string>, rooted: bool)
    requires forall k :: 0 <= k < |elems| ==> IsName(elems[k])
    ensures Normalize(names, elems, rooted) == names + elems
    decreases |elems|
  {
    if elems != [] {
      assert Step(names, elems[0], rooted) == names + [elems[0]];
      NormalizeNames(names + [elems[0]], elems[1..], rooted);
      assert names + [elems[0]] + elems[1..] == names + elems;
    }
  }

  /** Cleaning a rooted path leaves only names: a ".." at the root is dropped. */
  lemma {:induction false} NormalizeRooted(names: seq<string>, elems: seq<string>)
    requires forall k :: 0 <= k < |names| ==> IsName(names[k])
    requires forall k :: 0 <= k < |elems| ==> '/' !in elems[k]
    ensures var r := Normalize(names, elems, true); forall k :: 0 <= k < |r| ==> IsName(r[k])
    decreases |elems|
  {
    if elems != [] {
      var next := Step(names, elems[0], true);
      assert forall k :: 0 <= k < |next| ==> IsName(next[k]);
      NormalizeRooted(next, elems[1..]);
      assert Normalize(names, elems, true) == Normalize(next, elems[1..], true);
    }
  }

  /** The first rune either ends the first piece (a separator) or starts it. */
  lemma SplitCons(c: char, t: string)
    ensures var rest := Text.SplitOn(t, "/");
      Text.SplitOn([c] + t, "/") == if c == '/' then [[]] + rest else [[c] + rest[0]] + rest[1..]
  {
    var s := [c] + t;
    assert s[0] == c && s[1..] == t;
    if c == '/' {
      assert Text.HasPrefix(s, "/");
    } else {
      assert !Text.HasPrefix(s, "/");
    }
  }

  /** Splitting at a separator splits the two sides independently. */
  lemma {:induction false} SplitAtSeparator(x: string, y: string)
    ensures Text.SplitOn(x + "/" + y, "/") == Text.SplitOn(x, "/") + Text.SplitOn(y, "/")
    decreases |x|
  {
    if x == [] {
      assert x + "/" + y == ['/'] + y;
      SplitCons('/', y);
      assert Text.SplitOn(x, "/") == [[]];
    } else {
      SplitAtSeparator(x[1..], y);
      SplitAtSeparatorStep(x[0], x[1..], y);
      assert x == [x[0]] + x[1..];
    }
  }

  lemma SplitAtSeparatorStep(c: char, t: string, y: string)
    requires Text.SplitOn(t + "/" + y, "/") == Text.SplitOn(t, "/") + Text.SplitOn(y, "/")
    ensures Text.SplitOn([c] + t + "/" + y, "/") == Text.SplitOn([c] + t, "/") + Text.SplitOn(y, "/")
  {
    var rest := t + "/" + y;
    assert [c] + t + "/" + y == [c] + rest;
    SplitCons(c, rest);
    SplitCons(c, t);
    var inner, ys := Text.SplitOn(t, "/"), Text.SplitOn(y, "/");
    if c == '/' {
      assert [[]] + (inner + ys) == ([[]] + inner) + ys;
    } else {
      MergeHead([c], inner, ys);
    }
  }

  /** Extending the first piece commutes with appending more pieces. */
  lemma MergeHead(p: string, inner: seq<string>, ys: seq<string>)
    requires inner != []
    ensures var r := inner + ys; [p + r[0]] + r[1..] == ([p + inner[0]] + inner[1..]) + ys
  {
    assert (inner + ys)[1..] == inner[1..] + ys;
  }

  lemma {:induction false} JoinSnoc(parts: seq<string>, e: string)
    ensures Text.Join(parts + [e], "/") == if parts == [] then e else Text.Join(parts, "/") + "/" + e
    decreases |parts|
  {
    if |parts| > 1 {
      JoinSnoc(parts[1..], e);
      assert (parts + [e])[1..] == parts[1..] + [e];
    } else if |parts| == 1 {
      assert (parts + [e])[1..] == [e];
    }
  }

  /** A string without a separator is one piece. */
  lemma SplitPlain(e: string)
    requires '/' !in e
    ensures Text.SplitOn(e, "/") == [e]
  {
    Text.ContainsRune(e, '/');
    Text.SplitWithoutSep(e, "/");
  }

  /** A path ending in a name splits into the elements before it and then that name. */
  lemma SplitEndsWithName(s: string, e: string) returns (front: seq<string>)
    requires EndsWithName(s, e)
    ensures Text.SplitOn(s, "/") == front + [e]
  {
    SplitPlain(e);
    if s == e {
      front := [];
    } else {
      var z := s[..|s| - |e| - 1];
      assert s == z + "/" + e;
      SplitAtSeparator(z, e);
      front := Text.SplitOn(z, "/");
    }
  }

  /** Cleaning keeps a final name. */
  lemma CleanKeepsName(s: string, e: string)
    requires EndsWithName(s, e)
    ensures EndsWithName(Clean(s), e)
  {
    var front := SplitEndsWithName(s, e);
    var rooted := Rooted(s);
    NormalizeAppend([], front, [e], rooted);
    var names := Normalize([], front, rooted);
    assert Names(s) == names + [e];
    JoinSnoc(names, e);
  }

  /** Joining keeps the final name of the last element. */
  lemma {:induction false} JoinPathKeepsName(elems: seq<string>, e: string)
    requires elems != [] && EndsWithName(elems[|elems| - 1], e)
    ensures EndsWithName(JoinPath(elems), e)
    decreases |elems|
  {
    if elems[0] == "" {
      JoinPathKeepsName(elems[1..], e);
    } else {
      var front := elems[..|elems| - 1];
      var last := elems[|elems| - 1];
      assert elems == front + [last];
      JoinSnoc(front, last);
      CleanKeepsName(Text.Join(elems, "/"), e);
    }
  }

  /** A URL whose path ends in a file name is stored under that file name. */
  lemma FileNameKept(u: Url, base: Url, outDir: string, e: string)
    requires EndsWithName(u.path, e)
    ensures EndsWithName(URLToFilePath(u, base, outDir), e)
  {
    var p := u.path;
    assert p[|p| - 1] == e[|e| - 1] && e[|e| - 1] in e;
    assert IndexPath(p) == p;
    JoinPathKeepsName([outDir, u.host, u.path], e);
  }

  /** A URL with an empty path or a path ending in '/' is stored as index.html. */
  lemma DirectoryGetsIndex(u: Url, base: Url, outDir: string)
    requires u.path == "" || Text.HasSuffix(u.path, "/")
    ensures EndsWithName(URLToFilePath(u, base, outDir), "index.html")
  {
    var p := IndexPath(u.path);
    assert u.path != "" ==> p[|p| - |"/index.html"|..] == "/index.html";
    JoinPathKeepsName([outDir, u.host, p], "index.html");
  }

  /**
   * Only the host and the path decide the file: the base URL is not read, and
   * URLs differing in scheme, query or fragment share one file.
   */
  lemma OnlyHostAndPathMatter(u: Url, v: Url, base1: Url, base2: Url, outDir: string)
    requires u.host == v.host && u.path == v.path
    ensures URLToFilePath(u, base1, outDir) == URLToFilePath(v, base2, outDir)
  {
  }

  // ------------------------------------------------- leaving the mirror

  /** A "../" path from the host "h" lands outside the output directory "m". */
  lemma DotSegmentsEscape()
    ensures Names("m") == ["m"]
    ensures URLToFilePath(Url("https", "h", "/../../x", "", ""), Url("https", "h", "/", "", ""), "m") == "x"
  {
    SplitPlain("m");
    assert Normalize([], ["m"], false) == ["m"];
    var joined := Text.Join(["m", "h", "/../../x"], "/");
    EscapeJoined();
    EscapeSplit();
    assert !Rooted(joined);
    EscapeNormalize();
    assert Names(joined) == ["x"];
  }

  lemma EscapeNormalize()
    ensures Normalize([], ["m", "h", "", "..", "..", "x"], false) == ["x"]
  {
    var l := ["m", "h", "", "..", "..", "x"];
    assert Normalize([], l, false) == Normalize(["m"], l[1..], false);
    assert l[1..] == ["h", "", "..", "..", "x"];
    assert Normalize(["m"], l[1..], false) == Normalize(["m", "h"], l[2..], false);
    assert l[2..] == ["", "..", "..", "x"];
    assert Normalize(["m", "h"], l[2..], false) == Normalize(["m", "h"], l[3..], false);
    assert l[3..] == ["..", "..", "x"];
    assert Normalize(["m", "h"], l[3..], false) == Normalize(["m"], l[4..], false);
    assert l[4..] == ["..", "x"];
    assert Normalize(["m"], l[4..], false) == Normalize([], l[5..], false);
    assert l[5..] == ["x"];
  }

  lemma EscapeJoined()
    ensures Text.Join(["m", "h", "/../../x"], "/") == "m" + "/" + ("h" + "/" + ("" + "/" + (".." + "/" + (".." + "/" + "x"))))
  {
    assert ["m", "h", "/../../x"][1..] == ["h", "/../../x"];
  }

  lemma EscapeSplit()
    ensures Text.SplitOn("m" + "/" + ("h" + "/" + ("" + "/" + (".." + "/" + (".." + "/" + "x")))), "/") == ["m", "h", "", "..", "..", "x"]
  {
    var c := "" + "/" + (".." + "/" + (".." + "/" + "x"));
    var d := "h" + "/" + c;
    EscapeSplitTail();
    Text.SplitRuneFirst("h", '/', c);
    assert Text.SplitOn(d, "/") == ["h", "", "..", "..", "x"];
    Text.SplitRuneFirst("m", '/', d);
  }

  lemma EscapeSplitTail()
    ensures Text.SplitOn("" + "/" + (".." + "/" + (".." + "/" + "x")), "/") == ["", "..", "..", "x"]
  {
    var a := ".." + "/" + "x";
    var b := ".." + "/" + a;
    SplitPlain("x");
    Text.SplitRuneFirst("..", '/', "x");
    assert Text.SplitOn(a, "/") == ["..", "x"];
    Text.SplitRuneFirst("..", '/', a);
    assert Text.SplitOn(b, "/") == ["..", "..", "x"];
    Text.SplitRuneFirst("", '/', b);
  }

  /** The names of the URL's host and path, cleaned as a rooted path so that no ".." survives. */
  function RelNames(u: Url): (names: seq<string>)
    ensures forall k :: 0 <= k < |names| ==> IsName(names[k])
  {
    var p := "/" + u.host + "/" + IndexPath(u.path);
    var elems := Text.SplitOn(p, "/");
    Text.SplitRunePieces(p, '/');
    assert forall k :: 0 <= k < |elems| ==> elems[k] in elems;
    assert forall k :: 0 <= k < |elems| ==> '/' !in elems[k];
    NormalizeRooted([], elems);
    assert Rooted(p);
    assert Names(p) == Normalize([], elems, true);
    Names(p)
  }

  /** The storage path with the URL's part cleaned on its own first. */
  function SafeFilePath(u: Url, outDir: string): string
  {
    JoinPath([outDir, Text.Join(RelNames(u), "/")])
  }

  /** A stored file always lies inside the output directory: its cleaned path extends the directory's by names only. */
  lemma SafeStaysInside(u: Url, outDir: string)
    requires outDir != ""
    ensures SafeFilePath(u, outDir) == Render(Rooted(outDir), Names(outDir) + RelNames(u))
  {
    var rel := RelNames(u);
    var relText := Text.Join(rel, "/");
    var s := outDir + "/" + relText;
    assert Text.Join([outDir, relText], "/") == s;
    SplitAtSeparator(outDir, relText);
    NormalizeAppend([], Text.SplitOn(outDir, "/"), Text.SplitOn(relText, "/"), Rooted(outDir));
    assert s[0] == outDir[0];
    assert Rooted(s) == Rooted(outDir);
    if rel == [] {
      assert Text.SplitOn(relText, "/") == [""];
      assert Normalize(Names(outDir), [""], Rooted(outDir)) == Names(outDir) + rel;
    } else {
      forall p | p in rel
        ensures '/' !in p
      {
        var k :| 0 <= k < |rel| && rel[k] == p;
      }
      Text.SplitJoinRune(rel, '/');
      NormalizeNames(Names(outDir), rel, Rooted(outDir));
    }
  }

  // --------------------------------------------------------------- hosts

  /** A link is followed when it parses and its host is the start URL's host, whatever the scheme. */
  function SameDomain(parsed: Option<Url>, base: Url): (r: bool)
    ensures r ==> parsed.Some?
  {
    match parsed
    case None => false
    case Some(u) => u.host == base.host
  }

  /** Same domain is host equality: scheme, path, query and fragment play no part, and every URL is on its own domain. */
  lemma SameDomainIsSameHost(u: Url, v: Url, base: Url)
    ensures SameDomain(Some(u), base) <==> u.host == base.host
    ensures SameDomain(Some(u), u)
    ensures u.host == v.host ==> SameDomain(Some(u), base) == SameDomain(Some(v), base)
  {
  }
}
