/**
 Which request paths the session gate lets through without a session:
 an exact allowlist, three raw path prefixes and a set of static-file
 extensions compared without regard to letter case.
 */
module Paths {
  import opened Text

  /** The exact-match allowlist. `/logout` and `/` are not on it. */
  const PUBLIC_PATHS: seq<string> :=
    ["/login", "/login.html", "/cadastro.html", "/health", "/register", "/contact", "/favicon.ico"]

  /** The alternatives of `\.(css|js|png|jpg|jpeg|svg|ico|woff2?|ttf|map)$`. */
  const STATIC_EXTENSIONS: seq<string> :=
    ["css", "js", "png", "jpg", "jpeg", "svg", "ico", "woff", "woff2", "ttf", "map"]

  /**
   The case-insensitive extension regex. Without the `u` flag, JavaScript's
   `i` flag never folds a non-ASCII character onto an ASCII one, so an ASCII
   fold decides this test exactly.
   */
  predicate HasStaticExtension(p: string) {
    exists e | e in STATIC_EXTENSIONS :: EndsWith(Lower(p), "." + e)
  }

  /** The raw, case-sensitive prefix tests: `/jsonx` passes the `/js` one. */
  predicate HasStaticPrefix(p: string) {
    StartsWith(p, "/img") || StartsWith(p, "/css") || StartsWith(p, "/js")
  }

  /** `isPublic(reqPath)`: classify the path with its query string removed. */
  predicate IsPublic(reqPath: string) {
    var p := BeforeQuery(reqPath);
    p in PUBLIC_PATHS || HasStaticPrefix(p) || HasStaticExtension(p)
  }

  /** For a path without a query, public means exactly one of the three rules. */
  lemma IsPublicCases(p: string)
    requires '?' !in p
    ensures IsPublic(p) <==> p in PUBLIC_PATHS || HasStaticPrefix(p) || HasStaticExtension(p)
  {
    BeforeQueryNoQuery(p);
  }

  /** Only the text before the first `?` is looked at. */
  lemma QueryStringIgnored(p: string, q: string)
    requires '?' !in p
    ensures IsPublic(p + "?" + q) == IsPublic(p)
  {
    BeforeQueryDropsQuery(p, q);
    BeforeQueryNoQuery(p);
  }

  /** Classifying a path and classifying its query-free part agree. */
  lemma ClassifiesPathBeforeQuery(s: string)
    ensures IsPublic(s) == IsPublic(BeforeQuery(s))
  {
    BeforeQueryIdempotent(s);
  }

  /** Every allowlisted path is public. */
  lemma AllowlistIsPublic(p: string)
    requires p in PUBLIC_PATHS
    ensures IsPublic(p)
  {
    assert '?' !in p;
    BeforeQueryNoQuery(p);
  }

  /** Anything under `/img`, `/css` or `/js`, query or not, is public. */
  lemma StaticPrefixIsPublic(p: string)
    requires HasStaticPrefix(p)
    ensures IsPublic(p)
  {
    if StartsWith(p, "/img") {
      BeforeQueryKeepsPrefix(p, "/img");
    } else if StartsWith(p, "/css") {
      BeforeQueryKeepsPrefix(p, "/css");
    } else {
      BeforeQueryKeepsPrefix(p, "/js");
    }
  }

  /** A path ending in a listed extension, in any letter case, is public. */
  lemma StaticExtensionIsPublic(p: string, e: string)
    requires '?' !in p
    requires e in STATIC_EXTENSIONS
    requires EndsWith(Lower(p), "." + e)
    ensures IsPublic(p)
  {
    BeforeQueryNoQuery(p);
  }

  /** The site root is protected. */
  lemma RootIsProtected()
    ensures !IsPublic("/")
  {
    NotPublic("/");
  }

  /** `/logout` is missing from the allowlist, so it is protected too. */
  lemma LogoutIsProtected()
    ensures !IsPublic("/logout")
  {
    var p := "/logout";
    assert p[1] != "/img"[1] && p[1] != "/css"[1] && p[1] != "/js"[1];
    NotPublic(p);
  }

  /** `.html` is not a static extension, so `/index.html` is protected. */
  lemma IndexPageIsProtected()
    ensures !IsPublic("/index.html")
  {
    var p := "/index.html";
    assert p[2] != "/img"[2] && p[1] != "/css"[1] && p[1] != "/js"[1];
    assert p[1] != "/login.html"[1];
    NotPublic(p);
  }

  /** A page the rules do not mention, such as `/dashboard`, is protected. */
  lemma UnlistedPageIsProtected()
    ensures !IsPublic("/dashboard")
  {
    var p := "/dashboard";
    assert p[1] != "/img"[1] && p[1] != "/css"[1] && p[1] != "/js"[1];
    assert forall q | q in PUBLIC_PATHS :: p[1] != q[1];
    NotPublic(p);
  }

  /** The prefix test is case-sensitive, so `/JS/main` is protected. */
  lemma PrefixIsCaseSensitive()
    ensures !IsPublic("/JS/main")
  {
    var p := "/JS/main";
    assert p[1] != "/img"[1] && p[1] != "/css"[1] && p[1] != "/js"[1];
    assert forall q | q in PUBLIC_PATHS :: p[1] != q[1];
    NotPublic(p);
  }

  /** The raw prefix test lets `/jsonx` through. */
  lemma RawPrefixExample()
    ensures IsPublic("/jsonx")
  {
    StaticPrefixIsPublic("/jsonx");
  }

  /** An extension is recognised in any letter case: `/a/MAIN.CSS` is public. */
  lemma ExtensionInAnyCase(stem: string, ext: string)
    requires '?' !in stem && '?' !in ext
    requires Lower(ext) in STATIC_EXTENSIONS
    ensures IsPublic(stem + "." + ext)
  {
    var suffix := "." + ext;
    assert stem + "." + ext == stem + suffix;
    assert Lower(".") == [LowerChar('.')] == ".";
    LowerAppend(".", ext);
    SuffixMakesPublic(stem, suffix, Lower(ext));
  }

  /** Helper: a query-free path whose lower-cased suffix is `.` and a listed extension. */
  lemma SuffixMakesPublic(stem: string, suffix: string, e: string)
    requires '?' !in stem && '?' !in suffix
    requires e in STATIC_EXTENSIONS && Lower(suffix) == "." + e
    ensures IsPublic(stem + suffix)
  {
    LowerKeepsSuffix(stem, suffix);
    StaticExtensionIsPublic(stem + suffix, e);
  }

  /** A query string after an allowlisted path does not matter. */
  lemma QueryExample()
    ensures IsPublic("/login?next=/x")
  {
    var s := "/login?next=/x";
    assert s == "/login" + "?" + "next=/x";
    QueryStringIgnored("/login", "next=/x");
    AllowlistIsPublic("/login");
  }

  /** Helper for the examples: a path none of whose rules apply. */
  lemma NotPublic(p: string)
    requires '?' !in p
    requires p !in PUBLIC_PATHS && !HasStaticPrefix(p)
    requires |p| > 0 && LowerChar(p[|p| - 1]) !in "sgof2p"
    ensures !IsPublic(p)
  {
    BeforeQueryNoQuery(p);
    var l := Lower(p);
    assert l[|l| - 1] == LowerChar(p[|p| - 1]);
    forall e | e in STATIC_EXTENSIONS ensures !EndsWith(l, "." + e) {
      var suf := "." + e;
      assert suf[|suf| - 1] == e[|e| - 1];
      assert e[|e| - 1] in "sgof2p";
      assert l[|l| - 1] != suf[|suf| - 1];
    }
  }
}
