/** The URL utilities: splitting a URL into protocol, host and path (`ineturl_split`)
    and resolving a redirect target against the URL it came from (`ineturl_get_absurl`).
    Both are the simplified forms the library uses, not RFC 3986: the scheme test is a
    case-sensitive `http://` and the host is assumed to start at offset 7. */
module UrlUtil {
  import opened Text

  datatype Parts = Parts(protocol: seq<Byte>, host: seq<Byte>, path: seq<Byte>)

  /** `ineturl_split`. */
  function Split(url: seq<Byte>): Parts
  {
    var p := FindFrom(url, "://", 0);
    var protocol := if p >= 0 then url[..p] else "http";
    var start := if p >= 0 then p + 3 else 0;
    var slash := FindFrom(url, "/", start);
    if slash >= 0 then Parts(protocol, url[start..slash], url[slash..])
    else Parts(protocol, url[start..], "/")
  }

  ghost predicate HasScheme(url: seq<Byte>)
  {
    exists i :: OccursAt(url, "://", i)
  }

  /** The protocol is the text before the first `://`, or `http` when there is none. */
  lemma SplitProtocol(url: seq<Byte>)
    ensures var r := Split(url);
      && (HasScheme(url) ==>
            |r.protocol| + 3 <= |url| && url[..|r.protocol| + 3] == r.protocol + "://" &&
            forall i :: 0 <= i < |r.protocol| ==> !OccursAt(url, "://", i))
      && (!HasScheme(url) ==> r.protocol == "http")
  {
    var p := FindFrom(url, "://", 0);
    FindFromFirst(url, "://", 0);
    if HasScheme(url) {
      var i :| OccursAt(url, "://", i);
      assert p >= 0;
      assert url[..p + 3] == url[..p] + url[p..p + 3];
    } else {
      assert p == -1;
    }
  }

  /** What follows the scheme (or the whole URL) is the host, up to the first `/`, then the
      path: host ++ path is that remainder when it holds a `/`; otherwise the host is all of
      it and the path is `/`. */
  lemma SplitHostPath(url: seq<Byte>)
    ensures var r := Split(url);
      var pre := if HasScheme(url) then r.protocol + "://" else [];
      && |pre| <= |url| && url[..|pre|] == pre
      && '/' !in r.host
      && |r.path| > 0 && r.path[0] == '/'
      && ('/' in url[|pre|..] ==> url[|pre|..] == r.host + r.path)
      && ('/' !in url[|pre|..] ==> url[|pre|..] == r.host && r.path == "/")
  {
    var r := Split(url);
    SplitProtocol(url);
    var p := FindFrom(url, "://", 0);
    FindFromFirst(url, "://", 0);
    assert HasScheme(url) <==> p >= 0 by {
      if HasScheme(url) { var i :| OccursAt(url, "://", i); }
    }
    var start: nat := if p >= 0 then p + 3 else 0;
    var pre := if HasScheme(url) then r.protocol + "://" else [];
    assert |pre| == start && url[..start] == pre by {
      if p >= 0 { assert r.protocol == url[..p]; }
    }
    HostPathFrom(url, start);
    var slash := FindFrom(url, "/", start);
    assert r.host == (if slash >= 0 then url[start..slash] else url[start..]);
    assert r.path == (if slash >= 0 then url[slash..] else "/");
  }

  /** The host and path part of `Split`, from a given start offset. */
  lemma HostPathFrom(url: seq<Byte>, start: nat)
    requires start <= |url|
    ensures var slash := FindFrom(url, "/", start);
      var host := if slash >= 0 then url[start..slash] else url[start..];
      var path := if slash >= 0 then url[slash..] else "/";
      && '/' !in host
      && |path| > 0 && path[0] == '/'
      && ('/' in url[start..] ==> url[start..] == host + path)
      && ('/' !in url[start..] ==> url[start..] == host && path == "/")
  {
    var rest := url[start..];
    FindCharAt(url, '/', start);
    var slash := FindFrom(url, "/", start);
    if slash >= 0 {
      assert rest[slash - start] == '/';
      assert rest == url[start..slash] + url[slash..];
      assert forall j :: 0 <= j < slash - start ==> url[start..slash][j] == url[start + j];
    } else {
      assert forall j :: 0 <= j < |rest| ==> rest[j] == url[start + j];
    }
  }

  /** `ineturl_get_absurl`. */
  function AbsUrl(base: seq<Byte>, rel: seq<Byte>): seq<Byte>
  {
    if Sub(rel, 0, 7) == "http://" then rel
    else if |rel| > 0 && rel[0] == '/' then
      var first := FindFrom(base, "/", 7);
      if first >= 0 then base[..first] + rel else base + rel
    else
      var last := FindLast(base, '/');
      if last >= 7 then base[..last + 1] + rel else base + "/" + rel
  }

  predicate IsAbsolute(rel: seq<Byte>)
  {
    |rel| >= 7 && rel[..7] == "http://"
  }

  /** An absolute URL (its first seven characters are exactly `http://`) is kept as it is. */
  lemma AbsUrlAbsolute(base: seq<Byte>, rel: seq<Byte>)
    requires IsAbsolute(rel)
    ensures AbsUrl(base, rel) == rel
  {
  }

  /** A rooted reference replaces everything from the first `/` at or after offset 7 of
      the base (the base's path), or is appended to a base that has no such `/`. */
  lemma AbsUrlRooted(base: seq<Byte>, rel: seq<Byte>)
    requires !IsAbsolute(rel) && |rel| > 0 && rel[0] == '/'
    ensures exists k :: (0 <= k <= |base| && AbsUrl(base, rel) == base[..k] + rel &&
                         (forall i :: 7 <= i < k ==> base[i] != '/') &&
                         (k == |base| || (7 <= k && base[k] == '/')))
  {
    assert Sub(rel, 0, 7) != "http://" by {
      if |rel| >= 7 { assert Sub(rel, 0, 7) == rel[..7]; }
    }
    FindCharAt(base, '/', 7);
    var first := FindFrom(base, "/", 7);
    if first >= 0 {
      assert AbsUrl(base, rel) == base[..first] + rel;
    } else {
      assert AbsUrl(base, rel) == base[..|base|] + rel;
    }
  }

  /** Any other reference replaces what follows the base's last `/` when that `/` lies at
      offset 7 or later; otherwise a `/` is put between the base and the reference. */
  lemma AbsUrlRelative(base: seq<Byte>, rel: seq<Byte>)
    requires !IsAbsolute(rel) && !(|rel| > 0 && rel[0] == '/')
    ensures (exists k :: (7 <= k < |base| && base[k] == '/' &&
                          (forall i :: k < i < |base| ==> base[i] != '/') &&
                          AbsUrl(base, rel) == base[..k + 1] + rel))
      || ((forall i :: 7 <= i < |base| ==> base[i] != '/') && AbsUrl(base, rel) == base + "/" + rel)
  {
    assert Sub(rel, 0, 7) != "http://" by {
      if |rel| >= 7 { assert Sub(rel, 0, 7) == rel[..7]; }
    }
    var last := FindLast(base, '/');
    if last >= 7 {
      assert AbsUrl(base, rel) == base[..last + 1] + rel;
    } else {
      assert AbsUrl(base, rel) == base + "/" + rel;
    }
  }

  /** The first `/` at or after `from` is at `k`. */
  lemma FirstCharIs(s: seq<Byte>, c: Byte, from: nat, k: nat)
    requires from <= k < |s| && s[k] == c
    requires forall i :: from <= i < k ==> s[i] != c
    ensures FindFrom(s, [c], from) == k
  {
    FindCharAt(s, c, from);
  }

  /** A URL that starts with `http://` has its scheme separator at offset 4. */
  lemma SchemeAtFour(s: seq<Byte>)
    requires IsAbsolute(s)
    ensures FindFrom(s, "://", 0) == 4
  {
    FindFromFirst(s, "://", 0);
    assert OccursAt(s, "://", 4) by { assert s[4..7] == s[..7][4..7]; }
    forall i | 0 <= i < 4
      ensures !OccursAt(s, "://", i)
    {
      assert s[i] == s[..7][i] != ':';
      assert s[i..i + 3][0] == s[i];
    }
  }

  /** For a URL that starts with `http://`, the split host is the text from offset 7 up to
      the first `/` from there on. */
  lemma SplitHttpHost(s: seq<Byte>, k: nat)
    requires IsAbsolute(s) && 7 <= k <= |s|
    requires forall i :: 7 <= i < k ==> s[i] != '/'
    requires k == |s| || s[k] == '/'
    ensures Split(s).protocol == "http" && Split(s).host == s[7..k]
  {
    SchemeAtFour(s);
    assert s[..4] == "http" by { assert s[..4] == s[..7][..4]; }
    if k < |s| {
      FirstCharIs(s, '/', 7, k);
    } else {
      FindCharAt(s, '/', 7);
    }
  }

  /** Two `http://` URLs that agree up to the end of the first one's host, where the second
      one has a `/`, have the same split host. */
  lemma SameHost(base: seq<Byte>, r: seq<Byte>, k: nat)
    requires IsAbsolute(base) && 7 <= k <= |base| && k < |r|
    requires r[..k] == base[..k] && r[k] == '/'
    requires forall i :: 7 <= i < k ==> base[i] != '/'
    requires k == |base| || base[k] == '/'
    ensures Split(r).protocol == Split(base).protocol == "http"
    ensures Split(r).host == Split(base).host
  {
    assert r[..7] == r[..k][..7] == base[..k][..7] == base[..7];
    assert forall i :: 7 <= i < k ==> r[i] == r[..k][i] == base[..k][i] == base[i];
    SplitHttpHost(base, k);
    SplitHttpHost(r, k);
    assert r[7..k] == r[..k][7..] == base[..k][7..] == base[7..k];
  }

  /** Resolving a reference that is not absolute against an `http://` base keeps the base's
      protocol and host: a redirect to a relative location stays on the same origin. */
  lemma AbsUrlKeepsOrigin(base: seq<Byte>, rel: seq<Byte>)
    requires IsAbsolute(base) && !IsAbsolute(rel)
    ensures Split(AbsUrl(base, rel)).protocol == Split(base).protocol == "http"
    ensures Split(AbsUrl(base, rel)).host == Split(base).host
  {
    assert Sub(rel, 0, 7) != "http://" by {
      if |rel| >= 7 { assert Sub(rel, 0, 7) == rel[..7]; }
    }
    var r := AbsUrl(base, rel);
    FindCharAt(base, '/', 7);
    var first := FindFrom(base, "/", 7);
    var k := if first >= 0 then first else |base|;
    if |rel| > 0 && rel[0] == '/' {
      assert r == base[..k] + rel;
      assert r[k] == '/';
      SameHost(base, r, k);
    } else {
      var last := FindLast(base, '/');
      if last >= 7 {
        assert first >= 0 && first <= last;
        assert r == base[..last + 1] + rel;
        assert r[..k] == base[..last + 1][..k];
        SameHost(base, r, k);
      } else {
        assert first == -1;
        assert r == base + "/" + rel;
        assert r[..k] == base;
        SameHost(base, r, k);
      }
    }
  }

  /** A rooted reference becomes the whole path of the resolved URL. */
  lemma AbsUrlRootedPath(base: seq<Byte>, rel: seq<Byte>)
    requires IsAbsolute(base) && !IsAbsolute(rel) && |rel| > 0 && rel[0] == '/'
    ensures Split(AbsUrl(base, rel)).path == rel
  {
    assert Sub(rel, 0, 7) != "http://" by {
      if |rel| >= 7 { assert Sub(rel, 0, 7) == rel[..7]; }
    }
    var r := AbsUrl(base, rel);
    FindCharAt(base, '/', 7);
    var first := FindFrom(base, "/", 7);
    var k := if first >= 0 then first else |base|;
    assert r == base[..k] + rel;
    assert r[..7] == base[..7];
    assert forall i :: 7 <= i < k ==> r[i] == base[i];
    assert r[k] == '/';
    SchemeAtFour(r);
    FirstCharIs(r, '/', 7, k);
  }

  /** Without a `:` there is no scheme separator. */
  lemma NoSchemeWithoutColon(s: seq<Byte>)
    requires ':' !in s
    ensures FindFrom(s, "://", 0) == -1
  {
    forall i | 0 <= i && i + 3 <= |s|
      ensures !OccursAt(s, "://", i)
    {
      assert s[i..i + 3][0] == s[i] != ':';
    }
  }

  /** Worked case of the split: a scheme and a port. */
  lemma SplitExampleFull(u: seq<Byte>)
    requires u == "http://host:80/path"
    ensures Split(u) == Parts("http", "host:80", "/path")
  {
    assert u[..7] == "http://";
    assert u[14] == '/';
    assert forall i :: 7 <= i < 14 ==> u[i] != '/';
    SchemeAtFour(u);
    FirstCharIs(u, '/', 7, 14);
    assert Split(u) == Parts(u[..4], u[7..14], u[14..]);
    assert u[..4] == "http" && u[7..14] == "host:80" && u[14..] == "/path";
  }

  /** Worked case of the split: no scheme. */
  lemma SplitExampleNoScheme(u: seq<Byte>)
    requires u == "host/path"
    ensures Split(u) == Parts("http", "host", "/path")
  {
    NoSchemeWithoutColon(u);
    FirstCharIs(u, '/', 0, 4);
    assert Split(u) == Parts("http", u[0..4], u[4..]);
    assert u[0..4] == "host" && u[4..] == "/path";
  }

  /** Worked case of the split: no scheme and no path. */
  lemma SplitExampleHostOnly()
    ensures Split("host") == Parts("http", "host", "/")
  {
    NoSchemeWithoutColon("host");
    FindCharAt("host", '/', 0);
  }

  /** Worked case of the resolution: a relative reference replaces the last segment. */
  lemma AbsUrlExampleRelative(base: seq<Byte>)
    requires base == "http://a.com/x/y"
    ensures AbsUrl(base, "z") == "http://a.com/x/z"
  {
    assert FindLast(base, '/') == 14 by {
      assert base[14] == '/' && base[15] != '/';
    }
    assert base[..15] == "http://a.com/x/";
  }

  /** Worked case of the resolution: a rooted path replaces the whole path. */
  lemma AbsUrlExampleRooted(base: seq<Byte>)
    requires base == "http://a.com/x/y"
    ensures AbsUrl(base, "/z") == "http://a.com/z"
  {
    FirstCharIs(base, '/', 7, 12);
    assert base[..12] == "http://a.com";
  }

  /** Worked case of the resolution: an absolute URL is taken as it is. */
  lemma AbsUrlExampleAbsolute(base: seq<Byte>, rel: seq<Byte>)
    requires rel == "http://other/p"
    ensures AbsUrl(base, rel) == rel
  {
    assert Sub(rel, 0, 7) == rel[..7] == "http://";
  }
}
