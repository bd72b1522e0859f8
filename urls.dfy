/** Where a reference found in a document points, and where a merged file
    is served from. */
module Urls {
  import opened Strings

  /** `get_url` once the base of the document is known (the `href` of its
      `<base>` element, or the directory of the requested path): an absolute
      `http://` reference is kept as it is; anything else is appended to the
      base with exactly one `/` between them. */
  function GetUrl(base: string, src: string): (r: string)
    ensures StartsWith(src, "http://") ==> r == src
    ensures !StartsWith(src, "http://") ==>
              && StartsWith(r, RStrip(base, '/'))
              && EndsWith(r, "/" + src)
              && |r| == |RStrip(base, '/')| + 1 + |src|
  {
    if StartsWith(src, "http://") then src else RStrip(base, '/') + "/" + src
  }

  /** `get_url_for_resource`: a prefix that starts with `http` is a full URL
      and only loses its trailing slashes; any other prefix is a path, put
      between the host and the resource name without slashes at either end. */
  function UrlForResource(urlPrefix: string, host: string, resource: string): (r: string)
    ensures EndsWith(r, "/" + resource)
    ensures StartsWith(urlPrefix, "http") ==>
              && StartsWith(r, RStrip(urlPrefix, '/'))
              && |r| == |RStrip(urlPrefix, '/')| + 1 + |resource|
              && 4 <= |RStrip(urlPrefix, '/')| < |r|
              && r[|RStrip(urlPrefix, '/')|] == '/'
              && r[|RStrip(urlPrefix, '/')| - 1] != '/'
    ensures !StartsWith(urlPrefix, "http") ==>
              && StartsWith(r, host + "/" + Strip(urlPrefix, '/'))
              && |r| == |host| + |Strip(urlPrefix, '/')| + |resource| + 2
  {
    if StartsWith(urlPrefix, "http") then
      HttpPrefixKept(urlPrefix);
      JoinAt(RStrip(urlPrefix, '/'), resource);
      RStrip(urlPrefix, '/') + "/" + resource
    else
      JoinAt(host + "/" + Strip(urlPrefix, '/'), resource);
      host + "/" + Strip(urlPrefix, '/') + "/" + resource
  }

  /** Stripping trailing slashes keeps a leading `http`. */
  lemma HttpPrefixKept(urlPrefix: string)
    requires StartsWith(urlPrefix, "http")
    ensures StartsWith(RStrip(urlPrefix, '/'), "http")
  {
    assert urlPrefix[..4] == "http";
    assert urlPrefix[4 - 1] != '/';
  }

  /** Where the parts of `p/resource` lie. */
  lemma JoinAt(p: string, resource: string)
    ensures var r := p + "/" + resource;
            && |r| == |p| + 1 + |resource|
            && StartsWith(r, p)
            && r[|p|] == '/'
            && EndsWith(r, "/" + resource)
  {
    var r := p + "/" + resource;
    assert r[..|p|] == p;
    assert r[|r| - |"/" + resource|..] == "/" + resource;
  }

  lemma StartsWithHttpSlash(p: string)
    ensures StartsWith(p + "/", "http") == StartsWith(p, "http")
  {
    if |p| >= 4 {
      assert (p + "/")[..4] == p[..4];
    } else if |p| == 3 {
      assert (p + "/")[3] == '/';
    }
  }

  lemma RStripSlash(p: string, c: char)
    ensures RStrip(p + [c], c) == RStrip(p, c)
  {
    assert (p + [c])[..|p|] == p;
  }

  /** Trailing slashes on the base do not change where a reference points. */
  lemma GetUrlTrailingSlash(base: string, src: string)
    ensures GetUrl(base + "/", src) == GetUrl(base, src)
  {
    RStripSlash(base, '/');
  }

  /** Resolving a resolved reference again, against any base, changes
      nothing when the first base is an absolute `http://` URL. */
  lemma GetUrlResolvedIsFixed(base: string, other: string, src: string)
    requires StartsWith(RStrip(base, '/'), "http://")
    ensures GetUrl(other, GetUrl(base, src)) == GetUrl(base, src)
  {
    if !StartsWith(src, "http://") {
      var b := RStrip(base, '/');
      var r := b + "/" + src;
      assert r[..7] == b[..7];
    }
  }

  /** Trailing slashes on the configured prefix do not change the URL. */
  lemma UrlForResourceTrailingSlash(urlPrefix: string, host: string, resource: string)
    ensures UrlForResource(urlPrefix + "/", host, resource) == UrlForResource(urlPrefix, host, resource)
  {
    StartsWithHttpSlash(urlPrefix);
    RStripSlash(urlPrefix, '/');
  }

  lemma RStripConsSlash(p: string)
    requires RStrip(p, '/') != []
    ensures RStrip("/" + p, '/') == "/" + RStrip(p, '/')
  {
    var t := "/" + RStrip(p, '/');
    assert ("/" + p)[..|t|] == t;
    forall k | |t| <= k < |"/" + p| ensures ("/" + p)[k] == '/' {
      assert ("/" + p)[k] == p[k - 1];
    }
    RStripUnique("/" + p, '/', t);
  }

  lemma RStripAllSlashes(p: string)
    requires RStrip(p, '/') == []
    ensures RStrip("/" + p, '/') == []
  {
    forall k | 0 <= k < |"/" + p| ensures ("/" + p)[k] == '/' {
      if k > 0 {
        assert ("/" + p)[k] == p[k - 1];
      }
    }
    RStripUnique("/" + p, '/', []);
  }

  lemma StripConsSlash(p: string)
    ensures Strip("/" + p, '/') == Strip(p, '/')
  {
    var t := RStrip(p, '/');
    if t != [] {
      RStripConsSlash(p);
      assert ("/" + t)[1..] == t;
      assert LStrip("/" + t, '/') == LStrip(t, '/');
    } else {
      RStripAllSlashes(p);
    }
  }

  /** A path prefix is stripped at both ends: a leading slash changes
      nothing either. */
  lemma UrlForResourceLeadingSlash(urlPrefix: string, host: string, resource: string)
    requires !StartsWith(urlPrefix, "http")
    ensures UrlForResource("/" + urlPrefix, host, resource) == UrlForResource(urlPrefix, host, resource)
  {
    assert !StartsWith("/" + urlPrefix, "http") by {
      assert ("/" + urlPrefix)[0] == '/';
    }
    StripConsSlash(urlPrefix);
  }
}
