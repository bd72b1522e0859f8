/** Merging a selection of cached resources into one content-addressed file
    of the cache directory. */
module MergeCache {
  import opened Wrappers
  import opened Strings
  import opened RawCache

  /** The cache directory: file name to contents. */
  type Files = map<string, string>

  /** The `media` attribute recorded for each resolved URL (`None` when the
      element has none). */
  type MediaTypes = map<string, Option<string>>

  /** `mediatypes.get(url)` */
  function MediaOf(mediatypes: MediaTypes, url: string): Option<string> {
    if url in mediatypes then mediatypes[url] else None
  }

  /** Python truthiness of an optional string. */
  predicate Truthy(m: Option<string>) {
    m.Some? && m.value != ""
  }

  /** Whether a member's body is wrapped in an `@media` block: only a
      `text/css` body with a non-empty media type is. */
  predicate Wrapped(e: Entry, media: Option<string>) {
    e.contentType == Some("text/css") && Truthy(media)
  }

  /** The text one member contributes to the merged body. */
  function Piece(e: Entry, media: Option<string>): string {
    if Wrapped(e, media) then "@media " + media.value + " {\n" + e.body + "}\n" else e.body
  }

  /** Every member of the selection is in the raw cache. */
  predicate Ready(cache: Cache, selection: seq<string>) {
    forall u :: u in selection ==> u in cache
  }

  /** The piece of a cached member; it is only asked for members in the
      cache. */
  function PieceOf(cache: Cache, u: string, mediatypes: MediaTypes): string {
    if u in cache then Piece(cache[u], MediaOf(mediatypes, u)) else ""
  }

  /** The merged body: the members' pieces in selection order. */
  function MergedBody(cache: Cache, selection: seq<string>, mediatypes: MediaTypes): string
    decreases |selection|
  {
    if selection == [] then ""
    else MergedBody(cache, selection[..|selection| - 1], mediatypes) + PieceOf(cache, selection[|selection| - 1], mediatypes)
  }

  /** The raw bodies one after the other, with no `@media` wrapping. */
  function Bodies(cache: Cache, selection: seq<string>): string
    requires Ready(cache, selection)
    decreases |selection|
  {
    if selection == [] then "" else cache[selection[0]].body + Bodies(cache, selection[1..])
  }

  /** One step of `if expires is None or ttl < expires: expires = ttl`. In
      Python 2 `None` compares below every timestamp, so a missing `ttl`
      resets the running value to `None`. */
  function FoldExpires(expires: Option<int>, ttl: Option<int>): Option<int> {
    if expires.None? || ttl.None? || ttl.value < expires.value then ttl else expires
  }

  /** The running-minimum fold of the members' expiries, from `None`. */
  function MergedExpires(cache: Cache, selection: seq<string>): Option<int>
    requires Ready(cache, selection)
    decreases |selection|
  {
    if selection == [] then None
    else
      var u := selection[|selection| - 1];
      FoldExpires(MergedExpires(cache, selection[..|selection| - 1]), cache[u].ttl)
  }

  /** `guess_extension(mimetype)` of the first member, or the empty string
      when it has no content type or none is known for it. */
  function Extension(cache: Cache, selection: seq<string>, guessExtension: string -> Option<string>): string
    requires |selection| > 0 && Ready(cache, selection)
  {
    var first := cache[selection[0]];
    if first.contentType.None? then ""
    else
      var ext := guessExtension(first.contentType.value);
      if ext.None? then "" else ext.value
  }

  /** Writing `name` only when it is not yet there. */
  function Store(files: Files, name: string, body: string): (r: Files)
    ensures name in r
    ensures name !in files ==> r[name] == body
    ensures forall n :: n in files ==> n in r && r[n] == files[n]
    ensures r.Keys == files.Keys + {name}
  {
    if name in files then files else files[name := body]
  }

  /** What `get_merged_resource` returns, and the cache directory after it. */
  datatype Merged = Merged(expires: Option<int>, name: Option<string>, files: Files)

  /** `get_merged_resource`: not ready (no name, no expiry, no file) unless
      every member is cached; otherwise the file named after the digest of
      the merged body and the first member's extension, written only if it is
      not there yet, and the folded expiry. */
  function Merge(files: Files, cache: Cache, selection: seq<string>, mediatypes: MediaTypes,
                 digest: string -> string, guessExtension: string -> Option<string>): (r: Merged)
    requires |selection| > 0
    ensures r.name.None? <==> !Ready(cache, selection)
    ensures !Ready(cache, selection) ==> r == Merged(None, None, files)
    ensures Ready(cache, selection) ==>
              && r.name == Some(digest(MergedBody(cache, selection, mediatypes)) + Extension(cache, selection, guessExtension))
              && r.name.value in r.files
              && r.expires == MergedExpires(cache, selection)
              && r.files.Keys == files.Keys + {r.name.value}
              && (r.name.value !in files ==> r.files[r.name.value] == MergedBody(cache, selection, mediatypes))
    ensures forall n :: n in files ==> n in r.files && r.files[n] == files[n]
  {
    if !Ready(cache, selection) then Merged(None, None, files)
    else
      var body := MergedBody(cache, selection, mediatypes);
      var name := digest(body) + Extension(cache, selection, guessExtension);
      Merged(MergedExpires(cache, selection), Some(name), Store(files, name, body))
  }

  // ---- properties ----

  /** Merging the same selection again finds its file and changes nothing. */
  lemma MergeAgain(files: Files, cache: Cache, selection: seq<string>, mediatypes: MediaTypes,
                   digest: string -> string, guessExtension: string -> Option<string>)
    requires |selection| > 0
    ensures var first := Merge(files, cache, selection, mediatypes, digest, guessExtension);
            Merge(first.files, cache, selection, mediatypes, digest, guessExtension) == first
  {
  }

  /** The merged body of a concatenation is the concatenation of the merged
      bodies. */
  lemma {:induction false} MergedBodyAppend(cache: Cache, s: seq<string>, t: seq<string>, mediatypes: MediaTypes)
    ensures MergedBody(cache, s + t, mediatypes) == MergedBody(cache, s, mediatypes) + MergedBody(cache, t, mediatypes)
    decreases |t|
  {
    if t == [] {
      assert s + t == s;
    } else {
      var t' := t[..|t| - 1];
      assert (s + t)[..|s + t| - 1] == s + t';
      MergedBodyAppend(cache, s, t', mediatypes);
    }
  }

  lemma {:induction false} BodiesSnoc(cache: Cache, s: seq<string>)
    requires |s| > 0 && Ready(cache, s)
    ensures Bodies(cache, s) == Bodies(cache, s[..|s| - 1]) + cache[s[|s| - 1]].body
    decreases |s|
  {
    if |s| > 1 {
      assert s[1..][..|s[1..]| - 1] == s[..|s| - 1][1..];
      BodiesSnoc(cache, s[1..]);
    }
  }

  /** Without stylesheets that carry a media type, the merged body is just
      the bodies one after the other. */
  lemma {:induction false} MergedBodyPlain(cache: Cache, selection: seq<string>, mediatypes: MediaTypes)
    requires Ready(cache, selection)
    requires forall u :: u in selection ==> !Wrapped(cache[u], MediaOf(mediatypes, u))
    ensures MergedBody(cache, selection, mediatypes) == Bodies(cache, selection)
    decreases |selection|
  {
    if selection != [] {
      var n := |selection| - 1;
      assert selection[n] in selection;
      MergedBodyPlain(cache, selection[..n], mediatypes);
      BodiesSnoc(cache, selection);
    }
  }

  /** When every member has an expiry, the fold is their minimum. */
  lemma {:induction false} MergedExpiresMin(cache: Cache, selection: seq<string>)
    requires |selection| > 0 && Ready(cache, selection)
    requires forall u :: u in selection ==> cache[u].ttl.Some?
    ensures MergedExpires(cache, selection).Some?
    ensures forall u :: u in selection ==> MergedExpires(cache, selection).value <= cache[u].ttl.value
    ensures exists u :: u in selection && MergedExpires(cache, selection) == cache[u].ttl
    decreases |selection|
  {
    var n := |selection| - 1;
    var last := selection[n];
    assert last in selection;
    if n > 0 {
      var p := selection[..n];
      MergedExpiresMin(cache, p);
      forall u | u in selection ensures u in p || u == last {
        var i :| 0 <= i < |selection| && selection[i] == u;
        if i < n {
          assert p[i] == u;
        }
      }
      var w :| w in p && MergedExpires(cache, p) == cache[w].ttl;
      assert w in selection;
    } else {
      assert selection == [last];
    }
  }

  /** Every cached response carries an expiry. */
  predicate AllExpire(cache: Cache) {
    forall u :: u in cache ==> cache[u].ttl.Some?
  }

  /** When every response carries an expiry, so does every merge. */
  lemma ReadyExpires(cache: Cache, selection: seq<string>)
    requires AllExpire(cache) && |selection| > 0 && Ready(cache, selection)
    ensures MergedExpires(cache, selection).Some?
  {
    MergedExpiresMin(cache, selection);
  }

  /** A member without an expiry makes the fold forget the expiries before
      it: with expiries 5, none and 7 the result is 7. */
  lemma ExpiresAfterMissing(cache: Cache)
    requires "a" in cache && "b" in cache && "c" in cache
    requires cache["a"].ttl == Some(5) && cache["b"].ttl == None && cache["c"].ttl == Some(7)
    ensures MergedExpires(cache, ["a", "b", "c"]) == Some(7)
  {
    assert ["a", "b", "c"][..2] == ["a", "b"];
    assert ["a", "b"][..1] == ["a"];
    assert ["a"][..0] == [];
  }

  /** The `@media` wrapping of a two-member merge: a stylesheet with a
      media type is wrapped, a member of another type is not. */
  lemma MergedBodyExample(cache: Cache, mediatypes: MediaTypes, sheet: string, other: string, media: string)
    requires sheet in cache && other in cache
    requires cache[sheet].contentType == Some("text/css") && MediaOf(mediatypes, sheet) == Some(media) && media != ""
    requires cache[other].contentType != Some("text/css")
    ensures MergedBody(cache, [sheet, other], mediatypes)
              == "@media " + media + " {\n" + cache[sheet].body + "}\n" + cache[other].body
  {
    assert [sheet, other][..1] == [sheet];
    assert [sheet][..0] == [];
    assert MergedBody(cache, [sheet], mediatypes) == "" + PieceOf(cache, sheet, mediatypes);
  }
}
