/** The middleware object: merging selections into files of the cache
    directory and rewriting a document's elements to refer to them. */
module Squeeze {
  import opened Wrappers
  import opened Strings
  import opened Urls
  import opened RawCache
  import opened MergeCache

  /** What the tag functions see of an element: the URL its accessor returns
      (`None` for a style block that is not a single `@import`), its `media`
      attribute, and whether it is still in the document. */
  datatype View = View(url: Option<string>, media: Option<string>, attached: bool)

  /** A script, link or style element of the document's head. */
  class Element {
    var url: Option<string>
    const media: Option<string>
    var attached: bool

    constructor(url: Option<string>, media: Option<string>)
      ensures this.url == url && this.media == media && attached
    {
      this.url := url;
      this.media := media;
      attached := true;
    }

    function Snapshot(): View
      reads this
    {
      View(url, media, attached)
    }
  }

  function Views(elements: seq<Element>): (r: seq<View>)
    reads elements
    ensures |r| == |elements|
    ensures forall i :: 0 <= i < |elements| ==> r[i] == elements[i].Snapshot()
  {
    seq(|elements|, i reads elements requires 0 <= i < |elements| => elements[i].Snapshot())
  }

  /** What stays fixed while one document is rewritten: the raw cache, the
      request's host, and the middleware's configuration. */
  datatype Context = Context(cache: Cache, host: string, urlPrefix: string,
                             digest: string -> string, guessExtension: string -> Option<string>)

  /** What `update_elements` accumulates: the cache directory, the running
      expiry, whether an element was rewritten, and the media types recorded
      for the URLs resolved so far. */
  datatype Pass = Pass(files: Files, expires: Option<int>, changed: bool, mediatypes: MediaTypes)

  /** Every selection has a first member (`get_merged_resource` reads it). */
  predicate NonEmpty(selections: seq<seq<string>>) {
    forall sel :: sel in selections ==> |sel| > 0
  }

  function Last(selection: seq<string>): string
    requires |selection| > 0
  {
    selection[|selection| - 1]
  }

  /** A ready selection whose last member is `src`: its element is rewritten. */
  predicate Rewrites(cache: Cache, src: string, selection: seq<string>) {
    |selection| > 0 && Ready(cache, selection) && src == Last(selection)
  }

  /** A ready selection holding `src` elsewhere: its element is removed. */
  predicate Detaches(cache: Cache, src: string, selection: seq<string>) {
    |selection| > 0 && Ready(cache, selection) && src in selection && src != Last(selection)
  }

  /** The name `get_merged_resource` gives the merged file of a ready selection. */
  function MergedName(ctx: Context, selection: seq<string>, mediatypes: MediaTypes): string
    requires |selection| > 0 && Ready(ctx.cache, selection)
  {
    ctx.digest(MergedBody(ctx.cache, selection, mediatypes)) + Extension(ctx.cache, selection, ctx.guessExtension)
  }

  /** The outcome of one selection for one element: the pass and view after
      it, and whether the loop stops there. */
  datatype Turn = Turn(pass: Pass, view: View, stop: bool)

  /** One selection for the element whose resolved URL is `src`: the
      selection is merged first; if it is not ready or does not hold `src`
      nothing else happens; otherwise the expiry is folded in and the element
      is rewritten when `src` is the selection's last member, or removed (and
      the loop stops). */
  function MergeTurn(ctx: Context, p: Pass, src: string, v: View, selection: seq<string>): Turn
    requires |selection| > 0
  {
    var m := Merge(p.files, ctx.cache, selection, p.mediatypes, ctx.digest, ctx.guessExtension);
    var p1 := p.(files := m.files);
    if m.name.None? || src !in selection then Turn(p1, v, false)
    else
      var p2 := p1.(expires := FoldExpires(p.expires, m.expires));
      if src == Last(selection) then
        var url := UrlForResource(ctx.urlPrefix, ctx.host, m.name.value);
        Turn(p2.(changed := true), v.(url := Some(url)), false)
      else Turn(p2, v.(attached := false), true)
  }

  /** The loop over the selections for one element, until one removes it. */
  function MergeLoop(ctx: Context, p: Pass, src: string, v: View, selections: seq<seq<string>>): (Pass, View)
    requires NonEmpty(selections)
    decreases |selections|
  {
    if selections == [] then (p, v)
    else
      var t := MergeTurn(ctx, p, src, v, selections[0]);
      if t.stop then (t.pass, t.view) else MergeLoop(ctx, t.pass, src, t.view, selections[1..])
  }

  /** What one selection does, case by case. */
  lemma TurnFacts(ctx: Context, p: Pass, src: string, v: View, selection: seq<string>)
    requires |selection| > 0
    ensures var t := MergeTurn(ctx, p, src, v, selection);
            && t.pass.mediatypes == p.mediatypes
            && (forall n :: n in p.files ==> n in t.pass.files && t.pass.files[n] == p.files[n])
            && (Ready(ctx.cache, selection) ==> MergedName(ctx, selection, p.mediatypes) in t.pass.files)
            && (t.stop <==> Detaches(ctx.cache, src, selection))
            && (t.view.attached <==> v.attached && !Detaches(ctx.cache, src, selection))
            && (t.pass.changed <==> p.changed || Rewrites(ctx.cache, src, selection))
            && (Rewrites(ctx.cache, src, selection) ==>
                  t.view.url == Some(UrlForResource(ctx.urlPrefix, ctx.host, MergedName(ctx, selection, p.mediatypes))))
            && (!Rewrites(ctx.cache, src, selection) ==> t.view.url == v.url)
  {
  }

  /** One element of `update_elements`: skipped when it has no URL;
      otherwise its URL is resolved against `base` and its media type
      recorded, and it is merged only when it is served from `host`. */
  function ElementStep(ctx: Context, selections: seq<seq<string>>, base: string, p: Pass, v: View): (Pass, View)
    requires NonEmpty(selections)
  {
    if v.url.None? then (p, v)
    else
      var src := GetUrl(base, v.url.value);
      var p1 := p.(mediatypes := p.mediatypes[src := v.media]);
      if !StartsWith(src, ctx.host) then (p1, v)
      else MergeLoop(ctx, p1, src, v, selections)
  }

  /** `update_elements` over the elements in document order. */
  function UpdatePass(ctx: Context, selections: seq<seq<string>>, base: string, p: Pass, views: seq<View>): (r: (Pass, seq<View>))
    requires NonEmpty(selections)
    ensures |r.1| == |views|
    decreases |views|
  {
    if views == [] then (p, [])
    else
      var prev := UpdatePass(ctx, selections, base, p, views[..|views| - 1]);
      var step := ElementStep(ctx, selections, base, prev.0, views[|views| - 1]);
      (step.0, prev.1 + [step.1])
  }

  // ---- the imperative code ----

  /** The first loop of `get_merged_resource`: is every member cached? */
  method AllCached(cache: Cache, selection: seq<string>) returns (ready: bool)
    ensures ready == Ready(cache, selection)
  {
    for i := 0 to |selection|
      invariant forall k :: 0 <= k < i ==> selection[k] in cache
    {
      if selection[i] !in cache {
        return false;
      }
    }
    return true;
  }

  /** The second loop of `get_merged_resource`: the merged body and the
      folded expiry. */
  method Concatenate(cache: Cache, selection: seq<string>, mediatypes: MediaTypes) returns (body: string, expires: Option<int>)
    requires Ready(cache, selection)
    ensures body == MergedBody(cache, selection, mediatypes)
    ensures expires == MergedExpires(cache, selection)
  {
    body, expires := "", None;
    for i := 0 to |selection|
      invariant Ready(cache, selection[..i])
      invariant body == MergedBody(cache, selection[..i], mediatypes)
      invariant expires == MergedExpires(cache, selection[..i])
    {
      var url := selection[i];
      var entry := cache[url];
      var mediatype := MediaOf(mediatypes, url);
      if expires.None? || entry.ttl.None? || entry.ttl.value < expires.value {
        expires := entry.ttl;
      }
      if entry.contentType == Some("text/css") && Truthy(mediatype) {
        body := body + ("@media " + mediatype.value + " {\n" + entry.body + "}\n");
      } else {
        body := body + entry.body;
      }
      assert selection[..i + 1][..i] == selection[..i];
    }
    assert selection[..|selection|] == selection;
  }

  /** `ResourceSqueezingMiddleware`: its configuration and the cache
      directory it writes merged files to. */
  class Middleware {
    const urlPrefix: string
    const digest: string -> string
    const guessExtension: string -> Option<string>
    var files: Files

    constructor(urlPrefix: string, digest: string -> string, guessExtension: string -> Option<string>, files: Files)
      ensures this.urlPrefix == urlPrefix && this.digest == digest && this.guessExtension == guessExtension
      ensures this.files == files
    {
      this.urlPrefix := urlPrefix;
      this.digest := digest;
      this.guessExtension := guessExtension;
      this.files := files;
    }

    /** `get_merged_resource(cache, selection, mediatypes)` */
    method GetMergedResource(cache: Cache, selection: seq<string>, mediatypes: MediaTypes)
      returns (expires: Option<int>, name: Option<string>)
      requires |selection| > 0
      modifies this`files
      ensures Merged(expires, name, files) == Merge(old(files), cache, selection, mediatypes, digest, guessExtension)
    {
      expires := None;
      var ready := AllCached(cache, selection);
      if !ready {
        return expires, None;
      }
      var ext: Option<string> := None;
      var first := cache[selection[0]];
      if first.contentType.Some? {
        ext := guessExtension(first.contentType.value);
      }
      var body;
      body, expires := Concatenate(cache, selection, mediatypes);
      var filename := digest(body) + (if ext.Some? then ext.value else "");
      if filename !in files {
        files := files[filename := body];
      }
      return expires, Some(filename);
    }

    /** The loop over the selections for one element. */
    method MergeElement(element: Element, src: string, selections: seq<seq<string>>, host: string,
                        cache: Cache, mediatypes: MediaTypes, expires0: Option<int>, changed0: bool)
      returns (expires: Option<int>, changed: bool)
      requires NonEmpty(selections)
      modifies this`files, element
      ensures (Pass(files, expires, changed, mediatypes), element.Snapshot())
                == MergeLoop(Context(cache, host, urlPrefix, digest, guessExtension),
                             Pass(old(files), expires0, changed0, mediatypes), src, old(element.Snapshot()), selections)
    {
      ghost var ctx := Context(cache, host, urlPrefix, digest, guessExtension);
      ghost var goal := MergeLoop(ctx, Pass(files, expires0, changed0, mediatypes), src, element.Snapshot(), selections);
      expires, changed := expires0, changed0;
      var k := 0;
      while k < |selections|
        invariant 0 <= k <= |selections|
        invariant MergeLoop(ctx, Pass(files, expires, changed, mediatypes), src, element.Snapshot(), selections[k..]) == goal
      {
        var selection := selections[k];
        assert selections[k..][1..] == selections[k + 1..];
        var ttl, resource := GetMergedResource(cache, selection, mediatypes);
        if resource.Some? && src in selection {
          expires := FoldExpires(expires, ttl);
          if src == selection[|selection| - 1] {
            element.url := Some(UrlForResource(urlPrefix, host, resource.value));
            changed := true;
          } else {
            element.attached := false;
            break;
          }
        }
        k := k + 1;
      }
    }

    /** The body of the element loop of `update_elements`. */
    method UpdateElement(element: Element, selections: seq<seq<string>>, host: string, base: string, cache: Cache,
                         mediatypes0: MediaTypes, expires0: Option<int>, changed0: bool)
      returns (mediatypes: MediaTypes, expires: Option<int>, changed: bool)
      requires NonEmpty(selections)
      modifies this`files, element
      ensures (Pass(files, expires, changed, mediatypes), element.Snapshot())
                == ElementStep(Context(cache, host, urlPrefix, digest, guessExtension), selections, base,
                               Pass(old(files), expires0, changed0, mediatypes0), old(element.Snapshot()))
    {
      mediatypes, expires, changed := mediatypes0, expires0, changed0;
      if element.url.Some? {
        var src := GetUrl(base, element.url.value);
        mediatypes := mediatypes[src := element.media];
        if StartsWith(src, host) {
          expires, changed := MergeElement(element, src, selections, host, cache, mediatypes, expires, changed);
        }
      }
    }

    /** `update_elements(elements, selections, tree, host, uri, cache)`;
        `base` is what the document's URLs are resolved against. */
    method UpdateElements(elements: seq<Element>, selections: seq<seq<string>>, host: string, base: string, cache: Cache)
      returns (expires: Option<int>, changed: bool)
      requires NonEmpty(selections)
      requires forall i, j :: 0 <= i < j < |elements| ==> elements[i] != elements[j]
      modifies this`files, elements
      ensures var r := UpdatePass(Context(cache, host, urlPrefix, digest, guessExtension), selections, base,
                                  Pass(old(files), None, false, map[]), old(Views(elements)));
              && files == r.0.files && expires == r.0.expires && changed == r.0.changed
              && Views(elements) == r.1
    {
      ghost var ctx := Context(cache, host, urlPrefix, digest, guessExtension);
      ghost var start := Pass(files, None, false, map[]);
      ghost var views := Views(elements);
      expires, changed := None, false;
      var mediatypes: MediaTypes := map[];
      for i := 0 to |elements|
        invariant UpdatePass(ctx, selections, base, start, views[..i])
                    == (Pass(files, expires, changed, mediatypes), Views(elements[..i]))
        invariant forall k :: i <= k < |elements| ==> elements[k].Snapshot() == views[k]
      {
        var element := elements[i];
        ghost var done := Views(elements[..i]);
        assert element !in elements[..i];
        mediatypes, expires, changed := UpdateElement(element, selections, host, base, cache, mediatypes, expires, changed);
        assert Views(elements[..i]) == done;
        assert Views(elements[..i + 1]) == done + [element.Snapshot()];
        assert views[..i + 1][..i] == views[..i];
      }
      assert views[..|elements|] == views;
      assert elements[..|elements|] == elements;
    }
  }

  // ---- properties of the selections loop ----

  /** Files are only ever added to the cache directory, never rewritten, and
      the recorded media types do not change. */
  lemma {:induction false} MergeLoopFiles(ctx: Context, p: Pass, src: string, v: View, selections: seq<seq<string>>)
    requires NonEmpty(selections)
    ensures var r := MergeLoop(ctx, p, src, v, selections);
            && r.0.mediatypes == p.mediatypes
            && (forall n :: n in p.files ==> n in r.0.files && r.0.files[n] == p.files[n])
    decreases |selections|
  {
    if selections != [] {
      var t := MergeTurn(ctx, p, src, v, selections[0]);
      TurnFacts(ctx, p, src, v, selections[0]);
      if !t.stop {
        MergeLoopFiles(ctx, t.pass, src, t.view, selections[1..]);
      }
    }
  }

  /** Every ready selection the loop reaches (no earlier selection removed
      the element) has its merged file written, whether or not it holds
      `src`. */
  lemma {:induction false} MergeLoopStores(ctx: Context, p: Pass, src: string, v: View, selections: seq<seq<string>>, k: nat)
    requires NonEmpty(selections)
    requires k < |selections| && Ready(ctx.cache, selections[k])
    requires forall j :: 0 <= j < k ==> !Detaches(ctx.cache, src, selections[j])
    ensures selections[k] in selections
    ensures MergedName(ctx, selections[k], p.mediatypes) in MergeLoop(ctx, p, src, v, selections).0.files
    decreases k
  {
    var t := MergeTurn(ctx, p, src, v, selections[0]);
    TurnFacts(ctx, p, src, v, selections[0]);
    var rest := selections[1..];
    if k == 0 {
      if !t.stop {
        MergeLoopFiles(ctx, t.pass, src, t.view, rest);
      }
    } else {
      assert !Detaches(ctx.cache, src, selections[0]);
      assert rest[k - 1] == selections[k];
      MergeLoopStores(ctx, t.pass, src, t.view, rest, k - 1);
    }
  }

  /** The element ends up removed exactly when it was in the document and
      some ready selection holds its URL other than as the last member. */
  lemma {:induction false} MergeLoopDetach(ctx: Context, p: Pass, src: string, v: View, selections: seq<seq<string>>)
    requires NonEmpty(selections)
    ensures MergeLoop(ctx, p, src, v, selections).1.attached
              == (v.attached && forall sel :: sel in selections ==> !Detaches(ctx.cache, src, sel))
    decreases |selections|
  {
    if selections != [] {
      var t := MergeTurn(ctx, p, src, v, selections[0]);
      TurnFacts(ctx, p, src, v, selections[0]);
      var rest := selections[1..];
      assert forall sel :: sel in selections <==> sel == selections[0] || sel in rest;
      if !t.stop {
        MergeLoopDetach(ctx, t.pass, src, t.view, rest);
      }
    }
  }

  /** The loop reaches a ready selection ending in `src` before any that
      removes the element. */
  ghost predicate RewriteReached(cache: Cache, src: string, selections: seq<seq<string>>) {
    exists k :: 0 <= k < |selections| && Rewrites(cache, src, selections[k])
      && forall j :: 0 <= j < k ==> !Detaches(cache, src, selections[j])
  }

  lemma RewriteReachedCons(cache: Cache, src: string, selections: seq<seq<string>>)
    requires selections != []
    ensures RewriteReached(cache, src, selections)
              == (!Detaches(cache, src, selections[0])
                  && (Rewrites(cache, src, selections[0]) || RewriteReached(cache, src, selections[1..])))
  {
    var rest := selections[1..];
    if RewriteReached(cache, src, rest) && !Detaches(cache, src, selections[0]) {
      var k :| 0 <= k < |rest| && Rewrites(cache, src, rest[k])
               && forall j :: 0 <= j < k ==> !Detaches(cache, src, rest[j]);
      assert selections[k + 1] == rest[k];
      forall j | 0 <= j < k + 1 ensures !Detaches(cache, src, selections[j]) {
        if j > 0 {
          assert selections[j] == rest[j - 1];
        }
      }
    }
    if RewriteReached(cache, src, selections) {
      var k :| 0 <= k < |selections| && Rewrites(cache, src, selections[k])
               && forall j :: 0 <= j < k ==> !Detaches(cache, src, selections[j]);
      if k > 0 {
        assert selections[0] == selections[0];
        assert Rewrites(cache, src, rest[k - 1]);
        forall j | 0 <= j < k - 1 ensures !Detaches(cache, src, rest[j]) {
          assert rest[j] == selections[j + 1];
        }
      }
    }
  }

  /** The pass reports a change exactly when it already had one or the loop
      reaches a ready selection ending in `src` before any that removes the
      element. */
  lemma {:induction false} MergeLoopChanged(ctx: Context, p: Pass, src: string, v: View, selections: seq<seq<string>>)
    requires NonEmpty(selections)
    ensures MergeLoop(ctx, p, src, v, selections).0.changed
              == (p.changed || RewriteReached(ctx.cache, src, selections))
    decreases |selections|
  {
    if selections != [] {
      var t := MergeTurn(ctx, p, src, v, selections[0]);
      TurnFacts(ctx, p, src, v, selections[0]);
      RewriteReachedCons(ctx.cache, src, selections);
      if !t.stop {
        MergeLoopChanged(ctx, t.pass, src, t.view, selections[1..]);
      }
    }
  }

  /** The selection whose file a rewritten element ends up pointing at: the
      last ready selection ending in `src` among those reached before the
      first that removes the element, or `None` when there is none. */
  function RewrittenBy(cache: Cache, src: string, selections: seq<seq<string>>): (r: Option<seq<string>>)
    ensures r.Some? ==> Rewrites(cache, src, r.value)
    decreases |selections|
  {
    if selections == [] || Detaches(cache, src, selections[0]) then None
    else
      var later := RewrittenBy(cache, src, selections[1..]);
      if later.Some? then later
      else if Rewrites(cache, src, selections[0]) then Some(selections[0])
      else None
  }

  /** Some selection rewrites the element exactly when a rewrite is reached
      before any removal. */
  lemma {:induction false} RewrittenByReached(cache: Cache, src: string, selections: seq<seq<string>>)
    ensures RewrittenBy(cache, src, selections).Some? <==> RewriteReached(cache, src, selections)
    decreases |selections|
  {
    if selections != [] {
      RewriteReachedCons(cache, src, selections);
      RewrittenByReached(cache, src, selections[1..]);
    }
  }

  /** `RewrittenBy` picks the last rewriting selection before the first
      removal: it is reached, and every later rewriting selection comes after
      a removing one. */
  lemma {:induction false} RewrittenByLast(cache: Cache, src: string, selections: seq<seq<string>>)
    requires RewrittenBy(cache, src, selections).Some?
    ensures exists k :: 0 <= k < |selections| && selections[k] == RewrittenBy(cache, src, selections).value
              && (forall j :: 0 <= j <= k ==> !Detaches(cache, src, selections[j]))
              && (forall j :: k < j < |selections| && Rewrites(cache, src, selections[j]) ==>
                    exists i :: k < i < j && Detaches(cache, src, selections[i]))
    decreases |selections|
  {
    var rest := selections[1..];
    var later := RewrittenBy(cache, src, rest);
    if later.Some? {
      RewrittenByLast(cache, src, rest);
      var k :| 0 <= k < |rest| && rest[k] == later.value
                 && (forall j :: 0 <= j <= k ==> !Detaches(cache, src, rest[j]))
                 && (forall j :: k < j < |rest| && Rewrites(cache, src, rest[j]) ==>
                       exists i :: k < i < j && Detaches(cache, src, rest[i]));
      forall j | 0 <= j <= k + 1 ensures !Detaches(cache, src, selections[j]) {
        if j > 0 {
          assert selections[j] == rest[j - 1];
        }
      }
      forall j | k + 1 < j < |selections| && Rewrites(cache, src, selections[j])
        ensures exists i :: k + 1 < i < j && Detaches(cache, src, selections[i])
      {
        assert rest[j - 1] == selections[j];
        var i :| k < i < j - 1 && Detaches(cache, src, rest[i]);
        assert selections[i + 1] == rest[i];
      }
      assert selections[k + 1] == later.value;
    } else {
      RewrittenByReached(cache, src, rest);
      forall j | 0 < j < |selections| && Rewrites(cache, src, selections[j])
        ensures exists i :: 0 < i < j && Detaches(cache, src, selections[i])
      {
        assert rest[j - 1] == selections[j];
        assert !(Rewrites(cache, src, rest[j - 1]) && forall i :: 0 <= i < j - 1 ==> !Detaches(cache, src, rest[i]));
        var i :| 0 <= i < j - 1 && Detaches(cache, src, rest[i]);
        assert selections[i + 1] == rest[i];
      }
    }
  }

  /** The element's URL after the loop: unchanged when no rewrite is reached
      before a removal; otherwise the URL, through the configured prefix, of
      the file of `RewrittenBy`, and that file is in the cache directory. */
  lemma {:induction false} MergeLoopUrl(ctx: Context, p: Pass, src: string, v: View, selections: seq<seq<string>>)
    requires NonEmpty(selections)
    ensures var r := MergeLoop(ctx, p, src, v, selections);
            var last := RewrittenBy(ctx.cache, src, selections);
            && (last.None? ==> r.1.url == v.url)
            && (last.Some? ==>
                  && MergedName(ctx, last.value, p.mediatypes) in r.0.files
                  && r.1.url == Some(UrlForResource(ctx.urlPrefix, ctx.host, MergedName(ctx, last.value, p.mediatypes))))
    decreases |selections|
  {
    if selections != [] {
      var sel0 := selections[0];
      var t := MergeTurn(ctx, p, src, v, sel0);
      TurnFacts(ctx, p, src, v, sel0);
      var rest := selections[1..];
      assert forall sel :: sel in rest ==> sel in selections;
      if !t.stop {
        MergeLoopUrl(ctx, t.pass, src, t.view, rest);
        MergeLoopFiles(ctx, t.pass, src, t.view, rest);
      }
    }
  }

  /** There is no `break` after a rewrite: an element that ends one ready
      selection and sits inside a later one is first rewritten and then
      removed. */
  lemma RewriteThenDetach(ctx: Context, p: Pass, src: string, v: View, first: seq<string>, second: seq<string>)
    requires Rewrites(ctx.cache, src, first) && Detaches(ctx.cache, src, second)
    ensures var r := MergeLoop(ctx, p, src, v, [first, second]);
            && !r.1.attached
            && r.0.changed
            && r.1.url == Some(UrlForResource(ctx.urlPrefix, ctx.host, MergedName(ctx, first, p.mediatypes)))
  {
    assert [first, second][1..] == [second];
    assert [second][1..] == [];
  }

  // ---- the running expiry ----

  /** Selection `k` has its expiry folded into the running value for the
      element whose resolved URL is `src`: it is ready, it holds `src`, and
      no earlier selection removed the element. */
  ghost predicate FoldedAt(cache: Cache, src: string, selections: seq<seq<string>>, k: int) {
    && 0 <= k < |selections| && |selections[k]| > 0
    && Ready(cache, selections[k]) && src in selections[k]
    && forall j :: 0 <= j < k ==> !Detaches(cache, src, selections[j])
  }

  lemma FoldedAtCons(cache: Cache, src: string, selections: seq<seq<string>>, k: int)
    requires selections != [] && !Detaches(cache, src, selections[0]) && 0 < k
    ensures FoldedAt(cache, src, selections, k) == FoldedAt(cache, src, selections[1..], k - 1)
  {
    var rest := selections[1..];
    if k < |selections| {
      assert selections[k] == rest[k - 1];
      if FoldedAt(cache, src, selections, k) {
        forall j | 0 <= j < k - 1 ensures !Detaches(cache, src, rest[j]) {
          assert rest[j] == selections[j + 1];
        }
      }
      if FoldedAt(cache, src, rest, k - 1) {
        forall j | 0 <= j < k ensures !Detaches(cache, src, selections[j]) {
          if j > 0 {
            assert selections[j] == rest[j - 1];
          }
        }
      }
    }
  }

  /** What one selection does to the running expiry, and when it stops the
      loop. */
  lemma TurnExpires(ctx: Context, p: Pass, src: string, v: View, selection: seq<string>)
    requires |selection| > 0
    ensures var t := MergeTurn(ctx, p, src, v, selection);
            && t.pass.expires == (if Ready(ctx.cache, selection) && src in selection
                                  then FoldExpires(p.expires, MergedExpires(ctx.cache, selection)) else p.expires)
            && (t.stop <==> Detaches(ctx.cache, src, selection))
  {
  }

  /** When every response carries an expiry, the loop over the selections
      leaves a running expiry no later than the one it started from and than
      that of every selection folded in. */
  lemma {:induction false} MergeLoopExpiresBelow(ctx: Context, p: Pass, src: string, v: View, selections: seq<seq<string>>)
    requires NonEmpty(selections) && AllExpire(ctx.cache)
    ensures var e := MergeLoop(ctx, p, src, v, selections).0.expires;
            && (p.expires.Some? ==> e.Some? && e.value <= p.expires.value)
            && (forall k :: FoldedAt(ctx.cache, src, selections, k) ==>
                  && e.Some? && MergedExpires(ctx.cache, selections[k]).Some?
                  && e.value <= MergedExpires(ctx.cache, selections[k]).value)
    decreases |selections|
  {
    if selections != [] {
      var sel0 := selections[0];
      var rest := selections[1..];
      var t := MergeTurn(ctx, p, src, v, sel0);
      TurnExpires(ctx, p, src, v, sel0);
      if Ready(ctx.cache, sel0) && src in sel0 {
        ReadyExpires(ctx.cache, sel0);
      }
      if t.stop {
        forall k | FoldedAt(ctx.cache, src, selections, k) ensures k == 0 {
          assert 0 < k ==> !Detaches(ctx.cache, src, sel0);
        }
      } else {
        MergeLoopExpiresBelow(ctx, t.pass, src, t.view, rest);
        forall k | FoldedAt(ctx.cache, src, selections, k) && 0 < k
          ensures FoldedAt(ctx.cache, src, rest, k - 1) && rest[k - 1] == selections[k]
        {
          FoldedAtCons(ctx.cache, src, selections, k);
        }
      }
    }
  }

  /** The running expiry the loop leaves is the one it started from, or that
      of a selection folded in; with none folded in, it is the one it started
      from. */
  lemma {:induction false} MergeLoopExpiresReached(ctx: Context, p: Pass, src: string, v: View, selections: seq<seq<string>>)
    requires NonEmpty(selections)
    ensures var e := MergeLoop(ctx, p, src, v, selections).0.expires;
            && (e == p.expires
                || exists k :: FoldedAt(ctx.cache, src, selections, k) && e == MergedExpires(ctx.cache, selections[k]))
            && ((forall k :: !FoldedAt(ctx.cache, src, selections, k)) ==> e == p.expires)
    decreases |selections|
  {
    if selections != [] {
      var sel0 := selections[0];
      var rest := selections[1..];
      var t := MergeTurn(ctx, p, src, v, sel0);
      TurnExpires(ctx, p, src, v, sel0);
      assert FoldedAt(ctx.cache, src, selections, 0) == (Ready(ctx.cache, sel0) && src in sel0);
      if !t.stop {
        MergeLoopExpiresReached(ctx, t.pass, src, t.view, rest);
        var e := MergeLoop(ctx, p, src, v, selections).0.expires;
        if e != p.expires && e != t.pass.expires {
          var k :| FoldedAt(ctx.cache, src, rest, k) && e == MergedExpires(ctx.cache, rest[k]);
          FoldedAtCons(ctx.cache, src, selections, k + 1);
          assert selections[k + 1] == rest[k];
        }
        if forall k :: !FoldedAt(ctx.cache, src, selections, k) {
          forall k | 0 <= k ensures !FoldedAt(ctx.cache, src, rest, k) {
            FoldedAtCons(ctx.cache, src, selections, k + 1);
          }
        }
      }
    }
  }

  /** The element is merged: it has a URL and the URL resolves onto `host`. */
  ghost predicate Merges(ctx: Context, base: string, v: View) {
    v.url.Some? && StartsWith(GetUrl(base, v.url.value), ctx.host)
  }

  /** Selection `k` is folded in for the element `v`. */
  ghost predicate FoldedFor(ctx: Context, base: string, v: View, selections: seq<seq<string>>, k: int) {
    Merges(ctx, base, v) && FoldedAt(ctx.cache, GetUrl(base, v.url.value), selections, k)
  }

  /** Selection `k` is folded into the running expiry at element `i`. */
  ghost predicate ElementFolded(ctx: Context, base: string, views: seq<View>, selections: seq<seq<string>>, i: int, k: int) {
    0 <= i < |views| && FoldedFor(ctx, base, views[i], selections, k)
  }

  /** One element's turn, bounded as in `MergeLoopExpiresBelow`. */
  lemma ElementStepExpiresBelow(ctx: Context, selections: seq<seq<string>>, base: string, q: Pass, v: View)
    requires NonEmpty(selections) && AllExpire(ctx.cache)
    ensures var e := ElementStep(ctx, selections, base, q, v).0.expires;
            && (q.expires.Some? ==> e.Some? && e.value <= q.expires.value)
            && (forall k :: FoldedFor(ctx, base, v, selections, k) ==>
                  && e.Some? && MergedExpires(ctx.cache, selections[k]).Some?
                  && e.value <= MergedExpires(ctx.cache, selections[k]).value)
  {
    if Merges(ctx, base, v) {
      var src := GetUrl(base, v.url.value);
      MergeLoopExpiresBelow(ctx, q.(mediatypes := q.mediatypes[src := v.media]), src, v, selections);
    }
  }

  /** The first bound of `ElementStepExpiresBelow` on its own. */
  lemma ElementStepStartBound(ctx: Context, selections: seq<seq<string>>, base: string, q: Pass, v: View)
    requires NonEmpty(selections) && AllExpire(ctx.cache) && q.expires.Some?
    ensures var e := ElementStep(ctx, selections, base, q, v).0.expires;
            e.Some? && e.value <= q.expires.value
  {
    ElementStepExpiresBelow(ctx, selections, base, q, v);
  }

  /** The second bound of `ElementStepExpiresBelow`, for one selection. */
  lemma ElementStepFoldBound(ctx: Context, selections: seq<seq<string>>, base: string, q: Pass, v: View, k: int)
    requires NonEmpty(selections) && AllExpire(ctx.cache) && FoldedFor(ctx, base, v, selections, k)
    ensures var e := ElementStep(ctx, selections, base, q, v).0.expires;
            && e.Some? && MergedExpires(ctx.cache, selections[k]).Some?
            && e.value <= MergedExpires(ctx.cache, selections[k]).value
  {
    ElementStepExpiresBelow(ctx, selections, base, q, v);
  }

  /** One element's turn, reached as in `MergeLoopExpiresReached`. */
  lemma ElementStepExpiresReached(ctx: Context, selections: seq<seq<string>>, base: string, q: Pass, v: View)
    requires NonEmpty(selections)
    ensures var e := ElementStep(ctx, selections, base, q, v).0.expires;
            && (e == q.expires
                || exists k :: FoldedFor(ctx, base, v, selections, k) && e == MergedExpires(ctx.cache, selections[k]))
            && ((forall k :: !FoldedFor(ctx, base, v, selections, k)) ==> e == q.expires)
  {
    if Merges(ctx, base, v) {
      var src := GetUrl(base, v.url.value);
      MergeLoopExpiresReached(ctx, q.(mediatypes := q.mediatypes[src := v.media]), src, v, selections);
    }
  }

  /** Folding at an element before `n` does not depend on the elements after it. */
  lemma ElementFoldedPrefix(ctx: Context, base: string, views: seq<View>, selections: seq<seq<string>>, n: int, i: int, k: int)
    requires 0 <= i < n <= |views|
    ensures ElementFolded(ctx, base, views, selections, i, k) == ElementFolded(ctx, base, views[..n], selections, i, k)
  {
    assert views[..n][i] == views[i];
  }

  /** When every response carries an expiry, the pass leaves a running
      expiry no later than the one it started from. */
  lemma {:induction false} UpdatePassStartBound(ctx: Context, selections: seq<seq<string>>, base: string, p: Pass, views: seq<View>)
    requires NonEmpty(selections) && AllExpire(ctx.cache)
    ensures var e := UpdatePass(ctx, selections, base, p, views).0.expires;
            p.expires.Some? ==> e.Some? && e.value <= p.expires.value
    decreases |views|
  {
    if views != [] {
      var n := |views| - 1;
      UpdatePassStartBound(ctx, selections, base, p, views[..n]);
      if p.expires.Some? {
        ElementStepStartBound(ctx, selections, base, UpdatePass(ctx, selections, base, p, views[..n]).0, views[n]);
      }
    }
  }

  /** ... and no later than that of a selection folded in at element `i`. */
  lemma {:induction false} UpdatePassFoldBound(ctx: Context, selections: seq<seq<string>>, base: string, p: Pass, views: seq<View>, i: int, k: int)
    requires NonEmpty(selections) && AllExpire(ctx.cache)
    requires ElementFolded(ctx, base, views, selections, i, k)
    ensures var e := UpdatePass(ctx, selections, base, p, views).0.expires;
            && e.Some? && MergedExpires(ctx.cache, selections[k]).Some?
            && e.value <= MergedExpires(ctx.cache, selections[k]).value
    decreases |views|
  {
    var n := |views| - 1;
    var pre := views[..n];
    var prev := UpdatePass(ctx, selections, base, p, pre).0;
    if i < n {
      ElementFoldedPrefix(ctx, base, views, selections, n, i, k);
      UpdatePassFoldBound(ctx, selections, base, p, pre, i, k);
      ElementStepStartBound(ctx, selections, base, prev, views[n]);
    } else {
      ElementStepFoldBound(ctx, selections, base, prev, views[n], k);
    }
  }

  /** Both bounds over every element and every selection folded in. */
  lemma UpdatePassExpiresBelow(ctx: Context, selections: seq<seq<string>>, base: string, p: Pass, views: seq<View>)
    requires NonEmpty(selections) && AllExpire(ctx.cache)
    ensures var e := UpdatePass(ctx, selections, base, p, views).0.expires;
            && (p.expires.Some? ==> e.Some? && e.value <= p.expires.value)
            && (forall i, k :: ElementFolded(ctx, base, views, selections, i, k) ==>
                  && e.Some? && MergedExpires(ctx.cache, selections[k]).Some?
                  && e.value <= MergedExpires(ctx.cache, selections[k]).value)
  {
    UpdatePassStartBound(ctx, selections, base, p, views);
    forall i, k | ElementFolded(ctx, base, views, selections, i, k)
      ensures var e := UpdatePass(ctx, selections, base, p, views).0.expires;
              && e.Some? && MergedExpires(ctx.cache, selections[k]).Some?
              && e.value <= MergedExpires(ctx.cache, selections[k]).value
    {
      UpdatePassFoldBound(ctx, selections, base, p, views, i, k);
    }
  }

  /** The running expiry the pass leaves is the one it started from, or that
      of a selection folded in at some element; with none folded in, it is
      the one it started from. */
  lemma {:induction false} UpdatePassExpiresReached(ctx: Context, selections: seq<seq<string>>, base: string, p: Pass, views: seq<View>)
    requires NonEmpty(selections)
    ensures var e := UpdatePass(ctx, selections, base, p, views).0.expires;
            && (e == p.expires
                || exists i, k :: ElementFolded(ctx, base, views, selections, i, k) && e == MergedExpires(ctx.cache, selections[k]))
            && ((forall i, k :: !ElementFolded(ctx, base, views, selections, i, k)) ==> e == p.expires)
    decreases |views|
  {
    if views != [] {
      var n := |views| - 1;
      var pre := views[..n];
      UpdatePassExpiresReached(ctx, selections, base, p, pre);
      var prev := UpdatePass(ctx, selections, base, p, pre).0;
      ElementStepExpiresReached(ctx, selections, base, prev, views[n]);
      var e := UpdatePass(ctx, selections, base, p, views).0.expires;
      if e != p.expires {
        if e == prev.expires {
          var i, k :| ElementFolded(ctx, base, pre, selections, i, k) && e == MergedExpires(ctx.cache, selections[k]);
          assert pre[i] == views[i];
          assert ElementFolded(ctx, base, views, selections, i, k);
        } else {
          var k :| FoldedFor(ctx, base, views[n], selections, k) && e == MergedExpires(ctx.cache, selections[k]);
          assert ElementFolded(ctx, base, views, selections, n, k);
        }
      }
      if forall i, k :: !ElementFolded(ctx, base, views, selections, i, k) {
        forall k ensures !FoldedFor(ctx, base, views[n], selections, k) {
          assert !ElementFolded(ctx, base, views, selections, n, k);
        }
        forall i, k | 0 <= i < n ensures !ElementFolded(ctx, base, pre, selections, i, k) {
          assert pre[i] == views[i];
          assert !ElementFolded(ctx, base, views, selections, i, k);
        }
      }
    }
  }

  /** When every cached response has an expiry: the expiry
      `update_elements` returns, from no expiry, is `None` exactly when no
      selection is folded in at any element, and otherwise the smallest
      expiry among those folded in. */
  lemma UpdatePassExpiry(ctx: Context, selections: seq<seq<string>>, base: string, files: Files, views: seq<View>)
    requires NonEmpty(selections) && AllExpire(ctx.cache)
    ensures var e := UpdatePass(ctx, selections, base, Pass(files, None, false, map[]), views).0.expires;
            && (e.None? <==> forall i, k :: !ElementFolded(ctx, base, views, selections, i, k))
            && (forall i, k :: ElementFolded(ctx, base, views, selections, i, k) ==>
                  && e.Some? && MergedExpires(ctx.cache, selections[k]).Some?
                  && e.value <= MergedExpires(ctx.cache, selections[k]).value)
            && (e.Some? ==> exists i, k :: ElementFolded(ctx, base, views, selections, i, k) && e == MergedExpires(ctx.cache, selections[k]))
  {
    UpdatePassExpiresBelow(ctx, selections, base, Pass(files, None, false, map[]), views);
    UpdatePassExpiresReached(ctx, selections, base, Pass(files, None, false, map[]), views);
  }

  // ---- properties of the whole pass ----

  /** The view an element ends with is what its own step made of it. */
  lemma {:induction false} UpdatePassAt(ctx: Context, selections: seq<seq<string>>, base: string, p: Pass, views: seq<View>, i: nat)
    requires NonEmpty(selections)
    requires i < |views|
    ensures UpdatePass(ctx, selections, base, p, views).1[i]
              == ElementStep(ctx, selections, base, UpdatePass(ctx, selections, base, p, views[..i]).0, views[i]).1
    decreases |views|
  {
    var n := |views| - 1;
    var prev := UpdatePass(ctx, selections, base, p, views[..n]);
    assert UpdatePass(ctx, selections, base, p, views).1
             == prev.1 + [ElementStep(ctx, selections, base, prev.0, views[n]).1];
    if i < n {
      assert views[..n][..i] == views[..i];
      UpdatePassAt(ctx, selections, base, p, views[..n], i);
    }
  }

  /** An element without a URL, or whose URL is not on `host`, is left as
      it is. */
  lemma UpdatePassUntouched(ctx: Context, selections: seq<seq<string>>, base: string, p: Pass, views: seq<View>, i: nat)
    requires NonEmpty(selections)
    requires i < |views|
    requires views[i].url.None? || !StartsWith(GetUrl(base, views[i].url.value), ctx.host)
    ensures UpdatePass(ctx, selections, base, p, views).1[i] == views[i]
  {
    UpdatePassAt(ctx, selections, base, p, views, i);
  }

  /** An element is removed exactly when its URL is on `host` and some ready
      selection holds it other than as the last member; the media types and
      files seen so far do not matter. */
  lemma UpdatePassDetach(ctx: Context, selections: seq<seq<string>>, base: string, p: Pass, views: seq<View>, i: nat)
    requires NonEmpty(selections)
    requires i < |views|
    ensures UpdatePass(ctx, selections, base, p, views).1[i].attached
              == (views[i].attached
                  && !(views[i].url.Some? && StartsWith(GetUrl(base, views[i].url.value), ctx.host)
                       && exists sel :: sel in selections && Detaches(ctx.cache, GetUrl(base, views[i].url.value), sel)))
  {
    UpdatePassAt(ctx, selections, base, p, views, i);
    var before := UpdatePass(ctx, selections, base, p, views[..i]).0;
    var v := views[i];
    if v.url.Some? {
      var src := GetUrl(base, v.url.value);
      MergeLoopDetach(ctx, before.(mediatypes := before.mediatypes[src := v.media]), src, v, selections);
    }
  }

  /** Files are only ever added to the cache directory, never rewritten. */
  lemma {:induction false} UpdatePassFiles(ctx: Context, selections: seq<seq<string>>, base: string, p: Pass, views: seq<View>)
    requires NonEmpty(selections)
    ensures forall n :: n in p.files ==>
              n in UpdatePass(ctx, selections, base, p, views).0.files
              && UpdatePass(ctx, selections, base, p, views).0.files[n] == p.files[n]
    decreases |views|
  {
    if views != [] {
      var n := |views| - 1;
      UpdatePassFiles(ctx, selections, base, p, views[..n]);
      var before := UpdatePass(ctx, selections, base, p, views[..n]).0;
      var v := views[n];
      if v.url.Some? {
        var src := GetUrl(base, v.url.value);
        MergeLoopFiles(ctx, before.(mediatypes := before.mediatypes[src := v.media]), src, v, selections);
      }
    }
  }
}
