/** `maintain_appearances`: the co-occurrence statistics behind the choice of
    which resources to merge. */
module Statistics {
  import opened StableSort
  import opened Slices

  /** How often each resource URL has been seen (`appearances`). */
  type Appearances = map<string, nat>

  /** How often each tracked group of URLs has recurred (`javascripts`,
      `stylesheets`). */
  type Groups = map<seq<string>, nat>

  /** `appearances.get(r, 0)` */
  function Get(a: Appearances, r: string): nat {
    if r in a then a[r] else 0
  }

  /** `groups.get(s, 0)` */
  function Count(g: Groups, s: seq<string>): nat {
    if s in g then g[s] else 0
  }

  // ---- the appearance counter ----

  /** The counting loop over `refs`: each occurrence bumps its URL by one. */
  function BumpAll(a: Appearances, refs: seq<string>): Appearances
    decreases |refs|
  {
    if refs == [] then a
    else
      var b := BumpAll(a, refs[..|refs| - 1]);
      var r := refs[|refs| - 1];
      b[r := Get(b, r) + 1]
  }

  lemma {:induction false} BumpAllCounts(a: Appearances, refs: seq<string>, r: string)
    ensures Get(BumpAll(a, refs), r) == Get(a, r) + multiset(refs)[r]
    ensures r in BumpAll(a, refs) <==> r in a || r in refs
    decreases |refs|
  {
    if refs != [] {
      var p := refs[..|refs| - 1];
      assert refs == p + [refs[|refs| - 1]];
      BumpAllCounts(a, p, r);
    }
  }

  // ---- the ratio ----

  /** `max(map(appearances.get, selection))` */
  function MaxCount(a: Appearances, s: seq<string>): (m: nat)
    ensures forall x :: x in s ==> Get(a, x) <= m
    ensures s != [] ==> exists x :: x in s && Get(a, x) == m
    ensures s == [] ==> m == 0
  {
    if s == [] then 0
    else
      var t := MaxCount(a, s[1..]);
      assert forall x :: x in s ==> x == s[0] || x in s[1..];
      if Get(a, s[0]) >= t then Get(a, s[0]) else t
  }

  /** `max(...) or 1`: the largest appearance count among the members,
      never zero. */
  function Highest(a: Appearances, s: seq<string>): (h: nat)
    ensures 1 <= h
    ensures forall x :: x in s ==> Get(a, x) <= h
    ensures (exists x :: x in s && Get(a, x) > 0) ==> exists x :: x in s && Get(a, x) == h
    ensures (forall x :: x in s ==> Get(a, x) == 0) ==> h == 1
  {
    var m := MaxCount(a, s);
    if m == 0 then 1 else m
  }

  /** `float(value) / highest`, in exact arithmetic. */
  function Ratio(value: nat, a: Appearances, s: seq<string>): real {
    (value as real) / (Highest(a, s) as real)
  }

  // ---- inverse groups ----

  /** `tuple(ref for ref in group if ref not in selection)` */
  function Inverse(group: seq<string>, selection: seq<string>): (r: seq<string>)
    ensures |r| <= |group|
    ensures forall x :: x in r <==> x in group && x !in selection
  {
    if group == [] then []
    else
      var r := (if group[0] in selection then [] else [group[0]]) + Inverse(group[1..], selection);
      assert forall x :: x in group <==> x == group[0] || x in group[1..];
      r
  }

  /** The complement of a concatenation is the concatenation of the
      complements: the filter keeps the group's order and its repeats. */
  lemma {:induction false} InverseAppend(a: seq<string>, b: seq<string>, selection: seq<string>)
    ensures Inverse(a + b, selection) == Inverse(a, selection) + Inverse(b, selection)
  {
    if a == [] {
      assert a + b == b;
    } else {
      assert (a + b)[0] == a[0];
      assert (a + b)[1..] == a[1..] + b;
      InverseAppend(a[1..], b, selection);
    }
  }

  /** A single member is kept exactly when it is not in the selection. */
  lemma InverseSingle(x: string, selection: seq<string>)
    ensures Inverse([x], selection) == if x in selection then [] else [x]
  {
    assert [x][1..] == [];
  }

  /** The non-empty complements, with respect to `selection`, of the groups of
      `snapshot` other than `selection` itself. */
  function Inverses(snapshot: set<seq<string>>, selection: seq<string>): set<seq<string>> {
    set h | h in snapshot && h != selection && Inverse(h, selection) != [] :: Inverse(h, selection)
  }

  /** `groups.setdefault(inverse, 0)` for every such complement. */
  function RegisterInverses(g: Groups, snapshot: set<seq<string>>, selection: seq<string>): (r: Groups)
    ensures r.Keys == g.Keys + Inverses(snapshot, selection)
    ensures forall k :: k in r ==> r[k] == Count(g, k)
  {
    map k | k in g.Keys + Inverses(snapshot, selection) :: Count(g, k)
  }

  /** The inverse of every group of `g` registered in `g`: the body of the
      loop over the snapshot of the keys. */
  function RegisterAll(g: Groups, selection: seq<string>): Groups {
    RegisterInverses(g, g.Keys, selection)
  }

  // ---- one turn of the slice loop ----

  datatype Walk = Walk(groups: Groups, chosen: seq<seq<string>>)

  /** A slice takes part in a turn when it is not a single URL and is already
      a tracked group. */
  predicate Tracked(g: Groups, s: seq<string>) {
    |s| != 1 && s in g
  }

  /** The body of `for selection in get_slices_ordered_by_size(refs)`. */
  function Step(w: Walk, s: seq<string>, a: Appearances, threshold: real): Walk {
    if !Tracked(w.groups, s) then w
    else
      var value := w.groups[s] + 1;
      var g := w.groups[s := value];
      var chosen := if Ratio(value, a, s) > threshold then w.chosen + [s] else w.chosen;
      Walk(RegisterAll(g, s), chosen)
  }

  /** The slice loop run over `slices`, in order. */
  function WalkAll(w: Walk, slices: seq<seq<string>>, a: Appearances, threshold: real): Walk
    decreases |slices|
  {
    if slices == [] then w
    else Step(WalkAll(w, slices[..|slices| - 1], a, threshold), slices[|slices| - 1], a, threshold)
  }

  // ---- the whole call ----

  /** `groups.setdefault(tuple(refs), 0)` */
  function Register(g: Groups, refs: seq<string>): Groups {
    if refs in g then g else g[refs := 0]
  }

  /** `refs.index(x)`: the first position of `x`, or `|refs|` when absent. */
  function IndexOf(refs: seq<string>, x: string): (k: nat)
    ensures k <= |refs|
    ensures k < |refs| ==> refs[k] == x
    ensures forall j :: 0 <= j < k ==> refs[j] != x
  {
    if refs == [] then 0 else if refs[0] == x then 0 else 1 + IndexOf(refs[1..], x)
  }

  /** The sort key `lambda selection: refs.index(selection[0])`. */
  function FirstMemberIndex(refs: seq<string>): seq<string> -> nat {
    (selection: seq<string>) => if selection == [] then |refs| else IndexOf(refs, selection[0])
  }

  function SlicesOf(refs: seq<string>): seq<seq<string>> {
    Project(refs, Ordered(|refs|))
  }

  datatype Outcome = Outcome(selections: seq<seq<string>>, groups: Groups, appearances: Appearances)

  /** What `maintain_appearances(refs, groups, appearances, threshold)`
      returns, and the two dictionaries after the call. */
  function Maintain(refs: seq<string>, groups: Groups, appearances: Appearances, threshold: real): Outcome {
    var a := BumpAll(appearances, refs);
    var w := WalkAll(Walk(Register(groups, refs), []), SlicesOf(refs), a, threshold);
    Outcome(SortByKey(w.chosen, FirstMemberIndex(refs), |refs|), w.groups, a)
  }

  // ---- the imperative code ----

  /** The loop `for group in groups.keys(): ...` over a copy of the keys
      taken before the loop; it visits them in no particular order. */
  method AddInverses(groups: Groups, selection: seq<string>) returns (r: Groups)
    ensures r == RegisterAll(groups, selection)
  {
    r := groups;
    var rest := groups.Keys;
    assert r == RegisterInverses(groups, groups.Keys - rest, selection);
    while rest != {}
      invariant rest <= groups.Keys
      invariant r == RegisterInverses(groups, groups.Keys - rest, selection)
      decreases rest
    {
      var group :| group in rest;
      RegisterGroup(groups, rest, group, selection);
      if group != selection {
        var inverse := Inverse(group, selection);
        if |inverse| > 0 && inverse !in r {
          r := r[inverse := 0];
        }
      }
      rest := rest - {group};
    }
  }

  /** The counting loop at the start of `maintain_appearances`. */
  method CountAppearances(appearances: Appearances, refs: seq<string>) returns (r: Appearances)
    ensures r == BumpAll(appearances, refs)
  {
    r := appearances;
    for i := 0 to |refs|
      invariant r == BumpAll(appearances, refs[..i])
    {
      assert refs[..i + 1][..i] == refs[..i];
      var ref := refs[i];
      var seen := if ref in r then r[ref] else 0;
      r := r[ref := seen + 1];
    }
    assert refs[..|refs|] == refs;
  }

  /** One turn of the slice loop. */
  method VisitSlice(groups: Groups, chosen: seq<seq<string>>, selection: seq<string>,
                    appearances: Appearances, threshold: real)
    returns (groups': Groups, chosen': seq<seq<string>>)
    ensures Walk(groups', chosen') == Step(Walk(groups, chosen), selection, appearances, threshold)
  {
    if |selection| != 1 && selection in groups {
      groups', chosen' := VisitTracked(groups, chosen, selection, appearances, threshold);
    } else {
      groups', chosen' := groups, chosen;
    }
  }

  /** A turn whose slice is a tracked group: count it, select it when its
      ratio is above the threshold, and register the inverse groups. */
  method VisitTracked(groups: Groups, chosen: seq<seq<string>>, selection: seq<string>,
                      appearances: Appearances, threshold: real)
    returns (groups': Groups, chosen': seq<seq<string>>)
    requires Tracked(groups, selection)
    ensures Walk(groups', chosen') == Step(Walk(groups, chosen), selection, appearances, threshold)
  {
    chosen' := if Ratio(groups[selection] + 1, appearances, selection) > threshold then chosen + [selection] else chosen;
    groups' := AddInverses(groups[selection := groups[selection] + 1], selection);
    StepTracked(groups, chosen, selection, appearances, threshold);
  }

  lemma StepTracked(groups: Groups, chosen: seq<seq<string>>, s: seq<string>, a: Appearances, threshold: real)
    requires Tracked(groups, s)
    ensures Step(Walk(groups, chosen), s, a, threshold)
              == Walk(RegisterAll(groups[s := groups[s] + 1], s),
                      if Ratio(groups[s] + 1, a, s) > threshold then chosen + [s] else chosen)
  {
  }

  /** The slice loop of `maintain_appearances`, from no selection. */
  method VisitSlices(groups: Groups, slices: seq<seq<string>>, appearances: Appearances, threshold: real)
    returns (groups': Groups, chosen: seq<seq<string>>)
    ensures Walk(groups', chosen) == WalkAll(Walk(groups, []), slices, appearances, threshold)
  {
    groups', chosen := groups, [];
    for k := 0 to |slices|
      invariant Walk(groups', chosen) == WalkAll(Walk(groups, []), slices[..k], appearances, threshold)
    {
      assert slices[..k + 1][..k] == slices[..k];
      groups', chosen := VisitSlice(groups', chosen, slices[k], appearances, threshold);
    }
    assert slices[..|slices|] == slices;
  }

  /** `maintain_appearances(refs, groups, appearances, threshold)`; the
      dictionaries it updates in place are passed in and returned. */
  method MaintainAppearances(refs: seq<string>, groups: Groups, appearances: Appearances, threshold: real)
    returns (selections: seq<seq<string>>, newGroups: Groups, newAppearances: Appearances)
    ensures Outcome(selections, newGroups, newAppearances) == Maintain(refs, groups, appearances, threshold)
  {
    newAppearances := CountAppearances(appearances, refs);
    newGroups := groups;
    if refs !in newGroups {
      newGroups := newGroups[refs := 0];
    }
    var slices := GetSlicesOrderedBySize(refs);
    var chosen;
    newGroups, chosen := VisitSlices(newGroups, slices, newAppearances, threshold);
    selections := SortByKey(chosen, FirstMemberIndex(refs), |refs|);
  }

  lemma InversesOneMore(done: set<seq<string>>, h: seq<string>, selection: seq<string>)
    ensures Inverses(done + {h}, selection)
      == Inverses(done, selection) + (if h != selection && Inverse(h, selection) != [] then {Inverse(h, selection)} else {})
  {
    forall y | y in Inverses(done + {h}, selection)
      ensures y in Inverses(done, selection) || (h != selection && Inverse(h, selection) != [] && y == Inverse(h, selection))
    {
      var h' :| h' in done + {h} && h' != selection && Inverse(h', selection) != [] && Inverse(h', selection) == y;
      if h' != h {
        assert h' in done;
      }
    }
    forall y | y in Inverses(done, selection) ensures y in Inverses(done + {h}, selection) {
      var h' :| h' in done && h' != selection && Inverse(h', selection) != [] && Inverse(h', selection) == y;
      assert h' in done + {h};
    }
    if h != selection && Inverse(h, selection) != [] {
      assert h in done + {h};
    }
  }

  lemma RegisterOneMore(g: Groups, done: set<seq<string>>, h: seq<string>, selection: seq<string>)
    ensures var before := RegisterInverses(g, done, selection);
            var inv := Inverse(h, selection);
            RegisterInverses(g, done + {h}, selection)
              == if h != selection && inv != [] then before[inv := Count(g, inv)] else before
  {
    InversesOneMore(done, h, selection);
  }

  /** `groups.setdefault(inverse, 0)` for one more group of the snapshot
      registers its complement. */
  lemma RegisterGroup(g: Groups, rest: set<seq<string>>, h: seq<string>, selection: seq<string>)
    requires h in rest && rest <= g.Keys
    ensures RegisterInverses(g, g.Keys - (rest - {h}), selection)
              == if h != selection && |Inverse(h, selection)| > 0 && Inverse(h, selection) !in RegisterInverses(g, g.Keys - rest, selection)
                 then RegisterInverses(g, g.Keys - rest, selection)[Inverse(h, selection) := 0]
                 else RegisterInverses(g, g.Keys - rest, selection)
  {
    assert g.Keys - (rest - {h}) == (g.Keys - rest) + {h};
    RegisterOneMore(g, g.Keys - rest, h, selection);
    if h != selection && Inverse(h, selection) != [] {
      if Inverse(h, selection) in RegisterInverses(g, g.Keys - rest, selection) {
        assert RegisterInverses(g, g.Keys - rest, selection)[Inverse(h, selection) := Count(g, Inverse(h, selection))]
                 == RegisterInverses(g, g.Keys - rest, selection);
      } else {
        assert Inverse(h, selection) !in g;
      }
    }
  }

  // ---- properties of one turn ----

  /** A turn adds one to the current slice when it is tracked, and to nothing
      else; no group is dropped. */
  lemma StepCounts(w: Walk, s: seq<string>, a: Appearances, threshold: real, k: seq<string>)
    ensures w.groups.Keys <= Step(w, s, a, threshold).groups.Keys
    ensures Count(Step(w, s, a, threshold).groups, k)
              == Count(w.groups, k) + (if k == s && Tracked(w.groups, s) then 1 else 0)
  {
    if Tracked(w.groups, s) {
      StepTracked(w.groups, w.chosen, s, a, threshold);
    }
  }

  /** After a tracked turn the slice's count has gone up by one and every
      other group's count is as it was. */
  lemma StepKeepsOtherCounts(w: Walk, s: seq<string>, a: Appearances, threshold: real)
    requires Tracked(w.groups, s)
    ensures var after := Step(w, s, a, threshold).groups;
            && after[s] == w.groups[s] + 1
            && (forall k :: k in w.groups && k != s ==> after[k] == w.groups[k])
  {
    StepTracked(w.groups, w.chosen, s, a, threshold);
  }

  /** After a tracked turn the complement of every other group of the
      snapshot is tracked, and the groups that are new are such complements,
      starting at zero. */
  lemma StepRegistersInverses(w: Walk, s: seq<string>, a: Appearances, threshold: real)
    requires Tracked(w.groups, s)
    ensures var after := Step(w, s, a, threshold).groups;
            && (forall h :: h in w.groups && h != s && Inverse(h, s) != [] ==> Inverse(h, s) in after)
            && (forall k :: k in after && k !in w.groups ==>
                  after[k] == 0 && exists h :: h in w.groups && h != s && k == Inverse(h, s) && k != [])
  {
    StepTracked(w.groups, w.chosen, s, a, threshold);
    assert w.groups[s := w.groups[s] + 1].Keys == w.groups.Keys;
    var after := RegisterAll(w.groups[s := w.groups[s] + 1], s);
    forall h | h in w.groups && h != s && Inverse(h, s) != [] ensures Inverse(h, s) in after {
      assert Inverse(h, s) in Inverses(w.groups.Keys, s);
    }
    forall k | k in after && k !in w.groups
      ensures after[k] == 0 && exists h :: h in w.groups && h != s && k == Inverse(h, s) && k != []
    {
      assert k in Inverses(w.groups.Keys, s);
    }
  }

  // ---- properties of the slice loop ----

  /** The number of turns of `slices` at which `g` was the slice and was
      tracked. */
  ghost function Hits(w: Walk, slices: seq<seq<string>>, a: Appearances, threshold: real, g: seq<string>): nat
    decreases |slices|
  {
    if slices == [] then 0
    else
      var p := slices[..|slices| - 1];
      Hits(w, p, a, threshold, g)
        + (if slices[|slices| - 1] == g && Tracked(WalkAll(w, p, a, threshold).groups, g) then 1 else 0)
  }

  lemma {:induction false} WalkAllCounts(w: Walk, slices: seq<seq<string>>, a: Appearances, threshold: real, g: seq<string>)
    ensures w.groups.Keys <= WalkAll(w, slices, a, threshold).groups.Keys
    ensures Count(WalkAll(w, slices, a, threshold).groups, g) == Count(w.groups, g) + Hits(w, slices, a, threshold, g)
    decreases |slices|
  {
    if slices != [] {
      var p := slices[..|slices| - 1];
      WalkAllCounts(w, p, a, threshold, g);
      StepCounts(WalkAll(w, p, a, threshold), slices[|slices| - 1], a, threshold, g);
    }
  }

  /** Turn `k` of `slices` selects its slice: tracked at its turn, and the
      count after the increment over the highest appearance count of its
      members is strictly above the threshold. */
  ghost predicate SelectedAt(w: Walk, slices: seq<seq<string>>, a: Appearances, threshold: real, k: nat)
    requires k < |slices|
  {
    var before := WalkAll(w, slices[..k], a, threshold).groups;
    Tracked(before, slices[k]) && Ratio(before[slices[k]] + 1, a, slices[k]) > threshold
  }

  lemma SelectedAtPrefix(w: Walk, slices: seq<seq<string>>, a: Appearances, threshold: real, k: nat)
    requires k < |slices| - 1
    ensures SelectedAt(w, slices, a, threshold, k) == SelectedAt(w, slices[..|slices| - 1], a, threshold, k)
  {
    assert slices[..|slices| - 1][..k] == slices[..k];
  }

  /** A turn appends its slice to the selections exactly when it selects it. */
  lemma StepChosen(w: Walk, s: seq<string>, a: Appearances, threshold: real)
    ensures Step(w, s, a, threshold).chosen
              == w.chosen + (if Tracked(w.groups, s) && Ratio(w.groups[s] + 1, a, s) > threshold then [s] else [])
  {
    if Tracked(w.groups, s) {
      StepTracked(w.groups, w.chosen, s, a, threshold);
    }
  }

  /** The selections of a walk only ever grow. */
  lemma {:induction false} WalkAllKeepsChosen(w: Walk, slices: seq<seq<string>>, a: Appearances, threshold: real, m: nat)
    requires m <= |slices|
    ensures multiset(WalkAll(w, slices[..m], a, threshold).chosen) <= multiset(WalkAll(w, slices, a, threshold).chosen)
    decreases |slices|
  {
    if m < |slices| {
      var n := |slices| - 1;
      var p := slices[..n];
      assert p[..m] == slices[..m];
      WalkAllKeepsChosen(w, p, a, threshold, m);
      StepChosen(WalkAll(w, p, a, threshold), slices[n], a, threshold);
    } else {
      assert slices[..m] == slices;
    }
  }

  /** A slice selected at its turn is among the selections. */
  lemma ChosenComplete(w: Walk, slices: seq<seq<string>>, a: Appearances, threshold: real, k: nat)
    requires k < |slices|
    requires SelectedAt(w, slices, a, threshold, k)
    ensures slices[k] in WalkAll(w, slices, a, threshold).chosen
  {
    var p := slices[..k + 1];
    assert p[..k] == slices[..k];
    StepChosen(WalkAll(w, slices[..k], a, threshold), slices[k], a, threshold);
    assert slices[k] in WalkAll(w, p, a, threshold).chosen;
    assert slices[k] in multiset(WalkAll(w, p, a, threshold).chosen);
    WalkAllKeepsChosen(w, slices, a, threshold, k + 1);
  }

  /** A selection not there before the walk was selected at some turn. */
  lemma {:induction false} ChosenSound(w: Walk, slices: seq<seq<string>>, a: Appearances, threshold: real, x: seq<string>)
    requires x in WalkAll(w, slices, a, threshold).chosen
    requires x !in w.chosen
    ensures exists k :: 0 <= k < |slices| && slices[k] == x && SelectedAt(w, slices, a, threshold, k)
    decreases |slices|
  {
    var n := |slices| - 1;
    var p := slices[..n];
    var before := WalkAll(w, p, a, threshold);
    StepChosen(before, slices[n], a, threshold);
    if x in before.chosen {
      ChosenSound(w, p, a, threshold, x);
      var k :| 0 <= k < |p| && p[k] == x && SelectedAt(w, p, a, threshold, k);
      SelectedAtPrefix(w, slices, a, threshold, k);
      assert slices[k] == x && SelectedAt(w, slices, a, threshold, k);
    } else {
      assert slices[n] == x && SelectedAt(w, slices, a, threshold, n);
    }
  }

  lemma {:induction false} WalkUntracked(w: Walk, slices: seq<seq<string>>, a: Appearances, threshold: real)
    requires forall k :: 0 <= k < |slices| ==> !Tracked(w.groups, slices[k])
    ensures WalkAll(w, slices, a, threshold) == w
    decreases |slices|
  {
    if slices != [] {
      WalkUntracked(w, slices[..|slices| - 1], a, threshold);
    }
  }

  // ---- properties of a whole call ----

  /** Each URL's appearance count grows by the number of its occurrences in
      `refs`; every other count is unchanged and no URL is forgotten. */
  lemma MaintainCountsAppearances(refs: seq<string>, groups: Groups, appearances: Appearances, threshold: real, r: string)
    ensures var o := Maintain(refs, groups, appearances, threshold);
            && Get(o.appearances, r) == Get(appearances, r) + multiset(refs)[r]
            && (r in o.appearances <==> r in appearances || r in refs)
  {
    BumpAllCounts(appearances, refs, r);
  }

  /** No group is dropped and the whole of `refs` is tracked afterwards; a
      group's count grows by exactly the number of turns at which it was the
      slice and already tracked. */
  lemma MaintainCountsGroups(refs: seq<string>, groups: Groups, appearances: Appearances, threshold: real, g: seq<string>)
    ensures var o := Maintain(refs, groups, appearances, threshold);
            && groups.Keys <= o.groups.Keys
            && refs in o.groups
            && Count(o.groups, g) == Count(groups, g)
                 + Hits(Walk(Register(groups, refs), []), SlicesOf(refs), o.appearances, threshold, g)
            && (g in groups ==> groups[g] <= o.groups[g])
  {
    var start := Walk(Register(groups, refs), []);
    var a := BumpAll(appearances, refs);
    WalkAllCounts(start, SlicesOf(refs), a, threshold, g);
  }

  lemma KeysBounded(refs: seq<string>, s: seq<seq<string>>)
    ensures KeysAtMost(s, FirstMemberIndex(refs), |refs|)
  {
  }

  /** The selections are exactly the slices selected at their turn. */
  lemma MaintainSelections(refs: seq<string>, groups: Groups, appearances: Appearances, threshold: real, x: seq<string>)
    ensures var o := Maintain(refs, groups, appearances, threshold);
            x in o.selections <==>
              exists k :: 0 <= k < |SlicesOf(refs)| && SlicesOf(refs)[k] == x
                && SelectedAt(Walk(Register(groups, refs), []), SlicesOf(refs), o.appearances, threshold, k)
  {
    var start := Walk(Register(groups, refs), []);
    var a := BumpAll(appearances, refs);
    var chosen := WalkAll(start, SlicesOf(refs), a, threshold).chosen;
    KeysBounded(refs, chosen);
    SortByKeyPermutation(chosen, FirstMemberIndex(refs), |refs|);
    var sorted := SortByKey(chosen, FirstMemberIndex(refs), |refs|);
    assert x in sorted <==> x in multiset(sorted);
    assert x in chosen <==> x in multiset(chosen);
    if x in chosen {
      ChosenSound(start, SlicesOf(refs), a, threshold, x);
    }
    if exists k :: 0 <= k < |SlicesOf(refs)| && SlicesOf(refs)[k] == x && SelectedAt(start, SlicesOf(refs), a, threshold, k) {
      var k :| 0 <= k < |SlicesOf(refs)| && SlicesOf(refs)[k] == x && SelectedAt(start, SlicesOf(refs), a, threshold, k);
      ChosenComplete(start, SlicesOf(refs), a, threshold, k);
    }
  }

  /** Every selection is a contiguous slice `refs[i:j]` of at least two URLs. */
  lemma MaintainSelectionsAreSlices(refs: seq<string>, groups: Groups, appearances: Appearances, threshold: real, x: seq<string>)
    requires x in Maintain(refs, groups, appearances, threshold).selections
    ensures 2 <= |x|
    ensures exists i, j :: 0 <= i < j <= |refs| && x == refs[i..j]
  {
    MaintainSelections(refs, groups, appearances, threshold, x);
    var o := Maintain(refs, groups, appearances, threshold);
    var k :| 0 <= k < |SlicesOf(refs)| && SlicesOf(refs)[k] == x
               && SelectedAt(Walk(Register(groups, refs), []), SlicesOf(refs), o.appearances, threshold, k);
    var sp := Ordered(|refs|)[k];
    ProjectAt(refs, Ordered(|refs|), k);
    OrderedComplete(|refs|, sp);
    assert x == refs[sp.start..sp.end];
  }

  /** The selections are ordered by the position in `refs` of their first
      member; they are the selected slices, rearranged and nothing else, and
      selections whose first members coincide stay in turn order. */
  lemma MaintainSelectionsSorted(refs: seq<string>, groups: Groups, appearances: Appearances, threshold: real)
    ensures var o := Maintain(refs, groups, appearances, threshold);
            var chosen := WalkAll(Walk(Register(groups, refs), []), SlicesOf(refs), o.appearances, threshold).chosen;
            && SortedBy(o.selections, FirstMemberIndex(refs))
            && multiset(o.selections) == multiset(chosen)
            && forall k: nat :: Bucket(o.selections, FirstMemberIndex(refs), k) == Bucket(chosen, FirstMemberIndex(refs), k)
  {
    var a := BumpAll(appearances, refs);
    var chosen := WalkAll(Walk(Register(groups, refs), []), SlicesOf(refs), a, threshold).chosen;
    KeysBounded(refs, chosen);
    SortByKeySorted(chosen, FirstMemberIndex(refs), |refs|);
    SortByKeyPermutation(chosen, FirstMemberIndex(refs), |refs|);
    forall k: nat ensures Bucket(SortByKey(chosen, FirstMemberIndex(refs), |refs|), FirstMemberIndex(refs), k)
                            == Bucket(chosen, FirstMemberIndex(refs), k) {
      SortByKeyStable(chosen, FirstMemberIndex(refs), |refs|, k);
    }
  }

  lemma SortOne(x: seq<string>, key: seq<string> -> nat, hi: nat)
    requires key(x) <= hi
    ensures SortByKey([x], key, hi) == [x]
    ensures SortByKey([], key, hi) == []
  {
    SortByKeyPermutation([x], key, hi);
    SortByKeyPermutation([], key, hi);
    var r := SortByKey([x], key, hi);
    assert |r| == |multiset(r)| == 1;
    assert r[0] in multiset(r);
    var e := SortByKey([], key, hi);
    assert |e| == |multiset(e)| == 0;
  }

  /** When `refs` is the only tracked group, every slice but the last (the
      whole of `refs`) is untracked, so the walk reaches its last turn
      unchanged. */
  lemma SoleWalkPrefix(refs: seq<string>, n: nat, a: Appearances, threshold: real)
    requires 2 <= |refs|
    ensures var slices := SlicesOf(refs);
            && 1 <= |slices|
            && slices[|slices| - 1] == refs
            && WalkAll(Walk(map[refs := n], []), slices[..|slices| - 1], a, threshold) == Walk(map[refs := n], [])
  {
    var start := Walk(map[refs := n], []);
    var slices := SlicesOf(refs);
    OrderedEndsWithWhole(|refs|);
    OrderedMembers(|refs|);
    var o := Ordered(|refs|);
    var m := |slices| - 1;
    var p := slices[..m];
    forall k | 0 <= k < |p| ensures !Tracked(start.groups, p[k]) {
      ProjectAt(refs, o, k);
      assert |p[k]| == Len(o[k]) < |refs|;
    }
    WalkUntracked(start, p, a, threshold);
    ProjectAt(refs, o, m);
  }

  /** The last turn when `refs` is the only tracked group: `refs` is counted
      once more, it has no complements to register, and it is selected when
      its ratio passes. */
  lemma SoleStep(refs: seq<string>, n: nat, a: Appearances, threshold: real)
    requires 2 <= |refs|
    ensures Step(Walk(map[refs := n], []), refs, a, threshold)
              == Walk(map[refs := n + 1], if Ratio(n + 1, a, refs) > threshold then [refs] else [])
  {
    StepTracked(map[refs := n], [], refs, a, threshold);
    assert map[refs := n][refs := n + 1] == map[refs := n + 1];
    RegisterAllSingle(refs, n + 1);
  }

  lemma RegisterAllSingle(refs: seq<string>, n: nat)
    ensures RegisterAll(map[refs := n], refs) == map[refs := n]
  {
    assert map[refs := n].Keys == {refs};
    assert Inverses({refs}, refs) == {};
  }

  lemma SoleWalk(refs: seq<string>, n: nat, a: Appearances, threshold: real)
    requires 2 <= |refs|
    ensures WalkAll(Walk(map[refs := n], []), SlicesOf(refs), a, threshold)
              == Walk(map[refs := n + 1], if Ratio(n + 1, a, refs) > threshold then [refs] else [])
  {
    SoleWalkPrefix(refs, n, a, threshold);
    SoleStep(refs, n, a, threshold);
  }

  /** Running the same sequence again, when it is the only tracked group,
      counts it once more and returns it when the new count over the highest
      appearance count passes the threshold. */
  lemma RepeatObservation(refs: seq<string>, n: nat, appearances: Appearances, threshold: real)
    requires 2 <= |refs|
    ensures var o := Maintain(refs, map[refs := n], appearances, threshold);
            && o.appearances == BumpAll(appearances, refs)
            && o.groups == map[refs := n + 1]
            && o.selections == if Ratio(n + 1, BumpAll(appearances, refs), refs) > threshold then [refs] else []
  {
    SoleWalk(refs, n, BumpAll(appearances, refs), threshold);
    SortOne(refs, FirstMemberIndex(refs), |refs|);
  }

  /** On empty statistics one call tracks exactly `refs`, once, and returns it
      when its ratio passes the threshold. */
  lemma FirstObservation(refs: seq<string>, appearances: Appearances, threshold: real)
    requires 2 <= |refs|
    ensures var o := Maintain(refs, map[], appearances, threshold);
            && o.appearances == BumpAll(appearances, refs)
            && o.groups == map[refs := 1]
            && o.selections == if Ratio(1, BumpAll(appearances, refs), refs) > threshold then [refs] else []
  {
    assert Register(map[], refs) == map[refs := 0];
    FirstWalk(refs, BumpAll(appearances, refs), threshold);
    SortOne(refs, FirstMemberIndex(refs), |refs|);
  }

  lemma FirstWalk(refs: seq<string>, a: Appearances, threshold: real)
    requires 2 <= |refs|
    ensures WalkAll(Walk(map[refs := 0], []), SlicesOf(refs), a, threshold)
              == Walk(map[refs := 1], if Ratio(1, a, refs) > threshold then [refs] else [])
  {
    SoleWalk(refs, 0, a, threshold);
  }

  lemma DistinctOnce(refs: seq<string>, r: string)
    requires forall i, j :: 0 <= i < j < |refs| ==> refs[i] != refs[j]
    requires r in refs
    ensures multiset(refs)[r] == 1
  {
    if refs[0] == r {
      assert r !in refs[1..];
    } else {
      DistinctOnce(refs[1..], r);
    }
    assert refs == [refs[0]] + refs[1..];
  }

  /** The first observation of distinct URLs on empty statistics (processor.py
      doctest): every URL is counted once and the whole sequence is selected
      exactly when the threshold is below 1. */
  lemma DistinctHighest(refs: seq<string>)
    requires 1 <= |refs|
    requires forall i, j :: 0 <= i < j < |refs| ==> refs[i] != refs[j]
    ensures forall r :: r in refs ==> Get(BumpAll(map[], refs), r) == 1
    ensures Highest(BumpAll(map[], refs), refs) == 1
  {
    var a := BumpAll(map[], refs);
    forall r | r in refs ensures Get(a, r) == 1 {
      BumpAllCounts(map[], refs, r);
      DistinctOnce(refs, r);
    }
  }

  lemma FirstObservationDistinct(refs: seq<string>, threshold: real)
    requires 2 <= |refs|
    requires forall i, j :: 0 <= i < j < |refs| ==> refs[i] != refs[j]
    ensures var o := Maintain(refs, map[], map[], threshold);
            && o.groups == map[refs := 1]
            && (forall r :: r in refs ==> Get(o.appearances, r) == 1)
            && o.selections == if threshold < 1.0 then [refs] else []
  {
    DistinctHighest(refs);
    RatioOfOne(BumpAll(map[], refs), refs);
    FirstObservation(refs, map[], threshold);
  }

  /** The second observation of the same distinct URLs (processor.py
      doctest): every URL is counted twice, the group twice, and the whole
      sequence is again selected exactly when the threshold is below 1. */
  lemma SecondObservationDistinct(refs: seq<string>, threshold: real)
    requires 2 <= |refs|
    requires forall i, j :: 0 <= i < j < |refs| ==> refs[i] != refs[j]
    ensures var o := Maintain(refs, map[refs := 1], BumpAll(map[], refs), threshold);
            && o.groups == map[refs := 2]
            && (forall r :: r in refs ==> Get(o.appearances, r) == 2)
            && o.selections == if threshold < 1.0 then [refs] else []
  {
    DistinctTwice(refs);
    RepeatObservation(refs, 1, BumpAll(map[], refs), threshold);
  }

  /** Distinct URLs counted twice from nothing: each count, and so the
      highest, is 2. */
  lemma DistinctTwice(refs: seq<string>)
    requires 1 <= |refs|
    requires forall i, j :: 0 <= i < j < |refs| ==> refs[i] != refs[j]
    ensures forall r :: r in refs ==> Get(BumpAll(BumpAll(map[], refs), refs), r) == 2
    ensures Highest(BumpAll(BumpAll(map[], refs), refs), refs) == 2
  {
    DistinctHighest(refs);
    var a := BumpAll(BumpAll(map[], refs), refs);
    forall r | r in refs ensures Get(a, r) == 2 {
      BumpAllCounts(BumpAll(map[], refs), refs, r);
      DistinctOnce(refs, r);
    }
    assert refs[0] in refs;
  }

  lemma RatioOfOne(a: Appearances, s: seq<string>)
    requires Highest(a, s) == 1
    ensures Ratio(1, a, s) == 1.0
  {
  }

  // ---- the subset observations of the doctest ----

  /** No slice of `refs` but the whole takes part in a turn: every other
      slice is a single URL or not a tracked group. */
  ghost predicate OnlyWholeTracked(g: Groups, refs: seq<string>) {
    forall k :: 0 <= k < |SlicesOf(refs)| - 1 ==> !Tracked(g, SlicesOf(refs)[k])
  }

  /** When no slice but `refs` itself is tracked, the slice loop comes down
      to the turn of `refs`. */
  lemma WalkOnlyWhole(refs: seq<string>, g: Groups, a: Appearances, threshold: real)
    requires 2 <= |refs|
    requires OnlyWholeTracked(g, refs)
    ensures WalkAll(Walk(g, []), SlicesOf(refs), a, threshold) == Step(Walk(g, []), refs, a, threshold)
  {
    var slices := SlicesOf(refs);
    WalkOnlyWholePrefix(refs, g, a, threshold);
    assert WalkAll(Walk(g, []), slices, a, threshold)
             == Step(WalkAll(Walk(g, []), slices[..|slices| - 1], a, threshold), slices[|slices| - 1], a, threshold);
  }

  lemma WalkOnlyWholePrefix(refs: seq<string>, g: Groups, a: Appearances, threshold: real)
    requires 2 <= |refs|
    requires OnlyWholeTracked(g, refs)
    ensures var slices := SlicesOf(refs);
            && 1 <= |slices|
            && slices[|slices| - 1] == refs
            && WalkAll(Walk(g, []), slices[..|slices| - 1], a, threshold) == Walk(g, [])
  {
    var slices := SlicesOf(refs);
    OrderedEndsWithWhole(|refs|);
    var p := slices[..|slices| - 1];
    assert forall k :: 0 <= k < |p| ==> p[k] == slices[k];
    WalkUntracked(Walk(g, []), p, a, threshold);
    ProjectAt(refs, Ordered(|refs|), |slices| - 1);
  }

  /** When every tracked group shorter than `refs` starts with a URL that
      `refs` does not hold, no slice but the whole is tracked. */
  lemma ForeignShortKeysOnlyWhole(g: Groups, refs: seq<string>)
    requires 2 <= |refs|
    requires ShortKeysForeign(g, refs)
    ensures OnlyWholeTracked(g, refs)
  {
    forall k | 0 <= k < |SlicesOf(refs)| - 1 ensures !Tracked(g, SlicesOf(refs)[k]) {
      ShorterSliceUntracked(refs, g, k);
    }
  }

  /** Every slice before the last is shorter than `refs`, so untracked. */
  lemma ShorterSliceUntracked(refs: seq<string>, g: Groups, k: nat)
    requires 2 <= |refs|
    requires ShortKeysForeign(g, refs)
    requires k + 1 < |SlicesOf(refs)|
    ensures !Tracked(g, SlicesOf(refs)[k])
  {
    var o := Ordered(|refs|);
    OrderedEndsWithWhole(|refs|);
    OrderedMembers(|refs|);
    ProjectAt(refs, o, k);
    assert o[k] in o;
    ShortSliceUntracked(refs, g, o[k]);
  }

  /** Every tracked group shorter than `refs` starts with a URL `refs` does
      not hold. */
  ghost predicate ShortKeysForeign(g: Groups, refs: seq<string>) {
    forall k :: k in g ==> |k| >= |refs| || (k != [] && k[0] !in refs)
  }

  lemma ShortSliceUntracked(refs: seq<string>, g: Groups, sp: Span)
    requires ShortKeysForeign(g, refs)
    requires sp.start <= sp.end <= |refs| && Len(sp) < |refs|
    ensures !Tracked(g, Slice(refs, sp))
  {
    var x := Slice(refs, sp);
    if x != [] {
      assert x[0] == refs[sp.start];
    }
  }

  /** Five different URLs, standing for the doctest's `a` to `e`. */
  predicate FiveDistinct(a: string, b: string, c: string, d: string, e: string) {
    a != b && a != c && a != d && a != e && b != c && b != d && b != e && c != d && c != e && d != e
  }

  /** The appearance counts of the doctest while `abc` is observed on its
      own: `a`, `b` and `c` at `n`, `d` and `e` at 2. */
  function SubsetCounts(a: string, b: string, c: string, d: string, e: string, n: nat): Appearances {
    map[a := n, b := n, c := n, d := 2, e := 2]
  }

  lemma BumpSubset(a: string, b: string, c: string, d: string, e: string, n: nat)
    requires FiveDistinct(a, b, c, d, e)
    ensures BumpAll(SubsetCounts(a, b, c, d, e, n), [a, b, c]) == SubsetCounts(a, b, c, d, e, n + 1)
  {
    var abc := [a, b, c];
    assert abc[..2][..1] == [a] && abc[..2] == [a, b] && [a][..0] == [];
    var a0 := SubsetCounts(a, b, c, d, e, n);
    assert BumpAll(a0, [a]) == map[a := n + 1, b := n, c := n, d := 2, e := 2];
    assert BumpAll(a0, [a, b]) == map[a := n + 1, b := n + 1, c := n, d := 2, e := 2];
  }

  lemma HighestSubset(a: string, b: string, c: string, d: string, e: string, n: nat)
    requires FiveDistinct(a, b, c, d, e) && 1 <= n
    ensures Highest(SubsetCounts(a, b, c, d, e, n), [a, b, c]) == n
  {
    var abc := [a, b, c];
    assert abc[1..] == [b, c] && abc[1..][1..] == [c] && [c][1..] == [];
  }

  /** The complement of `x + y` with respect to `x`, when `y` shares nothing
      with `x`, is `y`. */
  lemma InverseOfPrefix(x: seq<string>, y: seq<string>)
    requires forall z :: z in y ==> z !in x
    ensures Inverse(x + y, x) == y
  {
    InverseEmpty(x, x);
    InverseDisjoint(y, x);
    InverseAppend(x, y, x);
  }

  /** Whether or not `de` is already tracked beside `abcde` and `abc`, its
      only complement with respect to `abc` is `de`. */
  lemma InversesOfSubset(a: string, b: string, c: string, d: string, e: string, keys: set<seq<string>>)
    requires FiveDistinct(a, b, c, d, e)
    requires keys == {[a, b, c, d, e], [a, b, c]} || keys == {[a, b, c, d, e], [a, b, c], [d, e]}
    ensures Inverses(keys, [a, b, c]) == {[d, e]}
  {
    var abcde, abc, de := [a, b, c, d, e], [a, b, c], [d, e];
    InverseOfPrefix(abc, de);
    assert abc + de == abcde;
    InverseDisjoint(de, abc);
    InversesOfRemainder(keys, abc, abcde, de);
  }

  /** The same, for any selection `sel`, group `whole` and remainder `rest`. */
  lemma InversesOfRemainder(keys: set<seq<string>>, sel: seq<string>, whole: seq<string>, rest: seq<string>)
    requires whole != sel && rest != []
    requires Inverse(whole, sel) == rest && Inverse(rest, sel) == rest
    requires keys == {whole, sel} || keys == {whole, sel, rest}
    ensures Inverses(keys, sel) == {rest}
  {
    assert rest in Inverses(keys, sel) by {
      assert whole in keys;
    }
    forall h | h in Inverses(keys, sel) ensures h == rest {
      var k :| k in keys && k != sel && Inverse(k, sel) != [] && h == Inverse(k, sel);
      assert k == whole || k == rest;
    }
  }

  /** Registering those complements after `abc` is counted at `n`. */
  lemma RegisterSubset(a: string, b: string, c: string, d: string, e: string, g: Groups, n: nat)
    requires FiveDistinct(a, b, c, d, e)
    requires g.Keys == {[a, b, c, d, e], [a, b, c]} || g.Keys == {[a, b, c, d, e], [a, b, c], [d, e]}
    requires [d, e] in g ==> g[[d, e]] == 0
    requires g[[a, b, c, d, e]] == 2 && g[[a, b, c]] == n
    ensures RegisterAll(g, [a, b, c]) == map[[a, b, c, d, e] := 2, [a, b, c] := n, [d, e] := 0]
  {
    var abcde, abc, de := [a, b, c, d, e], [a, b, c], [d, e];
    InversesOfSubset(a, b, c, d, e, g.Keys);
    var r := RegisterAll(g, abc);
    var want := map[abcde := 2, abc := n, de := 0];
    assert r.Keys == want.Keys;
    assert r[abcde] == 2 && r[abc] == n && r[de] == 0;
  }

  /** A tracked turn that brings the count of `s` to `count`, whose
      registration yields `target`, and which selects `s` iff `selected`, the
      new count over the highest appearance count `n` being above the
      threshold. */
  lemma TrackedStep(g: Groups, s: seq<string>, a: Appearances, threshold: real, count: nat, n: nat,
                    target: Groups, selected: bool)
    requires Tracked(g, s) && g[s] + 1 == count && Highest(a, s) == n
    requires RegisterAll(g[s := count], s) == target
    requires selected <==> count as real / n as real > threshold
    ensures Step(Walk(g, []), s, a, threshold) == Walk(target, if selected then [s] else [])
  {
    StepTracked(g, [], s, a, threshold);
  }

  /** The turn of `abc` once it is tracked with count `k`, beside `abcde` and
      possibly `de`, while `a`, `b` and `c` are counted `n` times: `abc` is
      a tracked slice, the highest count is `n`, and counting `abc` once more
      and registering the complements leaves `de` tracked. */
  lemma SubsetBumpedAt(a: string, b: string, c: string, d: string, e: string, abc: seq<string>, g: Groups, k: nat, n: nat)
    requires FiveDistinct(a, b, c, d, e) && abc == [a, b, c] && 1 <= n
    requires g.Keys == {[a, b, c, d, e], abc} || g.Keys == {[a, b, c, d, e], abc, [d, e]}
    requires [d, e] in g ==> g[[d, e]] == 0
    requires g[[a, b, c, d, e]] == 2 && g[abc] == k
    ensures Tracked(g, abc) && Highest(SubsetCounts(a, b, c, d, e, n), abc) == n
    ensures RegisterAll(g[abc := k + 1], abc) == map[[a, b, c, d, e] := 2, abc := k + 1, [d, e] := 0]
  {
    HighestSubset(a, b, c, d, e, n);
    SubsetBumped(a, b, c, d, e, g, k);
  }

  /** Counting `abc` once more and registering the complements. */
  lemma SubsetBumped(a: string, b: string, c: string, d: string, e: string, g: Groups, k: nat)
    requires FiveDistinct(a, b, c, d, e)
    requires g.Keys == {[a, b, c, d, e], [a, b, c]} || g.Keys == {[a, b, c, d, e], [a, b, c], [d, e]}
    requires [d, e] in g ==> g[[d, e]] == 0
    requires g[[a, b, c, d, e]] == 2 && g[[a, b, c]] == k
    ensures RegisterAll(g[[a, b, c] := k + 1], [a, b, c]) == map[[a, b, c, d, e] := 2, [a, b, c] := k + 1, [d, e] := 0]
  {
    var abc := [a, b, c];
    var g1 := g[abc := k + 1];
    assert g1.Keys == g.Keys;
    RegisterSubset(a, b, c, d, e, g1, k + 1);
  }

  /** A call in which only the whole of `refs` takes part in a turn is the
      turn of `refs` alone, from the registered groups: it brings the count
      of `refs` to `count`, registers the complements into `target`, and
      returns `[refs]` iff `selected`, the new count over the highest
      appearance count `n` being above the threshold. */
  lemma MaintainOnlyWhole(refs: seq<string>, groups: Groups, appearances: Appearances, threshold: real,
                          g: Groups, a: Appearances, count: nat, n: nat, target: Groups, selected: bool)
    requires 2 <= |refs| && Register(groups, refs) == g && OnlyWholeTracked(g, refs)
    requires BumpAll(appearances, refs) == a
    requires g[refs] + 1 == count && Highest(a, refs) == n
    requires RegisterAll(g[refs := count], refs) == target
    requires selected <==> count as real / n as real > threshold
    ensures Maintain(refs, groups, appearances, threshold) == Outcome(if selected then [refs] else [], target, a)
  {
    TrackedStep(g, refs, a, threshold, count, n, target, selected);
    WalkOnlyWhole(refs, g, a, threshold);
    SortOne(refs, FirstMemberIndex(refs), |refs|);
  }

  /** The same, when every tracked group shorter than `refs` starts with a
      URL that `refs` does not hold. */
  lemma MaintainShortKeysForeign(refs: seq<string>, groups: Groups, appearances: Appearances, threshold: real,
                                 g: Groups, a: Appearances, count: nat, n: nat, target: Groups, selected: bool)
    requires 2 <= |refs| && Register(groups, refs) == g && ShortKeysForeign(g, refs)
    requires BumpAll(appearances, refs) == a
    requires g[refs] + 1 == count && Highest(a, refs) == n
    requires RegisterAll(g[refs := count], refs) == target
    requires selected <==> count as real / n as real > threshold
    ensures Maintain(refs, groups, appearances, threshold) == Outcome(if selected then [refs] else [], target, a)
  {
    ForeignShortKeysOnlyWhole(g, refs);
    MaintainOnlyWhole(refs, groups, appearances, threshold, g, a, count, n, target, selected);
  }

  /** The third call of the doctest (processor.py:311-319): after two
      observations of `abcde`, observing `abc` at threshold 0.8 selects
      nothing, counts `abc` once, and registers the inverse group `de` at 0. */
  lemma SubsetObservation(a: string, b: string, c: string, d: string, e: string, abc: seq<string>)
    requires FiveDistinct(a, b, c, d, e) && abc == [a, b, c]
    ensures var o := Maintain(abc, map[[a, b, c, d, e] := 2], SubsetCounts(a, b, c, d, e, 2), 0.8);
            && o.selections == []
            && o.groups == map[[a, b, c, d, e] := 2, abc := 1, [d, e] := 0]
            && o.appearances == SubsetCounts(a, b, c, d, e, 3)
  {
    var abcde := [a, b, c, d, e];
    var g := map[abcde := 2, abc := 0];
    SubsetRegistered(a, b, c, d, e, abc);
    SubsetBumpedAt(a, b, c, d, e, abc, g, 0, 3);
    SubsetRatios();
    MaintainShortKeysForeign(abc, map[abcde := 2], SubsetCounts(a, b, c, d, e, 2), 0.8,
                      g, SubsetCounts(a, b, c, d, e, 3), 1, 3, map[abcde := 2, abc := 1, [d, e] := 0], false);
  }

  /** The fourth call of the doctest (processor.py:321-324): observing `abc`
      again at threshold 0.4 selects it, since 2 over 4 is above 0.4. */
  lemma SubsetAtLowerThreshold(a: string, b: string, c: string, d: string, e: string, abc: seq<string>)
    requires FiveDistinct(a, b, c, d, e) && abc == [a, b, c]
    ensures var o := Maintain(abc, map[[a, b, c, d, e] := 2, abc := 1, [d, e] := 0],
                              SubsetCounts(a, b, c, d, e, 3), 0.4);
            && o.selections == [abc]
            && o.groups == map[[a, b, c, d, e] := 2, abc := 2, [d, e] := 0]
            && o.appearances == SubsetCounts(a, b, c, d, e, 4)
  {
    var abcde, de := [a, b, c, d, e], [d, e];
    var g := map[abcde := 2, abc := 1, de := 0];
    SubsetRegisteredAgain(a, b, c, d, e, abc);
    SubsetRatios();
    MaintainShortKeysForeign(abc, g, SubsetCounts(a, b, c, d, e, 3), 0.4,
                      g, SubsetCounts(a, b, c, d, e, 4), 2, 4, map[abcde := 2, abc := 2, de := 0], true);
  }

  /** The first observation of `abc` registers it at 0 beside `abcde`,
      the only longer group, and counts `a`, `b` and `c` a third time. */
  lemma SubsetRegistered(a: string, b: string, c: string, d: string, e: string, abc: seq<string>)
    requires FiveDistinct(a, b, c, d, e) && abc == [a, b, c]
    ensures Register(map[[a, b, c, d, e] := 2], abc) == map[[a, b, c, d, e] := 2, abc := 0]
    ensures ShortKeysForeign(map[[a, b, c, d, e] := 2, abc := 0], abc)
    ensures BumpAll(SubsetCounts(a, b, c, d, e, 2), abc) == SubsetCounts(a, b, c, d, e, 3)
  {
    assert abc != [a, b, c, d, e];
    BumpSubset(a, b, c, d, e, 2);
  }

  /** The second observation of `abc` finds it registered. Only `abcde` is
      longer, and `de` starts with a URL outside `abc`. It counts `a`, `b`
      and `c` a fourth time, and counting `abc` again keeps `de` at 0. */
  lemma SubsetRegisteredAgain(a: string, b: string, c: string, d: string, e: string, abc: seq<string>)
    requires FiveDistinct(a, b, c, d, e) && abc == [a, b, c]
    ensures var g := map[[a, b, c, d, e] := 2, abc := 1, [d, e] := 0];
            && Register(g, abc) == g
            && ShortKeysForeign(g, abc)
            && Highest(SubsetCounts(a, b, c, d, e, 4), abc) == 4
            && RegisterAll(g[abc := 2], abc) == map[[a, b, c, d, e] := 2, abc := 2, [d, e] := 0]
    ensures BumpAll(SubsetCounts(a, b, c, d, e, 3), abc) == SubsetCounts(a, b, c, d, e, 4)
  {
    var de := [d, e];
    assert de[0] == d;
    BumpSubset(a, b, c, d, e, 3);
    SubsetBumpedAt(a, b, c, d, e, abc, map[[a, b, c, d, e] := 2, abc := 1, de := 0], 1, 4);
  }

  /** The two ratios of the doctest: one in three is not above 0.8, two in
      four is above 0.4. */
  lemma SubsetRatios()
    ensures !(1 as real / 3 as real > 0.8)
    ensures 2 as real / 4 as real > 0.4
  {
  }

  /** A group none of whose members is selected is its own complement. */
  lemma {:induction false} InverseDisjoint(group: seq<string>, selection: seq<string>)
    requires forall x :: x in group ==> x !in selection
    ensures Inverse(group, selection) == group
  {
    if group != [] {
      assert group[0] in group;
      assert forall x :: x in group[1..] ==> x in group;
      InverseDisjoint(group[1..], selection);
      assert group == [group[0]] + group[1..];
    }
  }

  /** A group whose members are all selected has an empty complement. */
  lemma InverseEmpty(group: seq<string>, selection: seq<string>)
    requires forall x :: x in group ==> x in selection
    ensures Inverse(group, selection) == []
  {
  }
}
