/**
  The depth-bounded import search of benchmark/arc_bench/adapter.py. The loops run over sets in any
  order; the result is specified by import paths.
*/
module ImportReach {
  import opened Collections

  type Stem = string

  datatype Info = Info(stem: Stem, imports: set<Stem>)

  function Known(infos: seq<Info>): set<Stem> {
    set info | info in infos :: info.stem
  }

  /** The imports of the last file with this stem, which is what the dictionary keeps. */
  function RawImports(infos: seq<Info>, stem: Stem): set<Stem> {
    if infos == [] then {}
    else
      var last := infos[|infos| - 1];
      if last.stem == stem then last.imports else RawImports(infos[..|infos| - 1], stem)
  }

  function Imports(infos: seq<Info>, stem: Stem): (imports: set<Stem>)
    ensures imports <= Known(infos)
  {
    RawImports(infos, stem) * Known(infos)
  }

  /** The imports of a stem: those of the last file with it, as far as some file has the imported stem. */
  lemma ImportsExactly(infos: seq<Info>, stem: Stem, i: nat)
    requires i < |infos| && infos[i].stem == stem && forall j :: i < j < |infos| ==> infos[j].stem != stem
    ensures forall other ::
      (other in Imports(infos, stem) <==> other in infos[i].imports && exists info <- infos :: info.stem == other)
  {
    LastImports(infos, stem, i);
    hide RawImports;
  }

  lemma {:induction false} LastImports(infos: seq<Info>, stem: Stem, i: nat)
    requires i < |infos| && infos[i].stem == stem && forall j :: i < j < |infos| ==> infos[j].stem != stem
    ensures RawImports(infos, stem) == infos[i].imports
  {
    if i < |infos| - 1 { LastImports(infos[..|infos| - 1], stem, i); }
  }

  /** A stem no file has imports nothing. */
  lemma UnknownImportsNothing(infos: seq<Info>, stem: Stem)
    requires stem !in Known(infos)
    ensures Imports(infos, stem) == {}
  {
    NothingRaw(infos, stem);
  }

  lemma {:induction false} NothingRaw(infos: seq<Info>, stem: Stem)
    requires forall i :: 0 <= i < |infos| ==> infos[i].stem != stem
    ensures RawImports(infos, stem) == {}
  {
    if infos != [] { NothingRaw(infos[..|infos| - 1], stem); }
  }

  function ImportsOfAll(infos: seq<Info>, stems: set<Stem>): set<Stem> {
    set stem, imported | stem in stems && imported in Imports(infos, stem) :: imported
  }

  // ---------------------------------------------------------------------------------------------
  // Paths
  // ---------------------------------------------------------------------------------------------

  /** A chain of imports from an entry stem to `target`; its depth is the number of imports. */
  ghost predicate IsPath(infos: seq<Info>, entries: set<Stem>, path: seq<Stem>, target: Stem) {
    && |path| >= 2 && path[0] in entries && path[|path| - 1] == target
    && forall i :: 0 <= i < |path| - 1 ==> path[i + 1] in Imports(infos, path[i])
  }

  ghost predicate ReachableWithin(infos: seq<Info>, entries: set<Stem>, target: Stem, depth: int) {
    exists path :: IsPath(infos, entries, path, target) && |path| - 1 <= depth
  }

  ghost predicate ReachableAtAll(infos: seq<Info>, entries: set<Stem>, target: Stem) {
    exists path :: IsPath(infos, entries, path, target)
  }

  /** The stems reachable by 1 to `depth` imports, level by level. */
  function Within(infos: seq<Info>, entries: set<Stem>, depth: nat): set<Stem> {
    if depth == 0 then {}
    else
      var before := Within(infos, entries, depth - 1);
      before + ImportsOfAll(infos, entries + before)
  }

  lemma {:induction false} WithinHasPath(infos: seq<Info>, entries: set<Stem>, depth: nat, target: Stem)
    requires target in Within(infos, entries, depth)
    ensures ReachableWithin(infos, entries, target, depth)
  {
    hide Imports;
    var before := Within(infos, entries, depth - 1);
    if target in before {
      WithinHasPath(infos, entries, depth - 1, target);
      var path :| IsPath(infos, entries, path, target) && |path| - 1 <= depth - 1;
    } else {
      var stem :| stem in entries + before && target in Imports(infos, stem);
      if stem in entries {
        assert IsPath(infos, entries, [stem, target], target);
      } else {
        WithinHasPath(infos, entries, depth - 1, stem);
        var path :| IsPath(infos, entries, path, stem) && |path| - 1 <= depth - 1;
        assert IsPath(infos, entries, path + [target], target);
      }
    }
  }

  lemma {:induction false} PathIsWithin(
      infos: seq<Info>, entries: set<Stem>, path: seq<Stem>, target: Stem, depth: nat)
    requires IsPath(infos, entries, path, target) && |path| - 1 <= depth
    ensures target in Within(infos, entries, depth)
  {
    hide Imports;
    var n := |path| - 1;
    var stem, before := path[n - 1], Within(infos, entries, depth - 1);
    assert target in Imports(infos, stem);
    if n > 1 {
      assert IsPath(infos, entries, path[..n], stem);
      PathIsWithin(infos, entries, path[..n], stem, depth - 1);
    }
    assert stem in entries + before;
  }

  /** The levels are exactly the stems at the end of short enough paths. */
  lemma WithinIsReachable(infos: seq<Info>, entries: set<Stem>, depth: nat, target: Stem)
    ensures target in Within(infos, entries, depth) <==> ReachableWithin(infos, entries, target, depth)
  {
    if target in Within(infos, entries, depth) { WithinHasPath(infos, entries, depth, target); }
    if path :| IsPath(infos, entries, path, target) && |path| - 1 <= depth {
      PathIsWithin(infos, entries, path, target, depth);
    }
  }

  /** Once a level adds nothing, no later level does. */
  lemma {:induction false} WithinStable(infos: seq<Info>, entries: set<Stem>, depth: nat, later: nat)
    requires ImportsOfAll(infos, entries + Within(infos, entries, depth)) <= Within(infos, entries, depth)
    requires depth <= later
    ensures Within(infos, entries, later) == Within(infos, entries, depth)
    decreases later
  {
    hide ImportsOfAll;
    if depth < later { WithinStable(infos, entries, depth, later - 1); }
  }

  lemma {:induction false} WithinKnown(infos: seq<Info>, entries: set<Stem>, depth: nat)
    ensures Within(infos, entries, depth) <= Known(infos)
  {
    hide Known, RawImports;
    if depth > 0 { WithinKnown(infos, entries, depth - 1); }
  }

  /** Levels keep growing until they stop for good. */
  lemma {:induction false} WithinGrows(infos: seq<Info>, entries: set<Stem>, depth: nat)
    ensures depth <= |Within(infos, entries, depth)|
         || ImportsOfAll(infos, entries + Within(infos, entries, depth)) <= Within(infos, entries, depth)
  {
    hide ImportsOfAll;
    if depth > 0 {
      WithinGrows(infos, entries, depth - 1);
      var before, after := Within(infos, entries, depth - 1), Within(infos, entries, depth);
      SubsetSize(before, after);
      if after == before { assert ImportsOfAll(infos, entries + before) <= after; }
    }
  }

  /** A depth of at least the number of known stems misses nothing. */
  lemma DeepEnough(infos: seq<Info>, entries: set<Stem>, depth: nat, target: Stem)
    requires depth >= |Known(infos)|
    ensures target in Within(infos, entries, depth) <==> ReachableAtAll(infos, entries, target)
  {
    hide ImportsOfAll, Known;
    var all := Within(infos, entries, depth);
    WithinGrows(infos, entries, depth);
    WithinKnown(infos, entries, depth);
    SubsetSize(all, Known(infos));
    ImportsAreKnown(infos, entries + all);
    assert ImportsOfAll(infos, entries + all) <= all;
    if target in all { WithinHasPath(infos, entries, depth, target); }
    if path :| IsPath(infos, entries, path, target) {
      var longest := if |path| > depth then |path| else depth;
      PathIsWithin(infos, entries, path, target, longest);
      WithinStable(infos, entries, depth, longest);
    }
  }

  lemma ImportsAreKnown(infos: seq<Info>, stems: set<Stem>)
    ensures ImportsOfAll(infos, stems) <= Known(infos)
  {
  }

  // ---------------------------------------------------------------------------------------------
  // The search
  // ---------------------------------------------------------------------------------------------

  /** The two inner loops: expand a frontier, in any order. */
  method Expand(infos: seq<Info>, frontier: set<Stem>, start: set<Stem>)
    returns (reached: set<Stem>, nextFrontier: set<Stem>)
    ensures reached == start + ImportsOfAll(infos, frontier)
    ensures nextFrontier == ImportsOfAll(infos, frontier) - start
  {
    hide Imports;
    reached, nextFrontier := start, {};
    var stems := frontier;
    while stems != {}
      invariant stems <= frontier
      invariant reached == start + ImportsOfAll(infos, frontier - stems)
      invariant nextFrontier == reached - start
      decreases stems
    {
      var stem :| stem in stems;
      ghost var before := reached;
      var imports := Imports(infos, stem);
      var rest := imports;
      while rest != {}
        invariant rest <= imports
        invariant reached == before + (imports - rest)
        invariant nextFrontier == reached - start
        decreases rest
      {
        var imported :| imported in rest;
        if imported !in reached {
          reached := reached + {imported};
          nextFrontier := nextFrontier + {imported};
        }
        rest := rest - {imported};
      }
      assert frontier - (stems - {stem}) == (frontier - stems) + {stem};
      stems := stems - {stem};
    }
    assert frontier - stems == frontier;
  }

  /** `reachable_import_stems`: exactly the known stems 1 to `maxDepth` imports away from an entry. */
  method Reachable(infos: seq<Info>, entries: set<Stem>, maxDepth: int) returns (reached: set<Stem>)
    ensures forall target :: target in reached <==> ReachableWithin(infos, entries, target, maxDepth)
    ensures reached <= Known(infos)
  {
    assert ImportsOfAll(infos, {}) == {};
    hide ImportsOfAll, Known, Imports, ReachableWithin;
    reached := {};
    var frontier := entries;
    var depth := 0;
    ghost var last: nat := if maxDepth < 0 then 0 else maxDepth;
    assert (entries + reached) - frontier == {};
    while depth < maxDepth
      invariant 0 <= depth <= last
      invariant reached == Within(infos, entries, depth)
      invariant frontier <= entries + reached
      invariant ImportsOfAll(infos, (entries + reached) - frontier) <= reached
    {
      ghost var before := reached;
      ImportsOfUnion(infos, (entries + reached) - frontier, frontier);
      assert ((entries + reached) - frontier) + frontier == entries + reached;
      var nextFrontier;
      reached, nextFrontier := Expand(infos, frontier, reached);
      assert reached == Within(infos, entries, depth + 1);
      ImportsMonotone(infos, (entries + reached) - nextFrontier, entries + before);
      frontier := nextFrontier;
      depth := depth + 1;
      if frontier == {} {
        assert (entries + reached) - frontier == entries + reached;
        WithinStable(infos, entries, depth, last);
        break;
      }
    }
    assert reached == Within(infos, entries, last);
    WithinKnown(infos, entries, last);
    forall target ensures target in reached <==> ReachableWithin(infos, entries, target, maxDepth) {
      WithinIsReachable(infos, entries, last, target);
      if maxDepth < 0 { NegativeDepth(infos, entries, target, maxDepth); }
    }
  }

  lemma NegativeDepth(infos: seq<Info>, entries: set<Stem>, target: Stem, depth: int)
    requires depth < 0
    ensures ReachableWithin(infos, entries, target, depth) == ReachableWithin(infos, entries, target, 0)
  {
  }

  lemma ImportsOfUnion(infos: seq<Info>, a: set<Stem>, b: set<Stem>)
    ensures ImportsOfAll(infos, a + b) == ImportsOfAll(infos, a) + ImportsOfAll(infos, b)
  {
  }

  lemma ImportsMonotone(infos: seq<Info>, a: set<Stem>, b: set<Stem>)
    requires a <= b
    ensures ImportsOfAll(infos, a) <= ImportsOfAll(infos, b)
  {
  }
}
