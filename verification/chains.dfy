/** Chain enumeration (`walkChains`). */
module Chains {
  // `AllPaths` is the uncapped depth-first enumeration of a backtracking search, `Capped` the branch-capped one
  // the code performs, and `Walker.Walk` the code itself, with its two mutated maps and its aliased path slice.

  import opened CertTypes
  import opened Relations
  import Sequences

  const MAX_CHAIN_ALTERNATIVES := 8

  /** What the search reads and never changes. */
  datatype Graph = Graph(index: RelationIndex, store: Store)

  /** The two loop guards: references on the current path, and raw bytes of their certificates. */
  datatype Guards = Guards(visited: set<ItemRef>, seen: set<Bytes>)

  /** The certificate bytes a reference adds to `seen`: none when there is no certificate. */
  function RawAt(g: Graph, ref: ItemRef): set<Bytes> {
    match CertAt(g.store, ref)
    case Some(cert) => {cert.raw}
    case None => {}
  }

  predicate Used(g: Graph, ref: ItemRef, used: Guards) {
    ref in used.visited || (CertAt(g.store, ref).Some? && CertAt(g.store, ref).value.raw in used.seen)
  }

  function Use(g: Graph, ref: ItemRef, used: Guards): Guards {
    Guards(used.visited + {ref}, used.seen + RawAt(g, ref))
  }

  function Issuers(g: Graph, ref: ItemRef): seq<ItemRef> {
    IssuersOf(Lookup(g.index, ref))
  }

  function Unused(g: Graph, refs: seq<ItemRef>, used: Guards): (free: seq<ItemRef>) {
    if refs == [] then []
    else
      var last := refs[|refs| - 1];
      if Used(g, last, used) then Unused(g, refs[..|refs| - 1], used) else Unused(g, refs[..|refs| - 1], used) + [last]
  }

  lemma {:induction false} UnusedExact(g: Graph, refs: seq<ItemRef>, used: Guards, r: ItemRef)
    ensures r in Unused(g, refs, used) <==> r in refs && !Used(g, r, used)
  {
    if refs != [] {
      UnusedExact(g, refs[..|refs| - 1], used, r);
      assert refs == refs[..|refs| - 1] + [refs[|refs| - 1]];
    }
  }

  function Parents(g: Graph, current: ItemRef, used: Guards): seq<ItemRef> {
    Unused(g, Issuers(g, current), used)
  }

  /** Every reference the index can lead to. */
  function Universe(g: Graph): set<ItemRef> {
    set ref, i | ref in g.index && 0 <= i < |g.index[ref]| :: g.index[ref][i].peer
  }

  /** The candidates of a node are references of the index that neither guard rules out. */
  predicate Within(g: Graph, parents: seq<ItemRef>, used: Guards) {
    forall p <- parents :: p in Universe(g) && !Used(g, p, used)
  }

  lemma ParentsWithin(g: Graph, current: ItemRef, used: Guards)
    ensures Within(g, Parents(g, current, used), used)
  {
    forall r | r in Parents(g, current, used)
      ensures r in Universe(g) && !Used(g, r, used)
    {
      UnusedExact(g, Issuers(g, current), used, r);
      IssuersOfExact(Lookup(g.index, current), r);
      var i :| 0 <= i < |g.index[current]| && g.index[current][i].peer == r;
    }
  }

  // ---------------------------------------------------------------------------------------------
  // The two enumerations
  // ---------------------------------------------------------------------------------------------

  /** Every way to climb from the end of `path`, depth first, with no cap. */
  function AllPaths(g: Graph, current: ItemRef, path: seq<ItemRef>, used: Guards): seq<seq<ItemRef>>
    decreases Universe(g) - used.visited, 1, 0
  {
    ParentsWithin(g, current, used);
    var parents := Parents(g, current, used);
    if parents == [] then [path] else AllVia(g, parents, path, used)
  }

  function AllVia(g: Graph, parents: seq<ItemRef>, path: seq<ItemRef>, used: Guards): seq<seq<ItemRef>>
    requires Within(g, parents, used)
    decreases Universe(g) - used.visited, 0, |parents|
  {
    if parents == [] then []
    else
      assert parents[0] in Universe(g) - used.visited;
      AllPaths(g, parents[0], path + [parents[0]], Use(g, parents[0], used)) + AllVia(g, parents[1..], path, used)
  }

  /** The same search, but a node stops trying issuers once it holds eight paths. */
  function Capped(g: Graph, current: ItemRef, path: seq<ItemRef>, used: Guards): seq<seq<ItemRef>>
    decreases Universe(g) - used.visited, 1, 0
  {
    ParentsWithin(g, current, used);
    var parents := Parents(g, current, used);
    if parents == [] then [path] else CappedVia(g, [], parents, path, used)
  }

  function CappedVia(g: Graph, out: seq<seq<ItemRef>>, parents: seq<ItemRef>, path: seq<ItemRef>,
                     used: Guards): seq<seq<ItemRef>>
    requires Within(g, parents, used)
    decreases Universe(g) - used.visited, 0, |parents|
  {
    if parents == [] || |out| >= MAX_CHAIN_ALTERNATIVES then out
    else
      assert parents[0] in Universe(g) - used.visited;
      var more := Capped(g, parents[0], path + [parents[0]], Use(g, parents[0], used));
      CappedVia(g, out + more, parents[1..], path, used)
  }

  // ---------------------------------------------------------------------------------------------
  // What the uncapped enumeration contains
  // ---------------------------------------------------------------------------------------------

  function RawsOf(g: Graph, refs: seq<ItemRef>): set<Bytes> {
    set ref, raw | ref in refs && raw in RawAt(g, ref) :: raw
  }

  /** The guards after walking `refs`. */
  function UseAll(g: Graph, refs: seq<ItemRef>, used: Guards): Guards {
    Guards(used.visited + (set r | r in refs), used.seen + RawsOf(g, refs))
  }

  /** Step `i` of the climb goes to an issuer that nothing before it used. */
  predicate FreshStep(g: Graph, current: ItemRef, climb: seq<ItemRef>, used: Guards, i: nat)
    requires i < |climb|
  {
    && climb[i] in Issuers(g, if i == 0 then current else climb[i - 1])
    && !Used(g, climb[i], UseAll(g, climb[..i], used))
  }

  predicate NoWayUp(g: Graph, last: ItemRef, used: Guards) {
    forall q <- Issuers(g, last) :: Used(g, q, used)
  }

  /** `climb` goes up from `current` by fresh steps and stops where every issuer is used. */
  predicate MaximalClimb(g: Graph, current: ItemRef, climb: seq<ItemRef>, used: Guards) {
    && (forall i :: 0 <= i < |climb| ==> FreshStep(g, current, climb, used, i))
    && NoWayUp(g, if climb == [] then current else climb[|climb| - 1], UseAll(g, climb, used))
  }

  lemma UseAllStep(g: Graph, first: ItemRef, rest: seq<ItemRef>, used: Guards)
    ensures UseAll(g, [first] + rest, used) == UseAll(g, rest, Use(g, first, used))
  {
    assert RawsOf(g, [first] + rest) == RawAt(g, first) + RawsOf(g, rest);
  }

  lemma ClimbStep(g: Graph, current: ItemRef, climb: seq<ItemRef>, used: Guards)
    requires climb != []
    ensures MaximalClimb(g, current, climb, used) <==>
            climb[0] in Parents(g, current, used) && MaximalClimb(g, climb[0], climb[1..], Use(g, climb[0], used))
  {
    var rest := climb[1..];
    var used' := Use(g, climb[0], used);
    assert climb == [climb[0]] + rest;
    UseAllStep(g, climb[0], rest, used);
    assert UseAll(g, climb[..0], used) == used;
    UnusedExact(g, Issuers(g, current), used, climb[0]);
    forall i | 0 <= i < |rest|
      ensures FreshStep(g, current, climb, used, i + 1) <==> FreshStep(g, climb[0], rest, used', i)
    {
      assert climb[..i + 1] == [climb[0]] + rest[..i];
      UseAllStep(g, climb[0], rest[..i], used);
    }
    if MaximalClimb(g, climb[0], rest, used') && climb[0] in Parents(g, current, used) {
      forall i | 0 <= i < |climb|
        ensures FreshStep(g, current, climb, used, i)
      {
        if i > 0 {
          assert FreshStep(g, climb[0], rest, used', i - 1);
        }
      }
    }
    if MaximalClimb(g, current, climb, used) {
      assert FreshStep(g, current, climb, used, 0);
      forall i | 0 <= i < |rest|
        ensures FreshStep(g, climb[0], rest, used', i)
      {
        assert FreshStep(g, current, climb, used, i + 1);
      }
    }
  }

  lemma NoClimb(g: Graph, current: ItemRef, used: Guards)
    ensures MaximalClimb(g, current, [], used) <==> Parents(g, current, used) == []
  {
    assert UseAll(g, [], used) == used;
    var parents := Parents(g, current, used);
    forall q
      ensures q in parents <==> q in Issuers(g, current) && !Used(g, q, used)
    {
      UnusedExact(g, Issuers(g, current), used, q);
    }
    if parents != [] {
      assert parents[0] in parents;
    }
  }

  /** The uncapped search finds a path if and only if it is a maximal guarded climb. */
  lemma {:induction false} AllPathsExact(g: Graph, current: ItemRef, path: seq<ItemRef>, used: Guards, p: seq<ItemRef>)
    ensures p in AllPaths(g, current, path, used) <==> path <= p && MaximalClimb(g, current, p[|path|..], used)
    decreases Universe(g) - used.visited, 1, 0
  {
    ParentsWithin(g, current, used);
    var parents := Parents(g, current, used);
    NoClimb(g, current, used);
    if parents == [] {
      if path <= p && p != path {
        ClimbStep(g, current, p[|path|..], used);
      }
    } else {
      AllViaExact(g, parents, path, used, p);
      if path < p {
        ClimbStep(g, current, p[|path|..], used);
        assert p[|path|..][1..] == p[|path| + 1..];
      }
    }
  }

  lemma {:induction false} AllViaExact(g: Graph, parents: seq<ItemRef>, path: seq<ItemRef>, used: Guards,
                                       p: seq<ItemRef>)
    requires Within(g, parents, used)
    ensures p in AllVia(g, parents, path, used) <==>
            path < p && p[|path|] in parents
            && MaximalClimb(g, p[|path|], p[|path| + 1..], Use(g, p[|path|], used))
    decreases Universe(g) - used.visited, 0, |parents|
  {
    if parents != [] {
      assert parents[0] in Universe(g) - used.visited;
      var path' := path + [parents[0]];
      AllPathsExact(g, parents[0], path', Use(g, parents[0], used), p);
      AllViaExact(g, parents[1..], path, used, p);
      assert p in AllVia(g, parents, path, used) <==>
             p in AllPaths(g, parents[0], path', Use(g, parents[0], used)) || p in AllVia(g, parents[1..], path, used);
      PrefixStep(path, parents[0], p);
    }
  }

  lemma PrefixStep<T>(path: seq<T>, next: T, p: seq<T>)
    ensures path + [next] <= p <==> path < p && p[|path|] == next
  {
    if path < p && p[|path|] == next {
      assert p[..|path| + 1] == p[..|path|] + [next];
    }
  }

  /** No chain repeats a reference or a certificate's bytes. */
  lemma ClimbNeverRepeats(g: Graph, current: ItemRef, climb: seq<ItemRef>, used: Guards, i: nat, j: nat)
    requires MaximalClimb(g, current, climb, used)
    requires i < j < |climb|
    ensures climb[i] != climb[j] && RawAt(g, climb[i]) * RawAt(g, climb[j]) == {}
    ensures !Used(g, climb[j], used)
  {
    var before := UseAll(g, climb[..j], used);
    assert climb[..j][i] == climb[i] && climb[i] in climb[..j];
    assert climb[i] in before.visited;
    assert RawAt(g, climb[i]) <= before.seen && used.seen <= before.seen;
    assert FreshStep(g, current, climb, used, j);
  }

  /** The search climbs at most as many steps as there are references left. */
  lemma {:induction false} ClimbIsBounded(g: Graph, current: ItemRef, climb: seq<ItemRef>, used: Guards)
    requires MaximalClimb(g, current, climb, used)
    ensures |climb| <= |Universe(g) - used.visited|
    decreases |climb|
  {
    if climb != [] {
      ClimbStep(g, current, climb, used);
      ParentsWithin(g, current, used);
      ClimbIsBounded(g, climb[0], climb[1..], Use(g, climb[0], used));
      assert Universe(g) - Use(g, climb[0], used).visited == Universe(g) - used.visited - {climb[0]};
    }
  }

  // ---------------------------------------------------------------------------------------------
  // What the cap does
  // ---------------------------------------------------------------------------------------------

  /** The capped search returns a prefix of the full enumeration, and all of it when fewer than
      eight paths come back. */
  lemma {:induction false} CappedIsPrefix(g: Graph, current: ItemRef, path: seq<ItemRef>, used: Guards)
    ensures Capped(g, current, path, used) <= AllPaths(g, current, path, used)
    ensures |Capped(g, current, path, used)| < 8 ==>
              Capped(g, current, path, used) == AllPaths(g, current, path, used)
    decreases Universe(g) - used.visited, 1, 0
  {
    ParentsWithin(g, current, used);
    var parents := Parents(g, current, used);
    if parents != [] {
      CappedViaIsPrefix(g, [], parents, path, used);
      assert [] + AllVia(g, parents, path, used) == AllVia(g, parents, path, used);
    }
  }

  lemma {:induction false} CappedViaIsPrefix(g: Graph, out: seq<seq<ItemRef>>, parents: seq<ItemRef>,
                                             path: seq<ItemRef>, used: Guards)
    requires Within(g, parents, used)
    ensures CappedVia(g, out, parents, path, used) <= out + AllVia(g, parents, path, used)
    ensures |CappedVia(g, out, parents, path, used)| < MAX_CHAIN_ALTERNATIVES ==>
              CappedVia(g, out, parents, path, used) == out + AllVia(g, parents, path, used)
    decreases Universe(g) - used.visited, 0, |parents|
  {
    if parents != [] && |out| < MAX_CHAIN_ALTERNATIVES {
      assert parents[0] in Universe(g) - used.visited;
      var path', used' := path + [parents[0]], Use(g, parents[0], used);
      var some, all := Capped(g, parents[0], path', used'), AllPaths(g, parents[0], path', used');
      var rest := AllVia(g, parents[1..], path, used);
      CappedIsPrefix(g, parents[0], path', used');
      CappedViaIsPrefix(g, out + some, parents[1..], path, used);
      assert out + (all + rest) == out + all + rest;
    }
  }

  lemma {:induction false} CappedIsNotEmpty(g: Graph, current: ItemRef, path: seq<ItemRef>, used: Guards)
    ensures Capped(g, current, path, used) != []
    decreases Universe(g) - used.visited, 1, 0
  {
    ParentsWithin(g, current, used);
    var parents := Parents(g, current, used);
    if parents != [] {
      assert parents[0] in Universe(g) - used.visited;
      CappedIsNotEmpty(g, parents[0], path + [parents[0]], Use(g, parents[0], used));
      CappedViaKeeps(g, [] + Capped(g, parents[0], path + [parents[0]], Use(g, parents[0], used)), parents[1..],
          path, used);
    }
  }

  lemma {:induction false} CappedViaKeeps(g: Graph, out: seq<seq<ItemRef>>, parents: seq<ItemRef>,
                                          path: seq<ItemRef>, used: Guards)
    requires Within(g, parents, used)
    ensures out <= CappedVia(g, out, parents, path, used)
    decreases |parents|
  {
    if parents != [] && |out| < MAX_CHAIN_ALTERNATIVES {
      var more := Capped(g, parents[0], path + [parents[0]], Use(g, parents[0], used));
      CappedViaKeeps(g, out + more, parents[1..], path, used);
    }
  }

  /** If no path climbs more than `h` steps, the capped search holds at most `7 * h + 1` paths:
      linear in the height, however the graph branches. */
  lemma {:induction false} CappedIsLinear(g: Graph, current: ItemRef, path: seq<ItemRef>, used: Guards, h: nat)
    requires forall p <- AllPaths(g, current, path, used) :: |p| <= |path| + h
    ensures |Capped(g, current, path, used)| <= 7 * h + 1
    decreases Universe(g) - used.visited, 1, 0
  {
    ParentsWithin(g, current, used);
    var parents := Parents(g, current, used);
    if parents != [] {
      CappedIsPrefix(g, current, path, used);
      CappedIsNotEmpty(g, current, path, used);
      assert AllPaths(g, current, path, used)[0] in AllPaths(g, current, path, used);
      AllViaExact(g, parents, path, used, AllPaths(g, current, path, used)[0]);
      CappedViaIsLinear(g, [], parents, path, used, h);
    }
  }

  lemma {:induction false} CappedViaIsLinear(g: Graph, out: seq<seq<ItemRef>>, parents: seq<ItemRef>,
                                             path: seq<ItemRef>, used: Guards, h: nat)
    requires Within(g, parents, used) && h > 0
    requires forall p <- AllVia(g, parents, path, used) :: |p| <= |path| + h
    requires |out| <= (MAX_CHAIN_ALTERNATIVES - 1) * h + 1
    ensures |CappedVia(g, out, parents, path, used)| <= (MAX_CHAIN_ALTERNATIVES - 1) * h + 1
    decreases Universe(g) - used.visited, 0, |parents|
  {
    if parents != [] && |out| < MAX_CHAIN_ALTERNATIVES {
      assert parents[0] in parents;
      var path', used' := path + [parents[0]], Use(g, parents[0], used);
      var all, rest := AllPaths(g, parents[0], path', used'), AllVia(g, parents[1..], path, used);
      assert forall p <- all :: p in all + rest;
      assert forall p <- rest :: p in all + rest;
      CappedIsLinear(g, parents[0], path', used', h - 1);
      CappedViaIsLinear(g, out + Capped(g, parents[0], path', used'), parents[1..], path, used, h);
    }
  }

  /** Without knowing the height: at most seven paths per reference in the index, plus one. */
  lemma CappedIsLinearInTheGraph(g: Graph, current: ItemRef, path: seq<ItemRef>, used: Guards)
    ensures |Capped(g, current, path, used)| <= 7 * |Universe(g)| + 1
  {
    forall p | p in AllPaths(g, current, path, used)
      ensures |p| <= |path| + |Universe(g)|
    {
      AllPathsExact(g, current, path, used, p);
      ClimbIsBounded(g, current, p[|path|..], used);
      Sequences.SubsetIsSmaller(Universe(g) - used.visited, Universe(g));
    }
    CappedIsLinear(g, current, path, used, |Universe(g)|);
  }

  // ---------------------------------------------------------------------------------------------
  // The code: maps changed and restored, and a path slice that siblings may share
  // ---------------------------------------------------------------------------------------------

  /** A Go slice of references: a backing array and a length; the capacity is the array's. */
  datatype Slice = Slice(cells: array<ItemRef>, len: nat) {
    predicate Valid() { len <= cells.Length }

    ghost function View(): seq<ItemRef>
      requires Valid()
      reads cells
    {
      cells[..len]
    }

    /** `append`: writes into spare capacity when there is some, else moves to a new array. */
    method Append(x: ItemRef) returns (t: Slice)
      requires Valid()
      modifies cells
      ensures t.Valid() && t.View() == old(View()) + [x]
      ensures View() == old(View())
      ensures t.cells == cells || fresh(t.cells)
    {
      if len < cells.Length {
        cells[len] := x;
        t := Slice(cells, len + 1);
      } else {
        var bigger := new ItemRef[2 * len + 1];
        forall i | 0 <= i < len {
          bigger[i] := cells[i];
        }
        bigger[len] := x;
        t := Slice(bigger, len + 1);
      }
    }

    /** `append([]ItemRef(nil), path...)`: the path in an array of its own. */
    method Copy() returns (copy: array<ItemRef>)
      requires Valid()
      ensures fresh(copy) && copy[..] == View()
    {
      copy := new ItemRef[len];
      forall i | 0 <= i < len {
        copy[i] := cells[i];
      }
    }
  }

  /** The arrays hold exactly these paths. */
  ghost predicate Holds(arrays: seq<array<ItemRef>>, paths: seq<seq<ItemRef>>)
    reads arrays
  {
    |arrays| == |paths| && forall i :: 0 <= i < |arrays| ==> arrays[i][..] == paths[i]
  }

  lemma FreeIssuersStep(g: Graph, entries: seq<Resolved>, i: nat, used: Guards)
    requires i < |entries|
    ensures Unused(g, IssuersOf(entries[..i + 1]), used) ==
            if entries[i].kind == SignedBy && entries[i].direction == Outgoing && !Used(g, entries[i].peer, used)
            then Unused(g, IssuersOf(entries[..i]), used) + [entries[i].peer]
            else Unused(g, IssuersOf(entries[..i]), used)
  {
    assert entries[..i + 1][..i] == entries[..i];
    assert entries[..i + 1][i] == entries[i];
    var before := IssuersOf(entries[..i]);
    assert before + [] == before;
    assert Unused(g, before, used) + [] == Unused(g, before, used);
    assert (before + [entries[i].peer])[..|before|] == before;
  }

  class Walker {
    const g: Graph
    var visited: set<ItemRef>
    var seen: set<Bytes>

    constructor (g: Graph, visited: set<ItemRef>, seen: set<Bytes>)
      ensures this.g == g && this.visited == visited && this.seen == seen
    {
      this.g, this.visited, this.seen := g, visited, seen;
    }

    ghost function InUse(): Guards
      reads this
    {
      Guards(visited, seen)
    }

    /** The issuers of `current` that neither guard rules out. */
    method FreeIssuers(current: ItemRef) returns (parents: seq<ItemRef>)
      ensures parents == Parents(g, current, InUse())
    {
      parents := [];
      var entries := Lookup(g.index, current);
      for i := 0 to |entries|
        invariant parents == Unused(g, IssuersOf(entries[..i]), InUse())
      {
        var r := entries[i];
        FreeIssuersStep(g, entries, i, InUse());
        if r.kind != SignedBy || r.direction != Outgoing {
          continue;
        }
        if r.peer in visited {
          continue;
        }
        var cert := CertAt(g.store, r.peer);
        if cert.Some? && cert.value.raw in seen {
          continue;
        }
        parents := parents + [r.peer];
      }
      assert entries[..|entries|] == entries;
    }

    /** Marks `parent` in both guards, recurses, and unmarks it again. */
    method Visit(parent: ItemRef, path: Slice) returns (out: seq<array<ItemRef>>)
      requires path.Valid() && parent in Universe(g) && !Used(g, parent, InUse())
      modifies this, path.cells
      ensures visited == old(visited) && seen == old(seen)
      ensures path.View() == old(path.View())
      ensures forall a <- out :: fresh(a)
      ensures Holds(out, Capped(g, parent, old(path.View()) + [parent], Use(g, parent, old(InUse()))))
      decreases Universe(g) - visited, 0
    {
      ghost var before := visited;
      visited := visited + {parent};
      var cert := CertAt(g.store, parent);
      if cert.Some? {
        seen := seen + {cert.value.raw};
      }
      assert InUse() == Use(g, parent, old(InUse()));
      var longer := path.Append(parent);
      out := Walk(parent, longer);
      visited := visited - {parent};
      if cert.Some? {
        seen := seen - {cert.value.raw};
      }
    }

    method Walk(current: ItemRef, path: Slice) returns (out: seq<array<ItemRef>>)
      requires path.Valid()
      modifies this, path.cells
      ensures visited == old(visited) && seen == old(seen)
      ensures path.View() == old(path.View())
      ensures forall a <- out :: fresh(a)
      ensures Holds(out, Capped(g, current, old(path.View()), old(InUse())))
      decreases Universe(g) - visited, 1
    {
      ghost var used := InUse();
      ghost var view := path.View();
      ParentsWithin(g, current, used);
      var parents := FreeIssuers(current);
      if |parents| == 0 {
        var copy := path.Copy();
        return [copy];
      }
      out := [];
      ghost var paths := [];
      for i := 0 to |parents|
        invariant InUse() == used && path.View() == view
        invariant path.cells !in out && forall a <- out :: fresh(a)
        invariant Holds(out, paths)
        invariant CappedVia(g, paths, parents[i..], view, used) == Capped(g, current, view, used)
      {
        CappedViaStep(g, paths, parents, i, view, used);
        if |out| >= MAX_CHAIN_ALTERNATIVES {
          return;
        }
        assert parents[i] in parents;
        assert forall k :: 0 <= k < |out| ==> out[k] in out;
        var more := Visit(parents[i], path);
        assert forall k :: 0 <= k < |out| ==> out[k][..] == paths[k];
        ghost var found := Capped(g, parents[i], view + [parents[i]], Use(g, parents[i], used));
        assert Holds(out, paths) && Holds(more, found);
        HoldsBoth(out, paths, more, found);
        out := out + more;
        paths := paths + found;
      }
    }
  }

  lemma HoldsBoth(a: seq<array<ItemRef>>, pa: seq<seq<ItemRef>>, b: seq<array<ItemRef>>, pb: seq<seq<ItemRef>>)
    requires Holds(a, pa) && Holds(b, pb)
    ensures Holds(a + b, pa + pb)
  {}

  lemma CappedViaStep(g: Graph, out: seq<seq<ItemRef>>, parents: seq<ItemRef>, i: nat, path: seq<ItemRef>, used: Guards)
    requires i < |parents| && Within(g, parents[i..], used)
    ensures CappedVia(g, out, parents[i..], path, used) ==
            if |out| >= MAX_CHAIN_ALTERNATIVES then out
            else CappedVia(g, out + Capped(g, parents[i], path + [parents[i]], Use(g, parents[i], used)),
                parents[i + 1..], path, used)
  {
    assert parents[i..][1..] == parents[i + 1..];
  }

  // ---------------------------------------------------------------------------------------------
  // From a scanned store to its chains
  // ---------------------------------------------------------------------------------------------

  /** The two references cannot stand in one chain: same item, or same certificate bytes. */
  predicate Clash(store: Store, a: ItemRef, b: ItemRef) {
    a == b || (CertAt(store, a).Some? && CertAt(store, b).Some?
        && CertAt(store, a).value.raw == CertAt(store, b).value.raw)
  }

  predicate ClashesWithAny(store: Store, q: ItemRef, refs: seq<ItemRef>) {
    exists r <- refs :: Clash(store, q, r)
  }

  /** Link `i` of the chain is issued by a certificate that occurs nowhere earlier in it. */
  predicate NewLink(store: Store, chain: seq<ItemRef>, i: nat, signs: SignatureCheck)
    requires i + 1 < |chain|
  {
    Issued(store, chain[i], chain[i + 1], signs) && forall k :: 0 <= k <= i ==> !Clash(store, chain[i + 1], chain[k])
  }

  /** A chain in terms of the scanned certificates alone: every link is issued and signed by the
      next, nothing occurs twice, and nothing in the store could extend it. */
  ghost predicate SignedChain(store: Store, chain: seq<ItemRef>, signs: SignatureCheck) {
    && chain != []
    && (forall i :: 0 <= i < |chain| - 1 ==> NewLink(store, chain, i, signs))
    && (forall q :: Issued(store, chain[|chain| - 1], q, signs) ==> ClashesWithAny(store, q, chain))
  }

  /** The graph's upward edges are the signed_by relations of its store. */
  ghost predicate IndexOf(g: Graph, signs: SignatureCheck) {
    forall ref :: Issuers(g, ref) == IssuersOf(Entries(SignedByRelations(g.store, signs), ref))
  }

  const UNUSED := Guards({}, {})

  function Start(g: Graph, ref: ItemRef): Guards {
    Use(g, ref, UNUSED)
  }

  lemma UsedIsClash(g: Graph, q: ItemRef, refs: seq<ItemRef>)
    ensures Used(g, q, UseAll(g, refs, UNUSED)) <==> ClashesWithAny(g.store, q, refs)
  {
    if ClashesWithAny(g.store, q, refs) {
      var r :| r in refs && Clash(g.store, q, r);
      if q != r {
        assert CertAt(g.store, r).value.raw in RawAt(g, r);
      }
    }
  }

  lemma IssuedExact(g: Graph, signs: SignatureCheck, child: ItemRef, parent: ItemRef)
    requires IndexOf(g, signs)
    ensures parent in Issuers(g, child) <==> Issued(g.store, child, parent, signs)
  {
    IndexIssuersExact(SignedByRelations(g.store, signs), child, parent);
    SignedByExact(g.store, signs, Relation(SignedBy, child, parent));
  }

  lemma FreshStepExact(g: Graph, signs: SignatureCheck, chain: seq<ItemRef>, i: nat)
    requires IndexOf(g, signs) && i + 1 < |chain|
    ensures FreshStep(g, chain[0], chain[1..], Start(g, chain[0]), i) <==> NewLink(g.store, chain, i, signs)
  {
    var climb := chain[1..];
    assert [chain[0]] + climb[..i] == chain[..i + 1];
    UseAllStep(g, chain[0], climb[..i], UNUSED);
    UsedIsClash(g, chain[i + 1], chain[..i + 1]);
    IssuedExact(g, signs, chain[i], chain[i + 1]);
    assert forall k :: 0 <= k <= i ==> chain[..i + 1][k] == chain[k];
    assert (if i == 0 then chain[0] else climb[i - 1]) == chain[i];
  }

  lemma NoWayUpExact(g: Graph, signs: SignatureCheck, chain: seq<ItemRef>)
    requires IndexOf(g, signs) && chain != []
    ensures NoWayUp(g, chain[|chain| - 1], UseAll(g, chain[1..], Start(g, chain[0]))) <==>
            forall q :: Issued(g.store, chain[|chain| - 1], q, signs) ==> ClashesWithAny(g.store, q, chain)
  {
    assert [chain[0]] + chain[1..] == chain;
    UseAllStep(g, chain[0], chain[1..], UNUSED);
    forall q
      ensures q in Issuers(g, chain[|chain| - 1]) <==> Issued(g.store, chain[|chain| - 1], q, signs)
      ensures Used(g, q, UseAll(g, chain, UNUSED)) <==> ClashesWithAny(g.store, q, chain)
    {
      IssuedExact(g, signs, chain[|chain| - 1], q);
      UsedIsClash(g, q, chain);
    }
  }

  /** The uncapped search from a leaf finds exactly the signed chains of the store that start there. */
  lemma StoreChainsExact(g: Graph, signs: SignatureCheck, leaf: ItemRef, chain: seq<ItemRef>)
    requires IndexOf(g, signs)
    ensures chain in AllPaths(g, leaf, [leaf], Start(g, leaf)) <==>
            chain != [] && chain[0] == leaf && SignedChain(g.store, chain, signs)
  {
    AllPathsExact(g, leaf, [leaf], Start(g, leaf), chain);
    if chain != [] && chain[0] == leaf {
      var climb := chain[1..];
      assert [leaf] <= chain;
      forall i | 0 <= i < |climb|
        ensures FreshStep(g, leaf, climb, Start(g, leaf), i) <==> NewLink(g.store, chain, i, signs)
      {
        FreshStepExact(g, signs, chain, i);
      }
      NoWayUpExact(g, signs, chain);
      assert (if climb == [] then leaf else climb[|climb| - 1]) == chain[|chain| - 1];
      if MaximalClimb(g, leaf, climb, Start(g, leaf)) {
        forall i | 0 <= i < |chain| - 1
          ensures NewLink(g.store, chain, i, signs)
        {
          assert FreshStep(g, leaf, climb, Start(g, leaf), i);
        }
      }
    }
  }

  /** Leaves only: a certificate that is neither a CA nor self-signed. */
  predicate IsLeaf(item: Item) {
    IsCert(item) && !item.certificate.value.isCA && !IsSelfSigned(item.certificate.value)
  }

  predicate LeafRef(store: Store, ref: ItemRef) {
    ValidRef(store, ref) && IsLeaf(SafeItem(store, ref).value)
  }

  /** The paths of two or more certificates. */
  function Linked(paths: seq<seq<ItemRef>>): seq<seq<ItemRef>> {
    if paths == [] then []
    else
      var last := paths[|paths| - 1];
      if |last| >= 2 then Linked(paths[..|paths| - 1]) + [last] else Linked(paths[..|paths| - 1])
  }

  /** The alternatives of one leaf. */
  function LeafChains(g: Graph, ref: ItemRef): seq<seq<ItemRef>> {
    Linked(Capped(g, ref, [ref], Start(g, ref)))
  }

  type Alternatives = map<ItemRef, seq<seq<ItemRef>>>

  ghost predicate AlternativesOf(g: Graph, chains: Alternatives) {
    forall ref ::
      && (ref in chains <==> LeafRef(g.store, ref) && LeafChains(g, ref) != [])
      && (ref in chains ==> chains[ref] == LeafChains(g, ref))
  }

  method LeafAlternatives(g: Graph, ref: ItemRef) returns (found: seq<seq<ItemRef>>)
    ensures found == LeafChains(g, ref)
  {
    var cert := CertAt(g.store, ref);
    var walker := new Walker(g, {ref}, if cert.Some? then {cert.value.raw} else {});
    assert walker.InUse() == Start(g, ref);
    var start := new ItemRef[] [ref];
    var path := Slice(start, 1);
    assert path.View() == [ref];
    var out := walker.Walk(ref, path);
    ghost var paths := Capped(g, ref, [ref], Start(g, ref));
    found := [];
    for i := 0 to |out|
      invariant found == Linked(paths[..i])
    {
      assert paths[..i + 1][..i] == paths[..i];
      if out[i].Length >= 2 {
        found := found + [out[i][..]];
      }
    }
    assert paths[..|out|] == paths;
  }

  method AssembleChainAlternatives(g: Graph) returns (chains: Alternatives)
    ensures AlternativesOf(g, chains)
  {
    chains := map[];
    for ci := 0 to |g.store|
      invariant forall ref :: ref in chains <==>
          LeafRef(g.store, ref) && ref.containerIdx < ci && LeafChains(g, ref) != []
      invariant forall ref <- chains :: chains[ref] == LeafChains(g, ref)
    {
      for ii := 0 to |g.store[ci].items|
        invariant forall ref :: ref in chains <==>
                    LeafRef(g.store, ref) && LeafChains(g, ref) != []
                    && (ref.containerIdx < ci || (ref.containerIdx == ci && ref.itemIdx < ii))
        invariant forall ref <- chains :: chains[ref] == LeafChains(g, ref)
      {
        var item := g.store[ci].items[ii];
        if !IsLeaf(item) {
          continue;
        }
        var ref := RefTo(g.store, ci, ii);
        var found := LeafAlternatives(g, ref);
        if |found| > 0 {
          chains := chains[ref := found];
        }
      }
    }
  }

  lemma {:induction false} LinkedExact(paths: seq<seq<ItemRef>>, p: seq<ItemRef>)
    ensures p in Linked(paths) <==> p in paths && |p| >= 2
  {
    if paths != [] {
      LinkedExact(paths[..|paths| - 1], p);
      assert paths == paths[..|paths| - 1] + [paths[|paths| - 1]];
    }
  }

  /** Every reported chain is a signed chain of the store, leaf first; and when a leaf shows fewer
      than eight, it shows every signed chain there is. */
  lemma AlternativesAreSignedChains(g: Graph, signs: SignatureCheck, leaf: ItemRef, chain: seq<ItemRef>)
    requires IndexOf(g, signs)
    ensures chain in LeafChains(g, leaf) ==> |chain| >= 2 && chain[0] == leaf && SignedChain(g.store, chain, signs)
    ensures |Capped(g, leaf, [leaf], Start(g, leaf))| < 8 ==>
              (chain in LeafChains(g, leaf) <==> |chain| >= 2 && chain[0] == leaf && SignedChain(g.store, chain, signs))
  {
    LinkedExact(Capped(g, leaf, [leaf], Start(g, leaf)), chain);
    CappedIsPrefix(g, leaf, [leaf], Start(g, leaf));
    StoreChainsExact(g, signs, leaf, chain);
  }

  /** The first chain of each leaf. */
  function FirstChains(alternatives: Alternatives): map<ItemRef, seq<ItemRef>> {
    map ref | ref in alternatives && |alternatives[ref]| > 0 :: alternatives[ref][0]
  }

  /** Detection, index and enumeration in one: the index built from all relations, whatever order
      the duplicate groups were visited in, has the store's signed_by edges. */
  method AssembleStoreChains(store: Store, signs: SignatureCheck) returns (g: Graph, chains: Alternatives)
    ensures g.store == store && IndexOf(g, signs) && AlternativesOf(g, chains)
  {
    var relations := DetectRelations(store, signs);
    var index := BuildRelationIndex(relations);
    g := Graph(index, store);
    ghost var signed := SignedByRelations(store, signs);
    OtherRelationsAreNotSignedBy(store, signs, relations);
    assert relations == signed + relations[|signed|..];
    forall ref
      ensures Issuers(g, ref) == IssuersOf(Entries(signed, ref))
    {
      OtherKindsDoNotMatter(signed, relations[|signed|..], ref);
    }
    chains := AssembleChainAlternatives(g);
  }

  /** Two graphs with the same store and the same issuers. */
  ghost predicate SameIssuers(g: Graph, h: Graph) {
    g.store == h.store && forall ref :: Issuers(g, ref) == Issuers(h, ref)
  }

  lemma {:induction false} SameParents(g: Graph, h: Graph, refs: seq<ItemRef>, used: Guards)
    requires g.store == h.store
    ensures Unused(g, refs, used) == Unused(h, refs, used)
  {
    if refs != [] {
      SameParents(g, h, refs[..|refs| - 1], used);
    }
  }

  lemma {:induction false} SamePaths(g: Graph, h: Graph, current: ItemRef, path: seq<ItemRef>, used: Guards)
    requires SameIssuers(g, h)
    ensures Capped(g, current, path, used) == Capped(h, current, path, used)
    decreases Universe(g) - used.visited, 1, 0
  {
    ParentsWithin(g, current, used);
    ParentsWithin(h, current, used);
    SameParents(g, h, Issuers(g, current), used);
    if Parents(g, current, used) != [] {
      SamePathsVia(g, h, [], Parents(g, current, used), path, used);
    }
  }

  lemma {:induction false} SamePathsVia(g: Graph, h: Graph, out: seq<seq<ItemRef>>, parents: seq<ItemRef>,
                                        path: seq<ItemRef>, used: Guards)
    requires SameIssuers(g, h) && Within(g, parents, used) && Within(h, parents, used)
    ensures CappedVia(g, out, parents, path, used) == CappedVia(h, out, parents, path, used)
    decreases Universe(g) - used.visited, 0, |parents|
  {
    if parents != [] && |out| < MAX_CHAIN_ALTERNATIVES {
      assert parents[0] in parents && !Used(g, parents[0], used);
      assert parents[0] in Universe(g) - used.visited;
      var more := Capped(g, parents[0], path + [parents[0]], Use(g, parents[0], used));
      SamePaths(g, h, parents[0], path + [parents[0]], Use(g, parents[0], used));
      SamePathsVia(g, h, out + more, parents[1..], path, used);
    }
  }

  /** The chains of a store, and their order, do not depend on the order in which maps were visited. */
  lemma VisitingOrderDoesNotMatter(g: Graph, h: Graph, a: Alternatives, b: Alternatives, signs: SignatureCheck)
    requires g.store == h.store && IndexOf(g, signs) && IndexOf(h, signs)
    requires AlternativesOf(g, a) && AlternativesOf(h, b)
    ensures a == b
  {
    forall ref
      ensures ref in a <==> ref in b
      ensures ref in a ==> a[ref] == b[ref]
    {
      SamePaths(g, h, ref, [ref], Start(g, ref));
      assert LeafChains(g, ref) == LeafChains(h, ref);
    }
    assert a.Keys == b.Keys;
  }

  /** `chain` is listed under `m`. */
  predicate Filed(out: Alternatives, m: ItemRef, chain: seq<ItemRef>) {
    m in out && chain in out[m]
  }

  /** Files one chain under each of its members. */
  method FileChain(before: Alternatives, chain: seq<ItemRef>) returns (out: Alternatives)
    ensures forall m, c :: Filed(out, m, c) <==> Filed(before, m, c) || (c == chain && m in chain)
  {
    out := before;
    for k := 0 to |chain|
      invariant forall m, c :: Filed(out, m, c) <==> Filed(before, m, c) || (c == chain && m in chain[..k])
    {
      ghost var prev := out;
      var listed := if chain[k] in out then out[chain[k]] else [];
      out := out[chain[k] := listed + [chain]];
      assert chain[..k + 1] == chain[..k] + [chain[k]];
      forall m, c
        ensures Filed(out, m, c) <==> Filed(prev, m, c) || (c == chain && m == chain[k])
      {
        assert m == chain[k] ==> out[m] == listed + [chain];
      }
    }
    assert chain[..|chain|] == chain;
  }

  /** Inverts the chain map: which chains pass through a certificate. */
  method ChainsContaining(alternatives: Alternatives) returns (out: Alternatives)
    ensures forall m, c :: Filed(out, m, c) <==> m in c && exists leaf :: Filed(alternatives, leaf, c)
  {
    out := map[];
    var leaves := alternatives.Keys;
    while leaves != {}
      invariant leaves <= alternatives.Keys
      invariant forall m, c :: Filed(out, m, c) <==>
          m in c && exists leaf :: leaf !in leaves && Filed(alternatives, leaf, c)
    {
      var leaf :| leaf in leaves;
      var alts := alternatives[leaf];
      ghost var before := out;
      for i := 0 to |alts|
        invariant forall m, c :: Filed(out, m, c) <==> Filed(before, m, c) || (m in c && c in alts[..i])
      {
        out := FileChain(out, alts[i]);
        assert alts[..i + 1] == alts[..i] + [alts[i]];
      }
      assert alts[..|alts|] == alts;
      forall m, c
        ensures Filed(out, m, c) <==> m in c && exists l :: l !in leaves - {leaf} && Filed(alternatives, l, c)
      {
        assert Filed(out, m, c) <==> Filed(before, m, c) || (m in c && Filed(alternatives, leaf, c));
      }
      leaves := leaves - {leaf};
    }
  }
}
