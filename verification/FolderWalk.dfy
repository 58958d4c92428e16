/** Gathering credential variables from every folder a user can enter, and
    deciding which folders to show. */
module FolderWalk {

  /** A folder as the caller's access check and the listing calls present it. */
  datatype Folder = Folder(path: string, accessible: bool, vars: seq<string>, children: seq<Folder>)

  // ---- specification ----

  /** Every folder reachable from `fs`. */
  ghost function Reachable(fs: seq<Folder>): seq<Folder>
    decreases fs
  {
    if fs == [] then [] else [fs[0]] + Reachable(fs[0].children) + Reachable(fs[1..])
  }

  function Count(vars: seq<string>, v: string): nat {
    if vars == [] then 0 else Count(vars[..|vars| - 1], v) + if vars[|vars| - 1] == v then 1 else 0
  }

  lemma {:induction false} CountIsMultiplicity(vars: seq<string>, v: string)
    ensures Count(vars, v) == multiset(vars)[v]
  {
    if vars != [] {
      var before, last := vars[..|vars| - 1], vars[|vars| - 1];
      assert vars == before + [last];
      CountIsMultiplicity(before, v);
    }
  }

  /** How often the accessible ones among these folders mention `v`. */
  ghost function Mentions(nodes: seq<Folder>, v: string): nat {
    if nodes == [] then 0
    else (if nodes[0].accessible then Count(nodes[0].vars, v) else 0) + Mentions(nodes[1..], v)
  }

  /** How often `v` occurs over the accessible folders reachable from `fs`. */
  ghost function Occurrences(fs: seq<Folder>, v: string): nat { Mentions(Reachable(fs), v) }

  ghost function Size(fs: seq<Folder>): nat { |Reachable(fs)| }

  lemma {:induction false} MentionsConcat(a: seq<Folder>, b: seq<Folder>, v: string)
    ensures Mentions(a + b, v) == Mentions(a, v) + Mentions(b, v)
  {
    if a == [] {
      assert a + b == b;
    } else {
      assert (a + b)[1..] == a[1..] + b;
      MentionsConcat(a[1..], b, v);
    }
  }

  lemma {:induction false} ReachableConcat(a: seq<Folder>, b: seq<Folder>)
    ensures Reachable(a + b) == Reachable(a) + Reachable(b)
    decreases |a|
  {
    if a == [] {
      assert a + b == b;
    } else {
      assert (a + b)[1..] == a[1..] + b;
      ReachableConcat(a[1..], b);
      var head := [a[0]] + Reachable(a[0].children);
      assert head + (Reachable(a[1..]) + Reachable(b)) == head + Reachable(a[1..]) + Reachable(b);
    }
  }

  lemma OccurrencesConcat(a: seq<Folder>, b: seq<Folder>, v: string)
    ensures Occurrences(a + b, v) == Occurrences(a, v) + Occurrences(b, v)
    ensures Size(a + b) == Size(a) + Size(b)
  {
    hide Reachable, Mentions;
    ReachableConcat(a, b);
    MentionsConcat(Reachable(a), Reachable(b), v);
  }

  lemma OneFolder(f: Folder, v: string)
    ensures Occurrences([f], v) == (if f.accessible then Count(f.vars, v) else 0) + Occurrences(f.children, v)
    ensures Size([f]) == 1 + Size(f.children)
  {
    assert [f][1..] == [];
    var nodes := Reachable(f.children);
    assert Reachable([f]) == [f] + nodes + Reachable([]);
    assert Reachable([f]) == [f] + nodes;
    assert ([f] + nodes)[1..] == nodes;
  }

  /** The roots are reachable, and with a folder its children. */
  lemma {:induction false} ReachableIsClosed(fs: seq<Folder>)
    ensures forall f :: f in fs ==> f in Reachable(fs)
    ensures forall f, c :: f in Reachable(fs) && c in f.children ==> c in Reachable(fs)
    decreases fs
  {
    if fs != [] {
      ReachableIsClosed(fs[0].children);
      ReachableIsClosed(fs[1..]);
      assert fs == [fs[0]] + fs[1..];
    }
  }

  // ---- the order of siblings does not matter ----

  predicate SameFolder(f: Folder, g: Folder) { f.path == g.path && f.accessible == g.accessible && f.vars == g.vars }

  /** `b` is `a` with siblings reordered, at any depth. */
  ghost predicate Shuffled(a: seq<Folder>, b: seq<Folder>)
    decreases a
  {
    if a == [] then b == []
    else
      exists i :: 0 <= i < |b| && SameFolder(a[0], b[i])
        && Shuffled(a[0].children, b[i].children) && Shuffled(a[1..], b[..i] + b[i + 1..])
  }

  lemma SplitOccurrences(a: seq<Folder>, i: nat, v: string)
    requires i < |a|
    ensures Occurrences(a, v) ==
            (if a[i].accessible then Count(a[i].vars, v) else 0) + Occurrences(a[i].children, v)
            + Occurrences(a[..i] + a[i + 1..], v)
  {
    hide Occurrences;
    assert a == a[..i] + ([a[i]] + a[i + 1..]);
    OccurrencesConcat(a[..i], [a[i]] + a[i + 1..], v);
    OccurrencesConcat([a[i]], a[i + 1..], v);
    OccurrencesConcat(a[..i], a[i + 1..], v);
    OneFolder(a[i], v);
  }

  lemma FindSibling(a: seq<Folder>, b: seq<Folder>) returns (i: nat)
    requires Shuffled(a, b)
    ensures a == [] ==> b == []
    ensures a != [] ==>
              && i < |b| && SameFolder(a[0], b[i])
              && Shuffled(a[0].children, b[i].children) && Shuffled(a[1..], b[..i] + b[i + 1..])
  {
    i := 0;
    if a != [] {
      i :| 0 <= i < |b| && SameFolder(a[0], b[i])
        && Shuffled(a[0].children, b[i].children) && Shuffled(a[1..], b[..i] + b[i + 1..]);
    }
  }

  /** Reordering siblings anywhere changes no count. */
  lemma {:induction false} SiblingOrderDoesNotMatter(a: seq<Folder>, b: seq<Folder>, v: string)
    requires Shuffled(a, b)
    ensures Occurrences(a, v) == Occurrences(b, v)
    decreases a
  {
    hide Shuffled, Occurrences, Count;
    var i := FindSibling(a, b);
    if a != [] {
      SiblingOrderDoesNotMatter(a[0].children, b[i].children, v);
      SiblingOrderDoesNotMatter(a[1..], b[..i] + b[i + 1..], v);
      SplitOccurrences(b, i, v);
      SplitOccurrences(a, 0, v);
      assert a[..0] + a[1..] == a[1..];
    }
  }

  // ---- which folders are shown ----

  /** A folder is shown if it or something below it can be entered. */
  ghost predicate Visible(f: Folder) {
    f.accessible || exists i :: 0 <= i < |f.children| && Visible(f.children[i])
  }

  /** A path of folders from a root down, each inside the one before. */
  ghost predicate IsChain(roots: seq<Folder>, chain: seq<Folder>) {
    && chain != [] && chain[0] in roots
    && forall i :: 0 <= i < |chain| - 1 ==> chain[i + 1] in chain[i].children
  }

  lemma {:induction false} ReachableByChain(fs: seq<Folder>, f: Folder) returns (chain: seq<Folder>)
    requires f in Reachable(fs)
    ensures IsChain(fs, chain) && chain[|chain| - 1] == f
    decreases fs
  {
    if f == fs[0] {
      chain := [f];
    } else if f in Reachable(fs[0].children) {
      var below := ReachableByChain(fs[0].children, f);
      chain := [fs[0]] + below;
      forall i | 0 <= i < |chain| - 1
        ensures chain[i + 1] in chain[i].children
      {
        if i > 0 {
          assert chain[i] == below[i - 1] && chain[i + 1] == below[i];
        }
      }
    } else {
      chain := ReachableByChain(fs[1..], f);
    }
  }

  lemma {:induction false} ChainIsVisible(roots: seq<Folder>, chain: seq<Folder>, i: nat)
    requires IsChain(roots, chain) && i < |chain| && chain[|chain| - 1].accessible
    ensures Visible(chain[i])
    decreases |chain| - i
  {
    if i < |chain| - 1 {
      ChainIsVisible(roots, chain, i + 1);
      var k :| 0 <= k < |chain[i].children| && chain[i].children[k] == chain[i + 1];
      assert Visible(chain[i].children[k]);
    }
  }

  /** Every folder that contributes variables lies below ancestors that are all
      shown, so nothing counted is hidden from the tree. */
  lemma CountedFoldersAreShown(roots: seq<Folder>, f: Folder) returns (chain: seq<Folder>)
    requires f in Reachable(roots) && f.accessible
    ensures IsChain(roots, chain) && chain[|chain| - 1] == f
    ensures forall i :: 0 <= i < |chain| ==> Visible(chain[i])
  {
    chain := ReachableByChain(roots, f);
    forall i | 0 <= i < |chain|
      ensures Visible(chain[i])
    {
      ChainIsVisible(roots, chain, i);
    }
  }

  /** And nothing else is shown: a visible folder has a counted one below it. */
  lemma {:induction false} ShownFoldersLeadSomewhere(f: Folder) returns (g: Folder)
    requires Visible(f)
    ensures g.accessible && g in Reachable([f])
    decreases f
  {
    assert Reachable([f]) == [f] + Reachable(f.children) + Reachable([f][1..]);
    if f.accessible {
      g := f;
    } else {
      var i :| 0 <= i < |f.children| && Visible(f.children[i]);
      var child := f.children[i];
      g := ShownFoldersLeadSomewhere(child);
      var fs := f.children;
      assert fs == fs[..i] + ([child] + fs[i + 1..]);
      ReachableConcat(fs[..i], [child] + fs[i + 1..]);
      ReachableConcat([child], fs[i + 1..]);
    }
  }

  // ---- the code ----

  /** Replacing a folder by its children takes away exactly what it mentions. */
  lemma PopAndPush(rest: seq<Folder>, f: Folder, v: string)
    ensures Occurrences(rest + [f], v) ==
            (if f.accessible then Count(f.vars, v) else 0) + Occurrences(rest + f.children, v)
    ensures Size(rest + f.children) < Size(rest + [f])
  {
    hide Occurrences, Size;
    OccurrencesConcat(rest, [f], v);
    OccurrencesConcat(rest, f.children, v);
    OneFolder(f, v);
  }

  lemma NothingReachable()
    ensures forall v :: Occurrences([], v) == 0
  {
  }

  method AddVariables(counts: map<string, nat>, vars: seq<string>) returns (r: map<string, nat>)
    requires forall v :: v in counts ==> counts[v] > 0
    ensures forall v :: (if v in r then r[v] else 0) == (if v in counts then counts[v] else 0) + Count(vars, v)
    ensures forall v :: v in r ==> r[v] > 0
  {
    r := counts;
    for i := 0 to |vars|
      invariant forall v :: (if v in r then r[v] else 0) == (if v in counts then counts[v] else 0) + Count(vars[..i], v)
      invariant forall v :: v in r ==> r[v] > 0
    {
      assert vars[..i + 1][..i] == vars[..i];
      var v := vars[i];
      r := r[v := (if v in r then r[v] else 0) + 1];
    }
    assert vars[..|vars|] == vars;
  }

  /** `gather_credential_variables`: a walk with an explicit stack. */
  method GatherVariables(roots: seq<Folder>) returns (counts: map<string, nat>)
    ensures forall v :: (if v in counts then counts[v] else 0) == Occurrences(roots, v)
    ensures forall v :: v in counts ==> counts[v] > 0
  {
    hide Occurrences, Size, Count;
    counts := map[];
    var stack := roots;
    NothingReachable();
    while stack != []
      invariant forall v :: (if v in counts then counts[v] else 0) + Occurrences(stack, v) == Occurrences(roots, v)
      invariant forall v :: v in counts ==> counts[v] > 0
      decreases Size(stack)
    {
      var f, rest := stack[|stack| - 1], stack[..|stack| - 1];
      if f.accessible {
        counts := AddVariables(counts, f.vars);
      }
      forall v
        ensures Occurrences(stack, v)
                == (if f.accessible then Count(f.vars, v) else 0) + Occurrences(rest + f.children, v)
      {
        assert stack == rest + [f];
        PopAndPush(rest, f, v);
      }
      PopAndPush(rest, f, "");
      assert stack == rest + [f];
      stack := rest + f.children;
    }
  }

  /** `folder_or_descendant_accessible`. */
  method FolderOrDescendantAccessible(f: Folder) returns (r: bool)
    ensures r == Visible(f)
    decreases f
  {
    if f.accessible { return true; }
    for i := 0 to |f.children|
      invariant forall j :: 0 <= j < i ==> !Visible(f.children[j])
    {
      var below := FolderOrDescendantAccessible(f.children[i]);
      if below { return true; }
    }
    return false;
  }
}
