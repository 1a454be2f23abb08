/** Symbolic links of a source snapshot: the work-list resolver, and pathname resolution defined
    step by step as in section 4.13 of IEEE Std 1003.1-2017. */
module SnapshotLinks {
  import opened Results

  /// components from the root, which is []
  type Path = seq<string>

  /// a target is kept as its parts between slashes, at least one
  datatype Entry = File | Link(target: seq<string>)

  datatype Snapshot = Snapshot(entries: map<Path, Entry>, directories: set<Path>) {
    predicate IsLink(p: Path) { p in entries && entries[p].Link? }

    predicate InNamespace(p: Path) { p in entries || p in directories || p == [] }

    predicate IsDirectory(p: Path) { p == [] || p in directories }

    /** Every directory above an entry or a directory is there. */
    ghost predicate PrefixClosed() {
      && (forall p :: p in entries ==> IsDirectory(Parent(p)))
      && (forall p :: p in directories ==> IsDirectory(Parent(p)))
    }

    /** No entry is also a directory. */
    ghost predicate IsTree() {
      PrefixClosed() && [] !in entries && forall p :: p in entries ==> p !in directories
    }
  }

  /// expansions allowed after the link's own target has been taken up
  const EXPANSION_LIMIT: nat := 40

  function Parent(p: Path): Path {
    if p == [] then [] else p[..|p|-1]
  }

  predicate IsAbsolute(target: seq<string>) { 2 <= |target| && target[0] == "" }

  predicate IsNeutral(component: string) { component == "" || component == "." }

  /** Walks the components from a directory. A link is resolved to its end before the rest is looked
      at; what is followed by more components must be a directory. The result is the entry reached
      and the expansions that are left. */
  function Resolve(s: Snapshot, dir: Path, components: seq<string>, mustBeDirectory: bool, budget: nat)
    : (r: Option<(Path, nat)>)
    ensures r.Some? ==> r.value.1 <= budget
    decreases budget, |components|
  {
    if components == [] then Some((dir, budget))
    else
      var component, rest := components[0], components[1..];
      var child := dir + [component];
      var passedThrough := mustBeDirectory || rest != [];
      if IsNeutral(component) then Resolve(s, dir, rest, mustBeDirectory, budget)
      else if component == ".." then
        if dir == [] then None else Resolve(s, Parent(dir), rest, mustBeDirectory, budget)
      else if s.IsLink(child) then
        if budget == 0 || IsAbsolute(s.entries[child].target) then None
        else
          var end := Resolve(s, dir, s.entries[child].target, passedThrough, budget - 1);
          if end == None then None else Resolve(s, end.value.0, rest, mustBeDirectory, end.value.1)
      else if child in s.directories then Resolve(s, child, rest, mustBeDirectory, budget)
      else if child in s.entries && !passedThrough then Some((child, budget))
      else None
  }

  /** A link that leads to an entry of the snapshot without leaving it. */
  predicate LeadsInside(s: Snapshot, link: Path)
    requires s.IsLink(link)
  {
    var target := s.entries[link].target;
    !IsAbsolute(target) && Resolve(s, Parent(link), target, false, EXPANSION_LIMIT).Some?
  }

  /** One run of the resolver's loop: targets are put in front of what is still pending. */
  function Run(s: Snapshot, resolved: Path, pending: seq<string>, left: nat): Option<Path>
    decreases left, |pending|
  {
    if pending == [] then if s.InNamespace(resolved) then Some(resolved) else None
    else
      var component, rest := pending[0], pending[1..];
      var candidate := resolved + [component];
      if IsNeutral(component) then Run(s, resolved, rest, left)
      else if component == ".." then
        if resolved == [] then None else Run(s, Parent(resolved), rest, left)
      else if s.IsLink(candidate) then
        if left == 0 || IsAbsolute(s.entries[candidate].target) then None
        else Run(s, resolved, s.entries[candidate].target + rest, left - 1)
      else if rest != [] && candidate !in s.directories then None
      else Run(s, candidate, rest, left)
  }

  predicate Reached(s: Snapshot, r: Option<(Path, nat)>, mustBeDirectory: bool) {
    r.Some? ==> s.InNamespace(r.value.0) && (mustBeDirectory ==> s.IsDirectory(r.value.0))
  }

  /** What a resolution reaches: a directory where one is required, and never another link. */
  lemma {:induction false} ReachesEntry(s: Snapshot, dir: Path, components: seq<string>, mustBeDirectory: bool,
                                        budget: nat)
    requires s.PrefixClosed() && s.IsDirectory(dir)
    ensures Reached(s, Resolve(s, dir, components, mustBeDirectory, budget), mustBeDirectory)
    decreases budget, |components|
  {
    var r := Resolve(s, dir, components, mustBeDirectory, budget);
    if components != [] {
      var component, rest := components[0], components[1..];
      var child := dir + [component];
      if IsNeutral(component) {
        ReachesEntry(s, dir, rest, mustBeDirectory, budget);
        assert r == Resolve(s, dir, rest, mustBeDirectory, budget);
      } else if component == ".." {
        if dir != [] {
          ReachesEntry(s, Parent(dir), rest, mustBeDirectory, budget);
          assert r == Resolve(s, Parent(dir), rest, mustBeDirectory, budget);
        }
      } else if s.IsLink(child) {
        LinkReachesEntry(s, dir, child, rest, mustBeDirectory, budget);
      } else if child in s.directories {
        ReachesEntry(s, child, rest, mustBeDirectory, budget);
        assert r == Resolve(s, child, rest, mustBeDirectory, budget);
      }
    }
  }

  lemma {:induction false} LinkReachesEntry(s: Snapshot, dir: Path, child: Path, rest: seq<string>,
                                            mustBeDirectory: bool, budget: nat)
    requires s.PrefixClosed() && s.IsDirectory(dir) && s.IsLink(child)
    ensures budget > 0 ==>
      var end := Resolve(s, dir, s.entries[child].target, mustBeDirectory || rest != [], budget - 1);
      end.Some? ==> Reached(s, Resolve(s, end.value.0, rest, mustBeDirectory, end.value.1), mustBeDirectory)
    decreases budget, 0
  {
    if budget > 0 {
      var target := s.entries[child].target;
      ReachesEntry(s, dir, target, mustBeDirectory || rest != [], budget - 1);
      var end := Resolve(s, dir, target, mustBeDirectory || rest != [], budget - 1);
      if end.Some? && rest != [] { ReachesEntry(s, end.value.0, rest, mustBeDirectory, end.value.1); }
    }
  }

  function Continue(s: Snapshot, reached: Option<(Path, nat)>, rest: seq<string>): Option<Path> {
    if reached == None then None else Run(s, reached.value.0, rest, reached.value.1)
  }

  /** The work list does what resolution does: pending components of an expanded link, then what
      was pending before it. */
  lemma {:induction false} RunIsResolve(s: Snapshot, dir: Path, components: seq<string>, rest: seq<string>, budget: nat)
    requires s.PrefixClosed() && s.IsDirectory(dir)
    ensures Run(s, dir, components + rest, budget) == Continue(s, Resolve(s, dir, components, rest != [], budget), rest)
    decreases budget, |components|
  {
    if components == [] {
      assert components + rest == rest;
    } else {
      var component, more := components[0], components[1..];
      var child := dir + [component];
      assert (components + rest)[0] == component && (components + rest)[1..] == more + rest;
      if IsNeutral(component) {
        RunIsResolve(s, dir, more, rest, budget);
      } else if component == ".." {
        if dir != [] { RunIsResolve(s, Parent(dir), more, rest, budget); }
      } else if s.IsLink(child) {
        if budget > 0 { ExpansionIsResolve(s, dir, s.entries[child].target, more, rest, budget - 1); }
      } else if child in s.directories {
        RunIsResolve(s, child, more, rest, budget);
      }
    }
  }

  lemma {:induction false} ExpansionIsResolve(s: Snapshot, dir: Path, target: seq<string>, more: seq<string>,
                                              rest: seq<string>, budget: nat)
    requires s.PrefixClosed() && s.IsDirectory(dir)
    ensures var end := Resolve(s, dir, target, rest != [] || more != [], budget);
            Run(s, dir, target + (more + rest), budget) ==
              if end == None then None
              else Continue(s, Resolve(s, end.value.0, more, rest != [], end.value.1), rest)
    decreases budget, |target| + |more| + 1
  {
    var passedThrough := rest != [] || more != [];
    var end := Resolve(s, dir, target, passedThrough, budget);
    RunIsResolve(s, dir, target, more + rest, budget);
    ReachesEntry(s, dir, target, passedThrough, budget);
    if end.Some? {
      if more == [] {
        assert more + rest == rest;
      } else {
        RunIsResolve(s, end.value.0, more, rest, end.value.1);
      }
    }
  }

  /// ---------------------------------------------------------------- the loop

  /** The loop for one link. */
  method FollowLink(s: Snapshot, link: Path) returns (inside: bool)
    requires s.PrefixClosed() && s.IsLink(link)
    ensures inside <==> LeadsInside(s, link)
  {
    var initialTarget := s.entries[link].target;
    if IsAbsolute(initialTarget) { return false; }
    var resolved, pending, expansions := Parent(link), initialTarget, 0;
    RunIsResolve(s, Parent(link), initialTarget, [], EXPANSION_LIMIT);
    ReachesEntry(s, Parent(link), initialTarget, false, EXPANSION_LIMIT);
    assert initialTarget + [] == initialTarget;
    while pending != []
      invariant 0 <= expansions <= EXPANSION_LIMIT
      invariant Run(s, resolved, pending, EXPANSION_LIMIT - expansions) ==
        Run(s, Parent(link), initialTarget, EXPANSION_LIMIT)
      decreases EXPANSION_LIMIT - expansions, |pending|
    {
      var component := pending[0];
      pending := pending[1..];
      if IsNeutral(component) { continue; }
      if component == ".." {
        if resolved == [] { return false; }
        resolved := Parent(resolved);
        continue;
      }
      resolved := resolved + [component];
      if s.IsLink(resolved) {
        expansions := expansions + 1;
        if expansions > EXPANSION_LIMIT { return false; }
        var target := s.entries[resolved].target;
        if IsAbsolute(target) { return false; }
        resolved := resolved[..|resolved|-1];
        pending := target + pending;
      } else if pending != [] && resolved !in s.directories {
        return false;
      }
    }
    inside := s.InNamespace(resolved);
  }

  /** The whole check: it names a link that does not lead inside, when there is one. */
  method CheckLinks(s: Snapshot) returns (offender: Option<Path>)
    requires s.PrefixClosed()
    ensures offender == None ==> forall link :: s.IsLink(link) ==> LeadsInside(s, link)
    ensures offender.Some? ==> s.IsLink(offender.value) && !LeadsInside(s, offender.value)
  {
    var unchecked := set link | link in s.entries && s.entries[link].Link?;
    while unchecked != {}
      invariant forall link :: link in unchecked ==> s.IsLink(link)
      invariant forall link :: s.IsLink(link) && link !in unchecked ==> LeadsInside(s, link)
      decreases unchecked
    {
      var link :| link in unchecked;
      var inside := FollowLink(s, link);
      if !inside { return Some(link); }
      unchecked := unchecked - {link};
    }
    offender := None;
  }

  ghost predicate IsProperPrefix(p: Path, paths: set<Path>) {
    exists q, k: nat :: q in paths && 0 < k < |q| && p == q[..k]
  }

  /** The directories implied by the entries' paths. */
  method EntryDirectories(paths: set<Path>) returns (directories: set<Path>)
    ensures forall p :: p in directories <==> IsProperPrefix(p, paths)
  {
    directories := {};
    var rest := paths;
    while rest != {}
      invariant rest <= paths
      invariant forall p :: p in directories <==> IsProperPrefix(p, paths - rest)
      decreases rest
    {
      var path :| path in rest;
      var prefixes := PathPrefixes(path);
      forall p ensures p in directories + prefixes <==> IsProperPrefix(p, paths - (rest - {path})) {
        MorePrefixes(p, path, paths - rest);
        assert paths - (rest - {path}) == paths - rest + {path};
      }
      directories := directories + prefixes;
      rest := rest - {path};
    }
    assert paths - {} == paths;
  }

  method PathPrefixes(path: Path) returns (prefixes: set<Path>)
    ensures forall p :: p in prefixes <==> IsProperPrefix(p, {path})
  {
    prefixes := {};
    var parts := Parent(path);
    for length := 0 to |parts|
      invariant forall p :: p in prefixes <==> exists k: nat :: 0 < k <= length && p == path[..k]
    {
      assert parts[..length + 1] == path[..length + 1];
      prefixes := prefixes + {parts[..length + 1]};
    }
  }

  lemma MorePrefixes(p: Path, path: Path, paths: set<Path>)
    ensures IsProperPrefix(p, paths + {path}) <==> IsProperPrefix(p, paths) || IsProperPrefix(p, {path})
  {
    if IsProperPrefix(p, paths) {
      var q, k: nat :| q in paths && 0 < k < |q| && p == q[..k];
      assert q in paths + {path};
    }
    if IsProperPrefix(p, {path}) {
      var k: nat :| 0 < k < |path| && p == path[..k];
      assert path in paths + {path};
    }
  }

  /** A snapshot with the directories its entries imply is prefix-closed. */
  lemma ImpliedDirectoriesClosed(s: Snapshot)
    requires forall p :: p in s.directories <==> IsProperPrefix(p, s.entries.Keys)
    ensures s.PrefixClosed()
  {
    forall p | p in s.entries ensures s.IsDirectory(Parent(p)) {
      if 1 < |p| { assert IsProperPrefix(p[..|p|-1], s.entries.Keys); }
    }
    forall p | p in s.directories ensures s.IsDirectory(Parent(p)) {
      var q, k: nat :| q in s.entries.Keys && 0 < k < |q| && p == q[..k];
      if 1 < k {
        assert Parent(p) == q[..k-1];
        assert IsProperPrefix(Parent(p), s.entries.Keys);
      }
    }
  }

  /// ---------------------------------------------------------------- what the limit means

  /** The expansions a resolution needs do not depend on how many it is allowed. */
  lemma {:induction false} CostIsIntrinsic(s: Snapshot, dir: Path, components: seq<string>, mustBeDirectory: bool,
                                           budget: nat, extra: nat)
    ensures var less := Resolve(s, dir, components, mustBeDirectory, budget);
            var more := Resolve(s, dir, components, mustBeDirectory, budget + extra);
            && (less.Some? ==> more == Some((less.value.0, less.value.1 + extra)))
            && (less == None && more.Some? ==> more.value.1 < extra)
    decreases budget, |components|
  {
    if components != [] {
      var component, rest := components[0], components[1..];
      var child := dir + [component];
      if IsNeutral(component) {
        CostIsIntrinsic(s, dir, rest, mustBeDirectory, budget, extra);
      } else if component == ".." {
        if dir != [] { CostIsIntrinsic(s, Parent(dir), rest, mustBeDirectory, budget, extra); }
      } else if s.IsLink(child) {
        if budget > 0 {
          var target, passedThrough := s.entries[child].target, mustBeDirectory || rest != [];
          CostIsIntrinsic(s, dir, target, passedThrough, budget - 1, extra);
          var end := Resolve(s, dir, target, passedThrough, budget - 1);
          if end.Some? { CostIsIntrinsic(s, end.value.0, rest, mustBeDirectory, end.value.1, extra); }
        }
      } else if child in s.directories {
        CostIsIntrinsic(s, child, rest, mustBeDirectory, budget, extra);
      }
    }
  }

  /** A link is accepted exactly when resolution, however generous its budget, reaches an entry
      with at most 40 expansions. */
  lemma LimitIsOnCost(s: Snapshot, link: Path, budget: nat)
    requires s.IsLink(link) && !IsAbsolute(s.entries[link].target) && 40 <= budget
    ensures var r := Resolve(s, Parent(link), s.entries[link].target, false, budget);
            LeadsInside(s, link) <==> r.Some? && budget - r.value.1 <= 40
  {
    CostIsIntrinsic(s, Parent(link), s.entries[link].target, false, EXPANSION_LIMIT, budget - EXPANSION_LIMIT);
  }

  predicate IsPlain(p: Path) {
    forall i :: 0 <= i < |p| ==> !IsNeutral(p[i]) && p[i] != ".."
  }

  lemma {:induction false} WalkDirectories(s: Snapshot, from: Path, p: Path, rest: seq<string>, budget: nat)
    requires IsPlain(p)
    requires forall k :: 0 < k <= |p| ==> from + p[..k] in s.directories && !s.IsLink(from + p[..k])
    ensures Resolve(s, from, p + rest, false, budget) == Resolve(s, from + p, rest, false, budget)
    decreases |p|
  {
    if p == [] {
      assert p + rest == rest && from + p == from;
    } else {
      var child := from + [p[0]];
      assert (p + rest)[1..] == p[1..] + rest;
      assert p[..1] == [p[0]];
      forall k | 0 < k <= |p[1..]| ensures child + p[1..][..k] in s.directories && !s.IsLink(child + p[1..][..k]) {
        assert child + p[1..][..k] == from + p[..k+1];
      }
      WalkDirectories(s, child, p[1..], rest, budget);
      assert child + p[1..] == from + p;
    }
  }

  lemma {:induction false} DirectoriesAbove(s: Snapshot, p: Path)
    requires s.PrefixClosed() && s.IsDirectory(p)
    ensures forall k :: 0 < k <= |p| ==> p[..k] in s.directories
  {
    if p != [] {
      DirectoriesAbove(s, Parent(p));
      forall k | 0 < k <= |p| ensures p[..k] in s.directories {
        if k < |p| { assert p[..k] == Parent(p)[..k]; } else { assert p[..k] == p; }
      }
    }
  }

  /** Opening an accepted link by its own path takes one expansion more than the limit, and a link
      that opens within that many is accepted. */
  lemma AcceptedOpens(s: Snapshot, link: Path)
    requires s.IsTree() && s.IsLink(link) && IsPlain(link)
    ensures LeadsInside(s, link) <==> Resolve(s, [], link, false, 41).Some?
  {
    OpensWithin(s, link, 41);
  }

  lemma OpensWithin(s: Snapshot, link: Path, budget: nat)
    requires s.IsTree() && s.IsLink(link) && IsPlain(link) && budget == EXPANSION_LIMIT + 1
    ensures LeadsInside(s, link) <==> Resolve(s, [], link, false, budget).Some?
  {
    var dir, name := Parent(link), link[|link|-1];
    DirectoriesAbove(s, dir);
    forall k | 0 < k <= |dir| ensures [] + dir[..k] in s.directories && !s.IsLink([] + dir[..k]) {
      assert [] + dir[..k] == dir[..k];
    }
    WalkDirectories(s, [], dir, [name], budget);
    assert link == dir + [name] && [] + dir == dir;
    LastLink(s, dir, name, budget);
  }

  lemma LastLink(s: Snapshot, dir: Path, name: string, budget: nat)
    requires s.IsLink(dir + [name]) && !IsNeutral(name) && name != ".." && budget > 0
    ensures var target := s.entries[dir + [name]].target;
            Resolve(s, dir, [name], false, budget).Some? <==>
            !IsAbsolute(target) && Resolve(s, dir, target, false, budget - 1).Some?
  {
  }

  /// a chain of links, told apart by the length of their names
  function Name(k: nat): string { seq(k + 1, _ => 'a') }

  function Chain(n: nat): Snapshot {
    Snapshot(map p | p in ChainPaths(n) :: if |p[0]| <= n then Link([p[0] + "a"]) else File, {})
  }

  function ChainPaths(n: nat): (paths: set<Path>)
    ensures forall p :: p in paths ==> |p| == 1 && 0 < |p[0]| <= n + 1
  {
    set k | 0 <= k <= n :: [Name(k)]
  }

  lemma ChainEntry(n: nat, k: nat)
    requires k <= n
    ensures [Name(k)] in Chain(n).entries
    ensures Chain(n).entries[[Name(k)]] == if k < n then Link([Name(k + 1)]) else File
  {
    assert [Name(k)] in ChainPaths(n);
    assert Name(k) + "a" == Name(k + 1);
  }

  lemma {:induction false} ChainCost(n: nat, k: nat, budget: nat)
    requires k <= n
    ensures Resolve(Chain(n), [], [Name(k)], false, budget).Some? <==> n - k <= budget
    decreases n - k
  {
    ChainEntry(n, k);
    assert |Name(k)| == k + 1 && Name(k)[0] == 'a';
    assert [] + [Name(k)] == [Name(k)];
    if k < n && budget > 0 { ChainCost(n, k + 1, budget - 1); }
  }

  /** The check does not match a ceiling of 40 expansions for opening the link itself: the first link
      of a chain of 41 is accepted, and opening it takes 41. */
  lemma CeilingIsOneHigher()
    ensures var s, link := Chain(EXPANSION_LIMIT + 1), [Name(0)];
            s.IsTree() && s.IsLink(link) && LeadsInside(s, link) && Resolve(s, [], link, false, EXPANSION_LIMIT) == None
  {
    ChainOutlasts(EXPANSION_LIMIT + 1, EXPANSION_LIMIT);
  }

  lemma ChainOutlasts(n: nat, limit: nat)
    requires limit == EXPANSION_LIMIT && n == limit + 1
    ensures var s, link := Chain(n), [Name(0)];
            s.IsTree() && s.IsLink(link) && LeadsInside(s, link) && Resolve(s, [], link, false, limit) == None
  {
    ChainEntry(n, 0);
    ChainCost(n, 1, limit);
    ChainCost(n, 0, limit);
  }

  /// ---------------------------------------------------------------- components without a name

  /** Empty components and dots before further components change nothing, ... */
  lemma {:induction false} DotsChangeNothing(s: Snapshot, dir: Path, a: seq<string>, dot: string, b: seq<string>,
                                             mustBeDirectory: bool, budget: nat)
    requires (dot == "" || dot == ".") && b != []
    ensures Resolve(s, dir, a + [dot] + b, mustBeDirectory, budget) == Resolve(s, dir, a + b, mustBeDirectory, budget)
    decreases |a|
  {
    if a == [] {
      assert a + [dot] + b == [dot] + b && a + b == b;
      assert ([dot] + b)[1..] == b;
    } else {
      var more := a[1..];
      assert (a + [dot] + b)[1..] == more + [dot] + b && (a + b)[1..] == more + b;
      forall dir', budget'
        ensures Resolve(s, dir', more + [dot] + b, mustBeDirectory, budget') ==
                Resolve(s, dir', more + b, mustBeDirectory, budget')
      {
        DotsChangeNothing(s, dir', more, dot, b, mustBeDirectory, budget');
      }
      OneStepAlike(s, dir, a + [dot] + b, a + b, mustBeDirectory, budget);
    }
  }

  /** ... and at the end they ask for a directory. */
  lemma {:induction false} FinalDotIsDirectory(s: Snapshot, dir: Path, a: seq<string>, dot: string,
                                               mustBeDirectory: bool, budget: nat)
    requires dot == "" || dot == "."
    ensures Resolve(s, dir, a + [dot], mustBeDirectory, budget) == Resolve(s, dir, a, true, budget)
    decreases |a|
  {
    if a == [] {
      assert a + [dot] == [dot];
    } else {
      assert (a + [dot])[1..] == a[1..] + [dot] && (a + [dot])[0] == a[0];
      forall dir', budget'
        ensures Resolve(s, dir', a[1..] + [dot], mustBeDirectory, budget') == Resolve(s, dir', a[1..], true, budget')
      {
        FinalDotIsDirectory(s, dir', a[1..], dot, mustBeDirectory, budget');
      }
    }
  }

  /** One component off two lists that go on alike. */
  lemma OneStepAlike(s: Snapshot, dir: Path, x: seq<string>, y: seq<string>, mustBeDirectory: bool, budget: nat)
    requires |x| > 1 && |y| > 1 && x[0] == y[0]
    requires forall d, n :: Resolve(s, d, x[1..], mustBeDirectory, n) == Resolve(s, d, y[1..], mustBeDirectory, n)
    ensures Resolve(s, dir, x, mustBeDirectory, budget) == Resolve(s, dir, y, mustBeDirectory, budget)
  {
  }

  /** An absolute target, one whose first part is empty and not the only one, is never followed, whatever
      is in the snapshot: neither as the target of the link itself nor on the way. */
  lemma AbsoluteNeverFollowed(s: Snapshot, dir: Path, name: string, rest: seq<string>, mustBeDirectory: bool,
                              budget: nat)
    requires name != "" && name != "." && name != ".." && s.IsLink(dir + [name])
    requires |s.entries[dir + [name]].target| > 1 && s.entries[dir + [name]].target[0] == ""
    ensures !LeadsInside(s, dir + [name]) && Resolve(s, dir, [name] + rest, mustBeDirectory, budget) == None
  {
    assert ([name] + rest)[0] == name;
  }

  /** Any other target is: resolved to its end from the link's own directory, and then what follows. */
  lemma RelativeIsFollowed(s: Snapshot, dir: Path, name: string, rest: seq<string>, mustBeDirectory: bool, budget: nat)
    requires name != "" && name != "." && name != ".." && s.IsLink(dir + [name]) && budget > 0
    requires |s.entries[dir + [name]].target| <= 1 || s.entries[dir + [name]].target[0] != ""
    ensures var target := s.entries[dir + [name]].target;
            var end := Resolve(s, dir, target, mustBeDirectory || rest != [], budget - 1);
            Resolve(s, dir, [name] + rest, mustBeDirectory, budget) ==
            if end == None then None else Resolve(s, end.value.0, rest, mustBeDirectory, end.value.1)
  {
    assert ([name] + rest)[0] == name && ([name] + rest)[1..] == rest;
  }
}
