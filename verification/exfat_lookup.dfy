/** Path lookup as a recursive search of an abstract directory tree, and file contents as the
    bytes of a chain of clusters. */
module ExfatLookup {
  import opened BlockTable
  import opened ExfatFormat

  const SLASH: byte := 0x2F

  // ---- paths ----

  /** The bytes up to the next slash. */
  function Head(path: seq<byte>): (r: seq<byte>)
    ensures |r| <= |path| && (path != [] && path[0] != SLASH ==> r != [])
  {
    if path == [] || path[0] == SLASH then [] else [path[0]] + Head(path[1..])
  }

  function SkipSlashes(path: seq<byte>): (r: seq<byte>)
    ensures |r| <= |path| && (r != [] ==> r[0] != SLASH)
  {
    if path != [] && path[0] == SLASH then SkipSlashes(path[1..]) else path
  }

  lemma {:induction false} HeadIsPrefix(path: seq<byte>)
    ensures Head(path) == path[..|Head(path)|] && SLASH !in Head(path)
    ensures |Head(path)| < |path| ==> path[|Head(path)|] == SLASH
  {
    if path != [] && path[0] != SLASH { HeadIsPrefix(path[1..]); }
  }

  lemma {:induction false} SkippedIsSuffix(path: seq<byte>)
    ensures SkipSlashes(path) == path[|path| - |SkipSlashes(path)|..]
  {
    if path != [] && path[0] == SLASH { SkippedIsSuffix(path[1..]); }
  }

  /** The non-empty components of a path. */
  function Components(path: seq<byte>): seq<seq<byte>>
    decreases |path|
  {
    var p := SkipSlashes(path);
    if p == [] then [] else [Head(p)] + Components(p[|Head(p)|..])
  }

  lemma {:induction false} PartsAreNotEmpty(path: seq<byte>)
    ensures forall i | 0 <= i < |Components(path)| :: Components(path)[i] != []
    decreases |path|
  {
    var p := SkipSlashes(path);
    if p != [] { PartsAreNotEmpty(p[|Head(p)|..]); }
  }

  // ---- the abstract tree ----

  /** A directory: its sets in order, each with the directory it leads to, if it leads to one. */
  datatype Tree = Leaf | Folder(chain: seq<nat>, items: seq<Item>)

  datatype Item = Item(entry: FileEntry, below: Tree)

  /** `tree` is the directory whose first cluster is `cluster`. */
  ghost predicate Represents(v: Volume, cluster: nat, tree: Tree)
    decreases tree
  {
    && tree.Folder?
    && Walk(v, tree.chain) && tree.chain[0] == cluster
    && |tree.items| == |Listing(v, tree.chain)|
    && forall i | 0 <= i < |tree.items| ::
         && tree.items[i].entry == Listing(v, tree.chain)[i]
         && (tree.items[i].entry.IsDirectory() && tree.items[i].entry.Name() != [] ==>
               Represents(v, tree.items[i].entry.info.firstCluster, tree.items[i].below))
  }

  /** `tree` is the directory at `cluster` as far as `path` goes: directories off the path may lead
      anywhere. */
  ghost predicate RepresentsAlong(v: Volume, cluster: nat, tree: Tree, path: seq<seq<byte>>)
    decreases |path|
  {
    path == [] ||
    (&& tree.Folder?
     && Walk(v, tree.chain) && tree.chain[0] == cluster
     && Lists(tree.items, Listing(v, tree.chain))
     && var item := FindItem(tree.items, path[0]);
        |path| > 1 && item.Some? && item.value.entry.IsDirectory() ==>
          RepresentsAlong(v, item.value.entry.info.firstCluster, item.value.below, path[1..]))
  }

  predicate Lists(items: seq<Item>, sets: seq<FileEntry>) {
    |items| == |sets| && forall i | 0 <= i < |items| :: items[i].entry == sets[i]
  }

  /** A tree of the whole volume represents it along every path. */
  lemma {:induction false} WholeTreeRepresents(v: Volume, cluster: nat, tree: Tree, path: seq<seq<byte>>)
    requires Represents(v, cluster, tree) && forall i | 0 <= i < |path| :: path[i] != []
    ensures RepresentsAlong(v, cluster, tree, path)
    decreases |path|
  {
    if path != [] {
      var item := FindItem(tree.items, path[0]);
      if |path| > 1 && item.Some? && item.value.entry.IsDirectory() {
        WholeTreeRepresents(v, item.value.entry.info.firstCluster, item.value.below, path[1..]);
      }
    }
  }

  /** The walk of every directory on the path ends. */
  ghost predicate Walkable(v: Volume, cluster: nat, path: seq<seq<byte>>)
    decreases |path|
  {
    path == [] ||
    exists chain :: Walk(v, chain) && chain[0] == cluster && WalkableBelow(v, chain, path)
  }

  ghost predicate WalkableBelow(v: Volume, chain: seq<nat>, path: seq<seq<byte>>)
    requires path != [] && Walk(v, chain)
    decreases |path|, 0
  {
    var found := FindSet(Listing(v, chain), path[0]);
    |path| > 1 && found.Some? && found.value.IsDirectory() ==> Walkable(v, found.value.info.firstCluster, path[1..])
  }

  ghost predicate HasTreeAlong(v: Volume, cluster: nat, path: seq<seq<byte>>) {
    exists tree :: RepresentsAlong(v, cluster, tree, path)
  }

  /** A path has a tree exactly when the walks along it end, whatever the rest of the volume is. */
  lemma TreeAlongIffWalkable(v: Volume, cluster: nat, path: seq<seq<byte>>)
    ensures HasTreeAlong(v, cluster, path) <==> Walkable(v, cluster, path)
  {
    if HasTreeAlong(v, cluster, path) {
      var tree :| RepresentsAlong(v, cluster, tree, path);
      TreeIsWalkable(v, cluster, tree, path);
    }
    if Walkable(v, cluster, path) { WalkableHasTree(v, cluster, path); }
  }

  lemma {:induction false} WalkableHasTree(v: Volume, cluster: nat, path: seq<seq<byte>>)
    requires Walkable(v, cluster, path)
    ensures HasTreeAlong(v, cluster, path)
    decreases |path|
  {
    if path == [] {
      assert RepresentsAlong(v, cluster, Leaf, path);
    } else {
      var chain :| Walk(v, chain) && chain[0] == cluster && WalkableBelow(v, chain, path);
      var found := FindSet(Listing(v, chain), path[0]);
      var below := Leaf;
      if |path| > 1 && found.Some? && found.value.IsDirectory() {
        WalkableHasTree(v, found.value.info.firstCluster, path[1..]);
        var t :| RepresentsAlong(v, found.value.info.firstCluster, t, path[1..]);
        below := t;
      }
      FolderRepresents(v, chain, path, below);
    }
  }

  lemma {:induction false} TreeIsWalkable(v: Volume, cluster: nat, tree: Tree, path: seq<seq<byte>>)
    requires RepresentsAlong(v, cluster, tree, path)
    ensures Walkable(v, cluster, path)
    decreases |path|
  {
    if path == [] {
      return;
    }
    FindInListing(tree.items, Listing(v, tree.chain), path[0]);
    var item := FindItem(tree.items, path[0]);
    if |path| > 1 && item.Some? && item.value.entry.IsDirectory() {
      TreeIsWalkable(v, item.value.entry.info.firstCluster, item.value.below, path[1..]);
    }
    assert WalkableBelow(v, tree.chain, path);
  }

  /** The directory of `chain` with `below` under every entry. */
  function Folding(sets: seq<FileEntry>, chain: seq<nat>, below: Tree): Tree {
    Folder(chain, seq(|sets|, i requires 0 <= i < |sets| => Item(sets[i], below)))
  }

  lemma FolderRepresents(v: Volume, chain: seq<nat>, path: seq<seq<byte>>, below: Tree)
    requires path != [] && Walk(v, chain)
    requires var found := FindSet(Listing(v, chain), path[0]);
             |path| > 1 && found.Some? && found.value.IsDirectory() ==>
               RepresentsAlong(v, found.value.info.firstCluster, below, path[1..])
    ensures RepresentsAlong(v, chain[0], Folding(Listing(v, chain), chain, below), path)
  {
    var tree := Folding(Listing(v, chain), chain, below);
    FindInListing(tree.items, Listing(v, chain), path[0]);
  }

  /** What a path leads to does not depend on the tree that represents it. */
  lemma {:induction false} LookupDetermined(v: Volume, cluster: nat, t: Tree, u: Tree, path: seq<seq<byte>>)
    requires RepresentsAlong(v, cluster, t, path) && RepresentsAlong(v, cluster, u, path)
    ensures Lookup(t, path) == Lookup(u, path)
    decreases |path|
  {
    if path != [] {
      WalkUnique(v, t.chain, u.chain);
      StepDown(v, cluster, t, path);
      StepDown(v, cluster, u, path);
      var found := FindSet(Listing(v, t.chain), path[0]);
      if |path| > 1 && found.Some? && found.value.IsDirectory() {
        LookupDetermined(v, found.value.info.firstCluster, FindItem(t.items, path[0]).value.below,
                         FindItem(u.items, path[0]).value.below, path[1..]);
      }
    }
  }

  /** Where the first item with a name is. */
  lemma {:induction false} FoundAt(items: seq<Item>, name: seq<byte>) returns (i: nat)
    requires FindItem(items, name).Some?
    ensures i < |items| && items[i] == FindItem(items, name).value && items[i].entry.Name() == name
    ensures forall k | 0 <= k < i :: items[k].entry.Name() != name
    decreases |items|
  {
    if items[0].entry.Name() == name {
      i := 0;
    } else {
      i := FoundAt(items[1..], name);
      i := i + 1;
    }
  }

  /** The first item with a name, if any. */
  function FindItem(items: seq<Item>, name: seq<byte>): (r: Option<Item>)
    ensures r.Some? ==> r.value in items && r.value.entry.Name() == name
    ensures r.None? ==> forall i | 0 <= i < |items| :: items[i].entry.Name() != name
  {
    if items == [] then None
    else if items[0].entry.Name() == name then Some(items[0])
    else FindItem(items[1..], name)
  }

  /** What a path of components leads to. */
  function Lookup(tree: Tree, path: seq<seq<byte>>): Option<FileEntry>
    decreases |path|
  {
    if path == [] || tree.Leaf? then None else
      var item := FindItem(tree.items, path[0]);
      if item.None? then None
      else if |path| == 1 then Some(item.value.entry)
      else if !item.value.entry.IsDirectory() then None
      else Lookup(item.value.below, path[1..])
  }

  /** The first set with a name, as the scan finds it. */
  function FindSet(sets: seq<FileEntry>, name: seq<byte>): (r: Option<FileEntry>)
    ensures r.Some? ==> r.value in sets && r.value.Name() == name
    ensures r.None? ==> forall i | 0 <= i < |sets| :: sets[i].Name() != name
  {
    if sets == [] then None
    else if sets[0].Name() == name then Some(sets[0])
    else FindSet(sets[1..], name)
  }

  lemma {:induction false} FindSetConcat(a: seq<FileEntry>, b: seq<FileEntry>, name: seq<byte>)
    ensures FindSet(a + b, name) == if FindSet(a, name).Some? then FindSet(a, name) else FindSet(b, name)
  {
    if a == [] {
      assert a + b == b;
    } else if a[0].Name() != name {
      FindSetConcat(a[1..], b, name);
      assert (a + b)[1..] == a[1..] + b;
    }
  }

  /** Searching the listing of a directory is searching its items. */
  lemma {:induction false} FindInListing(items: seq<Item>, sets: seq<FileEntry>, name: seq<byte>)
    requires Lists(items, sets)
    ensures FindSet(sets, name) == if FindItem(items, name).Some? then Some(FindItem(items, name).value.entry) else None
  {
    if items != [] && items[0].entry.Name() != name { FindInListing(items[1..], sets[1..], name); }
  }

  /** One step of the lookup: the scan of a directory finds the item, and an item that is a
      directory leads to a tree for the rest of the path. */
  lemma StepDown(v: Volume, cluster: nat, tree: Tree, path: seq<seq<byte>>)
    requires path != [] && RepresentsAlong(v, cluster, tree, path)
    ensures var found := FindSet(Listing(v, tree.chain), path[0]);
            var item := FindItem(tree.items, path[0]);
            && (found.Some? <==> item.Some?)
            && (found.Some? ==> found.value == item.value.entry)
            && (found.Some? && found.value.IsDirectory() && |path| > 1 ==>
                  RepresentsAlong(v, found.value.info.firstCluster, item.value.below, path[1..]))
  {
    FindInListing(tree.items, Listing(v, tree.chain), path[0]);
  }

  /** Slashes in front make no difference. */
  lemma ComponentsOfSuffix(path: seq<byte>)
    ensures SkipSlashes(SkipSlashes(path)) == SkipSlashes(path)
    ensures Components(SkipSlashes(path)) == Components(path)
  {
    var p := SkipSlashes(path);
    assert SkipSlashes(p) == p;
  }

  /** A path from components: a slash before each. */
  function Joined(parts: seq<seq<byte>>): seq<byte> {
    if parts == [] then [] else [0x2F] + parts[0] + Joined(parts[1..])
  }

  lemma {:induction false} HeadOfConcat(a: seq<byte>, b: seq<byte>)
    requires SLASH !in a && (b == [] || b[0] == SLASH)
    ensures Head(a + b) == a
  {
    if a == [] {
      assert a + b == b;
    } else {
      assert (a + b)[1..] == a[1..] + b;
      HeadOfConcat(a[1..], b);
    }
  }

  predicate AllSlashes(s: seq<byte>) { forall i | 0 <= i < |s| :: s[i] == 0x2F }

  lemma {:induction false} SkipExtra(extra: seq<byte>, s: seq<byte>)
    requires AllSlashes(extra)
    ensures SkipSlashes(extra + s) == SkipSlashes(s)
  {
    if extra == [] {
      assert extra + s == s;
    } else {
      assert (extra + s)[1..] == extra[1..] + s;
      SkipExtra(extra[1..], s);
    }
  }

  /** Slashes in front make no difference. */
  lemma ComponentsWithExtra(extra: seq<byte>, s: seq<byte>)
    requires AllSlashes(extra)
    ensures Components(extra + s) == Components(s)
  {
    SkipExtra(extra, s);
    ComponentsOfSuffix(extra + s);
    ComponentsOfSuffix(s);
  }

  /** Splitting undoes joining. */
  lemma {:induction false} ComponentsOfJoined(parts: seq<seq<byte>>)
    requires forall i | 0 <= i < |parts| :: parts[i] != [] && 0x2F !in parts[i]
    ensures Components(Joined(parts)) == parts
  {
    if parts != [] {
      var body := parts[0] + Joined(parts[1..]);
      ComponentsOfJoined(parts[1..]);
      ComponentsWithExtra([SLASH], body);
      assert Joined(parts) == [SLASH] + body;
      FirstComponent(parts[0], Joined(parts[1..]));
    }
  }

  lemma FirstComponent(head: seq<byte>, rest: seq<byte>)
    requires head != [] && SLASH !in head && (rest == [] || rest[0] == SLASH)
    ensures Components(head + rest) == [head] + Components(rest)
  {
    var body := head + rest;
    HeadOfConcat(head, rest);
    assert body[0] == head[0] && body[|head|..] == rest;
  }
}
