/**
 * The sidebar's archive tree (apps/web/src/components/app-sidebar.tsx).
 *
 * `BuildTree` turns the flat list of archive entries into an ordered tree of
 * named nodes in two phases: an insertion phase that walks each entry's path
 * segments and creates or reuses nodes, and a conversion phase that turns the
 * collected nodes into arrays ordered "directories first, then by name" at
 * every level.
 *
 * The nested dictionary of the source (one object per directory, the value of
 * a key being `null` for a file or `{ isDirectory: true, node }` for a
 * directory) is represented by one map from a node's full segment path to its
 * kind (`false` for the file marker, `true` for a directory), together with
 * the order in which keys were first added. `Object.keys` lists keys in that
 * order except that integer-like keys (such as "10") come first in numeric
 * order; the sorted result does not depend on the key order (`SortedUnique`),
 * so the model keeps plain insertion order. The insertion cursor `current` is
 * the segment path it stands for.
 */
module ArchiveTree {
  import opened Options
  import opened StringOps

  /** One archive entry as listed by the archive reader. */
  datatype Entry = Entry(filename: string, directory: bool)

  /** One node of the rendered tree. */
  datatype Node = Node(name: string, isDirectory: bool, children: seq<Node>)

  // ---------------------------------------------------------------------
  // path segments

  /** `filename.split("/").filter(Boolean)`: the non-empty `/`-pieces. */
  function Segments(filename: string): (r: seq<string>)
    ensures forall i :: 0 <= i < |r| ==> r[i] != "" && '/' !in r[i]
    ensures r == [] <==> forall j :: 0 <= j < |filename| ==> filename[j] == '/'
  {
    var pieces := Split(filename, '/');
    var r := DropEmpty(pieces);
    SplitHasNonEmptyPiece(filename, '/');
    assert r != [] <==> exists i :: 0 <= i < |pieces| && pieces[i] != "" by {
      if r != [] { assert r[0] in r; }
      if exists i :: 0 <= i < |pieces| && pieces[i] != "" {
        var i :| 0 <= i < |pieces| && pieces[i] != "";
        assert pieces[i] in r;
      }
    }
    forall i | 0 <= i < |r| ensures '/' !in r[i] {
      assert r[i] in r;
    }
    r
  }

  /** Empty pieces are dropped: a doubled or trailing slash inserts the same
      nodes as the plain path, and a path of slashes inserts nothing. */
  lemma SegmentsExamples()
    ensures Segments("a//b/") == Segments("a/b") == ["a", "b"]
    ensures Segments("") == [] && Segments("/") == []
  {
    SplitSlashes();
    SplitDoubledSlash();
  }

  /** A doubled slash anywhere inserts the same nodes as a single one. */
  lemma DoubledSlash(x: string, y: string)
    ensures Segments(x + "//" + y) == Segments(x + "/" + y)
  {
    assert x + "//" + y == x + ['/'] + ("/" + y);
    assert x + "/" + y == x + ['/'] + y;
    assert "/" + y == [] + ['/'] + y;
    SplitAtSeparator(x, "/" + y, '/');
    SplitAtSeparator([], y, '/');
    SplitAtSeparator(x, y, '/');
    assert Split([], '/') == [""];
    DropEmptyAppend(Split(x, '/'), [""] + Split(y, '/'));
    DropEmptyAppend([""], Split(y, '/'));
    DropEmptySingle("");
    DropEmptyAppend(Split(x, '/'), Split(y, '/'));
  }

  lemma SplitSlashes()
    ensures Split("", '/') == [""] && Split("/", '/') == ["", ""]
  {
    assert "/"[1..] == "";
  }

  lemma SplitDoubledSlash()
    ensures Split("a//b/", '/') == ["a", "", "b", ""] && Split("a/b", '/') == ["a", "b"]
  {
    assert "/"[1..] == "";
    assert "b/"[1..] == "/" && "b"[1..] == "" && "b"[0] == 'b' && "b" == ['b'] + "";
    assert Split("b", '/') == ["b"];
    assert Split("b/", '/') == ["b", ""];
    assert "/b/"[1..] == "b/" && "/b"[1..] == "b";
    assert Split("/b/", '/') == ["", "b", ""];
    assert Split("/b", '/') == ["", "b"];
    assert "//b/"[1..] == "/b/" && "a//b/"[1..] == "//b/" && "a/b"[1..] == "/b";
    assert "a"[0] == 'a' && "a//b/"[0] == 'a' && "a/b"[0] == 'a' && ['a'] + "" == "a";
    assert Split("//b/", '/') == ["", "", "b", ""];
  }

  // ---------------------------------------------------------------------
  // what the insertion phase must produce

  /** `k` is a non-empty leading part of the segments `s`. */
  predicate OnPath(s: seq<string>, k: seq<string>) {
    1 <= |k| <= |s| && k == s[..|k|]
  }

  /** Inserting segments `s` with directory flag `dir` marks `k` as a
      directory: `k` is a strict leading part of `s` (the walk passes
      through it), or `k` is `s` itself and the entry is a directory. */
  predicate MarksDirectory(s: seq<string>, dir: bool, k: seq<string>) {
    OnPath(s, k) && (|k| < |s| || dir)
  }

  /** Every node the entries create: each non-empty leading part of each
      entry's segments. */
  ghost function Prefixes(entries: seq<Entry>): set<seq<string>> {
    set e, j | e in entries && 1 <= j <= |Segments(e.filename)| :: Segments(e.filename)[..j]
  }

  /** Some entry marks `k` as a directory. */
  ghost predicate DirIn(entries: seq<Entry>, k: seq<string>) {
    exists e :: e in entries && MarksDirectory(Segments(e.filename), e.directory, k)
  }

  /** The node kinds the entries call for: a node for every prefix, and it
      is a directory exactly when some entry marks it so. */
  ghost function Index(entries: seq<Entry>): map<seq<string>, bool> {
    map k | k in Prefixes(entries) :: DirIn(entries, k)
  }

  lemma {:induction false} PrefixesSnoc(es: seq<Entry>, x: Entry, k: seq<string>)
    ensures k in Prefixes(es + [x]) <==> k in Prefixes(es) || OnPath(Segments(x.filename), k)
    ensures DirIn(es + [x], k) <==> DirIn(es, k) || MarksDirectory(Segments(x.filename), x.directory, k)
  {
    if k in Prefixes(es + [x]) {
      var e, j :| e in es + [x] && 1 <= j <= |Segments(e.filename)| && k == Segments(e.filename)[..j];
      if e in es { assert k in Prefixes(es); }
    }
    if k in Prefixes(es) {
      var e, j :| e in es && 1 <= j <= |Segments(e.filename)| && k == Segments(e.filename)[..j];
      assert e in es + [x];
    }
    if OnPath(Segments(x.filename), k) {
      assert x in es + [x];
      assert k == Segments(x.filename)[..|k|];
    }
    if DirIn(es, k) {
      var e :| e in es && MarksDirectory(Segments(e.filename), e.directory, k);
      assert e in es + [x];
    }
    if MarksDirectory(Segments(x.filename), x.directory, k) {
      assert x in es + [x];
    }
    if DirIn(es + [x], k) {
      var e :| e in es + [x] && MarksDirectory(Segments(e.filename), e.directory, k);
      if e in es { assert DirIn(es, k); }
    }
  }

  /** Every key whose leading parts are all directories. */
  ghost predicate PrefixClosed(kinds: map<seq<string>, bool>) {
    forall k, j :: k in kinds && 1 <= j < |k| ==> k[..j] in kinds && kinds[k[..j]]
  }

  /** The walk makes every strict leading part of a path a directory. */
  lemma IndexPrefixClosed(entries: seq<Entry>)
    ensures PrefixClosed(Index(entries))
  {
    var kinds := Index(entries);
    forall k, j | k in kinds && 1 <= j < |k|
      ensures k[..j] in kinds && kinds[k[..j]]
    {
      var e, i :| e in entries && 1 <= i <= |Segments(e.filename)| && k == Segments(e.filename)[..i];
      var s := Segments(e.filename);
      assert k[..j] == s[..j];
      assert k[..j] in Prefixes(entries);
      assert MarksDirectory(s, e.directory, k[..j]);
    }
  }

  // ---------------------------------------------------------------------
  // phase 2: convertToArray

  function MaxLen(order: seq<seq<string>>): (m: nat)
    ensures forall k :: k in order ==> |k| <= m
    decreases |order|
  {
    if order == [] then 0
    else
      var m := MaxLen(order[1..]);
      assert forall k :: k in order ==> k == order[0] || k in order[1..];
      if |order[0]| > m then |order[0]| else m
  }

  predicate IsChildKey(p: seq<string>, k: seq<string>) {
    |k| == |p| + 1 && k[..|p|] == p
  }

  predicate NoDuplicates<T(==)>(s: seq<T>) {
    forall i, j :: 0 <= i < j < |s| ==> s[i] != s[j]
  }

  /** The keys of the dictionary that stands for `p` (what `Object.keys(obj)`
      enumerates): the keys one level below `p`, in the order they were
      first added. */
  function ChildKeys(order: seq<seq<string>>, p: seq<string>): (r: seq<seq<string>>)
    ensures forall k :: k in r <==> k in order && IsChildKey(p, k)
    ensures NoDuplicates(order) ==> NoDuplicates(r)
    decreases |order|
  {
    if order == [] then []
    else
      var rest := ChildKeys(order[1..], p);
      assert forall k :: k in order <==> k == order[0] || k in order[1..];
      if IsChildKey(p, order[0]) then [order[0]] + rest else rest
  }

  /** The comparator of the sort: directories before files, then names in
      ascending order (`Less` stands in for `localeCompare`). */
  predicate Precedes(a: Node, b: Node) {
    (a.isDirectory && !b.isDirectory) || (a.isDirectory == b.isDirectory && Less(a.name, b.name))
  }

  predicate StrictlySorted(s: seq<Node>) {
    forall i, j :: 0 <= i < j < |s| ==> Precedes(s[i], s[j])
  }

  predicate DistinctNames(s: seq<Node>) {
    forall i, j :: 0 <= i < j < |s| ==> s[i].name != s[j].name
  }

  lemma PrecedesTransitive(a: Node, b: Node, c: Node)
    requires Precedes(a, b) && Precedes(b, c)
    ensures Precedes(a, c)
  {
    if a.isDirectory == b.isDirectory == c.isDirectory {
      LessTransitive(a.name, b.name, c.name);
    }
  }

  lemma PrecedesAsymmetric(a: Node, b: Node)
    ensures Precedes(a, b) ==> !Precedes(b, a)
  {
    LessAsymmetric(a.name, b.name);
  }

  lemma PrecedesTotal(a: Node, b: Node)
    requires a.name != b.name
    ensures Precedes(a, b) || Precedes(b, a)
  {
    LessTotal(a.name, b.name);
  }

  /** One insertion step of the sort. */
  function InsertNode(x: Node, s: seq<Node>): (r: seq<Node>)
    ensures multiset(r) == multiset(s) + multiset{x}
    decreases |s|
  {
    if s == [] || Precedes(x, s[0]) then [x] + s
    else
      assert s == [s[0]] + s[1..];
      [s[0]] + InsertNode(x, s[1..])
  }

  lemma {:induction false} InsertNodeSorted(x: Node, s: seq<Node>)
    requires StrictlySorted(s)
    requires forall y :: y in s ==> y.name != x.name
    ensures StrictlySorted(InsertNode(x, s))
    decreases |s|
  {
    var r := InsertNode(x, s);
    if s == [] || Precedes(x, s[0]) {
      forall j | 0 < j < |r| ensures Precedes(x, r[j]) {
        if j > 1 { PrecedesTransitive(x, s[0], s[j - 1]); }
      }
    } else {
      assert s[0] in s;
      PrecedesTotal(x, s[0]);
      InsertNodeSorted(x, s[1..]);
      var t := InsertNode(x, s[1..]);
      forall j | 0 <= j < |t| ensures Precedes(s[0], t[j]) {
        assert t[j] in multiset(t);
        assert t[j] in multiset(s[1..]) || t[j] == x;
        if t[j] != x {
          var i :| 0 <= i < |s[1..]| && s[1..][i] == t[j];
          assert s[i + 1] == t[j];
        }
      }
    }
  }

  /** `Array.prototype.sort` with the comparator above, as insertion sort. */
  function SortNodes(s: seq<Node>): (r: seq<Node>)
    ensures multiset(r) == multiset(s)
    decreases |s|
  {
    if s == [] then []
    else
      assert s == [s[0]] + s[1..];
      InsertNode(s[0], SortNodes(s[1..]))
  }

  /** With distinct names the comparator never ties, so the sort puts the
      nodes in strictly increasing order. */
  lemma {:induction false} SortNodesSorted(s: seq<Node>)
    requires DistinctNames(s)
    ensures StrictlySorted(SortNodes(s))
    decreases |s|
  {
    if s != [] {
      assert s == [s[0]] + s[1..];
      var sorted := SortNodes(s[1..]);
      SortNodesSorted(s[1..]);
      forall y | y in sorted ensures y.name != s[0].name {
        assert y in multiset(s[1..]);
        var i :| 0 <= i < |s[1..]| && s[1..][i] == y;
        assert s[i + 1] == y;
      }
      InsertNodeSorted(s[0], sorted);
    }
  }

  /** Two strictly sorted sequences with the same elements are equal. */
  lemma {:induction false} SortedUnique(a: seq<Node>, b: seq<Node>)
    requires StrictlySorted(a) && StrictlySorted(b)
    requires forall x :: x in a <==> x in b
    ensures a == b
    decreases |a|
  {
    if b != [] { assert b[0] in b; }
    if a != [] {
      assert a[0] in a;
      assert b != [];
      assert b[0] in b;
      if a[0] != b[0] {
        var j :| 0 <= j < |b| && b[j] == a[0];
        var i :| 0 <= i < |a| && a[i] == b[0];
        PrecedesAsymmetric(a[0], b[0]);
      }
      forall x ensures x in a[1..] <==> x in b[1..] {
        if x in a[1..] {
          var i :| 0 <= i < |a[1..]| && a[1..][i] == x;
          PrecedesAsymmetric(a[0], a[i + 1]);
          assert x in b;
        }
        if x in b[1..] {
          var i :| 0 <= i < |b[1..]| && b[1..][i] == x;
          PrecedesAsymmetric(b[0], b[i + 1]);
          assert x in a;
        }
      }
      SortedUnique(a[1..], b[1..]);
    }
  }

  /** convertToArray applied to the dictionary standing for `p`. */
  function ConvertToArray(kinds: map<seq<string>, bool>, order: seq<seq<string>>, p: seq<string>): seq<Node>
    requires forall k :: k in order ==> k in kinds
    decreases MaxLen(order) - |p|, 1, 0
  {
    SortNodes(ToNodes(kinds, order, p, ChildKeys(order, p)))
  }

  /** The `map` over the keys: a file marker becomes a childless file node, a
      directory a node whose children are converted recursively. */
  function ToNodes(kinds: map<seq<string>, bool>, order: seq<seq<string>>, p: seq<string>,
                   keys: seq<seq<string>>): seq<Node>
    requires forall k :: k in order ==> k in kinds
    requires forall i :: 0 <= i < |keys| ==> keys[i] in order && IsChildKey(p, keys[i])
    decreases MaxLen(order) - |p|, 0, |keys|
  {
    if keys == [] then []
    else
      var k := keys[0];
      assert IsChildKey(p, k);
      var node := if kinds[k] then Node(k[|p|], true, ConvertToArray(kinds, order, k))
                  else Node(k[|p|], false, []);
      [node] + ToNodes(kinds, order, p, keys[1..])
  }

  // ---------------------------------------------------------------------
  // what a converted tree looks like

  /** `nodes` is the level below `p` of the tree that `kinds` calls for: it is
      ordered by the comparator, each node matches its key, and every key one
      level below `p` has a node. */
  ghost predicate Describes(nodes: seq<Node>, kinds: map<seq<string>, bool>, p: seq<string>)
    decreases nodes
  {
    && StrictlySorted(nodes)
    && (forall i :: 0 <= i < |nodes| ==> NodeDescribes(nodes[i], kinds, p))
    && Covers(nodes, kinds, p)
  }

  /** Every key one level below `p` has a node of its name in `nodes`. */
  ghost predicate Covers(nodes: seq<Node>, kinds: map<seq<string>, bool>, p: seq<string>) {
    forall k :: k in kinds && IsChildKey(p, k) ==>
      exists i :: 0 <= i < |nodes| && nodes[i].name == k[|p|]
  }

  /** Node `n`, one level below `p`, matches `kinds`: its key is present with
      its kind, a directory's children describe the level below it, and a
      file has no children. */
  ghost predicate NodeDescribes(n: Node, kinds: map<seq<string>, bool>, p: seq<string>)
    decreases n
  {
    && p + [n.name] in kinds
    && n.isDirectory == kinds[p + [n.name]]
    && (if n.isDirectory then Describes(n.children, kinds, p + [n.name]) else n.children == [])
  }

  lemma ChildKeyShape(p: seq<string>, k: seq<string>)
    requires IsChildKey(p, k)
    ensures k == p + [k[|p|]]
  {
    assert k == k[..|p|] + [k[|p|]];
  }

  /** The converted tree describes the map it was converted from. */
  lemma {:induction false} ConvertDescribes(kinds: map<seq<string>, bool>, order: seq<seq<string>>, p: seq<string>)
    requires forall k :: k in order <==> k in kinds
    requires NoDuplicates(order)
    ensures Describes(ConvertToArray(kinds, order, p), kinds, p)
    decreases MaxLen(order) - |p|, 1, 0
  {
    var keys := ChildKeys(order, p);
    assert forall i :: 0 <= i < |keys| ==> keys[i] in keys;
    var raw := ToNodes(kinds, order, p, keys);
    ToNodesDescribe(kinds, order, p, keys);
    assert DistinctNames(raw) by {
      forall i, j | 0 <= i < j < |raw| ensures raw[i].name != raw[j].name {
        ChildKeyShape(p, keys[i]);
        ChildKeyShape(p, keys[j]);
      }
    }
    assert Covers(raw, kinds, p) by {
      forall k | k in kinds && IsChildKey(p, k)
        ensures exists i :: 0 <= i < |raw| && raw[i].name == k[|p|]
      {
        assert k in keys;
        var i :| 0 <= i < |keys| && keys[i] == k;
        assert raw[i].name == k[|p|];
      }
    }
    SortedLevelDescribes(raw, kinds, p);
  }

  /** Sorting a level whose nodes match `kinds` and cover it gives a level
      that describes `kinds`. */
  lemma SortedLevelDescribes(raw: seq<Node>, kinds: map<seq<string>, bool>, p: seq<string>)
    requires DistinctNames(raw)
    requires forall i :: 0 <= i < |raw| ==> NodeDescribes(raw[i], kinds, p)
    requires Covers(raw, kinds, p)
    ensures Describes(SortNodes(raw), kinds, p)
  {
    var sorted := SortNodes(raw);
    SortNodesSorted(raw);
    forall i | 0 <= i < |sorted| ensures NodeDescribes(sorted[i], kinds, p) {
      assert sorted[i] in multiset(raw);
    }
    forall k | k in kinds && IsChildKey(p, k)
      ensures exists j :: 0 <= j < |sorted| && sorted[j].name == k[|p|]
    {
      var i :| 0 <= i < |raw| && raw[i].name == k[|p|];
      assert raw[i] in multiset(sorted);
      var j :| 0 <= j < |sorted| && sorted[j] == raw[i];
    }
  }

  lemma {:induction false} ToNodesDescribe(kinds: map<seq<string>, bool>, order: seq<seq<string>>, p: seq<string>,
                                           keys: seq<seq<string>>)
    requires forall k :: k in order <==> k in kinds
    requires NoDuplicates(order)
    requires forall i :: 0 <= i < |keys| ==> keys[i] in order && IsChildKey(p, keys[i])
    ensures |ToNodes(kinds, order, p, keys)| == |keys|
    ensures forall i :: 0 <= i < |keys| ==>
              ToNodes(kinds, order, p, keys)[i].name == keys[i][|p|] &&
              NodeDescribes(ToNodes(kinds, order, p, keys)[i], kinds, p)
    decreases MaxLen(order) - |p|, 0, |keys|
  {
    if keys != [] {
      var k := keys[0];
      var r := ToNodes(kinds, order, p, keys);
      var rest := ToNodes(kinds, order, p, keys[1..]);
      assert r[1..] == rest;
      ToNodesDescribe(kinds, order, p, keys[1..]);
      assert r[0].name == k[|p|] && NodeDescribes(r[0], kinds, p) by {
        ChildKeyShape(p, k);
        if kinds[k] {
          ConvertDescribes(kinds, order, k);
        }
      }
      forall i | 0 < i < |keys|
        ensures r[i].name == keys[i][|p|] && NodeDescribes(r[i], kinds, p)
      {
        assert r[i] == rest[i - 1];
        assert keys[i] == keys[1..][i - 1];
      }
    }
  }

  /** Two trees that describe the same map are the same tree. */
  lemma {:induction false} DescribesUnique(a: seq<Node>, b: seq<Node>, kinds: map<seq<string>, bool>, p: seq<string>)
    requires Describes(a, kinds, p) && Describes(b, kinds, p)
    ensures a == b
    decreases a
  {
    forall x | x in a ensures x in b {
      var i :| 0 <= i < |a| && a[i] == x;
      NodeIn(a, b, kinds, p, i);
    }
    forall x | x in b ensures x in a {
      var j :| 0 <= j < |b| && b[j] == x;
      var k := p + [x.name];
      assert IsChildKey(p, k) by { assert k[..|p|] == p; }
      var i :| 0 <= i < |a| && a[i].name == k[|p|];
      NodeIn(a, b, kinds, p, i);
      var j' :| 0 <= j' < |b| && b[j'] == a[i];
      DescribedNamesDistinct(b, kinds, p);
      assert b[j'].name == b[j].name;
    }
    SortedUnique(a, b);
  }

  /** A described level has no two nodes of the same name. */
  lemma DescribedNamesDistinct(s: seq<Node>, kinds: map<seq<string>, bool>, p: seq<string>)
    requires Describes(s, kinds, p)
    ensures DistinctNames(s)
  {
    forall i, j | 0 <= i < j < |s| ensures s[i].name != s[j].name {
      assert Precedes(s[i], s[j]);
      assert NodeDescribes(s[i], kinds, p) && NodeDescribes(s[j], kinds, p);
      LessIrreflexive(s[i].name);
    }
  }

  lemma {:induction false} NodeIn(a: seq<Node>, b: seq<Node>, kinds: map<seq<string>, bool>, p: seq<string>, i: nat)
    requires Describes(a, kinds, p) && Describes(b, kinds, p)
    requires i < |a|
    ensures a[i] in b
    decreases a, 0
  {
    var x := a[i];
    var k := p + [x.name];
    assert NodeDescribes(x, kinds, p);
    assert IsChildKey(p, k) by { assert k[..|p|] == p; }
    var j :| 0 <= j < |b| && b[j].name == k[|p|];
    var y := b[j];
    assert NodeDescribes(y, kinds, p);
    assert y.name == x.name;
    if x.isDirectory {
      DescribesUnique(x.children, y.children, kinds, k);
    }
    assert x == y;
  }

  // ---------------------------------------------------------------------
  // the two phases together

  /** The dictionary after the walk over `parts` (the segments of an entry
      with flag `dir`) has handled its first `index` segments, starting from
      the dictionary `base`. */
  ghost predicate WalkedUpTo(kinds: map<seq<string>, bool>, base: map<seq<string>, bool>,
                             parts: seq<string>, dir: bool, index: nat)
  {
    && (forall k :: k in kinds <==> k in base || (OnPath(parts, k) && |k| <= index))
    && (forall k :: k in kinds ==>
          kinds[k] == ((k in base && base[k]) || (MarksDirectory(parts, dir, k) && |k| <= index)))
  }

  /** One step of the walk at segment `index`: a missing key or a file
      marker is (re)written, as a file marker for the last segment of a file
      entry and as a directory otherwise; an existing directory is kept. */
  function Visit(kinds: map<seq<string>, bool>, key: seq<string>, isLastPart: bool, dir: bool)
    : map<seq<string>, bool>
  {
    if key !in kinds || !kinds[key] then kinds[key := !(isLastPart && !dir)] else kinds
  }

  /** A visit adds `key` if missing, leaves every other key alone, and makes
      `key` a directory unless it is a file's last segment and was not one
      already: a directory is never downgraded. */
  lemma VisitEffect(kinds: map<seq<string>, bool>, key: seq<string>, isLastPart: bool, dir: bool)
    ensures var r := Visit(kinds, key, isLastPart, dir);
      && r.Keys == kinds.Keys + {key}
      && (forall k :: k in kinds && k != key ==> r[k] == kinds[k])
      && r[key] == ((key in kinds && kinds[key]) || !isLastPart || dir)
  {
  }

  /** The dictionary after the first `index` steps of the walk over `parts`,
      starting from `kinds`. */
  ghost function Walk(kinds: map<seq<string>, bool>, parts: seq<string>, dir: bool, index: nat)
    : map<seq<string>, bool>
    requires index <= |parts|
    decreases index
  {
    if index == 0 then kinds
    else Visit(Walk(kinds, parts, dir, index - 1), parts[..index], index == |parts|, dir)
  }

  /** A visit of the next prefix is the next step of the walk. */
  lemma WalkNext(base: map<seq<string>, bool>, parts: seq<string>, dir: bool, index: nat,
                 before: map<seq<string>, bool>, after: map<seq<string>, bool>)
    requires index < |parts|
    requires before == Walk(base, parts, dir, index)
    requires after == Visit(before, parts[..index + 1], index == |parts| - 1, dir)
    ensures after == Walk(base, parts, dir, index + 1)
  {
  }

  /** The dictionary after the insertion loop has handled all of `entries`. */
  ghost function Inserted(entries: seq<Entry>): map<seq<string>, bool>
    decreases |entries|
  {
    if entries == [] then map[]
    else
      var e := entries[|entries| - 1];
      var parts := Segments(e.filename);
      Walk(Inserted(entries[..|entries| - 1]), parts, e.directory, |parts|)
  }

  lemma VisitKeepsWalk(kinds: map<seq<string>, bool>, base: map<seq<string>, bool>,
                       parts: seq<string>, dir: bool, index: nat)
    requires index < |parts|
    requires WalkedUpTo(kinds, base, parts, dir, index)
    ensures WalkedUpTo(Visit(kinds, parts[..index + 1], index == |parts| - 1, dir),
                       base, parts, dir, index + 1)
  {
    var key := parts[..index + 1];
    var r := Visit(kinds, key, index == |parts| - 1, dir);
    VisitEffect(kinds, key, index == |parts| - 1, dir);
    assert OnPath(parts, key);
    forall k ensures k in r <==> k in base || (OnPath(parts, k) && |k| <= index + 1) {
      if OnPath(parts, k) && |k| == index + 1 { assert k == key; }
    }
    forall k | k in r
      ensures r[k] == ((k in base && base[k]) || (MarksDirectory(parts, dir, k) && |k| <= index + 1))
    {
      if k == key {
        assert MarksDirectory(parts, dir, k) <==> (index < |parts| - 1 || dir);
      }
    }
  }

  /** Each step of the walk over an entry adds the nodes its segments call
      for, up to the step reached. */
  lemma {:induction false} WalkAdds(base: map<seq<string>, bool>, parts: seq<string>, dir: bool, index: nat)
    requires index <= |parts|
    ensures WalkedUpTo(Walk(base, parts, dir, index), base, parts, dir, index)
    decreases index
  {
    if index > 0 {
      var before := Walk(base, parts, dir, index - 1);
      WalkAdds(base, parts, dir, index - 1);
      VisitKeepsWalk(before, base, parts, dir, index - 1);
      assert index - 1 + 1 == index;
    }
  }

  /** Once the walk over an entry's segments is complete, the dictionary holds
      exactly the nodes that the entries so far, that one included, call for. */
  lemma NextEntry(kinds: map<seq<string>, bool>, prior: seq<Entry>, entry: Entry)
    requires WalkedUpTo(kinds, Index(prior), Segments(entry.filename), entry.directory,
                        |Segments(entry.filename)|)
    ensures kinds == Index(prior + [entry])
  {
    var after := Index(prior + [entry]);
    forall k ensures k in kinds <==> k in after {
      NextEntryAt(kinds, prior, entry, k);
    }
    forall k | k in kinds ensures kinds[k] == after[k] {
      NextEntryAt(kinds, prior, entry, k);
    }
    MapsEqual(kinds, after);
  }

  lemma MapsEqual<K, V>(a: map<K, V>, b: map<K, V>)
    requires forall k :: k in a <==> k in b
    requires forall k :: k in a ==> a[k] == b[k]
    ensures a == b
  {
  }

  lemma NextEntryAt(kinds: map<seq<string>, bool>, prior: seq<Entry>, entry: Entry, k: seq<string>)
    requires WalkedUpTo(kinds, Index(prior), Segments(entry.filename), entry.directory,
                        |Segments(entry.filename)|)
    ensures k in kinds <==> k in Index(prior + [entry])
    ensures k in kinds ==> kinds[k] == Index(prior + [entry])[k]
  {
    var before := Index(prior);
    var after := Index(prior + [entry]);
    PrefixesSnoc(prior, entry, k);
    assert k in before <==> k in Prefixes(prior);
    assert k in after <==> k in Prefixes(prior + [entry]);
    if k in kinds {
      assert k in before ==> before[k] == DirIn(prior, k);
      assert after[k] == DirIn(prior + [entry], k);
      assert k !in before ==> !DirIn(prior, k);
    }
  }

  /** The insertion loop produces exactly the kinds the entries call for. */
  lemma {:induction false} InsertedIsIndex(entries: seq<Entry>)
    ensures Inserted(entries) == Index(entries)
    decreases |entries|
  {
    if entries != [] {
      var prior := entries[..|entries| - 1];
      var e := entries[|entries| - 1];
      var parts := Segments(e.filename);
      assert entries == prior + [e];
      InsertedIsIndex(prior);
      WalkAdds(Index(prior), parts, e.directory, |parts|);
      NextEntry(Walk(Index(prior), parts, e.directory, |parts|), prior, e);
    }
  }

  /** `order` lists the keys of `kinds` once each, in insertion order. */
  ghost predicate Tracks(order: seq<seq<string>>, kinds: map<seq<string>, bool>) {
    (forall k :: k in order <==> k in kinds) && NoDuplicates(order)
  }

  lemma TracksAfterSet(order: seq<seq<string>>, kinds: map<seq<string>, bool>, key: seq<string>, v: bool)
    requires Tracks(order, kinds)
    ensures Tracks(if key in kinds then order else order + [key], kinds[key := v])
  {
  }

  /** The body of the inner `forEach` for one segment `part` under the
      cursor `current0`: a missing node, or a file marker, is (re)written, as
      a file marker for the last segment of a file entry and as a directory
      otherwise; a new key joins the key order at the end; the cursor steps
      into the node unless it is the last segment (the node is then always a
      directory, so the `!== null` test never stops it). */
  method VisitSegment(kinds0: map<seq<string>, bool>, order0: seq<seq<string>>, current0: seq<string>,
                      part: string, isLastPart: bool, dir: bool)
    returns (kinds: map<seq<string>, bool>, order: seq<seq<string>>, current: seq<string>)
    requires Tracks(order0, kinds0)
    ensures Tracks(order, kinds)
    ensures kinds == Visit(kinds0, current0 + [part], isLastPart, dir)
    ensures order == if current0 + [part] in kinds0 then order0 else order0 + [current0 + [part]]
    ensures current == if isLastPart then current0 else current0 + [part]
  {
    kinds, order, current := kinds0, order0, current0;
    var key := current + [part];
    if key !in kinds || !kinds[key] {
      TracksAfterSet(order, kinds, key, !(isLastPart && !dir));
      if key !in kinds {
        order := order + [key];
      }
      if isLastPart && !dir {
        kinds := kinds[key := false];
      } else {
        kinds := kinds[key := true];
      }
    }
    if kinds[key] && !isLastPart {
      current := key;
    }
  }

  /** One pass of the inner `forEach` at segment `index`, seen from the
      walk: it extends the walk by one step and moves the cursor to the
      next prefix. */
  method InsertSegment(base: map<seq<string>, bool>, kinds0: map<seq<string>, bool>, order0: seq<seq<string>>,
                  current0: seq<string>, parts: seq<string>, dir: bool, index: nat)
    returns (kinds: map<seq<string>, bool>, order: seq<seq<string>>, current: seq<string>)
    requires index < |parts| && current0 == parts[..index]
    requires Tracks(order0, kinds0) && kinds0 == Walk(base, parts, dir, index)
    ensures Tracks(order, kinds) && kinds == Walk(base, parts, dir, index + 1)
    ensures index + 1 < |parts| ==> current == parts[..index + 1]
  {
    var isLastPart := index == |parts| - 1;
    assert current0 + [parts[index]] == parts[..index + 1];
    kinds, order, current := VisitSegment(kinds0, order0, current0, parts[index], isLastPart, dir);
    WalkNext(base, parts, dir, index, kinds0, kinds);
  }

  /** The inner `forEach` of one entry: walk its segments `parts` from the
      root, visiting each prefix and stepping into it unless it is the last
      segment. */
  method InsertPath(kinds0: map<seq<string>, bool>, order0: seq<seq<string>>, parts: seq<string>, dir: bool)
    returns (kinds: map<seq<string>, bool>, order: seq<seq<string>>)
    requires Tracks(order0, kinds0)
    ensures Tracks(order, kinds)
    ensures kinds == Walk(kinds0, parts, dir, |parts|)
  {
    kinds, order := kinds0, order0;
    var current: seq<string> := [];
    for index := 0 to |parts|
      invariant index < |parts| ==> current == parts[..index]
      invariant Tracks(order, kinds)
      invariant kinds == Walk(kinds0, parts, dir, index)
    {
      kinds, order, current := InsertSegment(kinds0, kinds, order, current, parts, dir, index);
    }
  }

  /** buildTree: the insertion loop over the entries, then the conversion of
      the collected dictionary. */
  method BuildTree(entries: seq<Entry>) returns (nodes: seq<Node>)
    ensures Describes(nodes, Index(entries), [])
  {
    var kinds: map<seq<string>, bool> := map[];
    var order: seq<seq<string>> := [];
    for n := 0 to |entries|
      invariant Tracks(order, kinds)
      invariant kinds == Inserted(entries[..n])
    {
      var entry := entries[n];
      var parts := Segments(entry.filename);
      kinds, order := InsertPath(kinds, order, parts, entry.directory);
      assert entries[..n + 1][..n] == entries[..n];
    }
    assert entries[..|entries|] == entries;
    InsertedIsIndex(entries);
    ConvertDescribes(kinds, order, []);
    nodes := ConvertToArray(kinds, order, []);
  }

  // ---------------------------------------------------------------------
  // properties of the built tree

  /** The first node named `name` on one level. */
  function Child(nodes: seq<Node>, name: string): (r: Option<Node>)
    ensures r.Some? ==> r.value in nodes && r.value.name == name
    ensures r.None? ==> forall i :: 0 <= i < |nodes| ==> nodes[i].name != name
    decreases |nodes|
  {
    if nodes == [] then None
    else if nodes[0].name == name then Some(nodes[0])
    else
      var r := Child(nodes[1..], name);
      assert forall i :: 1 <= i < |nodes| ==> nodes[i] == nodes[1..][i - 1];
      r
  }

  /** The node reached from `nodes` by following the names `q` downwards. */
  function Lookup(nodes: seq<Node>, q: seq<string>): Option<Node>
    decreases |q|
  {
    if q == [] then None
    else match Child(nodes, q[0])
      case None => None
      case Some(n) => if |q| == 1 then Some(n) else Lookup(n.children, q[1..])
  }

  /** Following names below `p` in a described tree reaches a node exactly
      for the keys of the map, with the kind the map gives. */
  lemma {:induction false} LookupDescribes(nodes: seq<Node>, kinds: map<seq<string>, bool>,
                                           p: seq<string>, q: seq<string>)
    requires Describes(nodes, kinds, p) && PrefixClosed(kinds)
    requires q != []
    ensures Lookup(nodes, q).Some? <==> p + q in kinds
    ensures Lookup(nodes, q).Some? ==> Lookup(nodes, q).value.isDirectory == kinds[p + q]
    decreases |q|
  {
    var c := Child(nodes, q[0]);
    var k := p + [q[0]];
    assert IsChildKey(p, k) by { assert k[..|p|] == p; }
    if c.Some? {
      var i :| 0 <= i < |nodes| && nodes[i] == c.value;
      assert NodeDescribes(nodes[i], kinds, p);
    }
    if |q| == 1 {
      assert p + q == k;
    } else {
      var pq := p + q;
      assert pq == k + q[1..];
      assert pq[..|p| + 1] == k;
      if c.Some? && c.value.isDirectory {
        LookupDescribes(c.value.children, kinds, k, q[1..]);
      } else if c.Some? {
        assert c.value.children == [];
      }
    }
  }

  /** The tree has a node at `q` exactly when `q` leads some entry's
      segments, and that node is a directory exactly when some entry passes
      through `q` or ends at `q` as a directory. */
  lemma TreeMatchesEntries(entries: seq<Entry>, nodes: seq<Node>, q: seq<string>)
    requires Describes(nodes, Index(entries), [])
    requires q != []
    ensures Lookup(nodes, q).Some? <==> q in Prefixes(entries)
    ensures Lookup(nodes, q).Some? ==> (Lookup(nodes, q).value.isDirectory <==> DirIn(entries, q))
  {
    IndexPrefixClosed(entries);
    LookupDescribes(nodes, Index(entries), [], q);
    assert [] + q == q;
  }

  /** Every entry with a segment has a node at its segments, every strict
      leading part of them is a directory node, and a directory entry's own
      node is a directory. */
  lemma EntryReachable(entries: seq<Entry>, nodes: seq<Node>, e: Entry)
    requires Describes(nodes, Index(entries), [])
    requires e in entries && Segments(e.filename) != []
    ensures Lookup(nodes, Segments(e.filename)).Some?
    ensures e.directory ==> Lookup(nodes, Segments(e.filename)).value.isDirectory
    ensures forall j :: 1 <= j < |Segments(e.filename)| ==>
              Lookup(nodes, Segments(e.filename)[..j]).Some? &&
              Lookup(nodes, Segments(e.filename)[..j]).value.isDirectory
  {
    var s := Segments(e.filename);
    assert s[..|s|] == s;
    assert MarksDirectory(s, e.directory, s) <==> e.directory;
    TreeMatchesEntries(entries, nodes, s);
    forall j | 1 <= j < |s|
      ensures Lookup(nodes, s[..j]).Some? && Lookup(nodes, s[..j]).value.isDirectory
    {
      assert s[..j] in Prefixes(entries);
      assert MarksDirectory(s, e.directory, s[..j]);
      TreeMatchesEntries(entries, nodes, s[..j]);
    }
  }

  /** A node is a file exactly when some entry ends there as a file and no
      entry passes through it or ends there as a directory. */
  lemma FileExactly(entries: seq<Entry>, nodes: seq<Node>, q: seq<string>)
    requires Describes(nodes, Index(entries), [])
    requires q != []
    ensures (Lookup(nodes, q).Some? && !Lookup(nodes, q).value.isDirectory) <==>
            ((exists e :: e in entries && Segments(e.filename) == q && !e.directory) && !DirIn(entries, q))
  {
    TreeMatchesEntries(entries, nodes, q);
    if q in Prefixes(entries) && !DirIn(entries, q) {
      var e, j :| e in entries && 1 <= j <= |Segments(e.filename)| && q == Segments(e.filename)[..j];
      var s := Segments(e.filename);
      assert !MarksDirectory(s, e.directory, q);
      assert j == |s| && !e.directory;
      assert s[..|s|] == s;
    }
    if exists e :: e in entries && Segments(e.filename) == q && !e.directory {
      var e :| e in entries && Segments(e.filename) == q && !e.directory;
      assert q[..|q|] == q;
      assert q in Prefixes(entries);
    }
  }

  /** The directory reading wins: if one entry passes through `q`, the node
      at `q` is a directory even when another entry lists `q` as a file. */
  lemma DirectoryWins(entries: seq<Entry>, nodes: seq<Node>, through: Entry, q: seq<string>)
    requires Describes(nodes, Index(entries), [])
    requires through in entries
    requires 1 <= |q| < |Segments(through.filename)| && q == Segments(through.filename)[..|q|]
    ensures Lookup(nodes, q).Some? && Lookup(nodes, q).value.isDirectory
  {
    assert MarksDirectory(Segments(through.filename), through.directory, q);
    assert q in Prefixes(entries);
    TreeMatchesEntries(entries, nodes, q);
  }

  /** Entries that hold the same records, in whatever order or multiplicity,
      call for the same nodes. */
  lemma {:induction false} IndexSameEntries(e1: seq<Entry>, e2: seq<Entry>)
    requires forall e :: e in e1 <==> e in e2
    ensures Index(e1) == Index(e2)
  {
    forall k ensures k in Prefixes(e1) <==> k in Prefixes(e2) {
      if k in Prefixes(e1) {
        var e, j :| e in e1 && 1 <= j <= |Segments(e.filename)| && k == Segments(e.filename)[..j];
        assert e in e2;
      }
      if k in Prefixes(e2) {
        var e, j :| e in e2 && 1 <= j <= |Segments(e.filename)| && k == Segments(e.filename)[..j];
        assert e in e1;
      }
    }
    forall k ensures DirIn(e1, k) <==> DirIn(e2, k) {
      if DirIn(e1, k) {
        var e :| e in e1 && MarksDirectory(Segments(e.filename), e.directory, k);
        assert e in e2;
      }
      if DirIn(e2, k) {
        var e :| e in e2 && MarksDirectory(Segments(e.filename), e.directory, k);
        assert e in e1;
      }
    }
    assert Prefixes(e1) == Prefixes(e2);
    MapsEqual(Index(e1), Index(e2));
  }

  /** The tree does not depend on the order of the entries: any two trees
      built from a permutation of the same entries (or from lists holding the
      same records) are equal. */
  lemma OrderIndependent(e1: seq<Entry>, e2: seq<Entry>, t1: seq<Node>, t2: seq<Node>)
    requires forall e :: e in e1 <==> e in e2
    requires Describes(t1, Index(e1), []) && Describes(t2, Index(e2), [])
    ensures t1 == t2
  {
    IndexSameEntries(e1, e2);
    DescribesUnique(t1, t2, Index(e1), []);
  }

  lemma FirstNodeKey(nodes: seq<Node>, kinds: map<seq<string>, bool>, p: seq<string>)
    requires Describes(nodes, kinds, p)
    ensures nodes != [] ==> p + [nodes[0].name] in kinds
  {
    if nodes != [] {
      assert NodeDescribes(nodes[0], kinds, p);
    }
  }

  /** No entries, no nodes. */
  lemma EmptyEntries(nodes: seq<Node>)
    requires Describes(nodes, Index([]), [])
    ensures nodes == []
  {
    var none: seq<Entry> := [];
    assert Index(none) == map[];
    FirstNodeKey(nodes, Index(none), []);
  }

  /** An entry without a non-empty segment (such as "" or "/") adds nothing. */
  lemma SegmentlessEntryIgnored(entries: seq<Entry>, e: Entry)
    requires Segments(e.filename) == []
    ensures Index(entries + [e]) == Index(entries)
  {
    forall k ensures k in Index(entries + [e]) <==> k in Index(entries) {
      PrefixesSnoc(entries, e, k);
    }
    forall k | k in Index(entries) ensures Index(entries + [e])[k] == Index(entries)[k] {
      PrefixesSnoc(entries, e, k);
    }
    MapsEqual(Index(entries + [e]), Index(entries));
  }

  /** At every level: directories before files, names ascending within each
      kind (so no name twice), and files without children. */
  ghost predicate WellOrdered(nodes: seq<Node>)
    decreases nodes
  {
    && (forall i, j :: 0 <= i < j < |nodes| && nodes[j].isDirectory ==> nodes[i].isDirectory)
    && (forall i, j :: 0 <= i < j < |nodes| && nodes[i].isDirectory == nodes[j].isDirectory ==>
          Less(nodes[i].name, nodes[j].name))
    && DistinctNames(nodes)
    && (forall i :: 0 <= i < |nodes| ==>
          if nodes[i].isDirectory then WellOrdered(nodes[i].children) else nodes[i].children == [])
  }

  lemma {:induction false} DescribedIsWellOrdered(nodes: seq<Node>, kinds: map<seq<string>, bool>, p: seq<string>)
    requires Describes(nodes, kinds, p)
    ensures WellOrdered(nodes)
    decreases nodes
  {
    DescribedNamesDistinct(nodes, kinds, p);
    forall i | 0 <= i < |nodes|
      ensures if nodes[i].isDirectory then WellOrdered(nodes[i].children) else nodes[i].children == []
    {
      assert NodeDescribes(nodes[i], kinds, p);
      if nodes[i].isDirectory {
        DescribedIsWellOrdered(nodes[i].children, kinds, p + [nodes[i].name]);
      }
    }
    forall i, j | 0 <= i < j < |nodes| && nodes[j].isDirectory ensures nodes[i].isDirectory {
      assert Precedes(nodes[i], nodes[j]);
    }
  }

  // ---------------------------------------------------------------------
  // the path handed to onFileSelect

  /** `currentPath` in the Tree component: the parent's path, a slash and the
      node's name; below the top level the parent's path is never empty. */
  function ChildPath(prefix: string, name: string): string {
    if prefix != "" then prefix + "/" + name else name
  }

  /** The path a node gets when the names `names` lead to it from a level
      whose path is `prefix`. */
  function PathOf(prefix: string, names: seq<string>): string
    decreases |names|
  {
    if names == [] then prefix else PathOf(ChildPath(prefix, names[0]), names[1..])
  }

  lemma {:induction false} PathOfBelow(prefix: string, names: seq<string>)
    requires prefix != ""
    requires forall i :: 0 <= i < |names| ==> names[i] != ""
    ensures PathOf(prefix, names) == if names == [] then prefix else prefix + "/" + Join(names, '/')
    decreases |names|
  {
    if names != [] {
      var next := ChildPath(prefix, names[0]);
      PathOfBelow(next, names[1..]);
      if |names| > 1 {
        assert next + "/" + Join(names[1..], '/') == prefix + "/" + (names[0] + "/" + Join(names[1..], '/'));
      }
    }
  }

  /** The path of the node reached by non-empty names is the names joined by
      slashes. */
  lemma LeafPathIsJoin(names: seq<string>)
    requires forall i :: 0 <= i < |names| ==> names[i] != ""
    ensures PathOf("", names) == Join(names, '/')
  {
    if names != [] {
      PathOfBelow(names[0], names[1..]);
    }
  }

  /** The path handed to onFileSelect for an entry's node is the entry's
      filename whenever the filename has no empty segment. */
  lemma LeafPathIsFilename(filename: string)
    requires forall i :: 0 <= i < |Split(filename, '/')| ==> Split(filename, '/')[i] != ""
    ensures PathOf("", Segments(filename)) == filename
  {
    DropEmptyNoOp(Split(filename, '/'));
    LeafPathIsJoin(Segments(filename));
    JoinSplit(filename, '/');
  }

  // ---------------------------------------------------------------------
  // a worked example

  /** A filename made by joining clean names splits back into those names. */
  lemma SegmentsOfJoin(names: seq<string>)
    requires |names| >= 1
    requires forall i :: 0 <= i < |names| ==> names[i] != "" && '/' !in names[i]
    ensures Segments(Join(names, '/')) == names
  {
    SplitJoin(names, '/');
    DropEmptyNoOp(names);
  }

  predicate CleanName(x: string) {
    x != "" && '/' !in x
  }

  /** The entries d/x, d/y and f (say docs/a.txt, docs/b.txt, readme.md). */
  function ThreeEntries(d: string, x: string, y: string, f: string): seq<Entry> {
    [Entry(Join([d, x], '/'), false), Entry(Join([d, y], '/'), false), Entry(f, false)]
  }

  lemma ThreeEntriesSegments(d: string, x: string, y: string, f: string)
    requires CleanName(d) && CleanName(x) && CleanName(y) && CleanName(f)
    ensures var ex := ThreeEntries(d, x, y, f);
      Segments(ex[0].filename) == [d, x] && Segments(ex[1].filename) == [d, y] &&
      Segments(ex[2].filename) == [f]
  {
    SegmentsOfJoin([d, x]);
    SegmentsOfJoin([d, y]);
    SegmentsOfJoin([f]);
  }

  /** The map the three entries call for. */
  function ThreeKinds(d: string, x: string, y: string, f: string): map<seq<string>, bool> {
    map[[d] := true, [d, x] := false, [d, y] := false, [f] := false]
  }

  lemma ThreeEntriesPrefixes(d: string, x: string, y: string, f: string)
    requires CleanName(d) && CleanName(x) && CleanName(y) && CleanName(f)
    ensures Prefixes(ThreeEntries(d, x, y, f)) == ThreeKinds(d, x, y, f).Keys
  {
    var ex := ThreeEntries(d, x, y, f);
    ThreeEntriesSegments(d, x, y, f);
    assert [d, x][..1] == [d] && [d, x][..2] == [d, x] && [d, y][..2] == [d, y] && [f][..1] == [f];
    forall k ensures k in Prefixes(ex) <==> k in ThreeKinds(d, x, y, f) {
      if k in Prefixes(ex) {
        var e, j :| e in ex && 1 <= j <= |Segments(e.filename)| && k == Segments(e.filename)[..j];
      }
      if k == [d] { assert OnPath(Segments(ex[0].filename), k); }
      if k == [d, x] { assert OnPath(Segments(ex[0].filename), k); }
      if k == [d, y] { assert OnPath(Segments(ex[1].filename), k); }
      if k == [f] { assert OnPath(Segments(ex[2].filename), k); }
    }
  }

  lemma ThreeEntriesDirIn(d: string, x: string, y: string, f: string)
    requires CleanName(d) && CleanName(x) && CleanName(y) && CleanName(f) && d != f
    ensures var ex := ThreeEntries(d, x, y, f);
      DirIn(ex, [d]) && !DirIn(ex, [d, x]) && !DirIn(ex, [d, y]) && !DirIn(ex, [f])
  {
    var ex := ThreeEntries(d, x, y, f);
    ThreeEntriesSegments(d, x, y, f);
    assert [d, x][..1] == [d];
    assert MarksDirectory(Segments(ex[0].filename), false, [d]);
    assert forall e :: e in ex ==> !e.directory && |Segments(e.filename)| <= 2;
    assert [d, y][..1] == [d];
  }

  lemma ThreeEntriesKeys(d: string, x: string, y: string, f: string)
    requires CleanName(d) && CleanName(x) && CleanName(y) && CleanName(f)
    ensures forall k :: k in Index(ThreeEntries(d, x, y, f)) <==> k in ThreeKinds(d, x, y, f)
  {
    ThreeEntriesPrefixes(d, x, y, f);
  }

  lemma ThreeEntriesValues(d: string, x: string, y: string, f: string)
    requires CleanName(d) && CleanName(x) && CleanName(y) && CleanName(f) && d != f
    ensures forall k :: k in Index(ThreeEntries(d, x, y, f)) && k in ThreeKinds(d, x, y, f) ==>
              Index(ThreeEntries(d, x, y, f))[k] == ThreeKinds(d, x, y, f)[k]
  {
    ThreeEntriesDirIn(d, x, y, f);
  }

  lemma ThreeEntriesIndex(d: string, x: string, y: string, f: string)
    requires CleanName(d) && CleanName(x) && CleanName(y) && CleanName(f) && d != f
    ensures Index(ThreeEntries(d, x, y, f)) == ThreeKinds(d, x, y, f)
  {
    ThreeEntriesKeys(d, x, y, f);
    ThreeEntriesValues(d, x, y, f);
    MapsEqual(Index(ThreeEntries(d, x, y, f)), ThreeKinds(d, x, y, f));
  }

  lemma ExampleDirectory(d: string, x: string, y: string, f: string)
    requires CleanName(d) && CleanName(x) && CleanName(y) && CleanName(f) && d != f
    requires Less(x, y)
    ensures Describes([Node(x, false, []), Node(y, false, [])], ThreeKinds(d, x, y, f), [d])
  {
    var want := ThreeKinds(d, x, y, f);
    var level := [Node(x, false, []), Node(y, false, [])];
    LessIrreflexive(x);
    assert [d] + [x] == [d, x] && [d] + [y] == [d, y];
    forall k | k in want && IsChildKey([d], k)
      ensures exists i :: 0 <= i < 2 && level[i].name == k[1]
    {
      if k == [d, x] { assert level[0].name == k[1]; } else { assert level[1].name == k[1]; }
    }
  }

  /** The tree of the three entries. */
  function ThreeTree(d: string, x: string, y: string, f: string): seq<Node> {
    [Node(d, true, [Node(x, false, []), Node(y, false, [])]), Node(f, false, [])]
  }

  lemma ExampleTop(d: string, x: string, y: string, f: string)
    requires CleanName(d) && CleanName(x) && CleanName(y) && CleanName(f) && d != f
    requires Less(x, y)
    ensures Describes(ThreeTree(d, x, y, f), ThreeKinds(d, x, y, f), [])
  {
    var want := ThreeKinds(d, x, y, f);
    var expected := ThreeTree(d, x, y, f);
    assert [] + [d] == [d] && [] + [f] == [f];
    assert NodeDescribes(expected[0], want, []) by { ExampleDirectory(d, x, y, f); }
    assert NodeDescribes(expected[1], want, []);
    forall k | k in want && IsChildKey([], k)
      ensures exists i :: 0 <= i < 2 && expected[i].name == k[0]
    {
      if k == [d] { assert expected[0].name == k[0]; } else { assert expected[1].name == k[0]; }
    }
  }

  /** Entries d/x, d/y and f (say docs/a.txt, docs/b.txt and readme.md) give
      a directory d holding x and then y, followed by the file f. */
  lemma ExampleTree(d: string, x: string, y: string, f: string, nodes: seq<Node>)
    requires CleanName(d) && CleanName(x) && CleanName(y) && CleanName(f) && d != f
    requires Less(x, y)
    requires Describes(nodes, Index(ThreeEntries(d, x, y, f)), [])
    ensures nodes == [Node(d, true, [Node(x, false, []), Node(y, false, [])]), Node(f, false, [])]
  {
    ThreeEntriesIndex(d, x, y, f);
    ExampleTop(d, x, y, f);
    DescribesUnique(nodes, ThreeTree(d, x, y, f), ThreeKinds(d, x, y, f), []);
  }
}
