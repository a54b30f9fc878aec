/**
  The record flattener: a nested record (a Python dictionary whose values are
  strings or further dictionaries) becomes one flat dictionary whose keys are
  the dot-joined key paths to each string.
 */
module Records {
  import opened Wrappers

  /** A nested record: a string leaf or a dictionary of sub-records. */
  datatype Tree = Leaf(value: string) | Node(children: map<string, Tree>)

  /**
    The key an entry gets under its parent's joined key. An empty parent key
    is false in Python, so a child of the empty key is not prefixed.
   */
  function Join(parent: string, key: string): string {
    if parent == "" then key else parent + "." + key
  }

  /**
    The `(key, value)` pairs the add-on accumulates in its list `new` for a
    value found under the joined key `path`, in no particular order.
   */
  function Entries(t: Tree, path: string): set<(string, string)>
    decreases t
  {
    match t
    case Leaf(v) => {(path, v)}
    case Node(m) => set k, e | k in m && e in Entries(m[k], Join(path, k)) :: e
  }

  /**
    No two strings of the record end up under the same flat key. Only then is
    `dict(new)` independent of the order Python 2 visits dictionary items in.
   */
  ghost predicate UniquePaths(d: map<string, Tree>) {
    forall e1, e2 :: e1 in Entries(Node(d), "") && e2 in Entries(Node(d), "") && e1.0 == e2.0 ==> e1 == e2
  }

  /** `flatten(d)`: the dictionary built from the accumulated pairs. */
  function Flatten(d: map<string, Tree>): (r: map<string, string>)
    requires UniquePaths(d)
    ensures forall p, v :: (p, v) in Entries(Node(d), "") <==> p in r && r[p] == v
    ensures forall k :: k in d && d[k].Leaf? ==> k in r && r[k] == d[k].value
  {
    var es := Entries(Node(d), "");
    var keys := set e | e in es :: e.0;
    var r := map p | p in keys :: var v :| (p, v) in es; v;
    forall p, v | (p, v) in es
      ensures p in r && r[p] == v
    {
      assert (p, v).0 in keys;
    }
    assert forall k :: k in d && d[k].Leaf? ==> (k, d[k].value) in Entries(d[k], Join("", k));
    r
  }

  /** The sub-record reached from `t` by following the keys `ks`, if any. */
  function Reach(t: Tree, ks: seq<string>): Option<Tree>
    decreases |ks|
  {
    if ks == [] then Some(t)
    else match t
      case Leaf(_) => None
      case Node(m) => if ks[0] in m then Reach(m[ks[0]], ks[1..]) else None
  }

  /** Following a key path from a dictionary: its first key, then the rest below it. */
  lemma ReachStep(m: map<string, Tree>, k: string, ks: seq<string>)
    requires k in m
    ensures Reach(Node(m), [k] + ks) == Reach(m[k], ks)
  {
    assert ([k] + ks)[1..] == ks;
  }

  /** The flat key the add-on builds for the key path `ks` below `path`. */
  function JoinPath(path: string, ks: seq<string>): string
    decreases |ks|
  {
    if ks == [] then path else JoinPath(Join(path, ks[0]), ks[1..])
  }

  /** The plain dot-join `"k1.k2...kn"`. */
  function Dotted(ks: seq<string>): string
    requires ks != []
  {
    if |ks| == 1 then ks[0] else ks[0] + "." + Dotted(ks[1..])
  }

  /** The dot-join of two, three and four keys, written out. */
  lemma DottedTwo(a: string, b: string)
    ensures Dotted([a, b]) == a + "." + b
  {
    assert [a, b][1..] == [b];
  }

  lemma DottedThree(a: string, b: string, c: string)
    ensures Dotted([a, b, c]) == a + "." + b + "." + c
  {
    assert [a, b, c][1..] == [b, c];
    DottedTwo(b, c);
    assert Dotted([a, b, c]) == a + "." + (b + "." + c);
  }

  lemma DottedFour(a: string, b: string, c: string, d: string)
    ensures Dotted([a, b, c, d]) == a + "." + b + "." + c + "." + d
  {
    assert [a, b, c, d][1..] == [b, c, d];
    DottedThree(b, c, d);
  }

  /** Every string reached by a key path is among the accumulated pairs, under that path's key. */
  lemma {:induction false} LeafEntry(t: Tree, path: string, ks: seq<string>, v: string)
    requires Reach(t, ks) == Some(Leaf(v))
    ensures (JoinPath(path, ks), v) in Entries(t, path)
    decreases |ks|
  {
    if ks != [] {
      var m := t.children;
      LeafEntry(m[ks[0]], Join(path, ks[0]), ks[1..], v);
    }
  }

  /** Every accumulated pair comes from a string reached by some key path. */
  lemma {:induction false} EntryLeaf(t: Tree, path: string, e: (string, string))
    requires e in Entries(t, path)
    ensures exists ks :: Reach(t, ks) == Some(Leaf(e.1)) && JoinPath(path, ks) == e.0
    decreases t
  {
    match t
    case Leaf(v) =>
      assert Reach(t, []) == Some(Leaf(e.1));
    case Node(m) =>
      var k :| k in m && e in Entries(m[k], Join(path, k));
      EntryLeaf(m[k], Join(path, k), e);
      var ks :| Reach(m[k], ks) == Some(Leaf(e.1)) && JoinPath(Join(path, k), ks) == e.0;
      assert ([k] + ks)[1..] == ks;
      assert Reach(t, [k] + ks) == Some(Leaf(e.1));
  }

  /**
    Below a non-empty key, the add-on's key is `path` followed by the dot-join
    of the key path.
   */
  lemma {:induction false} JoinPathBelow(path: string, ks: seq<string>)
    requires path != "" && ks != []
    ensures JoinPath(path, ks) == path + "." + Dotted(ks)
    decreases |ks|
  {
    if |ks| > 1 {
      JoinPathBelow(path + "." + ks[0], ks[1..]);
    }
  }

  /**
    From the top, the add-on's key is the dot-join of the key path when the
    first key is not empty.
   */
  lemma JoinPathTop(ks: seq<string>)
    requires ks != [] && ks[0] != ""
    ensures JoinPath("", ks) == Dotted(ks)
  {
    if |ks| > 1 {
      JoinPathBelow(ks[0], ks[1..]);
    }
  }

  /** An empty first key is false in Python, so it is dropped together with its dot. */
  lemma JoinPathEmptyFirstKey()
    ensures JoinPath("", ["", "a"]) == "a"
    ensures Dotted(["", "a"]) == ".a"
  {
  }

  /** Every string of the record appears in the flat record under its path's key, unchanged. */
  lemma FlattenKeepsLeaves(d: map<string, Tree>, ks: seq<string>, v: string)
    requires UniquePaths(d)
    requires Reach(Node(d), ks) == Some(Leaf(v))
    ensures JoinPath("", ks) in Flatten(d) && Flatten(d)[JoinPath("", ks)] == v
  {
    LeafEntry(Node(d), "", ks, v);
  }

  /** The same, for a key path whose first key is not empty: the key is the plain dot-join. */
  lemma FlattenKeepsLeavesDotted(d: map<string, Tree>, ks: seq<string>, v: string)
    requires UniquePaths(d)
    requires ks != [] && ks[0] != ""
    requires Reach(Node(d), ks) == Some(Leaf(v))
    ensures Dotted(ks) in Flatten(d) && Flatten(d)[Dotted(ks)] == v
  {
    FlattenKeepsLeaves(d, ks, v);
    JoinPathTop(ks);
  }

  /** Every value of the flat record is a string of the record, found under its path's key. */
  lemma FlattenOnlyLeaves(d: map<string, Tree>, p: string)
    requires UniquePaths(d)
    requires p in Flatten(d)
    ensures exists ks :: Reach(Node(d), ks) == Some(Leaf(Flatten(d)[p])) && JoinPath("", ks) == p
  {
    EntryLeaf(Node(d), "", (p, Flatten(d)[p]));
  }

  /** Keys the records are built from: non-empty and without a dot, at every level. */
  predicate WellKeyed(t: Tree)
    decreases t
  {
    match t
    case Leaf(_) => true
    case Node(m) => forall k :: k in m ==> k != "" && '.' !in k && WellKeyed(m[k])
  }

  /** Adding a well-keyed child under a proper key keeps a record well keyed. */
  lemma WellKeyedInsert(m: map<string, Tree>, k: string, t: Tree)
    requires WellKeyed(Node(m)) && WellKeyed(t)
    requires k != "" && '.' !in k
    ensures WellKeyed(Node(m[k := t]))
  {
  }

  /** `q` is the key `k` itself or a key below it (`k` followed by a dot). */
  predicate Under(k: string, q: string) {
    |q| >= |k| && q[..|k|] == k && (|q| == |k| || q[|k|] == '.')
  }

  lemma {:induction false} EntriesUnder(t: Tree, path: string, e: (string, string))
    requires WellKeyed(t) && path != ""
    requires e in Entries(t, path)
    ensures Under(path, e.0)
    decreases t
  {
    match t
    case Leaf(_) =>
    case Node(m) =>
      var k :| k in m && e in Entries(m[k], Join(path, k));
      var child := path + "." + k;
      EntriesUnder(m[k], child, e);
      assert e.0[..|path|] == child[..|path|] == path;
      assert e.0[|path|] == child[|path|] == '.';
  }

  /** Removing a common prefix keeps a key below a key. */
  lemma UnderShift(pre: string, k: string, q: string)
    requires Under(pre + k, q)
    ensures |q| >= |pre| && q[..|pre|] == pre && Under(k, q[|pre|..])
  {
    var n := |pre| + |k|;
    assert q[..|pre|] == q[..n][..|pre|] == (pre + k)[..|pre|] == pre;
    assert q[|pre|..][..|k|] == q[..n][|pre|..] == (pre + k)[|pre|..] == k;
  }

  /** Two dot-free keys that a common key lies below are the same key. */
  lemma UnderSameKey(k1: string, k2: string, q: string)
    requires '.' !in k1 && '.' !in k2
    requires Under(k1, q) && Under(k2, q)
    ensures k1 == k2
  {
    assert forall i :: 0 <= i < |k1| ==> k1[i] == q[i];
    assert forall i :: 0 <= i < |k2| ==> k2[i] == q[i];
    assert |k1| == |k2|;
    assert k1 == q[..|k1|] == k2;
  }

  /** Siblings of a well-keyed node never share a flat key. */
  lemma SiblingKeysDisjoint(path: string, k1: string, k2: string, q: string)
    requires k1 != "" && k2 != "" && '.' !in k1 && '.' !in k2
    requires Under(Join(path, k1), q) && Under(Join(path, k2), q)
    ensures k1 == k2
  {
    if path == "" {
      UnderSameKey(k1, k2, q);
    } else {
      var pre := path + ".";
      assert Join(path, k1) == pre + k1 && Join(path, k2) == pre + k2;
      UnderShift(pre, k1, q);
      UnderShift(pre, k2, q);
      UnderSameKey(k1, k2, q[|pre|..]);
    }
  }

  lemma {:induction false} WellKeyedEntriesFunctional(t: Tree, path: string, e1: (string, string), e2: (string, string))
    requires WellKeyed(t)
    requires e1 in Entries(t, path) && e2 in Entries(t, path) && e1.0 == e2.0
    ensures e1 == e2
    decreases t
  {
    match t
    case Leaf(_) =>
    case Node(m) =>
      var k1 :| k1 in m && e1 in Entries(m[k1], Join(path, k1));
      var k2 :| k2 in m && e2 in Entries(m[k2], Join(path, k2));
      EntriesUnder(m[k1], Join(path, k1), e1);
      EntriesUnder(m[k2], Join(path, k2), e2);
      SiblingKeysDisjoint(path, k1, k2, e1.0);
      WellKeyedEntriesFunctional(m[k1], Join(path, k1), e1, e2);
  }

  /** Records whose keys are non-empty and dot-free flatten without collisions. */
  lemma WellKeyedHasUniquePaths(d: map<string, Tree>)
    requires WellKeyed(Node(d))
    ensures UniquePaths(d)
  {
    forall e1, e2 | e1 in Entries(Node(d), "") && e2 in Entries(Node(d), "") && e1.0 == e2.0
      ensures e1 == e2
    {
      WellKeyedEntriesFunctional(Node(d), "", e1, e2);
    }
  }

  /** A collision the add-on resolves by dictionary order: two strings under the key `"a.b"`. */
  lemma CollidingRecord()
    ensures !UniquePaths(map["a.b" := Leaf("x"), "a" := Node(map["b" := Leaf("y")])])
  {
    var d := map["a.b" := Leaf("x"), "a" := Node(map["b" := Leaf("y")])];
    assert ("a.b", "x") in Entries(d["a.b"], Join("", "a.b"));
    assert Join("a", "b") == "a.b";
    var inner := d["a"].children;
    assert "b" in inner && inner["b"] == Leaf("y");
    assert ("a.b", "y") in Entries(inner["b"], Join("a", "b"));
    assert ("a.b", "y") in Entries(d["a"], Join("", "a"));
  }
}
