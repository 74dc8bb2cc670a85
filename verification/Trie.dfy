/** libs/go/trie/path_trie.go: a trie over the segments of slash-separated paths. */
module Trie {
  import opened Wrappers
  import Text

  /** The segments of a path; at least one, and different for different paths. */
  function Segments(p: string): (r: seq<string>)
    ensures |r| >= 1
  {
    Text.Split(p, '/')
  }

  lemma SegmentsInjective(p: string, q: string)
    requires Segments(p) == Segments(q)
    ensures p == q
  {
    Text.JoinSplit(p, '/');
    Text.JoinSplit(q, '/');
  }

  /** A list of segments with one more. */
  ghost function Child(p: seq<string>, seg: string): seq<string> {
    p + [seg]
  }

  lemma ChildInjective()
    ensures forall p, seg, q, seg' :: Child(p, seg) == Child(q, seg') ==> p == q && seg == seg'
    ensures forall p, seg :: Child(p, seg) != [] && Child(p, seg) != p
  {
    forall p, seg, q, seg' | Child(p, seg) == Child(q, seg')
      ensures p == q && seg == seg'
    {
      assert Child(p, seg)[..|p|] == p && Child(q, seg')[..|q|] == q;
      assert Child(p, seg)[|p|] == seg && Child(q, seg')[|q|] == seg';
    }
  }

  lemma PrefixSnoc(p: seq<string>, k: nat)
    requires k < |p|
    ensures p[..k + 1] == Child(p[..k], p[k])
  {
  }

  /** One node of the trie. The root of a trie also keeps, as a ghost, the node that every
      list of segments leads to. */
  class PathTrie<V> {
    var value: Option<V>
    var nodes: map<string, PathTrie<V>>
    ghost var at: map<seq<string>, PathTrie<V>>

    constructor ()
      ensures Valid() && fresh(at.Values)
      ensures Contents() == map[] && nodes == map[]
    {
      value := None;
      nodes := map[];
      new;
      at := map[[] := this];
      assert forall p :: p in at ==> p == [];
    }

    /** The nodes form a tree below this one, in which every node hangs where at says it
        does; the root itself holds no value. */
    ghost predicate Valid()
      reads this, at.Values
    {
      && [] in at && at[[]] == this && value == None
      && Apart(at) && PrefixClosed(at)
      && (forall p :: p in at ==> Linked(at, p))
    }

    /** The children of the node at p are the nodes one segment further. */
    static ghost predicate Linked(at: map<seq<string>, PathTrie<V>>, p: seq<string>)
      requires p in at
      reads at[p]
    {
      forall seg :: (seg in at[p].nodes <==> Child(p, seg) in at)
        && (seg in at[p].nodes ==> at[p].nodes[seg] == at[Child(p, seg)])
    }

    static ghost predicate Apart(at: map<seq<string>, PathTrie<V>>) {
      forall p, q :: p in at && q in at && at[p] == at[q] ==> p == q
    }

    static ghost predicate PrefixClosed(at: map<seq<string>, PathTrie<V>>) {
      forall p, seg :: Child(p, seg) in at ==> p in at
    }

    /** The trie as a map from segment lists to values. */
    ghost function Contents(): map<seq<string>, V>
      reads this, at.Values
    {
      map p | p in at && at[p].value.Some? :: at[p].value.value
    }

    /** What one step down the trie finds. */
    lemma StepDown(p: seq<string>, seg: string)
      requires Valid() && p in at
      ensures seg in at[p].nodes <==> Child(p, seg) in at
      ensures seg in at[p].nodes ==>
        var node := at[Child(p, seg)];
        && at[p].nodes[seg] == node
        && (Child(p, seg) in Contents() <==> node.value.Some?)
        && (node.value.Some? ==> Contents()[Child(p, seg)] == node.value.value)
    {
      hide Child, Apart, PrefixClosed;
      assert Linked(at, p);
    }

    lemma RootEmpty()
      requires Valid()
      ensures [] in at && at[[]] == this && value == None && [] !in Contents()
    {
    }

    /** Every prefix of a path with a node has a node. */
    lemma {:induction false} PrefixHasNode(p: seq<string>, k: nat)
      requires Valid() && p in at && k <= |p|
      ensures p[..k] in at
      decreases |p| - k
    {
      if k == |p| {
        assert p[..k] == p;
      } else {
        PrefixHasNode(p, k + 1);
        PrefixSnoc(p, k);
      }
    }

    /** Associates a value with a path, or with None removes it. Exactly this path changes. */
    method Put(p: string, v: Option<V>)
      requires Valid()
      modifies this, at.Values
      ensures Valid() && fresh(at.Values - old(at.Values))
      ensures v.Some? ==> Contents() == old(Contents())[Segments(p) := v.value]
      ensures v.None? ==> Contents() == old(Contents()) - {Segments(p)}
    {
      var parts := Segments(p);
      hide Segments, Child, Contents;
      var cur := this;
      for i := 0 to |parts|
        invariant Valid() && parts[..i] in at && cur == at[parts[..i]]
        invariant Contents() == old(Contents()) && fresh(at.Values - old(at.Values))
      {
        var part := parts[i];
        PrefixSnoc(parts, i);
        StepDown(parts[..i], part);
        if part !in cur.nodes {
          cur := Grow(cur, parts[..i], part);
        } else {
          cur := cur.nodes[part];
        }
      }
      assert parts[..|parts|] == parts;
      SetValue(cur, parts, v);
    }

    /** Hangs a new, empty node below cur. */
    method Grow(cur: PathTrie<V>, ghost path: seq<string>, part: string) returns (node: PathTrie<V>)
      requires Valid() && path in at && at[path] == cur && Child(path, part) !in at
      modifies this, cur
      ensures Valid() && at == old(at)[Child(path, part) := node] && fresh(node)
      ensures Contents() == old(Contents())
    {
      hide Child;
      node := NewPathTrie();
      ghost var was, p0 := at, Child(path, part);
      cur.nodes := cur.nodes[part := node];
      at := at[p0 := node];
      ChildInjective();
      assert at[[]] == this;
      assert Contents() == old(Contents()) by {
        hide Valid;
        assert p0 !in was && node.value == None && forall p :: p in was ==> was[p].value == old(was[p].value);
      }
      hide Contents;
      forall p | p in was && p != path
        ensures Linked(was, p)
      {
        assert old(Linked(was, p)) && was[p] != cur;
      }
      assert old(Linked(was, path));
      GrownLinks(was, path, part, node);
    }

    static lemma GrownLinks(was: map<seq<string>, PathTrie<V>>, path: seq<string>, part: string, node: PathTrie<V>)
      requires path in was && Child(path, part) !in was && Apart(was) && PrefixClosed(was)
      requires forall p :: p in was ==> was[p] != node
      requires forall p :: p in was && p != path ==> Linked(was, p)
      requires node.nodes == map[]
      requires forall seg :: seg in was[path].nodes <==> seg == part || Child(path, seg) in was
      requires forall seg :: seg in was[path].nodes ==>
        was[path].nodes[seg] == if seg == part then node else was[Child(path, seg)]
      ensures var at := was[Child(path, part) := node]; Apart(at) && PrefixClosed(at) && forall p :: p in at ==>
        Linked(at, p)
    {
      hide Child;
      ChildInjective();
      var p0 := Child(path, part);
      assert forall seg :: Child(p0, seg) !in was;
      var at := was[p0 := node];
      forall p | p in at
        ensures Linked(at, p)
      {
        if p != p0 && p != path {
          assert Linked(was, p);
        }
      }
    }

    method NewPathTrie() returns (node: PathTrie<V>)
      ensures fresh(node) && node.value == None && node.nodes == map[]
    {
      node := new PathTrie<V>();
    }

    method SetValue(cur: PathTrie<V>, ghost path: seq<string>, v: Option<V>)
      requires Valid() && path in at && at[path] == cur && path != []
      modifies cur`value
      ensures Valid() && at == old(at)
      ensures v.Some? ==> Contents() == old(Contents())[path := v.value]
      ensures v.None? ==> Contents() == old(Contents()) - {path}
    {
      hide Child;
      cur.value := v;
      assert at[[]] == this && this != cur;
      forall p | p in at
        ensures Linked(at, p)
        ensures at[p] == cur <==> p == path
      {
        assert old(Linked(at, p));
      }
    }

    /** The value of exactly this path. */
    method Get(p: string) returns (r: Option<V>)
      requires Valid()
      ensures r == if Segments(p) in Contents() then Some(Contents()[Segments(p)]) else None
    {
      var parts := Segments(p);
      var cur := this;
      for i := 0 to |parts|
        invariant parts[..i] in at && cur == at[parts[..i]]
      {
        PrefixSnoc(parts, i);
        StepDown(parts[..i], parts[i]);
        if parts[i] !in cur.nodes {
          if parts in at {
            PrefixHasNode(parts, i + 1);
          }
          return None;
        }
        cur := cur.nodes[parts[i]];
      }
      assert parts[..|parts|] == parts;
      return cur.value;
    }

    /** The value of the longest prefix of the path that has one. */
    method GetLongestPrefix(p: string) returns (r: Option<V>)
      requires Valid()
      ensures r.None? ==> forall k :: 0 <= k <= |Segments(p)| ==> Segments(p)[..k] !in Contents()
      ensures r.Some? ==> exists k :: 0 < k <= |Segments(p)| && LongestAt(Segments(p), k, r.value)
    {
      var parts := Segments(p);
      RootEmpty();
      hide Valid, Contents, Segments, Child;
      var cur := this;
      r := value;
      ghost var hit := 0;
      var i := 0;
      while i < |parts|
        invariant 0 <= i <= |parts| && parts[..i] in at && cur == at[parts[..i]]
        invariant r.Some? ==> 0 < hit <= i && parts[..hit] in Contents() && Contents()[parts[..hit]] == r.value
        invariant forall k :: (if r.Some? then hit else -1) < k <= i ==> parts[..k] !in Contents()
      {
        PrefixSnoc(parts, i);
        StepDown(parts[..i], parts[i]);
        if parts[i] !in cur.nodes {
          NothingBeyond(parts, i + 1);
          break;
        }
        var node := cur.nodes[parts[i]];
        if node.value != None {
          r := node.value;
          hit := i + 1;
        }
        cur := node;
        i := i + 1;
      }
      assert r.Some? ==> LongestAt(parts, hit, r.value);
    }

    ghost predicate LongestAt(parts: seq<string>, k: int, v: V)
      requires 0 <= k <= |parts|
      reads this, at.Values
    {
      && parts[..k] in Contents() && Contents()[parts[..k]] == v
      && forall j :: k < j <= |parts| ==> parts[..j] !in Contents()
    }

    ghost predicate ShortestAt(parts: seq<string>, k: int, v: V)
      requires 0 <= k <= |parts|
      reads this, at.Values
    {
      && parts[..k] in Contents() && Contents()[parts[..k]] == v
      && forall j :: 0 <= j < k ==> parts[..j] !in Contents()
    }

    /** Where the trie ends, no longer path has a value. */
    lemma NothingBeyond(parts: seq<string>, i: nat)
      requires Valid() && i <= |parts| && parts[..i] !in at
      ensures forall k :: i <= k <= |parts| ==> parts[..k] !in Contents()
    {
      forall k | i <= k <= |parts|
        ensures parts[..k] !in at
      {
        assert parts[..k][..i] == parts[..i];
        if parts[..k] in at {
          PrefixHasNode(parts[..k], i);
        }
      }
    }

    /** The value of the shortest prefix of the path that has one. */
    method GetShortestPrefix(p: string) returns (r: Option<V>)
      requires Valid()
      ensures r.None? ==> forall k :: 0 <= k <= |Segments(p)| ==> Segments(p)[..k] !in Contents()
      ensures r.Some? ==> exists k :: 0 < k <= |Segments(p)| && ShortestAt(Segments(p), k, r.value)
    {
      var parts := Segments(p);
      RootEmpty();
      hide Valid, Contents, Segments, Child;
      var cur := this;
      for i := 0 to |parts|
        invariant parts[..i] in at && cur == at[parts[..i]]
        invariant forall k :: 0 <= k <= i ==> parts[..k] !in Contents()
      {
        PrefixSnoc(parts, i);
        StepDown(parts[..i], parts[i]);
        if parts[i] !in cur.nodes {
          NothingBeyond(parts, i + 1);
          return None;
        }
        var node := cur.nodes[parts[i]];
        if node.value != None {
          assert ShortestAt(parts, i + 1, node.value.value);
          return node.value;
        }
        cur := node;
      }
      return None;
    }
  }
}
