/**
 * `MyTrieSet` (project2ab/MyTrieSet.java): a set of strings kept as a trie of
 * 128-way nodes, with a counter of the distinct keys added.
 */
module Trie {
  import opened Wrappers
  import opened Strings
  import opened TrieNode

  class MyTrieSet {
    var root: Node
    var size: int
    /** The set of strings stored. */
    ghost var keys: set<string>

    /** The root holds no character and no key; `keys` is what the nodes spell; `size` counts it. */
    ghost predicate Valid()
      reads this
    {
      WellFormed(root) && root.value == None && !root.isKey &&
      (forall k :: k in keys <==> IsKey(root, k)) &&
      size == |keys|
    }

    constructor ()
      ensures Valid() && keys == {} && size == 0
    {
      root := NewNode(false);
      size := 0;
      keys := {};
    }

    method Clear()
      modifies this
      ensures Valid() && keys == {} && size == 0
    {
      root := NewNode(false);
      size := 0;
      keys := {};
    }

    /** Exact membership: a proper prefix of a stored key is reported only when it was added itself. */
    function Contains(key: string): (b: bool)
      reads this
      requires Valid() && ValidKey(key)
      ensures b <==> key in keys
    {
      ContainsAt(key, root)
    }

    /** Adds `key`; the count grows only when `key` is new, and no other string changes membership. */
    method Add(key: string)
      requires Valid() && ValidKey(key)
      modifies this
      ensures Valid() && keys == old(keys) + {key} && Contains(key)
      ensures key in old(keys) ==> root == old(root) && size == old(size)
      ensures key !in old(keys) ==> size == old(size) + 1
    {
      if Contains(key) {
        return;
      }
      size := size + 1;
      ghost var before := root;
      root := Insert(key, root);
      keys := keys + {key};
      forall k
        ensures k in keys <==> IsKey(root, k)
      {
        InsertKeys(key, before, k);
      }
    }

    /**
     * What `keysWithPrefix(prefix)` answers: the stored keys starting with `prefix`, in
     * increasing character-code order, each once; `None` where the source throws: the
     * prefix is empty (`charAt(0)`), or no node lies at the end of it, which happens
     * exactly when no stored key starts with it.
     */
    function PrefixKeys(prefix: string): (r: Option<seq<string>>)
      reads this
      requires Valid()
      ensures r.None? <==> prefix == [] || forall k :: k in keys ==> !IsPrefix(prefix, k)
      ensures r.Some? ==> Sorted(r.value) && forall x :: x in r.value <==> x in keys && IsPrefix(prefix, x)
    {
      if prefix == [] then None
      else match Path(root, prefix)
      case None =>
        NoPathNoKeys(prefix);
        None
      case Some(n) =>
        PrefixKeysExact(prefix, n);
        KeysAtSorted(prefix, n);
        PathHasKeys(prefix);
        Some(KeysAt(prefix, n))
    }

    /** No stored key starts with a prefix that has no node. */
    lemma NoPathNoKeys(prefix: string)
      requires Valid() && Path(root, prefix).None?
      ensures forall k :: k in keys ==> !IsPrefix(prefix, k)
    {
      forall k | k in keys
        ensures !IsPrefix(prefix, k)
      {
        if IsPrefix(prefix, k) {
          PrefixPath(root, prefix, k);
        }
      }
    }

    /** Some stored key starts with every non-empty prefix that has a node. */
    lemma PathHasKeys(prefix: string)
      requires Valid() && prefix != [] && Path(root, prefix).Some?
      ensures exists k :: k in keys && IsPrefix(prefix, k)
    {
      var n := Path(root, prefix).value;
      PathLive(root, prefix);
      var below := KeyBelow(n);
      PathAppend(root, prefix, below);
      assert IsPrefix(prefix, prefix + below);
      assert prefix + below in keys;
    }

    /** `keysWithPrefix(prefix)`: finds the node at the end of `prefix`, then collects below it. */
    method KeysWithPrefix(prefix: string) returns (r: Option<seq<string>>)
      requires Valid()
      ensures r == PrefixKeys(prefix)
    {
      var n := FindNode(prefix, root);
      if n.None? {
        return None;
      }
      var ls := CollectKeys(prefix, n.value);
      r := Some(ls);
    }

    /** Every listed key is a stored key starting with `prefix`, and every such key is listed. */
    lemma PrefixKeysExact(prefix: string, n: Node)
      requires Valid() && Path(root, prefix) == Some(n)
      ensures forall x :: x in KeysAt(prefix, n) <==> x in keys && IsPrefix(prefix, x)
    {
      PathLive(root, prefix);
      forall x
        ensures x in KeysAt(prefix, n) <==> x in keys && IsPrefix(prefix, x)
      {
        KeysAtMembers(prefix, n, x);
        if IsPrefix(prefix, x) {
          PathAppend(root, prefix, x[|prefix|..]);
          assert x == prefix + x[|prefix|..];
        }
      }
    }

    /** `collectKeys(s, n)`: `s` when it is stored, then what `collectHelper` appends. */
    method CollectKeys(s: string, n: Node) returns (ls: seq<string>)
      requires Valid() && s != [] && Path(root, s) == Some(n)
      ensures ls == KeysAt(s, n)
    {
      PathAscii(root, s);
      ls := [];
      if Contains(s) {
        ls := ls + [s];
      }
      ls := CollectHelper(s, n, ls);
    }

    /**
     * `collectHelper(s, n, ls)`: scans slots 0..127 of `n` in order and, for each
     * child, appends the child's string when it is a key and then recurses into it.
     */
    static method CollectHelper(s: string, n: Node, ls: seq<string>) returns (out: seq<string>)
      requires WellFormed(n)
      ensures out == ls + Collect(s, n, Radix)
      decreases n
    {
      out := ls;
      var i := 0;
      while i <= Radix - 1
        invariant 0 <= i <= Radix
        invariant out == ls + Collect(s, n, i)
      {
        if n.next[i].Some? {
          var child := n.next[i].value;
          ChildWellFormed(n, i);
          var t := s + [child.value.value];
          if child.isKey {
            out := out + [t];
          }
          out := CollectHelper(t, child, out);
        }
        i := i + 1;
      }
    }
  }

  /** The expected answer of the example is in character-code order. */
  lemma ExampleSorted()
    ensures Sorted(["a", "ad", "am", "ap", "awls"])
  {
    var e := ["a", "ad", "am", "ap", "awls"];
    LessProperPrefix("a", "ad");
    LessAt("ad", "am", 1);
    LessAt("am", "ap", 1);
    LessAt("ap", "awls", 1);
    LessTransitive("a", "ad", "am");
    LessTransitive("a", "am", "ap");
    LessTransitive("a", "ap", "awls");
    LessTransitive("ad", "am", "ap");
    LessTransitive("ad", "ap", "awls");
    LessTransitive("am", "ap", "awls");
    assert forall i, j :: 0 <= i < j < 5 ==> Less(e[i], e[j]) by {
      forall i, j | 0 <= i < j < 5
        ensures Less(e[i], e[j])
      {
      }
    }
  }

  /** The seven keys of the example: those starting with "a" come out in character-code order. */
  lemma PrefixExample(t: MyTrieSet)
    requires t.Valid() && t.keys == {"same", "am", "ad", "ap", "a", "awls", "hallo"}
    ensures t.PrefixKeys("a") == Some(["a", "ad", "am", "ap", "awls"])
  {
    var expected := ["a", "ad", "am", "ap", "awls"];
    assert IsPrefix("a", "a");
    var r := t.PrefixKeys("a");
    assert r.Some?;
    forall x
      ensures x in r.value <==> x in expected
    {
      assert x in r.value <==> x in t.keys && IsPrefix("a", x);
      if x == "same" || x == "hallo" {
        assert x[..1] != "a";
      }
    }
    ExampleSorted();
    SortedUnique(r.value, expected);
  }
}
