/**
 * The nodes of the prefix trie (project2ab/MyTrieSet.java). A node's child table
 * (`DataIndexCharMap`, a 128-slot array indexed by character code, `null` for an
 * empty slot) is the sequence `next` of 128 optional children.
 */
module TrieNode {
  import opened Wrappers
  import opened Strings

  /** Size of every child table: one slot per 7-bit character code. */
  const Radix: nat := 128

  datatype Node = Node(value: Option<char>, isKey: bool, next: seq<Option<Node>>)

  /** `new Node(key)`: no character yet and 128 empty slots. */
  function NewNode(key: bool): Node
  {
    Node(None, key, seq(Radix, _ => None))
  }

  /** Every character fits the 128-slot table (`charAt(i)` used as an array index). */
  predicate Ascii(s: string)
  {
    forall i :: 0 <= i < |s| ==> s[i] as int < Radix
  }

  /** A key or prefix the trie's operations accept: non-empty (`charAt(0)`) and 7-bit. */
  predicate ValidKey(s: string)
  {
    |s| > 0 && Ascii(s)
  }

  /** Some slot of `n` holds a child. */
  predicate HasChild(n: Node)
  {
    exists i :: 0 <= i < |n.next| && n.next[i].Some?
  }

  /**
   * Node invariant: 128 slots; the child in slot `c` holds character `c`; every
   * child ends a key or has children of its own (no branch leads nowhere).
   */
  predicate WellFormed(n: Node)
  {
    |n.next| == Radix &&
    forall i :: 0 <= i < Radix && n.next[i].Some? ==>
      var child := n.next[i].value;
      child.value == Some(i as char) && (child.isKey || HasChild(child)) && WellFormed(child)
  }

  /** The child in a slot of a well-formed node is itself well-formed. */
  lemma ChildWellFormed(n: Node, i: nat)
    requires WellFormed(n) && i < Radix && n.next[i].Some?
    ensures WellFormed(n.next[i].value)
  {
  }

  /** The node reached from `n` by spelling `k`, if there is one. */
  function Path(n: Node, k: string): (r: Option<Node>)
    ensures WellFormed(n) && r.Some? ==> WellFormed(r.value)
  {
    if k == [] then Some(n)
    else if k[0] as int < |n.next| && n.next[k[0] as int].Some? then
      var child := n.next[k[0] as int].value;
      assert WellFormed(n) ==> WellFormed(child) by {
        if WellFormed(n) { ChildWellFormed(n, k[0] as int); }
      }
      Path(child, k[1..])
    else None
  }

  /** `k` is stored below `n`: spelling it ends at a node flagged as a key. */
  predicate IsKey(n: Node, k: string)
  {
    Path(n, k).Some? && Path(n, k).value.isKey
  }

  /** Spelling `a` then `b` is spelling `a + b`. */
  lemma {:induction false} PathAppend(n: Node, a: string, b: string)
    ensures Path(n, a + b) == if Path(n, a).Some? then Path(Path(n, a).value, b) else None
  {
    if a != [] {
      assert (a + b)[0] == a[0] && (a + b)[1..] == a[1..] + b;
      if a[0] as int < |n.next| && n.next[a[0] as int].Some? {
        PathAppend(n.next[a[0] as int].value, a[1..], b);
      }
    } else {
      assert a + b == b;
    }
  }

  /** Every prefix of a key stored below `n` leads to a node. */
  lemma PrefixPath(n: Node, p: string, k: string)
    requires IsKey(n, k) && IsPrefix(p, k)
    ensures Path(n, p).Some?
  {
    PathAppend(n, p, k[|p|..]);
    assert k == p + k[|p|..];
  }

  /** A non-empty path out of a well-formed node ends at a well-formed node that ends a key or has children. */
  lemma {:induction false} PathLive(n: Node, k: string)
    requires WellFormed(n) && Path(n, k).Some?
    ensures k != [] ==> Path(n, k).value.isKey || HasChild(Path(n, k).value)
  {
    if k != [] {
      PathLive(n.next[k[0] as int].value, k[1..]);
    }
  }

  /** Every key spelt below `n` uses 7-bit characters only. */
  lemma {:induction false} PathAscii(n: Node, k: string)
    requires WellFormed(n) && Path(n, k).Some?
    ensures Ascii(k)
  {
    if k != [] {
      PathAscii(n.next[k[0] as int].value, k[1..]);
      assert forall i :: 1 <= i < |k| ==> k[i] == k[1..][i - 1];
    }
  }

  /** A well-formed node that ends a key or has children has some key at or below it. */
  lemma {:induction false} KeyBelow(n: Node) returns (k: string)
    requires WellFormed(n) && (n.isKey || HasChild(n))
    ensures IsKey(n, k)
  {
    if n.isKey {
      k := [];
    } else {
      var i :| 0 <= i < |n.next| && n.next[i].Some?;
      var child := n.next[i].value;
      var rest := KeyBelow(child);
      k := [i as char] + rest;
      assert k[0] as int == i && k[1..] == rest;
    }
  }

  /** `contains(key, n)`: walks one character per level; a one-character key is answered by the child's flag. */
  function ContainsAt(key: string, n: Node): (b: bool)
    requires ValidKey(key) && WellFormed(n)
    ensures b <==> IsKey(n, key)
  {
    var c := key[0] as int;
    if n.next[c].None? then false
    else if |key| == 1 then
      assert Path(n.next[c].value, key[1..]) == Some(n.next[c].value);
      n.next[c].value.isKey
    else ContainsAt(key[1..], n.next[c].value)
  }

  /**
   * `findNode(prefix, n)`: the node at the end of `prefix`; `None` where the source throws
   * (empty prefix, a character code past the table, an empty slot on the way).
   */
  function FindNode(prefix: string, n: Node): (r: Option<Node>)
    requires WellFormed(n)
    ensures r == if prefix == [] then None else Path(n, prefix)
    ensures r.Some? ==> WellFormed(r.value)
  {
    if prefix == [] || prefix[0] as int >= Radix then None
    else
      var c := prefix[0] as int;
      if n.next[c].None? then None
      else if |prefix| == 1 then n.next[c]
      else FindNode(prefix[1..], n.next[c].value)
  }

  /**
   * `add(key, n)`: the node `n` after inserting `key` below it. A missing slot gets
   * a fresh node (a key node when `key` has one character left); the child in the
   * slot is then given the character.
   */
  function Insert(key: string, n: Node): (r: Node)
    requires ValidKey(key) && WellFormed(n)
    ensures WellFormed(r) && r.value == n.value && r.isKey == n.isKey
    ensures r.next[key[0] as int].Some?
  {
    var target := key[0];
    var c := target as int;
    if n.next[c].None? then
      if |key| == 1 then
        n.(next := n.next[c := Some(NewNode(true).(value := Some(target)))])
      else
        var child := Insert(key[1..], NewNode(false));
        n.(next := n.next[c := Some(child.(value := Some(target)))])
    else
      if |key| == 1 then
        var child := n.next[c].value;
        assert WellFormed(child.(isKey := true)) by {
          ChildWellFormed(n, c);
          assert child.(isKey := true).next == child.next;
        }
        n.(next := n.next[c := Some(child.(isKey := true))])
      else
        var child := Insert(key[1..], n.next[c].value);
        n.(next := n.next[c := Some(child.(value := Some(target)))])
  }

  /** Inserting `key` adds exactly `key` to what is stored below `n`. */
  lemma {:induction false} InsertKeys(key: string, n: Node, k: string)
    requires ValidKey(key) && WellFormed(n)
    ensures IsKey(Insert(key, n), k) <==> IsKey(n, k) || k == key
    decreases |key|, 1
  {
    var r := Insert(key, n);
    if k != [] && k[0] == key[0] {
      if |key| == 1 {
        InsertLastChar(key, n, k);
      } else {
        InsertInner(key, n, k);
      }
    }
  }

  /** The case of a one-character key: only the slot's key flag changes. */
  lemma InsertLastChar(key: string, n: Node, k: string)
    requires ValidKey(key) && WellFormed(n) && |key| == 1 && k != [] && k[0] == key[0]
    ensures IsKey(Insert(key, n), k) <==> IsKey(n, k) || k == key
  {
    var r := Insert(key, n);
    var c := key[0] as int;
    var child := r.next[c].value;
    assert Path(r, k) == Path(child, k[1..]);
    if k[1..] != [] {
      assert k != key;
      var d := k[1] as int;
      assert k[1..][0] == k[1];
      if n.next[c].None? {
        assert d < |child.next| ==> child.next[d].None?;
        assert Path(child, k[1..]).None?;
      } else {
        assert child.next == n.next[c].value.next;
        assert Path(n, k) == Path(n.next[c].value, k[1..]);
      }
    } else {
      assert k == key;
    }
  }

  /** The case of a longer key: the slot's child is the child with the rest of the key inserted. */
  lemma {:induction false} InsertInner(key: string, n: Node, k: string)
    requires ValidKey(key) && WellFormed(n) && |key| > 1 && k != [] && k[0] == key[0]
    ensures IsKey(Insert(key, n), k) <==> IsKey(n, k) || k == key
    decreases |key|, 0
  {
    var c := key[0] as int;
    var old_child := if n.next[c].None? then NewNode(false) else n.next[c].value;
    var inner := InsertSlot(key, n);
    var r := Insert(key, n);
    IsKeyStep(r, k);
    InsertKeys(key[1..], old_child, k[1..]);
    ValueIgnored(inner, Some(key[0]), k[1..]);
    if n.next[c].Some? {
      IsKeyStep(n, k);
    } else {
      assert k[1..] == [] || Path(old_child, k[1..]).None?;
    }
    assert k == key <==> k[1..] == key[1..] by {
      assert k == [k[0]] + k[1..] && key == [key[0]] + key[1..];
    }
  }

  /** Below a filled slot, what is stored is what is stored below its child. */
  lemma IsKeyStep(n: Node, k: string)
    requires k != [] && k[0] as int < |n.next| && n.next[k[0] as int].Some?
    ensures IsKey(n, k) == IsKey(n.next[k[0] as int].value, k[1..])
  {
  }

  /** For a key longer than one character, the slot of `key[0]` holds the old child (or a fresh one) with the rest inserted. */
  lemma InsertSlot(key: string, n: Node) returns (inner: Node)
    requires ValidKey(key) && WellFormed(n) && |key| > 1
    ensures var c := key[0] as int;
      var old_child := if n.next[c].None? then NewNode(false) else n.next[c].value;
      WellFormed(old_child) && ValidKey(key[1..]) && inner == Insert(key[1..], old_child) &&
      Insert(key, n).next[c] == Some(inner.(value := Some(key[0])))
  {
    var c := key[0] as int;
    if n.next[c].Some? {
      ChildWellFormed(n, c);
    }
    var old_child := if n.next[c].None? then NewNode(false) else n.next[c].value;
    inner := Insert(key[1..], old_child);
  }

  /** What is stored below a node does not depend on the node's own character. */
  lemma ValueIgnored(m: Node, v: Option<char>, k: string)
    ensures IsKey(m.(value := v), k) == IsKey(m, k)
  {
    if k != [] {
      assert m.(value := v).next == m.next;
    }
  }

  /**
   * The keys `collectHelper(s, n, ls)` appends to `ls` while its loop scans slots
   * `0 .. i-1` of `n`, in the order it appends them.
   */
  function Collect(s: string, n: Node, i: nat): seq<string>
    requires WellFormed(n) && i <= Radix
    decreases n, 1, i
  {
    if i == 0 then [] else Collect(s, n, i - 1) + SlotKeys(s, n, i - 1)
  }

  /** What one turn of that loop appends for slot `i`: the child's key, if it is one, then the keys below it. */
  function SlotKeys(s: string, n: Node, i: nat): seq<string>
    requires WellFormed(n) && i < Radix
    decreases n, 0, 0
  {
    if n.next[i].None? then []
    else
      var child := n.next[i].value;
      var t := s + [child.value.value];
      ChildWellFormed(n, i);
      (if child.isKey then [t] else []) + Collect(t, child, Radix)
  }

  /** `collectKeys(s, n)` for `n` the node at the end of `s`: `s` itself when stored, then the keys below `n`. */
  function KeysAt(s: string, n: Node): seq<string>
    requires WellFormed(n)
  {
    (if n.isKey then [s] else []) + Collect(s, n, Radix)
  }

  /** A non-empty string spelt from a well-formed node starts with a 7-bit character. */
  lemma PathFirstAscii(n: Node, k: string)
    requires WellFormed(n) && k != [] && Path(n, k).Some?
    ensures k[0] as int < Radix
  {
  }

  /** Scanning slots `0 .. i-1` lists exactly the keys below `n` whose first character is below `i`, each prefixed by `s`. */
  lemma {:induction false} CollectMembers(s: string, n: Node, i: nat, x: string)
    requires WellFormed(n) && i <= Radix
    ensures x in Collect(s, n, i) <==>
      |x| > |s| && x[..|s|] == s && x[|s|] as int < i && IsKey(n, x[|s|..])
    decreases n, 1, i
  {
    if i > 0 {
      CollectMembers(s, n, i - 1, x);
      SlotMembers(s, n, i - 1, x);
    }
  }

  /** Slot `i` contributes exactly the keys below `n` whose first character is `i`, each prefixed by `s`. */
  lemma {:induction false} SlotMembers(s: string, n: Node, i: nat, x: string)
    requires WellFormed(n) && i < Radix
    ensures x in SlotKeys(s, n, i) <==>
      |x| > |s| && x[..|s|] == s && x[|s|] as int == i && IsKey(n, x[|s|..])
    decreases n, 0, 0
  {
    if n.next[i].Some? {
      var child := n.next[i].value;
      ChildWellFormed(n, i);
      var t := s + [child.value.value];
      CollectMembers(t, child, Radix, x);
      if |x| > |s| && x[..|s|] == s && x[|s|] as int == i {
        var rest := x[|s|..];
        assert rest[0] == x[|s|] && rest[1..] == x[|t|..];
        assert x[..|t|] == t;
        assert Path(n, rest) == Path(child, x[|t|..]);
        if |x| > |t| && IsKey(child, x[|t|..]) {
          PathFirstAscii(child, x[|t|..]);
          assert x[|t|..][0] == x[|t|];
        }
        if |x| == |t| {
          assert x == t;
          assert Path(child, x[|t|..]) == Some(child);
        }
      }
      if x in SlotKeys(s, n, i) && x !in Collect(t, child, Radix) {
        assert x == t;
        assert x[..|s|] == s;
        assert x[|s|..] == [x[|s|]];
        assert Path(n, x[|s|..]) == Path(child, []);
      }
    } else {
      if |x| > |s| && x[|s|] as int == i {
        assert x[|s|..][0] == x[|s|];
        assert Path(n, x[|s|..]).None?;
      }
    }
  }

  lemma {:induction false} CollectSorted(s: string, n: Node, i: nat)
    requires WellFormed(n) && i <= Radix
    ensures Sorted(Collect(s, n, i))
    decreases n, 1, i
  {
    if i > 0 {
      var a := Collect(s, n, i - 1);
      var b := SlotKeys(s, n, i - 1);
      CollectSorted(s, n, i - 1);
      SlotSorted(s, n, i - 1);
      forall x, y | x in a && y in b
        ensures Less(x, y)
      {
        CollectMembers(s, n, i - 1, x);
        SlotMembers(s, n, i - 1, y);
        LessAt(x, y, |s|);
      }
      SortedAppend(a, b);
    }
  }

  lemma {:induction false} SlotSorted(s: string, n: Node, i: nat)
    requires WellFormed(n) && i < Radix
    ensures Sorted(SlotKeys(s, n, i))
    decreases n, 0, 0
  {
    if n.next[i].Some? {
      var child := n.next[i].value;
      ChildWellFormed(n, i);
      var t := s + [child.value.value];
      var below := Collect(t, child, Radix);
      CollectSorted(t, child, Radix);
      var head := if child.isKey then [t] else [];
      forall x, y | x in head && y in below
        ensures Less(x, y)
      {
        CollectMembers(t, child, Radix, y);
        LessProperPrefix(x, y);
      }
      SortedAppend(head, below);
    }
  }

  /** `collectKeys(s, n)` lists exactly the keys below `n`, each prefixed by `s`. */
  lemma KeysAtMembers(s: string, n: Node, x: string)
    requires WellFormed(n)
    ensures x in KeysAt(s, n) <==> IsPrefix(s, x) && IsKey(n, x[|s|..])
  {
    CollectMembers(s, n, Radix, x);
    if IsPrefix(s, x) && IsKey(n, x[|s|..]) && |x| > |s| {
      PathFirstAscii(n, x[|s|..]);
      assert x[|s|..][0] == x[|s|];
    }
    if x == s {
      assert x[|s|..] == [];
    }
  }

  /** `collectKeys(s, n)` lists its keys in increasing character-code order, each once. */
  lemma KeysAtSorted(s: string, n: Node)
    requires WellFormed(n)
    ensures Sorted(KeysAt(s, n))
  {
    CollectSorted(s, n, Radix);
    var head := if n.isKey then [s] else [];
    forall x, y | x in head && y in Collect(s, n, Radix)
      ensures Less(x, y)
    {
      CollectMembers(s, n, Radix, y);
      LessProperPrefix(x, y);
    }
    SortedAppend(head, Collect(s, n, Radix));
  }
}
