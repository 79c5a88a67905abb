// DictSegment.java: one node of the dictionary trie. Children live in a sorted
// array of capacity ARRAY_LENGTH_LIMIT; the fourth child moves them, once and
// for all, into a map. Every method is proved against the value the node
// stands for (View, a TrieSpec.Trie).
module Segments {
  import opened Wrappers
  import opened TrieSpec

  /** Capacity of a node's child array. */
  const ARRAY_LENGTH_LIMIT: int := 3

  /** The record a lookup fills in: the MATCH and PREFIX bits of its state, the
      offsets of the looked-up text, and the node reached when it is a prefix. */
  class Hit {
    var matched: bool
    var prefix: bool
    var begin: int
    var end: int
    var matchedSegment: DictSegment?

    constructor ()
      ensures !matched && !prefix && begin == 0 && end == 0 && matchedSegment == null
    {
      matched, prefix := false, false;
      begin, end := 0, 0;
      matchedSegment := null;
    }

    /** setUnmatch: back to "no match"; offsets and the recorded node stay. */
    method SetUnmatch()
      modifies this
      ensures !matched && !prefix
      ensures begin == old(begin) && end == old(end) && matchedSegment == old(matchedSegment)
    {
      matched, prefix := false, false;
    }

  }

  /** The first `n` slots of `a` hold nodes in strictly ascending `nodeChar` order. */
  ghost predicate Sorted(a: array<DictSegment?>, n: int)
    reads a
  {
    0 <= n <= a.Length && Ascending(a[..n])
  }

  /** Arrays.binarySearch(a, 0, toIndex, key) over nodes ordered by compareTo:
      the index of the node with key's character, or -(insertion point) - 1. */
  method BinarySearch(a: array<DictSegment?>, toIndex: int, key: DictSegment) returns (pos: int)
    requires Sorted(a, toIndex)
    ensures 0 <= pos ==> pos < toIndex && a[pos] != null && a[pos].nodeChar == key.nodeChar
    ensures pos < 0 ==> 0 <= -(pos + 1) <= toIndex
    ensures pos < 0 ==> forall i | 0 <= i < -(pos + 1) :: a[i] != null && a[i].nodeChar < key.nodeChar
    ensures pos < 0 ==> forall i | -(pos + 1) <= i < toIndex :: a[i] != null && key.nodeChar < a[i].nodeChar
    ensures pos < 0 ==> forall i | 0 <= i < toIndex :: a[i].nodeChar != key.nodeChar
  {
    var low, high := 0, toIndex - 1;
    while low <= high
      invariant 0 <= low <= high + 1 <= toIndex
      invariant forall i | 0 <= i < low :: a[i] != null && a[i].nodeChar < key.nodeChar
      invariant forall i | high < i < toIndex :: a[i] != null && key.nodeChar < a[i].nodeChar
    {
      var mid := (low + high) / 2;
      var cmp := a[mid].CompareTo(key);
      if cmp < 0 {
        low := mid + 1;
      } else if cmp > 0 {
        high := mid - 1;
      } else {
        return mid;
      }
    }
    return -(low + 1);
  }

  /** Every slot of `t` holds a node, in strictly ascending `nodeChar` order. */
  ghost predicate Ascending(t: seq<DictSegment?>)
  {
    && (forall i | 0 <= i < |t| :: t[i] != null)
    && (forall i, j | 0 <= i < j < |t| :: t[i] != null && t[j] != null && t[i].nodeChar < t[j].nodeChar)
  }

  /** `t` is `s` with `x` put in at `j`, the nodes from there on one up. */
  lemma Placed(s: seq<DictSegment?>, x: DictSegment?, j: int, t: seq<DictSegment?>)
    requires |t| == |s| + 1 && 0 <= j <= |s| && t[j] == x
    requires forall k | 0 <= k < j :: t[k] == s[k]
    requires forall k | j < k < |t| :: t[k] == s[k - 1]
    ensures t == s[..j] + [x] + s[j..]
  {
  }

  /** Putting a new node into an ascending sequence just before the first
      larger node keeps it ascending. */
  lemma PlacedAscending(s: seq<DictSegment?>, x: DictSegment, j: int)
    requires Ascending(s) && 0 <= j <= |s|
    requires forall k | 0 <= k < |s| :: s[k].nodeChar != x.nodeChar
    requires 0 < j ==> s[j - 1].nodeChar < x.nodeChar
    requires forall k | j <= k < |s| :: x.nodeChar < s[k].nodeChar
    ensures Ascending(s[..j] + [x] + s[j..])
  {
    var t := s[..j] + [x] + s[j..];
    forall p, q | 0 <= p < q < |t|
      ensures t[p] != null && t[q] != null && t[p].nodeChar < t[q].nodeChar
    {
      if q < j {
        assert t[p] == s[p] && t[q] == s[q];
      } else if q == j {
        assert t[p] == s[p];
      } else if p < j {
        assert t[p] == s[p] && t[q] == s[q - 1];
      } else if p == j {
        assert t[q] == s[q - 1];
      } else {
        assert t[p] == s[p - 1] && t[q] == s[q - 1];
      }
    }
  }

  /** Arrays.sort(a, 0, n) at its one call site, where the first n - 1 nodes are
      already sorted and the node in slot n - 1 has a character none of them has:
      that node is moved down to its place `j`, the nodes from there on one up. */
  method SortSegments(a: array<DictSegment?>, n: int) returns (ghost j: int)
    requires 1 <= n <= a.Length
    requires Sorted(a, n - 1) && a[n - 1] != null
    requires forall i | 0 <= i < n - 1 :: a[i].nodeChar != a[n - 1].nodeChar
    modifies a
    ensures Sorted(a, n)
    ensures 0 <= j < n && a[..n] == old(a[..n - 1])[..j] + [old(a[n - 1])] + old(a[..n - 1])[j..]
    ensures a[n..] == old(a[n..])
  {
    ghost var s, x := a[..n - 1], a[n - 1];
    assert Ascending(s);
    assert forall k | 0 <= k < |s| :: s[k].nodeChar != x.nodeChar;
    var i := n - 1;
    while 0 < i && a[i].nodeChar < a[i - 1].nodeChar
      invariant 0 <= i < n && a[i] == x
      invariant forall k | 0 <= k < i :: a[k] == s[k]
      invariant forall k | i < k < n :: a[k] == s[k - 1]
      invariant forall k | i <= k < n - 1 :: x.nodeChar < s[k].nodeChar
      invariant a[n..] == old(a[n..])
    {
      a[i - 1], a[i] := a[i], a[i - 1];
      i := i - 1;
    }
    j := i;
    if 0 < j {
      assert s[j - 1].nodeChar != x.nodeChar;
    }
    Placed(s, x, j, a[..n]);
    PlacedAscending(s, x, j);
  }

  /** The nodes of `s` are exactly those of `kids`, each under its own character. */
  ghost predicate Holds(s: seq<DictSegment?>, kids: map<char, DictSegment>)
  {
    && (forall i | 0 <= i < |s| :: s[i] != null && s[i].nodeChar in kids && kids[s[i].nodeChar] == s[i])
    && (forall c | c in kids :: kids[c].nodeChar == c && kids[c] in s)
  }

  /** What a binary search over listed children says about the children. */
  lemma ListsSearch(a: array<DictSegment?>, n: int, kids: map<char, DictSegment>, k: char, pos: int)
    requires Lists(a, n, kids)
    requires 0 <= pos ==> pos < n && a[pos].nodeChar == k
    requires pos < 0 ==> forall i | 0 <= i < n :: a[i].nodeChar != k
    ensures 0 <= pos ==> k in kids && kids[k] == a[pos]
    ensures pos < 0 ==> k !in kids
  {
    if k in kids {
      var i :| 0 <= i < n && a[i] == kids[k];
    }
  }

  /** A sorted array whose first slots are the old children with the new node
      put in at `j` lists them all. */
  lemma InsertedLists(a: array<DictSegment?>, before: seq<DictSegment?>, j: int,
                      kids: map<char, DictSegment>, ds: DictSegment)
    requires |before| < a.Length && Sorted(a, |before| + 1) && 0 <= j <= |before|
    requires a[..|before| + 1] == before[..j] + [ds] + before[j..]
    requires Holds(before, kids) && ds.nodeChar !in kids
    ensures Lists(a, |before| + 1, kids[ds.nodeChar := ds])
  {
    var n, kids' := |before| + 1, kids[ds.nodeChar := ds];
    forall i | 0 <= i < n
      ensures a[i].nodeChar in kids' && kids'[a[i].nodeChar] == a[i]
    {
      assert a[..n][i] == a[i];
      if i > j {
        assert a[i] == before[i - 1];
      } else if i < j {
        assert a[i] == before[i];
      }
    }
    forall c | c in kids'
      ensures kids'[c].nodeChar == c && kids'[c] in a[..n]
    {
      if c == ds.nodeChar {
        assert a[..n][j] == ds;
      } else {
        var m :| 0 <= m < |before| && before[m] == kids[c];
        if m < j {
          assert a[..n][m] == kids[c];
        } else {
          assert a[..n][m + 1] == kids[c];
        }
      }
    }
  }

  /** The array half of lookforSegment's insertion: the new node is written
      after the last child, then the filled part is sorted again. */
  method InsertSorted(a: array<DictSegment?>, n: int, ghost kids: map<char, DictSegment>, ds: DictSegment)
    requires Lists(a, n, kids) && n < a.Length && ds.nodeChar !in kids
    modifies a
    ensures Lists(a, n + 1, kids[ds.nodeChar := ds])
  {
    ghost var before := a[..n];
    assert Holds(before, kids);
    a[n] := ds;
    assert a[..n] == before;
    ghost var j := SortSegments(a, n + 1);
    InsertedLists(a, before, j, kids, ds);
  }

  /** The first `n` slots of `a` hold exactly the nodes of `kids`, sorted, each
      filed under its own character. */
  ghost predicate Lists(a: array<DictSegment?>, n: int, kids: map<char, DictSegment>)
    reads a
  {
    && Sorted(a, n)
    && (forall i | 0 <= i < n :: a[i].nodeChar in kids && kids[a[i].nodeChar] == a[i])
    && (forall c | c in kids :: kids[c].nodeChar == c && kids[c] in a[..n])
  }

  /** Listed children are as many as the array slots they fill. */
  lemma ListsCount(a: array<DictSegment?>, n: int, kids: map<char, DictSegment>)
    requires Lists(a, n, kids)
    ensures |kids| == n
  {
    assert Holds(a[..n], kids);
    HoldsCount(a[..n], kids);
  }

  /** Ascending nodes held by `kids` are exactly as many as the children. */
  lemma {:induction false} HoldsCount(t: seq<DictSegment?>, kids: map<char, DictSegment>)
    requires Ascending(t) && Holds(t, kids)
    ensures |kids| == |t|
  {
    if t != [] {
      var rest := t[..|t| - 1];
      var k := t[|t| - 1].nodeChar;
      HeldButLast(t, kids);
      HoldsCount(rest, kids - {k});
      MapDrop(kids, k);
    }
  }

  /** Dropping the last of ascending held nodes drops its child. */
  lemma HeldButLast(t: seq<DictSegment?>, kids: map<char, DictSegment>)
    requires Ascending(t) && Holds(t, kids) && t != []
    ensures Ascending(t[..|t| - 1]) && Holds(t[..|t| - 1], kids - {t[|t| - 1].nodeChar})
    ensures t[|t| - 1].nodeChar in kids
  {
    var rest, k := t[..|t| - 1], t[|t| - 1].nodeChar;
    var fewer := kids - {k};
    forall c | c in fewer
      ensures fewer[c].nodeChar == c && fewer[c] in rest
    {
      var i :| 0 <= i < |t| && t[i] == kids[c];
      assert i != |t| - 1;
      assert rest[i] == t[i];
    }
    forall i | 0 <= i < |rest|
      ensures rest[i] != null && rest[i].nodeChar in fewer && fewer[rest[i].nodeChar] == rest[i]
    {
      assert t[i] == rest[i];
    }
  }

  /** A map without one of its keys has one entry fewer. */
  lemma MapDrop<V>(m: map<char, V>, k: char)
    requires k in m
    ensures |m - {k}| + 1 == |m|
  {
    assert m.Keys == (m - {k}).Keys + {k};
  }

  /** The nodes of `s` that are not null carry pairwise distinct characters. */
  ghost predicate Distinct(s: seq<DictSegment?>)
  {
    forall j, k | 0 <= j < k < |s| && s[j] != null && s[k] != null :: s[j].nodeChar != s[k].nodeChar
  }

  /** The nodes of the whole of `a` are exactly those of `kids`, each once
      and filed under its own character. */
  ghost predicate Holding(a: array<DictSegment?>, kids: map<char, DictSegment>)
    reads a
  {
    && Distinct(a[..])
    && (forall j | 0 <= j < a.Length && a[j] != null :: a[j].nodeChar in kids && kids[a[j].nodeChar] == a[j])
    && (forall c | c in kids :: kids[c].nodeChar == c && kids[c] in a[..])
  }

  /** A whole array whose first `n` slots list `kids` and whose other slots are
      empty holds exactly the nodes of `kids`. */
  lemma ListedWhole(a: array<DictSegment?>, n: int, kids: map<char, DictSegment>)
    requires Lists(a, n, kids)
    requires forall i | n <= i < a.Length :: a[i] == null
    ensures Holding(a, kids)
  {
    forall c | c in kids
      ensures kids[c].nodeChar == c && kids[c] in a[..]
    {
      var j :| 0 <= j < n && a[..n][j] == kids[c];
      assert a[..][j] == kids[c];
    }
  }

  /** migrate: every node in the array is put into the map under its character. */
  method Migrate(segmentArray: array<DictSegment?>, segmentMap: map<char, DictSegment>,
                 ghost kids: map<char, DictSegment>)
    returns (m: map<char, DictSegment>)
    requires Holding(segmentArray, kids)
    ensures m == segmentMap + kids
  {
    ghost var s := segmentArray[..];
    m := segmentMap;
    for i := 0 to segmentArray.Length
      invariant forall j | 0 <= j < i && s[j] != null :: s[j].nodeChar in m && m[s[j].nodeChar] == s[j]
      invariant forall c | c in m && c !in kids :: c in segmentMap && m[c] == segmentMap[c]
      invariant forall c | c in segmentMap :: c in m
    {
      var segment := segmentArray[i];
      if segment != null {
        m := m[segment.nodeChar := segment];
      }
    }
    forall c | c in kids
      ensures c in m && m[c] == kids[c]
    {
      var j :| 0 <= j < |s| && s[j] == kids[c];
    }
  }

  /** How the children `kids` hang in the footprint `below` and make up the
      subtree `view` of a node in state `state`; it does not depend on how the
      node stores them. */
  ghost predicate Hangs(kids: map<char, DictSegment>, view: Trie, state: int, below: set<object>)
    reads below
    decreases below, 4
  {
    && (forall c | c in kids ::
          && kids[c] in below && kids[c].Repr <= below
          && kids[c].nodeChar == c
          && c in view.kids && view.kids[c] == kids[c].View)
    && (forall c, d | c in kids && d in kids && c != d :: kids[c].Repr !! kids[d].Repr)
    && view.state == state
    && view.kids.Keys == kids.Keys
    && AllValid(kids, below)
  }

  /** Every child is itself a valid node. */
  ghost predicate AllValid(kids: map<char, DictSegment>, below: set<object>)
    reads below
    requires forall c | c in kids :: kids[c] in below && kids[c].Repr <= below
    decreases below, 3
  {
    forall c | c in kids :: kids[c].Valid()
  }

  /** A valid empty node for a new character joins the children. */
  lemma Adopted(kids: map<char, DictSegment>, view: Trie, state: int, below: set<object>, ds: DictSegment)
    requires Hangs(kids, view, state, below)
    requires ds.Empty() && ds !in below && ds.nodeChar !in kids
    ensures Hangs(kids[ds.nodeChar := ds], view.(kids := view.kids[ds.nodeChar := Leaf]), state, below + {ds})
  {
    ds.EmptyIsValid();
    var kids' := kids[ds.nodeChar := ds];
    forall c | c in kids'
      ensures kids'[c].Valid()
    {
      if c != ds.nodeChar {
        assert kids[c].Valid();
      }
    }
    var below', view' := below + {ds}, view.(kids := view.kids[ds.nodeChar := Leaf]);
    assert AllValid(kids', below');
    assert Hangs(kids', view', state, below');
  }

  /** One step of `Fill`: the walk at the root either finds or creates the
      child under `key[0]` and then continues in it. */
  lemma FillStep(t: Trie, t1: Trie, key: seq<char>, enabled: int, child: Trie, child': Trie)
    requires |key| >= 1
    requires key[0] in t.kids ==> t1 == t && child == t.kids[key[0]]
    requires key[0] !in t.kids ==> enabled == 1 && t1 == t.(kids := t.kids[key[0] := Leaf]) && child == Leaf
    requires |key| > 1 ==> child' == Fill(child, key[1..], enabled)
    requires |key| == 1 ==> child' == child.(state := enabled)
    ensures Fill(t, key, enabled) == t1.(kids := t1.kids[key[0] := child'])
  {
  }

  /** A node's state changes; its children and footprint stay. */
  lemma Restated(kids: map<char, DictSegment>, view: Trie, state: int, below: set<object>, e: int)
    requires Hangs(kids, view, state, below)
    ensures Hangs(kids, view.(state := e), e, below)
  {
    assert AllValid(kids, below);
  }

  /** The children hang again once the one under `k` is valid and every
      other one still hangs as before, apart from it. */
  lemma Regathered(kids: map<char, DictSegment>, view: Trie, state: int, below: set<object>, k: char)
    requires k in kids && kids[k].Valid() && kids[k].nodeChar == k
    requires forall c | c in kids && c != k ::
               && kids[c].Valid() && kids[c] in below && kids[c].Repr <= below && kids[c].nodeChar == c
               && c in view.kids && view.kids[c] == kids[c].View && kids[c].Repr !! kids[k].Repr
    requires forall c, d | c in kids && d in kids && c != k && d != k && c != d :: kids[c].Repr !! kids[d].Repr
    requires view.state == state && view.kids.Keys == kids.Keys && kids[k] in below
    ensures Hangs(kids, view.(kids := view.kids[k := kids[k].View]), state, below + kids[k].Repr)
  {
    var view', below' := view.(kids := view.kids[k := kids[k].View]), below + kids[k].Repr;
    forall c | c in kids
      ensures kids[c] in below' && kids[c].Repr <= below' && kids[c].nodeChar == c
      ensures c in view'.kids && view'.kids[c] == kids[c].View && kids[c].Valid()
    {
    }
    forall c, d | c in kids && d in kids && c != d
      ensures kids[c].Repr !! kids[d].Repr
    {
      if c == k || d == k {
        var e := if c == k then d else c;
        assert kids[e].Repr !! kids[k].Repr;
      }
    }
    assert view'.kids.Keys == kids.Keys;
    assert AllValid(kids, below');
  }

  class DictSegment {
    const nodeChar: char
    var childrenMap: Option<map<char, DictSegment>>
    var childrenArray: array?<DictSegment?>
    var storeSize: int
    var nodeState: int

    /** The children by character, whichever way they are stored. */
    ghost var Kids: map<char, DictSegment>
    /** The subtree this node stands for. */
    ghost var View: Trie
    /** Every object of the subtrees below this node. */
    ghost var Below: set<object>
    /** This node, its child array and everything below. */
    ghost var Repr: set<object>

    /** Up to ARRAY_LENGTH_LIMIT children sit in the array (created on first
        use), sorted by character, storeSize of them; beyond that the array is
        gone and the map holds them all. */
    ghost predicate Storage()
      reads this, childrenArray
    {
      Stores(Kids)
    }

    /** Storage, for the children `kids`. */
    ghost predicate Stores(kids: map<char, DictSegment>)
      reads this, childrenArray
    {
      if storeSize <= ARRAY_LENGTH_LIMIT then
        && childrenMap == None
        && (childrenArray == null ==> storeSize == 0 && kids == map[])
        && (childrenArray != null ==>
              childrenArray.Length == ARRAY_LENGTH_LIMIT && Lists(childrenArray, storeSize, kids))
      else
        childrenArray == null && childrenMap == Some(kids) && kids != map[]
    }

    /** In array mode storeSize is the number of children. */
    lemma Counted()
      requires Valid() && storeSize <= ARRAY_LENGTH_LIMIT
      ensures storeSize == |Kids|
    {
      if childrenArray != null {
        ListsCount(childrenArray, storeSize, Kids);
      }
    }

    /** The whole invariant of the subtree rooted here. */
    ghost predicate Valid()
      reads this, Repr
      decreases Repr, 2
    {
      && this in Repr && Below <= Repr && this !in Below
      && (childrenArray != null ==> childrenArray in Repr && childrenArray !in Below)
      && Storage()
      && Hangs(Kids, View, nodeState, Below)
    }

    constructor (c: char)
      ensures Valid() && fresh(Repr)
      ensures nodeChar == c && View == Leaf && Kids == map[] && Repr == {this}
      ensures storeSize == 0 && childrenArray == null && childrenMap == None
    {
      nodeChar := c;
      childrenMap := None;
      childrenArray := null;
      storeSize := 0;
      nodeState := 0;
      Kids := map[];
      View := Leaf;
      Below := {};
      Repr := {this};
    }

    /** hasNextNode: the node has at least one child. */
    function HasNextNode(): (r: bool)
      reads this, Repr
      requires Valid()
      ensures r <==> View.kids != map[]
    {
      assert storeSize > 0 <==> Kids.Keys != {} by {
        if storeSize > 0 && childrenArray != null {
          assert childrenArray[0].nodeChar in Kids;
        }
        if storeSize == 0 && childrenArray != null {
          assert childrenArray[..storeSize] == [];
        }
      }
      assert Hangs(Kids, View, nodeState, Below);
      storeSize > 0
    }

    /** compareTo: nodes are ordered by their characters. */
    function CompareTo(o: DictSegment): (r: int)
      ensures r < 0 <==> nodeChar < o.nodeChar
      ensures r == 0 <==> nodeChar == o.nodeChar
      ensures r > 0 <==> o.nodeChar < nodeChar
    {
      nodeChar as int - o.nodeChar as int
    }

    /** getChildrenArray: the child array, created empty on first use. */
    method GetChildrenArray() returns (segmentArray: array<DictSegment?>)
      requires Valid() && storeSize <= ARRAY_LENGTH_LIMIT
      modifies this`childrenArray, this`Repr
      ensures Valid()
      ensures segmentArray == childrenArray && segmentArray.Length == ARRAY_LENGTH_LIMIT
      ensures old(childrenArray) != null ==> segmentArray == old(childrenArray) && Repr == old(Repr)
      ensures old(childrenArray) == null ==> fresh(segmentArray) && Repr == old(Repr) + {segmentArray}
    {
      if childrenArray == null {
        childrenArray := new DictSegment?[ARRAY_LENGTH_LIMIT];
        Repr := Repr + {childrenArray};
      }
      segmentArray := childrenArray;
    }

    /** A node as `new DictSegment(c)` leaves it. */
    ghost predicate Empty()
      reads this
    {
      && Repr == {this} && Below == {} && Kids == map[] && View == Leaf && nodeState == 0
      && storeSize == 0 && childrenArray == null && childrenMap == None
    }

    /** An empty node is a valid one. */
    lemma EmptyIsValid()
      requires Empty()
      ensures Valid()
    {
    }

    /** The new child `ds` may join this node: it is an empty node for a
        character this node has no child for, and owns nothing of this node. */
    ghost predicate Joinable(ds: DictSegment)
      reads this, Repr, ds
    {
      && ds.Empty() && ds !in Repr && ds.nodeChar !in Kids
    }

    /** The effect every insertion path of lookforSegment shares. */
    twostate predicate Joined(ds: DictSegment)
      reads this
    {
      && Kids == old(Kids)[ds.nodeChar := ds]
      && Repr == old(Repr) + {ds}
      && View == old(View).(kids := old(View).kids[ds.nodeChar := Leaf])
      && nodeState == old(nodeState)
    }

    /** The bookkeeping half of adding the new child `ds`: the storage fields
        already hold it; the ghost fields take it in. */
    ghost method Join(ds: DictSegment)
      requires this in Repr && Below <= Repr && this !in Below
      requires childrenArray != null ==> childrenArray in Repr && childrenArray !in Below
      requires Hangs(Kids, View, nodeState, Below) && Joinable(ds)
      requires Stores(Kids[ds.nodeChar := ds])
      modifies this`Kids, this`View, this`Below, this`Repr
      ensures Valid() && Joined(ds)
    {
      Adopted(Kids, View, nodeState, Below, ds);
      Kids, View, Below, Repr :=
        Kids[ds.nodeChar := ds], View.(kids := View.kids[ds.nodeChar := Leaf]), Below + {ds}, Repr + {ds};
    }

    /** lookforSegment, array with room: write the new child after the last
        one, then sort the filled part. */
    method AddToArray(segmentArray: array<DictSegment?>, ds: DictSegment)
      requires Valid() && Joinable(ds)
      requires segmentArray == childrenArray && storeSize < ARRAY_LENGTH_LIMIT
      modifies this, segmentArray
      ensures Valid() && Joined(ds) && childrenMap == None && storeSize == old(storeSize) + 1
    {
      InsertSorted(segmentArray, storeSize, Kids, ds);
      storeSize := storeSize + 1;
      Join(ds);
    }

    /** The migration of a full array into the map getChildrenMap creates
        empty: the map then holds exactly the children. */
    method MigrateFull(segmentArray: array<DictSegment?>) returns (segmentMap: map<char, DictSegment>)
      requires Valid() && segmentArray == childrenArray && storeSize == ARRAY_LENGTH_LIMIT
      ensures segmentMap == Kids
    {
      ListedWhole(segmentArray, storeSize, Kids);
      segmentMap := Migrate(segmentArray, map[], Kids);
      assert segmentMap == Kids;
    }

    /** lookforSegment, full array: move every child into a new map (migrate),
        add the new child there and drop the array. */
    method MoveToMap(segmentArray: array<DictSegment?>, ds: DictSegment)
      requires Valid() && Joinable(ds)
      requires segmentArray == childrenArray && storeSize == ARRAY_LENGTH_LIMIT
      modifies this
      ensures Valid() && Joined(ds) && childrenArray == null && childrenMap == Some(Kids)
      ensures storeSize == old(storeSize) + 1
    {
      Counted();
      var segmentMap := MigrateFull(segmentArray);
      segmentMap := segmentMap[ds.nodeChar := ds];
      childrenMap, storeSize, childrenArray := Some(segmentMap), storeSize + 1, null;
      assert ds.nodeChar in segmentMap;
      Join(ds);
    }

    /** lookforSegment, map mode: add the new child to the map. */
    method AddToMap(ds: DictSegment)
      requires Valid() && Joinable(ds) && storeSize > ARRAY_LENGTH_LIMIT
      modifies this
      ensures Valid() && Joined(ds) && childrenArray == null && childrenMap == Some(Kids)
      ensures storeSize == old(storeSize) + 1
    {
      var segmentMap := childrenMap.value;
      segmentMap := segmentMap[ds.nodeChar := ds];
      childrenMap := Some(segmentMap);
      storeSize := storeSize + 1;
      Join(ds);
    }

    /** lookforSegment: the child for `keyChar`; when there is none and
        `create == 1`, a new empty child is added, into the array while it has
        room (kept sorted) and otherwise into the map, the fourth child moving
        every child out of the array; a node whose children are in the map
        keeps them there. */
    method LookforSegment(keyChar: char, create: int) returns (ds: DictSegment?)
      requires Valid()
      modifies this, childrenArray
      ensures Valid() && fresh(Repr - old(Repr))
      ensures nodeState == old(nodeState)
      ensures keyChar in old(Kids) ==> ds == old(Kids)[keyChar] && Kids == old(Kids) && View == old(View)
      ensures keyChar !in old(Kids) && create != 1 ==> ds == null && Kids == old(Kids) && View == old(View)
      ensures keyChar !in old(Kids) && create == 1 ==>
                && ds != null && fresh(ds)
                && Kids == old(Kids)[keyChar := ds]
                && View == old(View).(kids := old(View).kids[keyChar := Leaf])
      ensures ds != null ==> keyChar in Kids && ds == Kids[keyChar]
      ensures storeSize - |Kids| == old(storeSize) - |old(Kids)|
      ensures old(storeSize) < ARRAY_LENGTH_LIMIT ==> childrenMap == None
      ensures old(storeSize) == ARRAY_LENGTH_LIMIT && keyChar !in old(Kids) && create == 1 ==>
                childrenArray == null && childrenMap == Some(Kids)
      ensures old(childrenMap).Some? ==> childrenArray == null && childrenMap == Some(Kids)
    {
      if storeSize <= ARRAY_LENGTH_LIMIT {
        ds := LookInArray(keyChar, create);
      } else {
        ds := LookInMap(keyChar, create);
      }
    }

    /** What lookforSegment does to the children, whichever storage it uses. */
    twostate predicate Looked(keyChar: char, create: int, new ds: DictSegment?)
      reads this
    {
      && fresh(Repr - old(Repr))
      && nodeState == old(nodeState)
      && (keyChar in old(Kids) ==> ds == old(Kids)[keyChar] && Kids == old(Kids) && View == old(View))
      && (keyChar !in old(Kids) && create != 1 ==> ds == null && Kids == old(Kids) && View == old(View))
      && (keyChar in old(Kids) || create != 1 ==> storeSize == old(storeSize))
      && (keyChar !in old(Kids) && create == 1 ==>
            && ds != null && fresh(ds) && storeSize == old(storeSize) + 1
            && Kids == old(Kids)[keyChar := ds]
            && View == old(View).(kids := old(View).kids[keyChar := Leaf]))
      && (ds != null ==> keyChar in Kids && ds == Kids[keyChar])
    }

    /** lookforSegment in array mode: binary search, and on a miss with
        `create == 1` a new child put into the array or, when it is full,
        into a new map that takes every child. */
    method LookInArray(keyChar: char, create: int) returns (ds: DictSegment?)
      requires Valid() && storeSize <= ARRAY_LENGTH_LIMIT
      modifies this, childrenArray
      ensures Valid() && Looked(keyChar, create, ds)
      ensures old(storeSize) < ARRAY_LENGTH_LIMIT ==> childrenMap == None
      ensures old(storeSize) == ARRAY_LENGTH_LIMIT && keyChar !in old(Kids) && create == 1 ==>
                childrenArray == null && childrenMap == Some(Kids)
    {
      var segmentArray, keySegment;
      segmentArray, keySegment, ds := SearchArray(keyChar);
      if ds == null && create == 1 {
        ds := keySegment;
        InsertIntoArray(segmentArray, ds);
      }
    }

    /** The search half of lookforSegment in array mode: the array (created
        when missing), a new node for `keyChar` to search with, and the child
        for `keyChar` found by binary search, if any. */
    method SearchArray(keyChar: char) returns (segmentArray: array<DictSegment?>, keySegment: DictSegment, ds: DictSegment?)
      requires Valid() && storeSize <= ARRAY_LENGTH_LIMIT
      modifies this`childrenArray, this`Repr
      ensures Valid() && fresh(Repr - old(Repr)) && segmentArray == childrenArray
      ensures old(childrenArray) == null ==> fresh(segmentArray)
      ensures old(childrenArray) != null ==> segmentArray == old(childrenArray)
      ensures ds != null <==> keyChar in Kids
      ensures ds != null ==> ds == Kids[keyChar]
      ensures fresh(keySegment) && keySegment.Empty() && keySegment.nodeChar == keyChar && keySegment !in Repr
    {
      ds := null;
      segmentArray := GetChildrenArray();
      keySegment := new DictSegment(keyChar);
      var position := BinarySearch(segmentArray, storeSize, keySegment);
      ListsSearch(segmentArray, storeSize, Kids, keyChar, position);
      if position >= 0 {
        ds := segmentArray[position];
      }
    }

    /** The array-mode insertion of the new child `ds`. */
    method InsertIntoArray(segmentArray: array<DictSegment?>, ds: DictSegment)
      requires Valid() && Joinable(ds)
      requires segmentArray == childrenArray && storeSize <= ARRAY_LENGTH_LIMIT
      modifies this, segmentArray
      ensures Valid() && Joined(ds) && storeSize == old(storeSize) + 1
      ensures old(storeSize) < ARRAY_LENGTH_LIMIT ==> childrenMap == None
      ensures old(storeSize) == ARRAY_LENGTH_LIMIT ==> childrenArray == null && childrenMap == Some(Kids)
    {
      if storeSize < ARRAY_LENGTH_LIMIT {
        AddToArray(segmentArray, ds);
      } else {
        MoveToMap(segmentArray, ds);
      }
    }

    /** lookforSegment in map mode: a lookup, and on a miss with
        `create == 1` a new child put into the map. */
    method LookInMap(keyChar: char, create: int) returns (ds: DictSegment?)
      requires Valid() && storeSize > ARRAY_LENGTH_LIMIT
      modifies this
      ensures Valid() && Looked(keyChar, create, ds)
      ensures childrenArray == null && childrenMap == Some(Kids)
    {
      ds := null;
      var segmentMap := childrenMap.value;
      if keyChar in segmentMap {
        ds := segmentMap[keyChar];
      }
      if ds == null && create == 1 {
        ds := new DictSegment(keyChar);
        AddToMap(ds);
      }
    }

    /** Step 1 of match: the child for `keyChar`, by binary search in the array
        or by lookup in the map. */
    method FindChild(keyChar: char) returns (ds: DictSegment?)
      requires Valid()
      ensures ds != null <==> keyChar in Kids
      ensures ds != null <==> keyChar in View.kids
      ensures ds != null ==> ds == Kids[keyChar]
      ensures ds != null ==> ds.Valid() && ds.Repr <= Below && ds.View == View.kids[keyChar]
    {
      ds := null;
      var segmentArray := childrenArray;
      var segmentMap := childrenMap;
      if segmentArray != null {
        var keySegment := new DictSegment(keyChar);
        var position := BinarySearch(segmentArray, storeSize, keySegment);
        ListsSearch(segmentArray, storeSize, Kids, keyChar, position);
        if position >= 0 {
          ds := segmentArray[position];
        }
      } else if segmentMap.Some? {
        if keyChar in segmentMap.value {
          ds := segmentMap.value[keyChar];
        }
      }
      if ds != null {
        ChildValid(keyChar);
      } else {
        assert Hangs(Kids, View, nodeState, Below);
      }
    }

    /** A child of a valid node is valid and owned by it. */
    lemma ChildValid(k: char)
      requires Valid() && k in Kids
      ensures Kids[k].Valid() && Kids[k].Repr <= Below && k in View.kids && Kids[k].View == View.kids[k]
    {
      assert Hangs(Kids, View, nodeState, Below);
      assert AllValid(Kids, Below);
    }

    /** The child under `k` was changed in place: it is valid again, every
        object it owns now is either one it owned or new, and nothing else
        below moved. The children then hang as before, with its new subtree. */
    twostate lemma Rehung(k: char)
      requires old(Valid()) && unchanged(this) && k in Kids
      requires Kids[k].Valid() && fresh(Kids[k].Repr - old(Kids[k].Repr))
      requires forall o | o in Below && o !in old(Kids[k].Repr) :: unchanged(o)
      ensures Hangs(Kids, View.(kids := View.kids[k := Kids[k].View]), nodeState, Below + Kids[k].Repr)
    {
      assert old(Hangs(Kids, View, nodeState, Below));
      forall c | c in Kids && c != k
        ensures Kids[c].Valid() && Kids[c] in Below && Kids[c].Repr <= Below && Kids[c].nodeChar == c
        ensures c in View.kids && View.kids[c] == Kids[c].View && Kids[c].Repr !! Kids[k].Repr
        ensures Kids[c].Repr == old(Kids[c].Repr)
      {
        assert old(Kids[c].Valid());
        assert old(Kids[c].Repr) !! old(Kids[k].Repr);
      }
      Regathered(Kids, View, nodeState, Below, k);
    }

    /** Takes `view` and `below` as this node's subtree after one child was
        changed in place. */
    ghost method Reattach(view: Trie, below: set<object>)
      requires this in Repr && this !in below
      requires childrenArray != null ==> childrenArray in Repr && childrenArray !in below
      requires Storage() && Hangs(Kids, view, nodeState, below)
      modifies this`View, this`Below, this`Repr
      ensures Valid() && View == view && Below == below && Repr == old(Repr) + below
    {
      View, Below, Repr := view, below, Repr + below;
    }

    /** `ds.nodeState = enabled`: the node's own word state. */
    method SetState(enabled: int)
      requires Valid()
      modifies this`nodeState, this`View
      ensures Valid() && nodeState == enabled && View == old(View).(state := enabled)
    {
      Restated(Kids, View, nodeState, Below, enabled);
      nodeState, View := enabled, View.(state := enabled);
    }

    /** fillSegment(charArray, begin, length, enabled): walk `key[begin..begin
        + length]` down from this node, creating missing children only when
        `enabled == 1`, and set the last node's state to `enabled`. */
    method FillSegmentAt(key: seq<char>, begin: int, length: int, enabled: int)
      requires Valid() && 0 <= begin && 1 <= length && begin + length <= |key|
      modifies Repr
      ensures Valid() && fresh(Repr - old(Repr))
      ensures View == Fill(old(View), key[begin..begin + length], enabled)
      ensures storeSize - |Kids| == old(storeSize) - |old(Kids)|
      decreases length, 2
    {
      ghost var t := View;
      var keyChar := key[begin];
      var ds := LookforSegment(keyChar, enabled);
      if ds != null {
        FillFound(t, ds, key, begin, length, enabled);
      }
    }

    /** The rest of fillSegment once the child `ds` for `key[begin]` has been
        found or created: `t` is this node's trie before the lookup. */
    method FillFound(ghost t: Trie, ds: DictSegment, key: seq<char>, begin: int, length: int, enabled: int)
      requires Valid() && 0 <= begin && 1 <= length && begin + length <= |key|
      requires key[begin] in Kids && ds == Kids[key[begin]]
      requires key[begin] in t.kids ==> View == t && ds.View == t.kids[key[begin]]
      requires key[begin] !in t.kids ==> enabled == 1 && View == t.(kids := t.kids[key[begin] := Leaf]) && ds.View == Leaf
      modifies Repr - {this}, this`View, this`Below, this`Repr
      ensures Valid() && fresh(Repr - old(Repr))
      ensures View == Fill(t, key[begin..begin + length], enabled)
      decreases length, 1
    {
      ChildValid(key[begin]);
      ghost var w := key[begin..begin + length];
      ghost var t1, child := View, ds.View;
      ghost var child' := if length > 1 then Fill(child, w[1..], enabled) else child.(state := enabled);
      assert w[1..] == key[begin + 1..begin + length];
      if length > 1 {
        FillChild(ds, key, begin, length, enabled);
      } else {
        SetChildState(ds, key[begin], enabled);
      }
      assert View == t1.(kids := t1.kids[key[begin] := child']);
      FillStep(t, t1, w, enabled, child, child');
    }

    /** fillSegment's recursive call: with more characters after
        `key[begin]`, the walk continues in the child `ds` under it. */
    method FillChild(ds: DictSegment, key: seq<char>, begin: int, length: int, enabled: int)
      requires Valid() && 0 <= begin && 1 < length && begin + length <= |key|
      requires key[begin] in Kids && ds == Kids[key[begin]]
      modifies Repr - {this}, this`View, this`Below, this`Repr
      ensures Valid() && fresh(Repr - old(Repr))
      ensures View == old(View).(kids := old(View).kids[key[begin] := Fill(old(ds.View), key[begin + 1..begin + length], enabled)])
      decreases length, 0
    {
      ChildValid(key[begin]);
      ghost var view := View;
      FillBelow(ds, key, begin, length, enabled);
      ghost var child := ds.View;
      assert View == view;
      Rehung(key[begin]);
      Reattach(view.(kids := view.kids[key[begin] := child]), Below + ds.Repr);
    }

    /** The recursive call itself, on the child `ds`. */
    static method FillBelow(ds: DictSegment, key: seq<char>, begin: int, length: int, enabled: int)
      requires ds.Valid() && 0 <= begin && 1 < length && begin + length <= |key|
      modifies ds.Repr
      ensures ds.Valid() && fresh(ds.Repr - old(ds.Repr))
      ensures ds.View == Fill(old(ds.View), key[begin + 1..begin + length], enabled)
      decreases length - 1, 3
    {
      ds.FillSegmentAt(key, begin + 1, length - 1, enabled);
      assert (begin + 1) + (length - 1) == begin + length;
    }

    /** fillSegment at the last character: the child `ds` under `k` takes
        the state `enabled`. */
    method SetChildState(ds: DictSegment, k: char, enabled: int)
      requires Valid() && k in Kids && ds == Kids[k]
      modifies Repr - {this}, this`View, this`Below, this`Repr
      ensures Valid() && Repr == old(Repr)
      ensures View == old(View).(kids := old(View).kids[k := old(ds.View).(state := enabled)])
    {
      ChildValid(k);
      ds.SetState(enabled);
      Rehung(k);
      Reattach(View.(kids := View.kids[k := ds.View]), Below + ds.Repr);
    }

    /** The start of match: a new Hit that begins at `begin`, or `searchHit`
        reset to unmatched; either way its end moves to `begin`. */
    static method StartHit(searchHit: Hit?, begin: int) returns (hit: Hit)
      modifies searchHit
      ensures searchHit != null ==> hit == searchHit
      ensures searchHit == null ==> fresh(hit)
      ensures hit.begin == if searchHit == null then begin else old(searchHit.begin)
      ensures hit.end == begin && !hit.matched && !hit.prefix
      ensures hit.matchedSegment == if searchHit == null then null else old(searchHit.matchedSegment)
    {
      if searchHit == null {
        hit := new Hit();
        hit.begin := begin;
      } else {
        hit := searchHit;
        hit.SetUnmatch();
      }
      hit.end := begin;
    }

    /** The end of match on its last character, at the node `ds`: MATCH when
        `ds` ends an enabled word, PREFIX and the node recorded when it has
        children. */
    static method MarkLast(hit: Hit, ds: DictSegment)
      requires ds.Valid() && hit !in ds.Repr
      modifies hit
      ensures ds.Valid()
      ensures hit.matched == (old(hit.matched) || ds.View.state == 1)
      ensures hit.prefix == (old(hit.prefix) || ds.View.kids != map[])
      ensures hit.matchedSegment == if ds.View.kids != map[] then ds else old(hit.matchedSegment)
      ensures hit.begin == old(hit.begin) && hit.end == old(hit.end)
    {
      if ds.nodeState == 1 {
        hit.matched := true;  // setMatch
      }
      if ds.HasNextNode() {
        hit.prefix := true;  // setPrefix
        hit.matchedSegment := ds;
      }
    }

    /** match(charArray, begin, length, searchHit): walks `key[begin..begin +
        length]` from this node. `end` is the last position looked at; the
        walk ends on the first missing character. */
    method Match(key: seq<char>, begin: int, length: int, searchHit: Hit?) returns (hit: Hit)
      requires Valid() && 0 <= begin < |key| && begin + length <= |key|
      requires searchHit !in Repr
      modifies searchHit
      ensures searchHit != null ==> hit == searchHit
      ensures searchHit == null ==> fresh(hit)
      ensures hit.begin == if searchHit == null then begin else old(searchHit.begin)
      ensures length < 1 ==> hit.end == begin && !hit.matched && !hit.prefix
      ensures 1 <= length ==> Walked(hit.end, hit.matched, hit.prefix) == Walk(View, key[begin..begin + length], begin)
      ensures hit.prefix ==>
                && 1 <= length && hit.matchedSegment != null
                && hit.matchedSegment.Valid() && hit.matchedSegment.Repr <= Repr
                && Lookup(View, key[begin..begin + length]) == Some(hit.matchedSegment.View)
      ensures !hit.prefix ==> hit.matchedSegment == if searchHit == null then null else old(searchHit.matchedSegment)
      decreases length, 1
    {
      hit := StartHit(searchHit, begin);
      var keyChar := key[begin];
      var ds := FindChild(keyChar);
      if ds != null {
        hit := MatchFound(ds, key, begin, length, hit);
      }
    }

    /** Step 2 of match, once the child `ds` for `key[begin]` is found: go on
        in it while characters remain, or mark the Hit on the last one. */
    method MatchFound(ds: DictSegment, key: seq<char>, begin: int, length: int, hit: Hit) returns (r: Hit)
      requires 0 <= begin < |key| && begin + length <= |key|
      requires key[begin] in View.kids && ds.Valid() && ds.View == View.kids[key[begin]] && ds.Repr <= Repr
      requires hit !in Repr && hit.end == begin && !hit.matched && !hit.prefix
      modifies hit
      ensures r == hit && r.begin == old(hit.begin)
      ensures length < 1 ==> r.end == begin && !r.matched && !r.prefix
      ensures 1 <= length ==> Walked(r.end, r.matched, r.prefix) == Walk(View, key[begin..begin + length], begin)
      ensures r.prefix ==>
                && 1 <= length && r.matchedSegment != null
                && r.matchedSegment.Valid() && r.matchedSegment.Repr <= Repr
                && Lookup(View, key[begin..begin + length]) == Some(r.matchedSegment.View)
      ensures !r.prefix ==> r.matchedSegment == old(hit.matchedSegment)
      decreases length, 0
    {
      r := hit;
      if length > 1 {
        assert key[begin..begin + length][1..] == key[begin + 1..begin + length];
        r := ds.Match(key, begin + 1, length - 1, hit);
      } else if length == 1 {
        assert key[begin..begin + length] == [key[begin]];
        MarkLast(hit, ds);
      }
    }

    /** match(charArray): the whole of `key`, with a new Hit. */
    method MatchWord(key: seq<char>) returns (hit: Hit)
      requires Valid() && |key| >= 1
      ensures fresh(hit) && hit.begin == 0
      ensures Walked(hit.end, hit.matched, hit.prefix) == Walk(View, key, 0)
      ensures hit.prefix ==> && hit.matchedSegment != null
                             && hit.matchedSegment.Valid() && hit.matchedSegment.Repr <= Repr
                             && Lookup(View, key) == Some(hit.matchedSegment.View)
      ensures !hit.prefix ==> hit.matchedSegment == null
    {
      hit := Match(key, 0, |key|, null);
      assert key[0..|key|] == key;
    }

    /** match(charArray, begin, length): with a new Hit. */
    method MatchSpan(key: seq<char>, begin: int, length: int) returns (hit: Hit)
      requires Valid() && 0 <= begin < |key| && begin + length <= |key|
      ensures fresh(hit) && hit.begin == begin
      ensures length < 1 ==> hit.end == begin && !hit.matched && !hit.prefix
      ensures 1 <= length ==> Walked(hit.end, hit.matched, hit.prefix) == Walk(View, key[begin..begin + length], begin)
      ensures hit.prefix ==>
                && 1 <= length && hit.matchedSegment != null
                && hit.matchedSegment.Valid() && hit.matchedSegment.Repr <= Repr
                && Lookup(View, key[begin..begin + length]) == Some(hit.matchedSegment.View)
      ensures !hit.prefix ==> hit.matchedSegment == null
    {
      hit := Match(key, begin, length, null);
    }

    /** fillSegment(charArray): adds `key` as an enabled word. */
    method FillSegment(key: seq<char>)
      requires Valid() && |key| >= 1
      modifies Repr
      ensures Valid() && fresh(Repr - old(Repr))
      ensures View == Fill(old(View), key, 1)
      ensures storeSize - |Kids| == old(storeSize) - |old(Kids)|
    {
      FillSegmentAt(key, 0, |key|, 1);
      assert key[0..|key|] == key;
    }

    /** disableSegment(charArray): marks `key` as not an enabled word, without
        creating any node. */
    method DisableSegment(key: seq<char>)
      requires Valid() && |key| >= 1
      modifies Repr
      ensures Valid() && fresh(Repr - old(Repr))
      ensures View == Fill(old(View), key, 0)
      ensures storeSize - |Kids| == old(storeSize) - |old(Kids)|
    {
      FillSegmentAt(key, 0, |key|, 0);
      assert key[0..|key|] == key;
    }
  }
}
