// The value a DictSegment subtree stands for, and the meaning of its two
// operations on that value: the walk `fillSegment`/`disableSegment` perform
// (Fill) and the walk `match` performs (Lookup, Reach).
module TrieSpec {
  import opened Wrappers

  /** A subtree: the node's `nodeState` (1 = an enabled word ends here) and its
      children keyed by their `nodeChar`. */
  datatype Trie = Trie(state: int, kids: map<char, Trie>)

  /** A node just built by `new DictSegment(c)`: state 0, no children. */
  const Leaf: Trie := Trie(0, map[])

  /** The node reached by walking `key` one character at a time from `t`. */
  function Lookup(t: Trie, key: seq<char>): Option<Trie>
    decreases |key|
  {
    if key == [] then Some(t)
    else if key[0] in t.kids then Lookup(t.kids[key[0]], key[1..])
    else None
  }

  /** `key` is an enabled word of `t` (match sets MATCH). */
  predicate IsWord(t: Trie, key: seq<char>)
  {
    Lookup(t, key).Some? && Lookup(t, key).value.state == 1
  }

  /** The node reached by `key` has children (match sets PREFIX). */
  predicate IsPrefix(t: Trie, key: seq<char>)
  {
    Lookup(t, key).Some? && Lookup(t, key).value.kids != map[]
  }

  /** How many leading characters of `key` can be walked from `t`. */
  function Reach(t: Trie, key: seq<char>): (n: nat)
    ensures n <= |key|
    ensures n == |key| <==> Lookup(t, key).Some?
    decreases |key|
  {
    if key == [] || key[0] !in t.kids then 0
    else 1 + Reach(t.kids[key[0]], key[1..])
  }

  /** What match leaves in its Hit: the last position looked at, and the
      MATCH and PREFIX flags. */
  datatype Walked = Walked(end: int, matched: bool, prefix: bool)

  /** The walk of `match(key, at, |key|)` from `t`, one character per step:
      it stops at a missing child, and on the last character reports whether
      that node ends an enabled word and whether it has children. */
  function Walk(t: Trie, key: seq<char>, at: int): Walked
    requires |key| >= 1
    decreases |key|
  {
    if key[0] !in t.kids then Walked(at, false, false)
    else if |key| == 1 then Walked(at, t.kids[key[0]].state == 1, t.kids[key[0]].kids != map[])
    else Walk(t.kids[key[0]], key[1..], at + 1)
  }

  /** The walk of `fillSegment(key, 0, |key|, enabled)`: a missing child is
      created only when `enabled == 1`; the last node's state becomes `enabled`. */
  function Fill(t: Trie, key: seq<char>, enabled: int): Trie
    requires |key| >= 1
    decreases |key|
  {
    var c := key[0];
    if c !in t.kids && enabled != 1 then t
    else
      var child := if c in t.kids then t.kids[c] else Leaf;
      var child' := if |key| == 1 then child.(state := enabled)
                    else Fill(child, key[1..], enabled);
      t.(kids := t.kids[c := child'])
  }

  /** Reach stops right at the first character that has no child. */
  lemma {:induction false} ReachStopsAtMissing(t: Trie, key: seq<char>)
    ensures Lookup(t, key[..Reach(t, key)]).Some?
    ensures Reach(t, key) < |key| ==> Lookup(t, key[..Reach(t, key) + 1]).None?
    decreases |key|
  {
    if key != [] && key[0] in t.kids {
      var child, rest := t.kids[key[0]], key[1..];
      ReachStopsAtMissing(child, rest);
      var n := Reach(child, rest);
      assert key[..n + 1][1..] == rest[..n];
      if n < |rest| {
        assert key[..n + 2][1..] == rest[..n + 1];
      }
    }
  }

  /** The meaning of match's walk: it ends on the first character that
      cannot be walked, with neither flag; or, when the whole key can be
      walked, on its last character with MATCH exactly for an enabled word
      and PREFIX exactly for a node with children. */
  lemma {:induction false} WalkMeaning(t: Trie, key: seq<char>, at: int)
    requires |key| >= 1
    ensures Reach(t, key) < |key| ==> Walk(t, key, at) == Walked(at + Reach(t, key), false, false)
    ensures Reach(t, key) == |key| ==>
              Walk(t, key, at) == Walked(at + |key| - 1, IsWord(t, key), IsPrefix(t, key))
    decreases |key|
  {
    if key[0] in t.kids && |key| > 1 {
      WalkMeaning(t.kids[key[0]], key[1..], at + 1);
    } else if key[0] in t.kids {
      assert key[1..] == [];
    }
  }

  /** Walking `a + b` is walking `a`, then `b` from the node reached. */
  lemma {:induction false} LookupConcat(t: Trie, a: seq<char>, b: seq<char>)
    requires Lookup(t, a).Some?
    ensures Lookup(t, a + b) == Lookup(Lookup(t, a).value, b)
    decreases |a|
  {
    if a == [] {
      assert a + b == b;
    } else {
      assert (a + b)[0] == a[0];
      assert (a + b)[1..] == a[1..] + b;
      LookupConcat(t.kids[a[0]], a[1..], b);
    }
  }

  /** Every prefix of a walkable key is walkable. */
  lemma {:induction false} LookupPrefix(t: Trie, key: seq<char>, k: nat)
    requires Lookup(t, key).Some? && k <= |key|
    ensures Lookup(t, key[..k]).Some?
    decreases |key|
  {
    if k > 0 {
      assert key[..k][1..] == key[1..][..k - 1];
      LookupPrefix(t.kids[key[0]], key[1..], k - 1);
    }
  }

  /** Changing a node's state does not change where its children lead. */
  lemma RestateKeepsPaths(t: Trie, e: int, p: seq<char>)
    requires p != []
    ensures Lookup(t.(state := e), p) == Lookup(t, p)
  {
  }

  /** Fill never changes the state of the node it starts from. */
  lemma {:induction false} FillKeepsRootState(t: Trie, key: seq<char>, e: int)
    requires |key| >= 1
    ensures Fill(t, key, e).state == t.state
  {
  }

  /** After the walk, the node at `key` exists (when the walk may create or
      it already existed), carries state `e`, and keeps its old children. */
  lemma {:induction false} FillAtKey(t: Trie, key: seq<char>, e: int)
    requires |key| >= 1
    requires e == 1 || Lookup(t, key).Some?
    ensures Lookup(Fill(t, key, e), key) ==
      Some(Trie(e, if Lookup(t, key).Some? then Lookup(t, key).value.kids else map[]))
    decreases |key|
  {
    var c := key[0];
    var child := if c in t.kids then t.kids[c] else Leaf;
    var f := Fill(t, key, e);
    assert f.kids[c] == if |key| == 1 then child.(state := e) else Fill(child, key[1..], e);
    if |key| > 1 {
      assert Lookup(child, key[1..]) == (if c in t.kids then Lookup(t, key) else None) by {
        if c !in t.kids {
          assert Lookup(Leaf, key[1..]) == None;
        }
      }
      FillAtKey(child, key[1..], e);
    }
  }

  /** Disabling a word that is not in the trie leaves the trie as it was. */
  lemma {:induction false} FillAbsentDisabled(t: Trie, key: seq<char>, e: int)
    requires |key| >= 1 && e != 1 && Lookup(t, key).None?
    ensures Fill(t, key, e) == t
    decreases |key|
  {
    var c := key[0];
    if c in t.kids {
      var child := t.kids[c];
      assert |key| > 1;
      FillAbsentDisabled(child, key[1..], e);
      assert t.kids[c := child] == t.kids;
    }
  }

  /** Any node other than the one at `key` that existed before still exists,
      keeps its state, and keeps every child it had (fill only appends). */
  lemma {:induction false} FillElsewhere(t: Trie, key: seq<char>, e: int, p: seq<char>)
    requires |key| >= 1 && p != key && Lookup(t, p).Some?
    ensures Lookup(Fill(t, key, e), p).Some?
    ensures Lookup(Fill(t, key, e), p).value.state == Lookup(t, p).value.state
    ensures Lookup(t, p).value.kids.Keys <= Lookup(Fill(t, key, e), p).value.kids.Keys
    decreases |key|
  {
    var c := key[0];
    if p != [] && !(c !in t.kids && e != 1) {
      var d := p[0];
      if d == c {
        var child := t.kids[c];
        if |key| == 1 {
          RestateKeepsPaths(child, e, p[1..]);
        } else {
          assert p == [c] + p[1..] && key == [c] + key[1..];
          FillElsewhere(child, key[1..], e, p[1..]);
        }
      }
    }
  }

  /** A node that did not exist before the walk exists afterwards only when the
      walk creates (`e == 1`) and it lies on `key`; only the one at `key` itself
      is a word. */
  lemma {:induction false} FillNewPaths(t: Trie, key: seq<char>, e: int, p: seq<char>)
    requires |key| >= 1 && Lookup(t, p).None? && Lookup(Fill(t, key, e), p).Some?
    ensures e == 1 && p <= key
    ensures Lookup(Fill(t, key, e), p).value.state == if p == key then 1 else 0
    decreases |key|
  {
    var c := key[0];
    var f := Fill(t, key, e);
    assert p != [];
    if c !in t.kids && e != 1 {
      assert false;
    } else if p[0] != c {
      assert false;
    } else {
      var child := if c in t.kids then t.kids[c] else Leaf;
      var prest := p[1..];
      if c !in t.kids && prest == [] {
        if |key| > 1 {
          FillKeepsRootState(Leaf, key[1..], e);
        }
        assert p == [c];
      } else if |key| == 1 {
        RestateKeepsPaths(child, e, prest);
        assert false;
      } else {
        FillNewPaths(child, key[1..], e, prest);
        assert p == [c] + prest && key == [c] + key[1..];
      }
    }
  }

  /** After `fillSegment(w)`, `match(w)` walks to the last character of `w`
      and reports MATCH; it reports PREFIX exactly when `w` already led to a
      node with children. */
  lemma FillThenMatch(t: Trie, w: seq<char>, at: int)
    requires |w| >= 1
    ensures Walk(Fill(t, w, 1), w, at) == Walked(at + |w| - 1, true, IsPrefix(t, w))
  {
    FillAtKey(t, w, 1);
    WalkMeaning(Fill(t, w, 1), w, at);
  }

  /** After `disableSegment(w)`, `match(w)` no longer reports MATCH, and it
      still reports PREFIX exactly when it did before, so longer words
      through `w` stay reachable; the walk ends where it ended before. */
  lemma DisableThenMatch(t: Trie, w: seq<char>, at: int)
    requires |w| >= 1
    ensures !Walk(Fill(t, w, 0), w, at).matched
    ensures Walk(Fill(t, w, 0), w, at).prefix == Walk(t, w, at).prefix
    ensures Walk(Fill(t, w, 0), w, at).end == Walk(t, w, at).end
  {
    WalkMeaning(t, w, at);
    if Lookup(t, w).Some? {
      FillAtKey(t, w, 0);
      WalkMeaning(Fill(t, w, 0), w, at);
    } else {
      FillAbsentDisabled(t, w, 0);
    }
  }

  /** `disableSegment` never creates a node. */
  lemma DisableCreatesNoNode(t: Trie, w: seq<char>, p: seq<char>)
    requires |w| >= 1
    ensures Lookup(Fill(t, w, 0), p).Some? <==> Lookup(t, p).Some?
  {
    if Lookup(t, p).Some? {
      if p == w {
        FillAtKey(t, w, 0);
      } else {
        FillElsewhere(t, w, 0, p);
      }
    } else if Lookup(Fill(t, w, 0), p).Some? {
      FillNewPaths(t, w, 0, p);
    }
  }

  /** Filling a word that is already a path of the trie adds no node. */
  lemma RefillCreatesNoNode(t: Trie, w: seq<char>, e: int, p: seq<char>)
    requires |w| >= 1 && Lookup(t, w).Some?
    ensures Lookup(Fill(t, w, e), p).Some? <==> Lookup(t, p).Some?
  {
    if Lookup(t, p).Some? {
      if p == w {
        FillAtKey(t, w, e);
      } else {
        FillElsewhere(t, w, e, p);
      }
    } else if Lookup(Fill(t, w, e), p).Some? {
      FillNewPaths(t, w, e, p);
      LookupPrefix(t, w, |p|);
    }
  }

  /** Filling or disabling `w` leaves whether any other key is a word untouched. */
  lemma FillKeepsOtherWords(t: Trie, w: seq<char>, e: int, p: seq<char>)
    requires |w| >= 1 && p != w
    ensures IsWord(Fill(t, w, e), p) <==> IsWord(t, p)
  {
    if Lookup(t, p).Some? {
      FillElsewhere(t, w, e, p);
    } else if Lookup(Fill(t, w, e), p).Some? {
      FillNewPaths(t, w, e, p);
    }
  }

  /** The flags of match's walk, read off the trie: MATCH exactly for an
      enabled word, PREFIX exactly for a node with children. */
  lemma WalkFlags(t: Trie, key: seq<char>, at: int)
    requires |key| >= 1
    ensures Walk(t, key, at).matched <==> IsWord(t, key)
    ensures Walk(t, key, at).prefix <==> IsPrefix(t, key)
  {
    WalkMeaning(t, key, at);
  }

  /** Going on from the node a prefix hit stopped at, by one more character,
      reports what matching the longer key from the root reports. */
  lemma ContinueWalk(t: Trie, w: seq<char>, n: Trie, c: char, at: int)
    requires Lookup(t, w) == Some(n)
    ensures Walk(n, [c], at).matched <==> IsWord(t, w + [c])
    ensures Walk(n, [c], at).prefix <==> IsPrefix(t, w + [c])
  {
    WalkFlags(n, [c], at);
    LookupConcat(t, w, [c]);
  }

  /** Every key of `ws` is a key `fillSegment` accepts. */
  predicate Keys(ws: seq<seq<char>>)
  {
    forall i | 0 <= i < |ws| :: |ws[i]| >= 1
  }

  /** The trie after `fillSegment` (e = 1) or `disableSegment` (e = 0) of
      each key of `ws` in turn. */
  function FillAll(t: Trie, ws: seq<seq<char>>, e: int): Trie
    requires Keys(ws)
    decreases |ws|
  {
    if ws == [] then t else Fill(FillAll(t, ws[..|ws| - 1], e), ws[|ws| - 1], e)
  }

  /** One more key filled after `ws`. */
  lemma FillAllSnoc(t: Trie, ws: seq<seq<char>>, w: seq<char>, e: int)
    requires Keys(ws) && |w| >= 1
    ensures Keys(ws + [w]) && FillAll(t, ws + [w], e) == Fill(FillAll(t, ws, e), w, e)
  {
    assert (ws + [w])[..|ws|] == ws;
  }

  /** A trie built from empty by filling `ws` holds exactly the words of `ws`. */
  lemma BuiltWords(ws: seq<seq<char>>, p: seq<char>)
    requires Keys(ws)
    ensures IsWord(FillAll(Leaf, ws, 1), p) <==> p in ws
  {
    FillAllWords(Leaf, ws, 1, p);
    if p != [] {
      assert Lookup(Leaf, p) == None;
    }
  }

  /** Filling `a` and then `b` is filling `a + b`. */
  lemma {:induction false} FillAllAppend(t: Trie, a: seq<seq<char>>, b: seq<seq<char>>, e: int)
    requires Keys(a) && Keys(b)
    ensures Keys(a + b) && FillAll(t, a + b, e) == FillAll(FillAll(t, a, e), b, e)
    decreases |b|
  {
    if b == [] {
      assert a + b == a;
    } else {
      var b0 := b[..|b| - 1];
      assert (a + b)[..|a + b| - 1] == a + b0;
      FillAllAppend(t, a, b0, e);
    }
  }

  /** After filling (or disabling) every key of `ws`, a key is an enabled
      word exactly when it is one of `ws` and they were filled, or it is
      not one of them and it was a word before. */
  lemma {:induction false} FillAllWords(t: Trie, ws: seq<seq<char>>, e: int, p: seq<char>)
    requires Keys(ws) && (e == 0 || e == 1)
    ensures IsWord(FillAll(t, ws, e), p) <==> if p in ws then e == 1 else IsWord(t, p)
    decreases |ws|
  {
    if ws != [] {
      var init, w := ws[..|ws| - 1], ws[|ws| - 1];
      var before := FillAll(t, init, e);
      FillAllWords(t, init, e, p);
      assert p in ws <==> p in init || p == w by {
        assert ws == init + [w];
      }
      if p == w {
        if e == 1 || Lookup(before, w).Some? {
          FillAtKey(before, w, e);
        } else {
          FillAbsentDisabled(before, w, e);
        }
      } else {
        FillKeepsOtherWords(before, w, e, p);
      }
    }
  }
}
