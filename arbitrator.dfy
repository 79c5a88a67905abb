// Model of the ambiguity arbitrator (IKArbitrator): the ordered candidate
// lexemes are gathered into cross paths of lexemes that overlap; a cross path
// is resolved, in smart mode, by a greedy forward pass, a stack of the
// lexemes that conflicted with it, and one rolled-back alternative per
// conflict, of which the least under the path ordering is kept.
//
// A lexeme is its offset range; a lexeme path is the sequence of its lexemes
// in candidate order, and it is crossed by a lexeme that meets the range from
// its first lexeme's start to its furthest end. The ordering of paths is a
// parameter: it is only required to be a strict order.

module Arbitrator {

  /** A candidate token: where it starts in the whole text and how long it is. */
  datatype Lexeme = Lexeme(begin: int, length: int)

  function End(l: Lexeme): int {
    l.begin + l.length
  }

  predicate ValidLexeme(l: Lexeme) {
    0 <= l.begin && 0 < l.length
  }

  /** The candidate order: earlier start first, and at the same start the longer first. */
  predicate Before(a: Lexeme, b: Lexeme) {
    a.begin < b.begin || (a.begin == b.begin && a.length > b.length)
  }

  /** Strictly ascending in candidate order, as the candidate set yields its lexemes. */
  predicate Ordered(s: seq<Lexeme>) {
    forall i | 0 <= i < |s| - 1 :: Before(s[i], s[i + 1])
  }

  predicate Overlap(a: Lexeme, b: Lexeme) {
    a.begin < End(b) && b.begin < End(a)
  }

  type LexemePath = seq<Lexeme>

  /** A path without overlaps: valid lexemes, each ending before the next begins. */
  predicate Chain(p: LexemePath) {
    (forall i | 0 <= i < |p| :: ValidLexeme(p[i])) &&
    (forall i | 0 <= i < |p| - 1 :: End(p[i]) <= p[i + 1].begin)
  }

  /** The furthest end of the path's lexemes. */
  function PathEnd(p: LexemePath): (e: int)
    requires p != []
    ensures End(p[0]) <= e && End(p[|p| - 1]) <= e
  {
    if |p| == 1 then End(p[0])
    else
      var e := PathEnd(p[..|p| - 1]);
      if End(p[|p| - 1]) > e then End(p[|p| - 1]) else e
  }

  /** The path's end is the end of one of its lexemes, and no lexeme ends later. */
  lemma {:induction false} PathEndIsMaximum(p: LexemePath)
    requires p != []
    ensures forall i | 0 <= i < |p| :: End(p[i]) <= PathEnd(p)
    ensures exists i | 0 <= i < |p| :: End(p[i]) == PathEnd(p)
  {
    if |p| == 1 {
      assert End(p[0]) == PathEnd(p);
    } else {
      var front := p[..|p| - 1];
      PathEndIsMaximum(front);
      assert forall i | 0 <= i < |front| :: front[i] == p[i];
      var j :| 0 <= j < |front| && End(front[j]) == PathEnd(front);
      if End(p[|p| - 1]) <= PathEnd(front) {
        assert End(p[j]) == PathEnd(p);
      }
    }
  }

  /**
   * LexemePath.checkCross: the lexeme meets the path's span; an empty path is
   * crossed by nothing. For valid lexemes this is interval intersection of
   * the lexeme with the span from the first lexeme's start to the path's end.
   */
  predicate CheckCross(p: LexemePath, l: Lexeme)
    ensures CheckCross(p, l) ==> p != []
    ensures p != [] && ValidLexeme(p[0]) && ValidLexeme(l) ==>
              (CheckCross(p, l) <==> p[0].begin < End(l) && l.begin < PathEnd(p))
  {
    p != [] &&
    ((p[0].begin <= l.begin && l.begin < PathEnd(p)) ||
     (l.begin <= p[0].begin && p[0].begin < End(l)))
  }

  /**
   * LexemePath.addCrossLexeme for a lexeme that follows the path's last one
   * in candidate order, where the ordered insertion is an append: an empty
   * path or one the lexeme crosses takes it.
   */
  function AddCrossLexeme(p: LexemePath, l: Lexeme): (r: (bool, LexemePath))
    requires p == [] || Before(p[|p| - 1], l)
    ensures r.0 <==> p == [] || CheckCross(p, l)
    ensures r.0 ==> r.1 == p + [l] && multiset(r.1) == multiset(p) + multiset{l}
    ensures !r.0 ==> r.1 == p
    ensures Ordered(p) ==> Ordered(r.1)
  {
    if p == [] || CheckCross(p, l) then (true, p + [l]) else (false, p)
  }

  /**
   * LexemePath.addNotCrossLexeme: a lexeme that does not cross the path lies
   * wholly after it or wholly before it, and goes to the tail or the head.
   */
  function AddNotCrossLexeme(p: LexemePath, l: Lexeme): (r: (bool, LexemePath))
    ensures r.0 <==> !CheckCross(p, l)
    ensures !r.0 ==> r.1 == p
  {
    if p == [] then (true, [l])
    else if CheckCross(p, l) then (false, p)
    else if PathEnd(p) <= l.begin then (true, p + [l])
    else (true, [l] + p)
  }

  lemma AddNotCrossCounts(p: LexemePath, l: Lexeme)
    ensures var r := AddNotCrossLexeme(p, l); r.0 ==> multiset(r.1) == multiset(p) + multiset{l}
  {
  }

  lemma AddNotCrossFrom(p: LexemePath, l: Lexeme)
    ensures var r := AddNotCrossLexeme(p, l); forall x | x in r.1 :: x in p || x == l
  {
  }

  lemma AddNotCrossChain(p: LexemePath, l: Lexeme)
    requires Chain(p) && ValidLexeme(l)
    ensures Chain(AddNotCrossLexeme(p, l).1)
  {
    if p != [] && !CheckCross(p, l) {
      if PathEnd(p) <= l.begin {
        var q := p + [l];
        assert forall i | 0 <= i < |p| :: q[i] == p[i];
      } else {
        var q := [l] + p;
        assert forall i | 0 < i < |q| :: q[i] == p[i - 1];
      }
    }
  }

  /** LexemePath.removeTail; removing from an empty path leaves it empty. */
  function RemoveTail(p: LexemePath): (r: LexemePath)
    ensures p != [] ==> p == r + [p[|p| - 1]]
    ensures p == [] ==> r == []
  {
    if p == [] then [] else p[..|p| - 1]
  }

  /** A chain's furthest end is its last lexeme's end. */
  lemma {:induction false} ChainEnd(p: LexemePath)
    requires p != [] && Chain(p)
    ensures PathEnd(p) == End(p[|p| - 1])
    decreases |p|
  {
    if |p| > 1 {
      var q := p[..|p| - 1];
      assert Chain(q) by {
        assert forall i | 0 <= i < |q| :: q[i] == p[i];
      }
      ChainEnd(q);
      assert End(q[|q| - 1]) <= p[|p| - 1].begin < End(p[|p| - 1]);
    }
  }

  /** No two lexemes of a chain overlap. */
  lemma {:induction false} ChainDisjoint(p: LexemePath, i: int, j: int)
    requires Chain(p) && 0 <= i < j < |p|
    ensures !Overlap(p[i], p[j])
    ensures End(p[i]) <= p[j].begin
    decreases j - i
  {
    if i + 1 < j {
      ChainDisjoint(p, i + 1, j);
    }
  }

  // ---------------------------------------------------------------------------
  // backPath

  /** The rollback: drop tail lexemes while the path crosses `l`. */
  function Back(l: Lexeme, option: LexemePath): (r: LexemePath)
    ensures !CheckCross(r, l)
    ensures r <= option
    ensures forall k | |r| < k <= |option| :: CheckCross(option[..k], l)
    decreases |option|
  {
    if CheckCross(option, l) then
      var r := Back(l, RemoveTail(option));
      assert forall k | |r| < k <= |option| - 1 :: option[..k] == RemoveTail(option)[..k];
      assert option[..|option|] == option;
      r
    else option
  }

  /** backPath: remove tail lexemes until the option no longer crosses `l`. */
  method BackPath(l: Lexeme, option: LexemePath) returns (r: LexemePath)
    ensures r == Back(l, option)
  {
    r := option;
    while CheckCross(r, l)
      invariant Back(l, r) == Back(l, option)
      decreases |r|
    {
      r := RemoveTail(r);
    }
  }

  /** Rolling back keeps a chain a chain, and only drops lexemes. */
  lemma BackKeepsChain(l: Lexeme, option: LexemePath)
    requires Chain(option)
    ensures Chain(Back(l, option))
    ensures forall x | x in Back(l, option) :: x in option
  {
    PrefixChain(option, Back(l, option));
  }

  lemma PrefixChain(p: LexemePath, q: LexemePath)
    requires Chain(p) && q <= p
    ensures Chain(q) && forall x | x in q :: x in p
  {
    assert forall i | 0 <= i < |q| :: q[i] == p[i];
  }

  // ---------------------------------------------------------------------------
  // forwardPath

  /** The lexemes at the given cells. */
  function Picked(cells: seq<Lexeme>, idx: seq<nat>): (r: seq<Lexeme>)
    requires forall k | 0 <= k < |idx| :: idx[k] < |cells|
    ensures |r| == |idx|
  {
    if idx == [] then [] else [cells[idx[0]]] + Picked(cells, idx[1..])
  }

  /** What a forward pass returns: the conflict stack (top last) and the option it leaves. */
  datatype Pass = Pass(conflicts: seq<nat>, option: LexemePath)

  /** The forward pass from cell `i` to the end, as a function of the option it starts from. */
  function Forward(cells: seq<Lexeme>, i: nat, option: LexemePath): (r: Pass)
    ensures forall k | 0 <= k < |r.conflicts| :: i <= r.conflicts[k] < |cells|
    decreases |cells| - i
  {
    if i >= |cells| then Pass([], option)
    else
      var (ok, o) := AddNotCrossLexeme(option, cells[i]);
      var rest := Forward(cells, i + 1, o);
      Pass(if ok then rest.conflicts else [i] + rest.conflicts, rest.option)
  }

  /** forwardPath: offer every cell from `from` on to the option; push each one it refuses. */
  method ForwardPath(cells: seq<Lexeme>, from: nat, option: LexemePath)
    returns (conflicts: seq<nat>, option': LexemePath)
    requires from <= |cells|
    ensures Pass(conflicts, option') == Forward(cells, from, option)
  {
    conflicts, option' := [], option;
    var i: nat := from;
    while i < |cells|
      invariant from <= i <= |cells|
      invariant Forward(cells, from, option) ==
        Pass(conflicts + Forward(cells, i, option').conflicts, Forward(cells, i, option').option)
      decreases |cells| - i
    {
      var added := AddNotCrossLexeme(option', cells[i]);
      ForwardStep(cells, i, option', conflicts);
      conflicts, option' := if added.0 then conflicts else conflicts + [i], added.1;
      i := i + 1;
    }
    ForwardDone(cells, option', conflicts);
  }

  /** The lexemes a pass leaves in the option and on the stack, together. */
  function Accounted(cells: seq<Lexeme>, r: Pass): multiset<Lexeme>
    requires forall k | 0 <= k < |r.conflicts| :: r.conflicts[k] < |cells|
  {
    multiset(r.option) + multiset(Picked(cells, r.conflicts))
  }

  /**
   * Every cell from `i` on is either added to the option or pushed on the
   * conflict stack, and not both.
   */
  lemma {:induction false} ForwardAccounts(cells: seq<Lexeme>, i: nat, option: LexemePath)
    requires i <= |cells|
    ensures Accounted(cells, Forward(cells, i, option)) == multiset(option) + multiset(cells[i..])
    decreases |cells| - i
  {
    if i < |cells| {
      var added := AddNotCrossLexeme(option, cells[i]);
      ForwardAccounts(cells, i + 1, added.1);
      if added.0 {
        AccountTaken(cells, i, option);
      } else {
        AccountRefused(cells, i, option);
      }
    }
  }

  /** A cell the option takes moves from the remaining cells into the option. */
  lemma AccountTaken(cells: seq<Lexeme>, i: nat, option: LexemePath)
    requires i < |cells| && AddNotCrossLexeme(option, cells[i]).0
    requires var o := AddNotCrossLexeme(option, cells[i]).1;
      Accounted(cells, Forward(cells, i + 1, o)) == multiset(o) + multiset(cells[i + 1..])
    ensures Accounted(cells, Forward(cells, i, option)) == multiset(option) + multiset(cells[i..])
  {
    var o := AddNotCrossLexeme(option, cells[i]).1;
    AddNotCrossCounts(option, cells[i]);
    ForwardTakes(cells, i, option);
    Regroup(multiset(option), multiset{cells[i]}, multiset(cells[i + 1..]), multiset(o));
    CellsFrom(cells, i);
  }

  /** A cell the option refuses moves from the remaining cells onto the stack. */
  lemma AccountRefused(cells: seq<Lexeme>, i: nat, option: LexemePath)
    requires i < |cells| && !AddNotCrossLexeme(option, cells[i]).0
    requires Accounted(cells, Forward(cells, i + 1, option)) == multiset(option) + multiset(cells[i + 1..])
    ensures Accounted(cells, Forward(cells, i, option)) == multiset(option) + multiset(cells[i..])
  {
    var rest := Forward(cells, i + 1, option);
    ForwardRefuses(cells, i, option);
    PickedCons(cells, i, rest.conflicts);
    Regroup(multiset(rest.option) + multiset(Picked(cells, rest.conflicts)), multiset{cells[i]},
      multiset{}, multiset(rest.option) + multiset(Picked(cells, [i] + rest.conflicts)));
    Regroup(multiset(option), multiset{cells[i]}, multiset(cells[i + 1..]),
      multiset(option) + multiset{cells[i]});
    CellsFrom(cells, i);
  }

  /** One cell of the forward pass, seen from the stack pushed so far. */
  lemma ForwardStep(cells: seq<Lexeme>, i: nat, option: LexemePath, pushed: seq<nat>)
    requires i < |cells|
    ensures var a := AddNotCrossLexeme(option, cells[i]);
      var pushed' := if a.0 then pushed else pushed + [i];
      Pass(pushed + Forward(cells, i, option).conflicts, Forward(cells, i, option).option) ==
      Pass(pushed' + Forward(cells, i + 1, a.1).conflicts, Forward(cells, i + 1, a.1).option)
  {
    if AddNotCrossLexeme(option, cells[i]).0 {
      ForwardTakes(cells, i, option);
    } else {
      ForwardRefuses(cells, i, option);
      assert pushed + ([i] + Forward(cells, i + 1, option).conflicts)
          == (pushed + [i]) + Forward(cells, i + 1, option).conflicts;
    }
  }

  lemma ForwardDone(cells: seq<Lexeme>, option: LexemePath, pushed: seq<nat>)
    ensures Pass(pushed + Forward(cells, |cells|, option).conflicts, Forward(cells, |cells|, option).option)
      == Pass(pushed, option)
  {
    assert pushed + [] == pushed;
  }

  lemma ForwardTakes(cells: seq<Lexeme>, i: nat, option: LexemePath)
    requires i < |cells| && AddNotCrossLexeme(option, cells[i]).0
    ensures Forward(cells, i, option) == Forward(cells, i + 1, AddNotCrossLexeme(option, cells[i]).1)
  {
  }

  lemma ForwardRefuses(cells: seq<Lexeme>, i: nat, option: LexemePath)
    requires i < |cells| && !AddNotCrossLexeme(option, cells[i]).0
    ensures Forward(cells, i, option) ==
      Pass([i] + Forward(cells, i + 1, option).conflicts, Forward(cells, i + 1, option).option)
  {
  }

  lemma PickedCons(cells: seq<Lexeme>, i: nat, idx: seq<nat>)
    requires i < |cells| && forall k | 0 <= k < |idx| :: idx[k] < |cells|
    ensures multiset(Picked(cells, [i] + idx)) == multiset{cells[i]} + multiset(Picked(cells, idx))
  {
    assert ([i] + idx)[1..] == idx;
  }

  lemma CellsFrom(cells: seq<Lexeme>, i: nat)
    requires i < |cells|
    ensures multiset(cells[i..]) == multiset{cells[i]} + multiset(cells[i + 1..])
  {
    assert cells[i..] == [cells[i]] + cells[i + 1..];
  }

  lemma Regroup(a: multiset<Lexeme>, x: multiset<Lexeme>, b: multiset<Lexeme>, c: multiset<Lexeme>)
    requires c == a + x
    ensures c + b == a + (x + b)
  {
  }

  /** A forward pass over valid cells keeps a chain a chain, built from the option and the cells. */
  lemma {:induction false} ForwardKeepsChain(cells: seq<Lexeme>, i: nat, option: LexemePath)
    requires Chain(option)
    requires forall k | 0 <= k < |cells| :: ValidLexeme(cells[k])
    ensures Chain(Forward(cells, i, option).option)
    ensures forall x | x in Forward(cells, i, option).option :: x in option || x in cells
    decreases |cells| - i
  {
    if i < |cells| {
      var o := AddNotCrossLexeme(option, cells[i]).1;
      AddNotCrossChain(option, cells[i]);
      AddNotCrossFrom(option, cells[i]);
      ForwardKeepsChain(cells, i + 1, o);
    }
  }

  /** The next cell of a chain does not cross the cells before it and goes to the tail. */
  lemma ChainTakesNext(cells: seq<Lexeme>, i: nat)
    requires Chain(cells) && i < |cells|
    ensures AddNotCrossLexeme(cells[..i], cells[i]) == (true, cells[..i + 1])
  {
    var p := cells[..i];
    assert cells[..i + 1] == p + [cells[i]];
    if i == 0 {
      assert p == [];
      assert AddNotCrossLexeme(p, cells[i]).1 == [cells[0]] == cells[..1];
    } else {
      assert Chain(p) by {
        assert forall k | 0 <= k < |p| :: p[k] == cells[k];
      }
      ChainEnd(p);
      ChainDisjoint(cells, 0, i);
      ChainDisjoint(cells, i - 1, i);
      assert p[0] == cells[0] && p[i - 1] == cells[i - 1];
      assert PathEnd(p) <= cells[i].begin;
      assert !CheckCross(p, cells[i]);
    }
  }

  /** Over cells that already form a chain, the forward pass takes them all and meets no conflict. */
  lemma {:induction false} ForwardOverChain(cells: seq<Lexeme>, i: nat)
    requires Chain(cells) && i <= |cells|
    ensures Forward(cells, i, cells[..i]) == Pass([], cells)
    decreases |cells| - i
  {
    if i < |cells| {
      ChainTakesNext(cells, i);
      ForwardOverChain(cells, i + 1);
    } else {
      assert cells[..i] == cells;
    }
  }

  // ---------------------------------------------------------------------------
  // judge

  /** The alternatives judge records after the first one: pop a conflict, roll back, go forward again. */
  function Rollouts(cells: seq<Lexeme>, stack: seq<nat>, option: LexemePath): (r: seq<LexemePath>)
    requires forall k | 0 <= k < |stack| :: stack[k] < |cells|
    ensures |r| == |stack|
    decreases |stack|
  {
    if stack == [] then []
    else
      var c := stack[|stack| - 1];
      var o := Forward(cells, c, Back(cells[c], option)).option;
      [o] + Rollouts(cells, stack[..|stack| - 1], o)
  }

  /** Every candidate path judge records for a cross path, in the order it records them. */
  function Options(cells: seq<Lexeme>): (r: seq<LexemePath>)
    ensures |r| == 1 + |Forward(cells, 0, []).conflicts|
  {
    var first := Forward(cells, 0, []);
    [first.option] + Rollouts(cells, first.conflicts, first.option)
  }

  /** A strict order on paths, as the path ordering of the candidate set is assumed to be. */
  ghost predicate StrictOrder(less: (LexemePath, LexemePath) -> bool) {
    (forall a :: !less(a, a)) &&
    (forall a, b, c :: less(a, b) && less(b, c) ==> less(a, c))
  }

  /**
   * The first element of an ordered set filled with `options` in turn: a
   * later element displaces the least so far only when it is strictly less.
   */
  function Least(options: seq<LexemePath>, less: (LexemePath, LexemePath) -> bool): (m: LexemePath)
    requires options != []
    ensures m in options
    decreases |options|
  {
    if |options| == 1 then options[0]
    else
      var m := Least(options[..|options| - 1], less);
      var y := options[|options| - 1];
      if less(y, m) then y else m
  }

  /** Under a strict order, nothing recorded is less than the path kept. */
  lemma {:induction false} LeastIsMinimal(options: seq<LexemePath>, less: (LexemePath, LexemePath) -> bool)
    requires options != [] && StrictOrder(less)
    ensures forall o | o in options :: !less(o, Least(options, less))
    decreases |options|
  {
    if |options| > 1 {
      var front := options[..|options| - 1];
      LeastIsMinimal(front, less);
      assert options == front + [options[|options| - 1]];
    }
  }

  /** One turn of judge's loop: roll the option back until it takes cell `c`, then go forward from `c`. */
  method Rollout(cells: seq<Lexeme>, c: nat, option: LexemePath) returns (option': LexemePath)
    requires c < |cells|
    ensures option' == Forward(cells, c, Back(cells[c], option)).option
  {
    option' := BackPath(cells[c], option);
    var discarded;
    discarded, option' := ForwardPath(cells, c, option');
  }

  /** judge: the least of the recorded candidate paths. */
  method Judge(cells: seq<Lexeme>, less: (LexemePath, LexemePath) -> bool) returns (best: LexemePath)
    ensures best == Least(Options(cells), less)
  {
    var stack: seq<nat>, option: LexemePath := ForwardPath(cells, 0, []);
    var pathOptions := [option];
    while stack != []
      invariant forall k | 0 <= k < |stack| :: stack[k] < |cells|
      invariant pathOptions != []
      invariant pathOptions + Rollouts(cells, stack, option) == Options(cells)
      decreases |stack|
    {
      var c := stack[|stack| - 1];
      RolloutsPop(cells, stack, option, pathOptions);
      stack := stack[..|stack| - 1];
      option := Rollout(cells, c, option);
      pathOptions := pathOptions + [option];
    }
    assert pathOptions == Options(cells);
    best := Least(pathOptions, less);
  }

  lemma RolloutsPop(cells: seq<Lexeme>, stack: seq<nat>, option: LexemePath, recorded: seq<LexemePath>)
    requires stack != [] && forall k | 0 <= k < |stack| :: stack[k] < |cells|
    ensures var c := stack[|stack| - 1];
      var o := Forward(cells, c, Back(cells[c], option)).option;
      recorded + Rollouts(cells, stack, option) == (recorded + [o]) + Rollouts(cells, stack[..|stack| - 1], o)
  {
  }

  /** Every alternative of a rollout chain is a chain over the cells' lexemes. */
  lemma {:induction false} RolloutsAreChains(cells: seq<Lexeme>, stack: seq<nat>, option: LexemePath)
    requires forall k | 0 <= k < |stack| :: stack[k] < |cells|
    requires forall k | 0 <= k < |cells| :: ValidLexeme(cells[k])
    requires Chain(option) && forall x | x in option :: x in cells
    ensures forall o | o in Rollouts(cells, stack, option) :: Chain(o) && forall x | x in o :: x in cells
    decreases |stack|
  {
    if stack != [] {
      var c := stack[|stack| - 1];
      var b := Back(cells[c], option);
      BackKeepsChain(cells[c], option);
      ForwardKeepsChain(cells, c, b);
      var o := Forward(cells, c, b).option;
      RolloutsAreChains(cells, stack[..|stack| - 1], o);
    }
  }

  /** Every candidate path judge records has no overlapping lexemes and uses only the cross path's lexemes. */
  lemma OptionsAreChains(cells: seq<Lexeme>)
    requires forall k | 0 <= k < |cells| :: ValidLexeme(cells[k])
    ensures forall o | o in Options(cells) :: Chain(o) && forall x | x in o :: x in cells
  {
    var first := Forward(cells, 0, []);
    ForwardKeepsChain(cells, 0, []);
    RolloutsAreChains(cells, first.conflicts, first.option);
  }

  /** What judge returns: a recorded path, without overlaps, that no recorded path beats. */
  lemma JudgeResult(cells: seq<Lexeme>, less: (LexemePath, LexemePath) -> bool)
    requires forall k | 0 <= k < |cells| :: ValidLexeme(cells[k])
    requires StrictOrder(less)
    ensures Least(Options(cells), less) in Options(cells)
    ensures Chain(Least(Options(cells), less))
    ensures forall o | o in Options(cells) :: !less(o, Least(Options(cells), less))
  {
    OptionsAreChains(cells);
    LeastIsMinimal(Options(cells), less);
  }

  /** A cross path that has no overlaps is its own only candidate, so judge returns it. */
  lemma JudgeChain(cells: seq<Lexeme>, less: (LexemePath, LexemePath) -> bool)
    requires Chain(cells)
    ensures Options(cells) == [cells]
    ensures Least(Options(cells), less) == cells
  {
    ForwardOverChain(cells, 0);
    assert cells[..0] == [];
  }

  // ---------------------------------------------------------------------------
  // process

  /** The cross paths closed so far and the one still open. */
  datatype Gathered = Gathered(closed: seq<LexemePath>, open: LexemePath)

  /** Feeding the candidates to the open cross path in order; one that does not cross it closes it. */
  function Gather(s: seq<Lexeme>): (g: Gathered)
    requires Ordered(s)
    ensures s == [] <==> g.open == []
    ensures s != [] ==> g.open[|g.open| - 1] == s[|s| - 1]
    decreases |s|
  {
    if s == [] then Gathered([], [])
    else
      var front := s[..|s| - 1];
      assert Ordered(front) by {
        assert forall i | 0 <= i < |front| :: front[i] == s[i];
      }
      var g := Gather(front);
      var l := s[|s| - 1];
      var (ok, p) := AddCrossLexeme(g.open, l);
      if ok then Gathered(g.closed, p) else Gathered(g.closed + [g.open], AddCrossLexeme([], l).1)
  }

  /** All cross paths of the candidates: the closed ones, then the last one. */
  function CrossPaths(s: seq<Lexeme>): (r: seq<LexemePath>)
    requires Ordered(s)
    ensures r != []
    ensures s == [] <==> r[|r| - 1] == []
    ensures s != [] ==> r[|r| - 1][|r[|r| - 1]| - 1] == s[|s| - 1]
  {
    Gather(s).closed + [Gather(s).open]
  }

  /** How one cross path is output: unchanged with one lexeme or outside smart mode, judged otherwise. */
  function Resolve(p: LexemePath, useSmart: bool, less: (LexemePath, LexemePath) -> bool): (r: LexemePath)
    ensures |p| == 1 || !useSmart ==> r == p
    ensures |p| != 1 && useSmart ==> r in Options(p)
  {
    if |p| == 1 || !useSmart then p else Least(Options(p), less)
  }

  function ResolveAll(ps: seq<LexemePath>, useSmart: bool, less: (LexemePath, LexemePath) -> bool)
    : (r: seq<LexemePath>)
    ensures |r| == |ps|
    ensures forall k | 0 <= k < |ps| :: r[k] == Resolve(ps[k], useSmart, less)
  {
    if ps == [] then [] else ResolveAll(ps[..|ps| - 1], useSmart, less) + [Resolve(ps[|ps| - 1], useSmart, less)]
  }

  /** The output step process takes for a closed cross path, before the loop and after it. */
  method Emit(crossPath: LexemePath, useSmart: bool, less: (LexemePath, LexemePath) -> bool)
    returns (r: LexemePath)
    ensures r == Resolve(crossPath, useSmart, less)
  {
    if |crossPath| == 1 || !useSmart {
      r := crossPath;
    } else {
      r := Judge(crossPath, less);
    }
  }

  /** process: drain the candidates into cross paths and output each one resolved, the last one too. */
  method Process(cands: seq<Lexeme>, useSmart: bool, less: (LexemePath, LexemePath) -> bool)
    returns (paths: seq<LexemePath>)
    requires Ordered(cands)
    ensures paths == ResolveAll(CrossPaths(cands), useSmart, less)
  {
    paths := [];
    var crossPath: LexemePath := [];
    ghost var closed: seq<LexemePath> := [];
    var i := 0;
    while i < |cands|
      invariant 0 <= i <= |cands|
      invariant Ordered(cands[..i])
      invariant Gather(cands[..i]) == Gathered(closed, crossPath)
      invariant paths == ResolveAll(closed, useSmart, less)
      decreases |cands| - i
    {
      var orgLexeme := cands[i];
      GatherNext(cands, i);
      var added := AddCrossLexeme(crossPath, orgLexeme);
      if !added.0 {
        var judged := Emit(crossPath, useSmart, less);
        ResolveAllSnoc(closed, crossPath, useSmart, less);
        paths := paths + [judged];
        closed := closed + [crossPath];
        crossPath := [orgLexeme];
      } else {
        crossPath := added.1;
      }
      i := i + 1;
    }
    assert cands[..i] == cands;
    var judged := Emit(crossPath, useSmart, less);
    ResolveAllSnoc(closed, crossPath, useSmart, less);
    paths := paths + [judged];
  }

  lemma ResolveAllSnoc(ps: seq<LexemePath>, p: LexemePath, useSmart: bool, less: (LexemePath, LexemePath) -> bool)
    ensures ResolveAll(ps + [p], useSmart, less) == ResolveAll(ps, useSmart, less) + [Resolve(p, useSmart, less)]
  {
    assert (ps + [p])[..|ps|] == ps;
  }

  lemma OrderedPrefix(s: seq<Lexeme>, n: nat)
    requires Ordered(s) && n <= |s|
    ensures Ordered(s[..n])
  {
    assert forall i | 0 <= i < n :: s[..n][i] == s[i];
  }

  /** One more candidate: it joins the open cross path if it crosses it, and opens a new one otherwise. */
  lemma GatherStep(s: seq<Lexeme>)
    requires Ordered(s) && s != []
    ensures Ordered(s[..|s| - 1])
    ensures var g, l := Gather(s[..|s| - 1]), s[|s| - 1];
      Gather(s) == if AddCrossLexeme(g.open, l).0 then Gathered(g.closed, g.open + [l])
                   else Gathered(g.closed + [g.open], [l])
  {
    OrderedPrefix(s, |s| - 1);
    assert AddCrossLexeme([], s[|s| - 1]).1 == [s[|s| - 1]];
  }

  /** GatherStep for the prefixes process walks through. */
  lemma GatherNext(s: seq<Lexeme>, i: nat)
    requires Ordered(s) && i < |s|
    ensures Ordered(s[..i]) && Ordered(s[..i + 1])
    ensures var g, l := Gather(s[..i]), s[i];
      Gather(s[..i + 1]) == if AddCrossLexeme(g.open, l).0 then Gathered(g.closed, g.open + [l])
                            else Gathered(g.closed + [g.open], [l])
  {
    OrderedPrefix(s, i + 1);
    assert s[..i + 1][..i] == s[..i];
    GatherStep(s[..i + 1]);
  }

  /** Concatenation of a sequence of paths. */
  function Flatten(ps: seq<LexemePath>): seq<Lexeme> {
    if ps == [] then [] else Flatten(ps[..|ps| - 1]) + ps[|ps| - 1]
  }

  /** Every candidate lands in exactly one cross path, in the order it was drawn. */
  lemma {:induction false} CrossPathsPartition(s: seq<Lexeme>)
    requires Ordered(s)
    ensures Flatten(CrossPaths(s)) == s
    decreases |s|
  {
    if s != [] {
      var front, l := s[..|s| - 1], s[|s| - 1];
      CrossPathsStep(s);
      CrossPathsPartition(front);
      var g := Gather(front);
      var cf := CrossPaths(front);
      SplitLast(s);
      if AddCrossLexeme(g.open, l).0 {
        FlattenSnoc(g.closed, g.open);
        FlattenSnoc(g.closed, g.open + [l]);
        assert Flatten(CrossPaths(s)) == Flatten(g.closed) + (g.open + [l]);
      } else {
        FlattenSnoc(cf, [l]);
      }
    }
  }

  /** CrossPaths after one more candidate, from the cross paths before it. */
  lemma CrossPathsStep(s: seq<Lexeme>)
    requires Ordered(s) && s != []
    ensures Ordered(s[..|s| - 1])
    ensures var g, l := Gather(s[..|s| - 1]), s[|s| - 1];
      CrossPaths(s[..|s| - 1]) == g.closed + [g.open] &&
      CrossPaths(s) == if AddCrossLexeme(g.open, l).0 then g.closed + [g.open + [l]]
                       else CrossPaths(s[..|s| - 1]) + [[l]]
  {
    GatherStep(s);
  }

  lemma SplitLast(s: seq<Lexeme>)
    requires s != []
    ensures s == s[..|s| - 1] + [s[|s| - 1]]
  {
  }

  lemma FlattenSnoc(ps: seq<LexemePath>, p: LexemePath)
    ensures Flatten(ps + [p]) == Flatten(ps) + p
  {
    assert (ps + [p])[..|ps|] == ps;
  }

  /** Each lexeme of the path crosses the span of the lexemes before it. */
  predicate Linked(p: LexemePath) {
    forall k | 0 < k < |p| :: CheckCross(p[..k], p[k])
  }

  /** A lexeme that crosses a linked path extends it to a linked path. */
  lemma AppendLinked(o: LexemePath, l: Lexeme)
    requires Linked(o) && (o != [] ==> CheckCross(o, l))
    ensures Linked(o + [l])
  {
    var q := o + [l];
    forall k | 0 < k < |q|
      ensures CheckCross(q[..k], q[k])
    {
      if k == |o| {
        assert q[..k] == o;
      } else {
        assert q[..k] == o[..k] && q[k] == o[k];
      }
    }
  }

  /** Within a cross path each lexeme crosses the span of the lexemes before it. */
  lemma {:induction false} CrossPathsLinked(s: seq<Lexeme>)
    requires Ordered(s)
    ensures forall p | p in CrossPaths(s) :: Linked(p)
    decreases |s|
  {
    if s != [] {
      var front, l := s[..|s| - 1], s[|s| - 1];
      CrossPathsStep(s);
      CrossPathsLinked(front);
      var g := Gather(front);
      if AddCrossLexeme(g.open, l).0 {
        AppendLinked(g.open, l);
      }
    }
  }

  /** Consecutive cross paths: the later one is non-empty and its first lexeme does not cross the earlier one. */
  predicate Separated(cs: seq<LexemePath>) {
    forall j | 0 < j < |cs| :: cs[j] != [] && !CheckCross(cs[j - 1], cs[j][0])
  }

  /** Each cross path after the first is non-empty, and its first lexeme does not cross the one before. */
  lemma {:induction false} CrossPathsSeparate(s: seq<Lexeme>)
    requires Ordered(s)
    ensures Separated(CrossPaths(s))
    decreases |s|
  {
    if s != [] {
      var front, l := s[..|s| - 1], s[|s| - 1];
      CrossPathsStep(s);
      CrossPathsSeparate(front);
      var g := Gather(front);
      if AddCrossLexeme(g.open, l).0 {
        SeparatedGrowLast(g.closed, g.open, l);
      } else {
        SeparatedSnoc(CrossPaths(front), l);
      }
    }
  }

  lemma SeparatedGrowLast(closed: seq<LexemePath>, open: LexemePath, l: Lexeme)
    requires Separated(closed + [open]) && (open == [] ==> closed == [])
    ensures Separated(closed + [open + [l]])
  {
    var cs, cs' := closed + [open], closed + [open + [l]];
    forall j | 0 < j < |cs'|
      ensures cs'[j] != [] && !CheckCross(cs'[j - 1], cs'[j][0])
    {
      assert cs'[j - 1] == cs[j - 1];
      if j == |closed| {
        assert cs[j] == open && cs'[j][0] == open[0];
      } else {
        assert cs'[j] == cs[j];
      }
    }
  }

  lemma SeparatedSnoc(cs: seq<LexemePath>, l: Lexeme)
    requires Separated(cs) && cs != [] && !CheckCross(cs[|cs| - 1], l)
    ensures Separated(cs + [[l]])
  {
    var cs' := cs + [[l]];
    forall j | 0 < j < |cs'|
      ensures cs'[j] != [] && !CheckCross(cs'[j - 1], cs'[j][0])
    {
      assert cs'[j - 1] == cs[j - 1];
      if j < |cs| {
        assert cs'[j] == cs[j];
      }
    }
  }

  /** Outside smart mode every cross path is output unchanged. */
  lemma {:induction false} PlainKeepsPaths(ps: seq<LexemePath>, less: (LexemePath, LexemePath) -> bool)
    ensures ResolveAll(ps, false, less) == ps
  {
  }
}
