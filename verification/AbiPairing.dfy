/** Greedy against any other pairing of losses with gains of equal content: when the
    matcher explains as many losses as can be explained. */
module AbiPairing {
  import opened PyText
  import opened AbiDiff
  import opened AbiDiffLaws

  function Bag(v: Option<Entry>): multiset<Entry> { if v.Some? then multiset{v.value} else multiset{} }

  /** The gains a pairing uses; `None` leaves a loss unexplained. */
  function Takes(p: seq<Option<Entry>>): multiset<Entry> {
    if p == [] then multiset{} else Bag(p[0]) + Takes(p[1..])
  }

  /** Every gain given to a loss fits it exactly, and none is given more often than it is
      there. */
  ghost predicate Pairing(p: seq<Option<Entry>>, todo: seq<Entry>, un: seq<Entry>, g: Graph) {
    FitsAll(p, todo, g) && Takes(p) <= multiset(un)
  }

  ghost predicate FitsAll(p: seq<Option<Entry>>, todo: seq<Entry>, g: Graph) {
    |p| == |todo| && forall k :: 0 <= k < |p| && p[k].Some? ==> Fits(todo[k], p[k].value, g, true)
  }

  /** How many losses the matcher explains by equal content. */
  function ExactMoves(ds: seq<Decision>): nat {
    if ds == [] then 0 else (if ds[0].Move? && !ds[0].changed then 1 else 0) + ExactMoves(ds[1..])
  }

  predicate Shares(r: Entry, s: Entry, a: Entry, g: Graph) { Fits(r, a, g, true) && Fits(s, a, g, true) }

  /** Losses that share an exact candidate share all of them. */
  ghost predicate Alike(removed: seq<Entry>, added: seq<Entry>, g: Graph) {
    forall r, s, a, b :: r in removed && s in removed && a in added && b in added && Shares(r, s, a, g) && Fits(r, b, g, true)
      ==> Fits(s, b, g, true)
  }

  ghost predicate Drawn(part: seq<Entry>, whole: seq<Entry>) { forall e :: e in part ==> e in whole }

  lemma {:induction false} TakesUpdate(p: seq<Option<Entry>>, k: nat, v: Option<Entry>)
    requires k < |p| && p[k].Some?
    ensures Takes(p[k := v]) + Bag(p[k]) == Takes(p) + Bag(v)
  {
    if k == 0 {
      assert p[k := v][1..] == p[1..];
      BagTurn(Bag(v), Takes(p[1..]), Bag(p[0]));
    } else {
      var rest, more := p[1..], p[1..][k - 1 := v];
      UpdateTail(p, k, v);
      TakesUpdate(rest, k - 1, v);
      BagCons(Bag(p[0]), Takes(more), Bag(p[k]), Takes(rest), Bag(v));
    }
  }

  lemma UpdateTail<T>(p: seq<T>, k: nat, v: T)
    requires 0 < k < |p|
    ensures p[k := v][0] == p[0] && p[k := v][1..] == p[1..][k - 1 := v] && p[1..][k - 1] == p[k]
  {
  }

  lemma BagTurn(a: multiset<Entry>, b: multiset<Entry>, c: multiset<Entry>)
    ensures a + b + c == c + b + a
  {
  }

  lemma BagCons(h: multiset<Entry>, a: multiset<Entry>, b: multiset<Entry>, c: multiset<Entry>, d: multiset<Entry>)
    requires a + b == c + d
    ensures h + a + b == h + c + d
  {
    assert h + a + b == h + (a + b) && h + c + d == h + (c + d);
  }

  lemma {:induction false} TakerOf(p: seq<Option<Entry>>, a: Entry) returns (k: nat)
    requires a in Takes(p)
    ensures k < |p| && p[k] == Some(a)
  {
    if p[0] == Some(a) {
      k := 0;
    } else {
      k := TakerOf(p[1..], a);
      k := k + 1;
    }
  }

  lemma WithoutBag(un: seq<Entry>, i: nat)
    requires i < |un|
    ensures multiset(Without(un, i)) == multiset(un) - multiset{un[i]}
  {
    assert un == un[..i] + [un[i]] + un[i + 1..];
  }

  lemma TailPairing(p: seq<Option<Entry>>, todo: seq<Entry>, un: seq<Entry>, g: Graph)
    requires Pairing(p, todo, un, g) && p != []
    ensures Pairing(p[1..], todo[1..], un, g)
    ensures Takes(p) == Takes(p[1..]) + Bag(p[0]) && |Takes(p)| == |Takes(p[1..])| + |Bag(p[0])|
  {
    forall k | 0 <= k < |p[1..]| && p[1..][k].Some? ensures Fits(todo[1..][k], p[1..][k].value, g, true) {
      assert p[1..][k] == p[k + 1] && todo[1..][k] == todo[k + 1];
    }
  }

  /** The rest of a pairing when one gain it does not use is taken away. */
  lemma Unused(p: seq<Option<Entry>>, todo: seq<Entry>, un: seq<Entry>, g: Graph, i: nat)
    requires Pairing(p, todo, un, g) && i < |un| && un[i] !in Takes(p)
    ensures Pairing(p, todo, Without(un, i), g)
  {
    WithoutBag(un, i);
  }

  /** Exchange: the user of gain `i` is given `v`, the gain of the loss that took `i`. */
  lemma Exchange(p: seq<Option<Entry>>, todo: seq<Entry>, un: seq<Entry>, g: Graph, i: nat, k: nat, v: Option<Entry>)
    requires Pairing(p, todo, un, g) && i < |un| && k < |p| && p[k] == Some(un[i])
    requires Takes(p) + Bag(v) <= multiset(un) && (v.Some? ==> Fits(todo[k], v.value, g, true))
    ensures Pairing(p[k := v], todo, Without(un, i), g)
    ensures |Takes(p[k := v])| + 1 == |Takes(p)| + |Bag(v)|
  {
    ExchangeFits(p, todo, g, k, v);
    WithoutBag(un, i);
    TakesUpdate(p, k, v);
    BagSwap(Takes(p[k := v]), Takes(p), multiset(un), un[i], Bag(v));
  }

  lemma ExchangeFits(p: seq<Option<Entry>>, todo: seq<Entry>, g: Graph, k: nat, v: Option<Entry>)
    requires FitsAll(p, todo, g) && k < |p| && (v.Some? ==> Fits(todo[k], v.value, g, true))
    ensures FitsAll(p[k := v], todo, g)
  {
  }

  lemma BagSwap(s: multiset<Entry>, t: multiset<Entry>, u: multiset<Entry>, x: Entry, v: multiset<Entry>)
    requires s + multiset{x} == t + v && t + v <= u
    ensures s <= u - multiset{x} && |s| + 1 == |t| + |v|
  {
    assert |s + multiset{x}| == |t + v|;
  }

  lemma SharedGain(p: seq<Option<Entry>>, todo: seq<Entry>, un: seq<Entry>, g: Graph, i: nat, k: nat)
    requires Pairing(p, todo, un, g) && p != [] && p[0].Some? && k < |p[1..]| && i < |un| && p[1..][k] == Some(un[i])
    requires Fits(todo[0], un[i], g, true) && Alike(todo, un, g)
    ensures Fits(todo[1..][k], p[0].value, g, true)
  {
    assert p[k + 1] == Some(un[i]) && todo[1..][k] == todo[k + 1];
    assert p[0].value in Takes(p);
    assert Shares(todo[0], todo[k + 1], un[i], g);
  }

  /** After the first loss took the gain `i`, at most one pair of a pairing is spoilt. */
  lemma OneSpoilt(p: seq<Option<Entry>>, todo: seq<Entry>, un: seq<Entry>, g: Graph, i: nat) returns (q: seq<Option<Entry>>)
    requires Pairing(p, todo, un, g) && p != [] && i < |un| && Fits(todo[0], un[i], g, true) && Alike(todo, un, g)
    ensures Pairing(q, todo[1..], Without(un, i), g) && |Takes(p)| <= |Takes(q)| + 1
  {
    TailPairing(p, todo, un, g);
    var rest := p[1..];
    if un[i] in Takes(rest) {
      var k := TakerOf(rest, un[i]);
      if p[0].Some? { SharedGain(p, todo, un, g, i, k); }
      Exchange(rest, todo[1..], un, g, i, k, p[0]);
      q := rest[k := p[0]];
    } else {
      Unused(rest, todo[1..], un, g, i);
      q := rest;
    }
  }

  lemma SameKind(r: Entry, s: Entry, a: Entry, removed: seq<Entry>, un: seq<Entry>, g: Graph)
    requires HashFixesKind(removed + un) && s in removed && a in un && Fits(r, a, g, false) && Fits(s, a, g, true)
    ensures SameName(r, s)
  {
    assert s in removed + un && a in removed + un;
  }

  /** A changed move takes no gain that a later loss could take for its content. */
  lemma ChangedSpoilsNone(p: seq<Option<Entry>>, removed: seq<Entry>, n: nat, un: seq<Entry>, g: Graph, i: nat)
    requires n < |removed| && i < |un| && Pairing(p, removed[n + 1..], un, g)
    requires HashFixesKind(removed + un) && NameCount(removed[n], removed) == 1 && Fits(removed[n], un[i], g, false)
    ensures un[i] !in Takes(p)
  {
    if un[i] in Takes(p) {
      var k := TakerOf(p, un[i]);
      NamedTwice(removed, n, k, un, g, i);
      assert false;
    }
  }

  lemma NamedTwice(removed: seq<Entry>, n: nat, k: nat, un: seq<Entry>, g: Graph, i: nat)
    requires n + 1 + k < |removed| && i < |un| && HashFixesKind(removed + un)
    requires Fits(removed[n], un[i], g, false) && Fits(removed[n + 1..][k], un[i], g, true)
    ensures NameCount(removed[n], removed) >= 2
  {
    var s := removed[n + 1 + k];
    assert removed[n + 1..][k] == s;
    SameKind(removed[n], s, un[i], removed, un, g);
    NameCountTwo(removed[n], removed, n, n + 1 + k);
  }

  /** A pairing of the losses from `n` on with what is unmatched, and the two assumptions. */
  ghost predicate Going(p: seq<Option<Entry>>, removed: seq<Entry>, n: nat, un: seq<Entry>, g: Graph) {
    n <= |removed| && Pairing(p, removed[n..], un, g) && HashFixesKind(removed + un) && Alike(removed, un, g)
  }

  lemma DrawnKeeps(removed: seq<Entry>, added: seq<Entry>, rs: seq<Entry>, un: seq<Entry>, g: Graph)
    requires HashFixesKind(removed + added) && Alike(removed, added, g) && Drawn(rs, removed) && Drawn(un, added)
    ensures HashFixesKind(rs + un) && Alike(rs, un, g)
  {
    forall e | e in rs + un ensures e in removed + added { }
  }

  lemma WithoutKeeps(removed: seq<Entry>, un: seq<Entry>, g: Graph, i: nat)
    requires i < |un| && HashFixesKind(removed + un) && Alike(removed, un, g)
    ensures HashFixesKind(removed + Without(un, i)) && Alike(removed, Without(un, i), g)
  {
    assert Drawn(removed, removed) && Drawn(Without(un, i), un);
    DrawnKeeps(removed, un, removed, Without(un, i), g);
  }

  lemma AlikeFrom(removed: seq<Entry>, n: nat, un: seq<Entry>, g: Graph)
    requires n <= |removed| && Alike(removed, un, g)
    ensures Alike(removed[n..], un, g)
  {
  }

  lemma ExactStep(p: seq<Option<Entry>>, removed: seq<Entry>, n: nat, un: seq<Entry>, g: Graph, i: nat) returns (q: seq<Option<Entry>>)
    requires n < |removed| && Going(p, removed, n, un, g) && i < |un| && Fits(removed[n], un[i], g, true)
    ensures Going(q, removed, n + 1, Without(un, i), g) && |Takes(p)| <= |Takes(q)| + 1
  {
    AlikeFrom(removed, n, un, g);
    WithoutKeeps(removed, un, g, i);
    q := OneSpoilt(p, removed[n..], un, g, i);
    assert removed[n..][1..] == removed[n + 1..];
  }

  lemma TakenIsThere(p: seq<Option<Entry>>, todo: seq<Entry>, un: seq<Entry>, g: Graph)
    requires Pairing(p, todo, un, g) && p != []
    ensures p[0].Some? ==> exists j :: 0 <= j < |un| && Fits(todo[0], un[j], g, true)
  {
    if p[0].Some? {
      var a := p[0].value;
      assert a in Takes(p) && a in multiset(un);
      assert a in un;
    }
  }

  lemma NoneExact(p: seq<Option<Entry>>, removed: seq<Entry>, n: nat, un: seq<Entry>, g: Graph)
    requires n < |removed| && Going(p, removed, n, un, g) && FindFit(removed[n], un, g, true).None?
    ensures |p| == |removed| - n && Going(p[1..], removed, n + 1, un, g) && |Takes(p)| == |Takes(p[1..])|
  {
    var todo := removed[n..];
    TailPairing(p, todo, un, g);
    assert todo[1..] == removed[n + 1..];
    TakenIsThere(p, todo, un, g);
  }

  lemma ChangedStep(p: seq<Option<Entry>>, removed: seq<Entry>, n: nat, un: seq<Entry>, g: Graph, i: nat)
    requires n < |removed| && Going(p, removed, n + 1, un, g) && i < |un|
    requires NameCount(removed[n], removed) == 1 && Fits(removed[n], un[i], g, false)
    ensures Going(p, removed, n + 1, Without(un, i), g)
  {
    ChangedSpoilsNone(p, removed, n, un, g, i);
    Unused(p, removed[n + 1..], un, g, i);
    WithoutKeeps(removed, un, g, i);
  }

  lemma GreedyStep(p: seq<Option<Entry>>, removed: seq<Entry>, n: nat, un: seq<Entry>, added: seq<Entry>, g: Graph) returns (q: seq<Option<Entry>>)
    requires n < |removed| && Going(p, removed, n, un, g)
    ensures var c := Choose(removed[n], un, removed, added, g);
            Going(q, removed, n + 1, c.1, g) && |Takes(p)| <= |Takes(q)| + ExactMoves([c.0])
  {
    var c := Choose(removed[n], un, removed, added, g);
    var m := FindFit(removed[n], un, g, true);
    if m.Some? {
      q := ExactStep(p, removed, n, un, g, m.value);
      assert [c.0][1..] == [];
    } else {
      NoneExact(p, removed, n, un, g);
      q := p[1..];
      if c.0.Move? { ChangedStep(q, removed, n, un, g, FindFit(removed[n], un, g, false).value); }
    }
  }

  /** The run from loss `n` on explains at least as many losses as any pairing of them. */
  lemma {:induction false} AtLeast(p: seq<Option<Entry>>, removed: seq<Entry>, n: nat, un: seq<Entry>, added: seq<Entry>, g: Graph)
    requires Going(p, removed, n, un, g)
    ensures |Takes(p)| <= ExactMoves(Decide(removed[n..], un, removed, added, g).0)
    decreases |removed| - n
  {
    if n < |removed| {
      var c := Choose(removed[n], un, removed, added, g);
      var q := GreedyStep(p, removed, n, un, added, g);
      AtLeast(q, removed, n + 1, c.1, added, g);
      DecideFrom(removed, n, un, added, g);
    }
  }

  lemma DecideFrom(removed: seq<Entry>, n: nat, un: seq<Entry>, added: seq<Entry>, g: Graph)
    requires n < |removed|
    ensures var c := Choose(removed[n], un, removed, added, g);
            ExactMoves(Decide(removed[n..], un, removed, added, g).0)
            == ExactMoves([c.0]) + ExactMoves(Decide(removed[n + 1..], c.1, removed, added, g).0)
  {
    var c := Choose(removed[n], un, removed, added, g);
    var rest := Decide(removed[n + 1..], c.1, removed, added, g).0;
    assert removed[n..][0] == removed[n] && removed[n..][1..] == removed[n + 1..];
    assert [c.0][1..] == [] && ([c.0] + rest)[1..] == rest;
  }

  /** A loss with a candidate that a loss sharing one of its others has not. */
  lemma NotAlikeLoses(r: Entry, s: Entry, a: Entry, b: Entry, g: Graph)
    requires Shares(r, s, a, g) && Fits(r, b, g, true) && !Fits(s, b, g, true)
    ensures Pairing([Some(b), Some(a)], [r, s], [a, b], g) && |Takes([Some(b), Some(a)])| == 2
    ensures ExactMoves(Decide([r, s], [a, b], [r, s], [a, b], g).0) == 1
  {
    var p: seq<Option<Entry>> := [Some(b), Some(a)];
    assert p[1..] == [Some(a)] && [Some(a)][1..] == [];
    assert Takes([Some(a)]) == multiset{a};
    FirstTakesFirst(r, s, a, b, g);
    var ds := [Move(r, a, false), Loss(s)];
    assert ds[1..] == [Loss(s)] && [Loss(s)][1..] == [];
    assert ExactMoves([Loss(s)]) == 0;
  }

  /** On every choice of losses and gains the matcher explains as many losses by their
      content as any pairing does. */
  ghost predicate AlwaysMaximum(removed: seq<Entry>, added: seq<Entry>, g: Graph) {
    forall rs, un, p :: Drawn(rs, removed) && Drawn(un, added) && Pairing(p, rs, un, g)
                        ==> |Takes(p)| <= ExactMoves(Decide(rs, un, rs, un, g).0)
  }

  lemma AlikeIsEnough(removed: seq<Entry>, added: seq<Entry>, rs: seq<Entry>, un: seq<Entry>, p: seq<Option<Entry>>, g: Graph)
    requires HashFixesKind(removed + added) && Alike(removed, added, g)
    requires Drawn(rs, removed) && Drawn(un, added) && Pairing(p, rs, un, g)
    ensures |Takes(p)| <= ExactMoves(Decide(rs, un, rs, un, g).0)
  {
    DrawnKeeps(removed, added, rs, un, g);
    assert rs[0..] == rs;
    AtLeast(p, rs, 0, un, un, g);
  }

  lemma AlikeIsNeeded(removed: seq<Entry>, added: seq<Entry>, g: Graph)
    requires AlwaysMaximum(removed, added, g)
    ensures Alike(removed, added, g)
  {
    forall r, s, a, b | r in removed && s in removed && a in added && b in added && Shares(r, s, a, g) && Fits(r, b, g, true)
      ensures Fits(s, b, g, true)
    {
      AlikeAt(removed, added, g, r, s, a, b);
    }
  }

  lemma AlikeAt(removed: seq<Entry>, added: seq<Entry>, g: Graph, r: Entry, s: Entry, a: Entry, b: Entry)
    requires AlwaysMaximum(removed, added, g) && r in removed && s in removed && a in added && b in added
    requires Shares(r, s, a, g) && Fits(r, b, g, true)
    ensures Fits(s, b, g, true)
  {
    if !Fits(s, b, g, true) { Beaten(removed, added, g, r, s, a, b); }
  }

  lemma Beaten(removed: seq<Entry>, added: seq<Entry>, g: Graph, r: Entry, s: Entry, a: Entry, b: Entry)
    requires r in removed && s in removed && a in added && b in added
    requires Shares(r, s, a, g) && Fits(r, b, g, true) && !Fits(s, b, g, true)
    ensures !AlwaysMaximum(removed, added, g)
  {
    var rs, un, p := [r, s], [a, b], [Some(b), Some(a)];
    NotAlikeLoses(r, s, a, b, g);
    assert Drawn(rs, removed) && Drawn(un, added) && Pairing(p, rs, un, g);
  }

  /** The matcher is maximum on every choice if and only if losses that share an exact
      candidate share all of them. */
  lemma GreedyMaximumExact(removed: seq<Entry>, added: seq<Entry>, g: Graph)
    requires HashFixesKind(removed + added)
    ensures AlwaysMaximum(removed, added, g) <==> Alike(removed, added, g)
  {
    if Alike(removed, added, g) {
      forall rs, un, p | Drawn(rs, removed) && Drawn(un, added) && Pairing(p, rs, un, g)
        ensures |Takes(p)| <= ExactMoves(Decide(rs, un, rs, un, g).0)
      {
        AlikeIsEnough(removed, added, rs, un, p, g);
      }
    } else if AlwaysMaximum(removed, added, g) {
      AlikeIsNeeded(removed, added, g);
    }
  }

  // ------------------------------------------------------------ value-changed moves

  /** Wherever one loss could take a gain as changed and another exactly, the two are of
      one kind. */
  ghost predicate KindsClear(removed: seq<Entry>, added: seq<Entry>, g: Graph) {
    forall r, s, a :: r in removed && s in removed && a in added && Contested(r, s, a, g) ==> SameName(r, s)
  }

  predicate Contested(r: Entry, s: Entry, a: Entry, g: Graph) {
    Fits(r, a, g, false) && !Fits(r, a, g, true) && Fits(s, a, g, true)
  }

  /** The decision on loss `i` takes, as changed, a gain that loss `j` fits exactly. */
  ghost predicate Steals(rs: seq<Entry>, un: seq<Entry>, g: Graph, i: nat, j: nat) {
    var d := Decide(rs, un, rs, un, g).0;
    i < |rs| == |d| && j < |rs| && i != j && d[i].Move? && d[i].changed && Fits(rs[j], d[i].gained, g, true)
  }

  ghost predicate NeverSteals(removed: seq<Entry>, added: seq<Entry>, g: Graph) {
    forall rs, un, i, j :: Drawn(rs, removed) && Drawn(un, added) ==> !Steals(rs, un, g, i, j)
  }

  lemma ClearIsEnough(removed: seq<Entry>, added: seq<Entry>, rs: seq<Entry>, un: seq<Entry>, g: Graph, i: nat, j: nat)
    requires KindsClear(removed, added, g) && Drawn(rs, removed) && Drawn(un, added)
    ensures !Steals(rs, un, g, i, j)
  {
    DecideFacts(rs, un, rs, un, g);
    var d := Decide(rs, un, rs, un, g).0;
    if Steals(rs, un, g, i, j) {
      assert d[i] in d && d[i].lost == rs[i] && d[i].gained in un;
      assert Contested(rs[i], rs[j], d[i].gained, g);
      OneName(rs, i, j);
      assert false;
    }
  }

  lemma OneName(rs: seq<Entry>, i: nat, j: nat)
    requires i < |rs| && j < |rs| && i != j && SameName(rs[i], rs[j])
    ensures NameCount(rs[i], rs) >= 2
  {
    NameCountTwo(rs[i], rs, if i < j then i else j, if i < j then j else i);
  }

  lemma ClearIsNeeded(removed: seq<Entry>, added: seq<Entry>, g: Graph, r: Entry, s: Entry, a: Entry)
    requires r in removed && s in removed && a in added && Contested(r, s, a, g) && !SameName(r, s)
    ensures !NeverSteals(removed, added, g)
  {
    ChangedFirst(r, s, a, g);
    assert Steals([r, s], [a], g, 0, 1);
    assert Drawn([r, s], removed) && Drawn([a], added);
  }

  /** On every choice among the losses and gains, a value-changed move never takes a gain
      that another loss could have matched exactly, if and only if no gain is contested
      between two kinds. */
  lemma ChangedMoveExact(removed: seq<Entry>, added: seq<Entry>, g: Graph)
    ensures NeverSteals(removed, added, g) <==> KindsClear(removed, added, g)
  {
    if KindsClear(removed, added, g) {
      forall rs, un, i: nat, j: nat | Drawn(rs, removed) && Drawn(un, added) ensures !Steals(rs, un, g, i, j) {
        ClearIsEnough(removed, added, rs, un, g, i, j);
      }
    } else {
      var r, s, a :| r in removed && s in removed && a in added && Contested(r, s, a, g) && !SameName(r, s);
      ClearIsNeeded(removed, added, g, r, s, a);
    }
  }
}
