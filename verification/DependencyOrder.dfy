/**
  Does the order matter in which a pair's dependencies are added (setVariable in
  include/netlist/NetlistEdge.hpp, as the workers of source/PendingRvalueQueue.cpp call
  it)? Exactly if they carry more than one symbol: the edge that takes a dependency of
  another symbol loses the bits it had.
  */
module DependencyOrder {
  import opened Dependencies
  import opened Netlist
  import opened PendingRvalues
  import opened Wrappers

  /** All labelled dependencies carry the same symbol, or none of them a symbol. */
  predicate CarryOneSymbol(ds: seq<Dependency>) {
    forall i, j :: 0 <= i < |ds| && 0 <= j < |ds| && ds[i].Labelled? && ds[j].Labelled? ==> ds[i].symbol == ds[j].symbol
  }

  ghost predicate SameMarks(a: seq<EdgeLabel>, b: seq<EdgeLabel>) {
    forall s, bit :: Marks(a, s, bit) <==> Marks(b, s, bit)
  }

  /** Every order of the dependencies leaves the same bits of the same symbols on the edges of a pair that had none. */
  ghost predicate OrderIsFree(ds: seq<Dependency>) {
    forall es: seq<Dependency> :: multiset(es) == multiset(ds) ==> SameMarks(DependAll([], es), DependAll([], ds))
  }

  lemma {:induction false} NoSymbolMarksNothing(labels: seq<EdgeLabel>, ds: seq<Dependency>, s: SymbolReference, bit: int)
    requires !Marks(labels, s, bit) && forall i :: 0 <= i < |ds| && ds[i].Labelled? ==> ds[i].symbol.None?
    ensures !Marks(DependAll(labels, ds), s, bit)
    decreases |ds|
  {
    if ds != [] {
      DependMarks(labels, ds[0], s, bit);
      TailUnmarked(labels, s, bit);
      NoSymbolMarksNothing(Depend(labels, ds[0]), ds[1..], s, bit);
    }
  }

  lemma TailUnmarked(labels: seq<EdgeLabel>, s: SymbolReference, bit: int)
    requires !Marks(labels, s, bit)
    ensures labels != [] ==> !Marks(labels[1..], s, bit)
  {
    if labels != [] {
      MarksSplit(labels[0], labels[1..], s, bit);
      assert labels == [labels[0]] + labels[1..];
    }
  }

  lemma OneSymbolIsFree(ds: seq<Dependency>, es: seq<Dependency>, s: SymbolReference, bit: int)
    requires CarryOneSymbol(ds) && multiset(es) == multiset(ds)
    ensures Marks(DependAll([], ds), s, bit) <==> Marks(DependAll([], es), s, bit)
  {
    assert forall d :: d in ds <==> d in multiset(ds);
    assert forall d :: d in es <==> d in multiset(es);
    assert forall i :: 0 <= i < |es| ==> es[i] in ds;
    if i :| 0 <= i < |ds| && ds[i].Labelled? && ds[i].symbol.Some? {
      OrderIsIrrelevant([], ds, es, ds[i].symbol.value, s, bit);
    } else {
      NoSymbolMarksNothing([], ds, s, bit);
      NoSymbolMarksNothing([], es, s, bit);
    }
  }

  /** The bit is on the first edge, which carries symbol `s`, and on no other. */
  ghost predicate OnFirstOnly(labels: seq<EdgeLabel>, s: SymbolReference, bit: int) {
    && labels != [] && labels[0].symbol == Some(s) && labels[0].bounds.Has(bit)
    && !Marks(labels[1..], s, bit)
  }

  /** Dependencies of one symbol keep a bit on the first edge only: those that touch it join it, the others do not hold the bit. */
  lemma StaysOnFirst(labels: seq<EdgeLabel>, d: Dependency, s: SymbolReference, bit: int)
    requires OnFirstOnly(labels, s, bit) && (d.Labelled? ==> d.symbol == Some(s))
    ensures OnFirstOnly(Depend(labels, d), s, bit)
  {
    var next, rest := Depend(labels, d), labels[1..];
    if d.Labelled? && WithVariable(labels[0], d.symbol, d.bounds).None? {
      assert next[1..] == rest + [next[|next| - 1]];
      MarksLast(rest, next[|next| - 1], s, bit);
    } else {
      assert next[1..] == rest;
    }
  }

  lemma {:induction false} AllStayOnFirst(labels: seq<EdgeLabel>, ds: seq<Dependency>, s: SymbolReference, bit: int)
    requires OnFirstOnly(labels, s, bit) && forall i :: 0 <= i < |ds| && ds[i].Labelled? ==> ds[i].symbol == Some(s)
    ensures OnFirstOnly(DependAll(labels, ds), s, bit)
    decreases |ds|
  {
    if ds != [] {
      StaysOnFirst(labels, ds[0], s, bit);
      AllStayOnFirst(Depend(labels, ds[0]), ds[1..], s, bit);
    }
  }

  /** Dependencies of other symbols do not bring a bit back, and the first labelled one takes it away. */
  lemma {:induction false} OthersLose(labels: seq<EdgeLabel>, ds: seq<Dependency>, s: SymbolReference, bit: int)
    requires forall i :: 0 <= i < |ds| && ds[i].Labelled? ==> ds[i].symbol != Some(s)
    requires !Marks(labels, s, bit) || (OnFirstOnly(labels, s, bit) && exists i :: 0 <= i < |ds| && ds[i].Labelled?)
    ensures !Marks(DependAll(labels, ds), s, bit)
    decreases |ds|
  {
    if ds != [] {
      var next := Depend(labels, ds[0]);
      DependMarks(labels, ds[0], s, bit);
      if !Marks(labels, s, bit) {
        TailUnmarked(labels, s, bit);
      } else if ds[0].Plain? {
        assert next[1..] == labels[1..];
        var i :| 0 <= i < |ds| && ds[i].Labelled?;
        assert ds[1..][i - 1] == ds[i];
      }
      OthersLose(next, ds[1..], s, bit);
    }
  }

  function Carrying(ds: seq<Dependency>, s: SymbolReference, carries: bool): (r: seq<Dependency>)
    ensures forall d :: d in r <==> d in ds && ((d.Labelled? && d.symbol == Some(s)) <==> carries)
  {
    if ds == [] then []
    else
      var d := ds[0];
      (if (d.Labelled? && d.symbol == Some(s)) <==> carries then [d] else []) + Carrying(ds[1..], s, carries)
  }

  lemma {:induction false} CarryingOrNot(ds: seq<Dependency>, s: SymbolReference)
    ensures multiset(Carrying(ds, s, true) + Carrying(ds, s, false)) == multiset(ds)
  {
    if ds != [] {
      CarryingOrNot(ds[1..], s);
      assert ds == [ds[0]] + ds[1..];
    }
  }

  lemma {:induction false} DependMore(labels: seq<EdgeLabel>, a: seq<Dependency>, b: seq<Dependency>)
    ensures DependAll(labels, a + b) == DependAll(DependAll(labels, a), b)
    decreases |a|
  {
    if a == [] {
      assert a + b == b;
    } else {
      assert (a + b)[1..] == a[1..] + b;
      DependMore(Depend(labels, a[0]), a[1..], b);
    }
  }

  /** One dependency of a symbol first, then the others of that symbol, then the rest: its bits are lost. */
  lemma FirstIsLost(d: Dependency, same: seq<Dependency>, others: seq<Dependency>, s: SymbolReference, bit: int)
    requires Adds(d, s, bit) && (forall x :: x in same ==> x.Labelled? && x.symbol == Some(s))
    requires forall x :: x in others && x.Labelled? ==> x.symbol != Some(s)
    requires exists x :: x in others && x.Labelled?
    ensures !Marks(DependAll([], [d] + same + others), s, bit)
  {
    var first := Depend([], d);
    assert first[1..] == [];
    assert [d] + same + others == [d] + (same + others);
    DependHead([], d, same + others);
    DependMore(first, same, others);
    AllStayOnFirst(first, same, s, bit);
    var x :| x in others && x.Labelled?;
    var i :| 0 <= i < |others| && others[i] == x;
    OthersLose(DependAll(first, same), others, s, bit);
  }

  /** One dependency last: its bits are kept. */
  lemma LastIsKept(before: seq<Dependency>, d: Dependency, s: SymbolReference, bit: int)
    requires Adds(d, s, bit)
    ensures Marks(DependAll([], before + [d]), s, bit)
  {
    DependMore([], before, [d]);
    var labels := DependAll([], before);
    assert [d][1..] == [];
    assert DependAll(labels, [d]) == DependAll(Depend(labels, d), []);
    DependMarks(labels, d, s, bit);
  }

  lemma MovedFirst(ds: seq<Dependency>, i: nat, d: Dependency, rest: seq<Dependency>)
    requires i < |ds| && d == ds[i] && rest == ds[..i] + ds[i + 1..]
    ensures multiset([d] + rest) == multiset(ds)
  {
    var a, b := ds[..i], ds[i + 1..];
    assert ds == a + [d] + b;
    assert multiset(ds) == multiset(a + [d]) + multiset(b);
  }

  lemma OtherRemains(ds: seq<Dependency>, i: nat, j: nat, rest: seq<Dependency>)
    requires i < |ds| && j < |ds| && i != j && rest == ds[..i] + ds[i + 1..]
    ensures ds[j] in rest
  {
    assert if j < i then rest[j] == ds[j] else rest[j - 1] == ds[j];
  }

  /** An order of one dependency and the rest in which a bit of that one is lost. */
  lemma LosingOrder(d: Dependency, rest: seq<Dependency>, s: SymbolReference, bit: int) returns (lost: seq<Dependency>)
    requires Adds(d, s, bit) && exists x :: x in rest && x.Labelled? && x.symbol != Some(s)
    ensures multiset(lost) == multiset([d] + rest) && !Marks(DependAll([], lost), s, bit)
  {
    var same, others := Carrying(rest, s, true), Carrying(rest, s, false);
    var x :| x in rest && x.Labelled? && x.symbol != Some(s);
    assert x in others;
    FirstIsLost(d, same, others, s, bit);
    CarryingOrNot(rest, s);
    lost := [d] + same + others;
    assert lost == [d] + (same + others);
  }

  /** With two symbols some bit is lost in one order and kept in another. */
  lemma TwoSymbolsLose(ds: seq<Dependency>, i: nat, j: nat, s: SymbolReference) returns (lost: seq<Dependency>, kept: seq<Dependency>, bit: int)
    requires i < |ds| && j < |ds| && ds[i].Labelled? && ds[j].Labelled? && ds[i].symbol == Some(s) && ds[j].symbol != Some(s)
    ensures multiset(lost) == multiset(ds) == multiset(kept)
    ensures !Marks(DependAll([], lost), s, bit) && Marks(DependAll([], kept), s, bit)
  {
    var d, rest := ds[i], ds[..i] + ds[i + 1..];
    MovedFirst(ds, i, d, rest);
    OtherRemains(ds, i, j, rest);
    bit, kept := d.bounds.Lower(), rest + [d];
    lost := LosingOrder(d, rest, s, bit);
    LastIsKept(rest, d, s, bit);
  }

  lemma TwoSymbolsSpoil(ds: seq<Dependency>, i: nat, j: nat, s: SymbolReference)
    requires i < |ds| && j < |ds| && ds[i].Labelled? && ds[j].Labelled? && ds[i].symbol == Some(s) && ds[j].symbol != Some(s)
    ensures !OrderIsFree(ds)
  {
    var lost, kept, bit := TwoSymbolsLose(ds, i, j, s);
    assert OrderIsFree(ds) ==> SameMarks(DependAll([], lost), DependAll([], ds)) && SameMarks(DependAll([], kept), DependAll([], ds));
  }

  /** All orders end in the same marks exactly when the labelled dependencies carry one symbol. */
  lemma OrderIsFreeIffOneSymbol(ds: seq<Dependency>)
    ensures OrderIsFree(ds) <==> CarryOneSymbol(ds)
  {
    if CarryOneSymbol(ds) {
      forall es: seq<Dependency> | multiset(es) == multiset(ds)
        ensures SameMarks(DependAll([], es), DependAll([], ds))
      {
        forall s, bit
          ensures Marks(DependAll([], es), s, bit) <==> Marks(DependAll([], ds), s, bit)
        {
          OneSymbolIsFree(ds, es, s, bit);
        }
      }
    } else {
      var i, j :| 0 <= i < |ds| && 0 <= j < |ds| && ds[i].Labelled? && ds[j].Labelled? && ds[i].symbol != ds[j].symbol;
      if ds[i].symbol.Some? {
        TwoSymbolsSpoil(ds, i, j, ds[i].symbol.value);
      } else {
        TwoSymbolsSpoil(ds, j, i, ds[j].symbol.value);
      }
    }
  }
}
