/** The escape check of a function body: values cast out of the managed address space, what
    is derived from them, and where they may go. */
module Taint {
  import opened Common

  type Name = string

  /** One line: the name it binds, all names on it, the names on its right-hand side, and what
      the check's patterns say of it. */
  datatype Line = Line(
    lhs: Option<Name>, names: set<Name>, rhs: set<Name>,
    isCast: bool, derives: bool, allowedCall: bool)

  predicate Binds(l: Line, x: Name) { l.lhs == Some(x) }

  /** The line passes a name of its right-hand side on to the name it binds. */
  predicate Passes(l: Line, x: Name, y: Name) { Binds(l, y) && l.derives && x in l.rhs }

  /** `xs` leads from a cast result through derivations to its last name. */
  ghost predicate Chain(lines: seq<Line>, xs: seq<Name>)
    decreases |xs|
  {
    && xs != []
    && (if |xs| == 1 then exists l :: l in lines && l.isCast && Binds(l, xs[0])
        else Chain(lines, xs[..|xs| - 1]) && exists l :: l in lines && Passes(l, xs[|xs| - 2], xs[|xs| - 1]))
  }

  ghost predicate Tainted(lines: seq<Line>, x: Name) {
    exists xs :: Chain(lines, xs) && xs[|xs| - 1] == x
  }

  /** A use that the check lets pass: a line that binds a tainted name, or an allowed call. */
  ghost predicate Allowed(lines: seq<Line>, l: Line) {
    (exists x :: x in l.names && Tainted(lines, x)) ==>
      l.allowedCall || exists y :: Binds(l, y) && Tainted(lines, y)
  }

  datatype Verdict = Escapes(count: nat) | Unbound(line: Line) | Illegal(line: Line)

  function Casts(lines: seq<Line>): nat {
    if lines == [] then 0 else Casts(lines[..|lines| - 1]) + if lines[|lines| - 1].isCast then 1 else 0
  }

  lemma {:induction false} CastTainted(lines: seq<Line>, l: Line, x: Name)
    requires l in lines && l.isCast && Binds(l, x)
    ensures Tainted(lines, x)
  {
    assert Chain(lines, [x]);
  }

  lemma {:induction false} PassTaints(lines: seq<Line>, l: Line, x: Name, y: Name)
    requires l in lines && Passes(l, x, y) && Tainted(lines, x)
    ensures Tainted(lines, y)
  {
    var xs :| Chain(lines, xs) && xs[|xs| - 1] == x;
    assert (xs + [y])[..|xs|] == xs;
    assert Chain(lines, xs + [y]);
  }

  /** A set closed under derivation that holds the cast results holds every tainted name. */
  ghost predicate Closed(lines: seq<Line>, s: set<Name>) {
    && (forall l, x :: l in lines && l.isCast && Binds(l, x) ==> x in s)
    && forall l, x, y :: l in lines && x in s && Passes(l, x, y) ==> y in s
  }

  lemma {:induction false} ClosedHolds(lines: seq<Line>, s: set<Name>, xs: seq<Name>)
    requires Closed(lines, s) && Chain(lines, xs)
    ensures xs[|xs| - 1] in s
    decreases |xs|
  {
    if |xs| > 1 {
      ClosedHolds(lines, s, xs[..|xs| - 1]);
    }
  }

  lemma {:induction false} Exact(lines: seq<Line>, s: set<Name>)
    requires Closed(lines, s) && forall x :: x in s ==> Tainted(lines, x)
    ensures forall x :: x in s <==> Tainted(lines, x)
  {
    forall x | Tainted(lines, x)
      ensures x in s
    {
      var xs :| Chain(lines, xs) && xs[|xs| - 1] == x;
      ClosedHolds(lines, s, xs);
    }
  }

  /** Without chains: tainted are the names bound to casts, and those bound on a deriving line
      with a tainted name on its right-hand side. */
  lemma {:induction false} TaintedMeans(lines: seq<Line>, x: Name)
    ensures Tainted(lines, x) <==>
      || (exists l :: l in lines && l.isCast && l.lhs == Some(x))
      || exists l, y :: l in lines && l.derives && l.lhs == Some(x) && y in l.rhs && Tainted(lines, y)
  {
    if Tainted(lines, x) {
      LastLink(lines, x);
    }
    if l :| l in lines && l.isCast && l.lhs == Some(x) {
      CastTainted(lines, l, x);
    }
    if l, y :| l in lines && l.derives && l.lhs == Some(x) && y in l.rhs && Tainted(lines, y) {
      PassTaints(lines, l, y, x);
    }
  }

  lemma {:induction false} LastLink(lines: seq<Line>, x: Name)
    requires Tainted(lines, x)
    ensures
      || (exists l :: l in lines && l.isCast && l.lhs == Some(x))
      || exists l, y :: l in lines && l.derives && l.lhs == Some(x) && y in l.rhs && Tainted(lines, y)
  {
    var xs :| Chain(lines, xs) && xs[|xs| - 1] == x;
    if |xs| == 1 {
      var l :| l in lines && l.isCast && Binds(l, x);
    } else {
      var ys, y := xs[..|xs| - 1], xs[|xs| - 2];
      assert Chain(lines, ys) && ys[|ys| - 1] == y;
      var l :| l in lines && Passes(l, y, x);
      assert l.derives && l.lhs == Some(x) && y in l.rhs && Tainted(lines, y);
    }
  }

  /** And nothing else is. */
  lemma {:induction false} TaintedLeast(lines: seq<Line>, s: set<Name>, x: Name)
    requires forall l :: l in lines && l.isCast && l.lhs.Some? ==> l.lhs.value in s
    requires forall l, y :: l in lines && l.derives && l.lhs.Some? && y in l.rhs && y in s ==> l.lhs.value in s
    requires Tainted(lines, x)
    ensures x in s
  {
    var xs :| Chain(lines, xs) && xs[|xs| - 1] == x;
    ClosedHolds(lines, s, xs);
  }

  function CastLines(lines: seq<Line>): set<nat> { set i: nat | i < |lines| && lines[i].isCast }

  /** The count that is reported: the casts, line by line. */
  lemma {:induction false} CastsCounted(lines: seq<Line>)
    ensures Casts(lines) == |CastLines(lines)|
  {
    if lines != [] {
      var last := |lines| - 1;
      CastsCounted(lines[..last]);
      assert CastLines(lines) == CastLines(lines[..last]) + if lines[last].isCast then {last} else {};
    } else {
      assert CastLines(lines) == {};
    }
  }

  /** Every cast binds a name, and these are the names. */
  ghost predicate CastsBind(lines: seq<Line>, names: set<Name>) {
    && (forall l :: l in lines && l.isCast ==> l.lhs.Some?)
    && forall x :: x in names <==> exists l :: l in lines && l.isCast && Binds(l, x)
  }

  lemma {:induction false} NextCast(before: seq<Line>, l: Line, names: set<Name>)
    requires CastsBind(before, names) && (l.isCast ==> l.lhs.Some?)
    ensures CastsBind(before + [l], if l.isCast then names + {l.lhs.value} else names)
    ensures Casts(before + [l]) == Casts(before) + if l.isCast then 1 else 0
  {
    var all, names' := before + [l], if l.isCast then names + {l.lhs.value} else names;
    assert all[..|before|] == before;
    forall x
      ensures x in names' <==> exists m :: m in all && m.isCast && Binds(m, x)
    {
      if m :| m in all && m.isCast && Binds(m, x) {
        assert m in before || m == l;
      }
      if x in names {
        var m :| m in before && m.isCast && Binds(m, x);
        assert m in all;
      }
      assert l in all;
    }
  }

  /** The seeds: every cast must bind its result. */
  method Seeds(lines: seq<Line>) returns (bad: Option<Line>, tainted: set<Name>, count: nat)
    ensures bad.Some? ==> bad.value in lines && bad.value.isCast && bad.value.lhs.None?
    ensures bad.None? ==> count == Casts(lines) && CastsBind(lines, tainted)
  {
    tainted, count := {}, 0;
    for i := 0 to |lines|
      invariant count == Casts(lines[..i]) && CastsBind(lines[..i], tainted)
    {
      var l := lines[i];
      assert lines[..i + 1] == lines[..i] + [l];
      if l.isCast && l.lhs.None? {
        return Some(l), tainted, count;
      }
      NextCast(lines[..i], l, tainted);
      if l.isCast {
        tainted, count := tainted + {l.lhs.value}, count + 1;
      }
    }
    assert lines[..|lines|] == lines;
    return None, tainted, count;
  }

  /** One pass over the lines; `changed` says whether it added a name. */
  method Pass(lines: seq<Line>, tainted: set<Name>) returns (tainted': set<Name>, changed: bool)
    requires forall x :: x in tainted ==> Tainted(lines, x)
    ensures tainted <= tainted' && (forall x :: x in tainted' ==> Tainted(lines, x))
    ensures changed ==> tainted' != tainted
    ensures !changed ==> tainted' == tainted && forall l, x, y :: l in lines && x in tainted && Passes(l, x, y) ==> y in tainted
    ensures forall x :: x in tainted' ==> x in tainted || exists l :: l in lines && Binds(l, x)
  {
    tainted', changed := tainted, false;
    for i := 0 to |lines|
      invariant tainted <= tainted' && forall x :: x in tainted' ==> Tainted(lines, x)
      invariant changed ==> tainted' != tainted
      invariant !changed ==> tainted' == tainted && Steady(lines[..i], tainted)
      invariant forall x :: x in tainted' ==> x in tainted || exists l :: l in lines && Binds(l, x)
    {
      var l := lines[i];
      assert lines[..i + 1] == lines[..i] + [l];
      assert forall x :: x in l.rhs && x in tainted' ==> x in l.rhs * tainted';
      if l.lhs.Some? && l.lhs.value !in tainted' && l.derives && l.rhs * tainted' != {} {
        ghost var x :| x in l.rhs * tainted';
        PassTaints(lines, l, x, l.lhs.value);
        tainted', changed := tainted' + {l.lhs.value}, true;
      }
    }
    assert lines[..|lines|] == lines;
  }

  ghost predicate Steady(lines: seq<Line>, s: set<Name>) {
    forall l, x, y :: l in lines && x in s && Passes(l, x, y) ==> y in s
  }

  function Bound(lines: seq<Line>): set<Name> { set l | l in lines && l.lhs.Some? :: l.lhs.value }

  /** Accepts exactly the bodies in which every cast is bound and every use of a tainted name
      is an allowed one; the taint is exactly what derives from a cast. */
  method CheckEscapes(lines: seq<Line>) returns (r: Verdict)
    ensures r.Escapes? <==>
      (forall l :: l in lines && l.isCast ==> l.lhs.Some?) && forall l :: l in lines ==> Allowed(lines, l)
    ensures r.Escapes? ==> forall l, x :: l in lines && x in l.names && Tainted(lines, x) ==>
      l.allowedCall || (l.lhs.Some? && Tainted(lines, l.lhs.value))
    ensures r.Escapes? ==> r.count == Casts(lines)
    ensures r.Unbound? ==> r.line in lines && r.line.isCast && r.line.lhs.None?
    ensures r.Illegal? ==> r.line in lines && !Allowed(lines, r.line)
    ensures r.Illegal? ==>
      !r.line.allowedCall && !(r.line.lhs.Some? && Tainted(lines, r.line.lhs.value)) && exists x :: x in r.line.names && Tainted(lines, x)
  {
    var bad, tainted, count := Seeds(lines);
    if bad.Some? {
      return Unbound(bad.value);
    }
    tainted := Fixpoint(lines, tainted);
    for i := 0 to |lines|
      invariant forall l :: l in lines[..i] ==> Allowed(lines, l)
    {
      var l := lines[i];
      assert lines[..i + 1] == lines[..i] + [l];
      if l.names * tainted != {} {
        assert exists x :: x in l.names && x in l.names * tainted;
        if !(l.lhs.Some? && l.lhs.value in tainted) && !l.allowedCall {
          assert l in lines && !Allowed(lines, l);
          return Illegal(l);
        }
        assert l.lhs.Some? ==> Binds(l, l.lhs.value);
      }
      assert forall x :: x in l.names && x in tainted ==> x in l.names * tainted;
    }
    assert lines[..|lines|] == lines;
    return Escapes(count);
  }

  /** Repeats the pass until nothing changes. */
  method Fixpoint(lines: seq<Line>, seeds: set<Name>) returns (tainted: set<Name>)
    requires CastsBind(lines, seeds)
    ensures forall x :: x in tainted <==> Tainted(lines, x)
  {
    tainted := seeds;
    forall x | x in seeds
      ensures Tainted(lines, x)
    {
      var l :| l in lines && l.isCast && Binds(l, x);
      CastTainted(lines, l, x);
    }
    var changed := true;
    while changed
      invariant seeds <= tainted && forall x :: x in tainted ==> Tainted(lines, x)
      invariant !changed ==> Steady(lines, tainted)
      decreases Bound(lines) - tainted, changed
    {
      ghost var was := tainted;
      tainted, changed := Pass(lines, tainted);
      if changed {
        assert !(tainted <= was);
        ghost var x :| x in tainted && x !in was;
        assert x in Bound(lines) - was;
      }
    }
    Exact(lines, tainted);
  }
}
