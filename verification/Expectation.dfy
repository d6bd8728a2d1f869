/** Means over independent draws from a finite law. */
module Expectation {
  import opened Reals

  /** A value with its probability. */
  datatype Atom<T> = Atom(value: T, p: real)

  function Behind<T>(f: seq<T> -> real, value: T): seq<T> -> real {
    (t: seq<T>) => f(t + [value])
  }

  /** The mean of `f` over `n` independent draws, the last of them drawn last. */
  ghost function Expect<T>(law: seq<Atom<T>>, n: nat, f: seq<T> -> real): real
    decreases n, |law| + 1
  {
    if n == 0 then f([]) else ExpectOver(law, law, n - 1, f)
  }

  /** The part of it in which the last draw is one of these atoms. */
  ghost function ExpectOver<T>(law: seq<Atom<T>>, atoms: seq<Atom<T>>, n: nat, f: seq<T> -> real): real
    decreases n + 1, |atoms|
  {
    if atoms == [] then 0.0
    else Times(atoms[0].p, Expect(law, n, Behind(f, atoms[0].value))) + ExpectOver(law, atoms[1..], n, f)
  }

  ghost predicate Nonnegative<T>(law: seq<Atom<T>>) {
    forall i :: 0 <= i < |law| ==> law[i].p >= 0.0
  }

  /** The sum of `g` over the atoms, each weighted by its probability. */
  function Total<T>(atoms: seq<Atom<T>>, g: T -> real): real {
    if atoms == [] then 0.0 else Times(atoms[0].p, g(atoms[0].value)) + Total(atoms[1..], g)
  }

  // ---------------------------------------------------------------------------------------------
  // Means respect equality, order and sums
  // ---------------------------------------------------------------------------------------------

  ghost predicate Below<T(!new)>(f: seq<T> -> real, g: seq<T> -> real, n: nat) {
    forall t: seq<T> :: |t| == n ==> f(t) <= g(t)
  }

  ghost predicate Same<T(!new)>(f: seq<T> -> real, g: seq<T> -> real, n: nat) {
    forall t: seq<T> :: |t| == n ==> f(t) == g(t)
  }

  lemma TimesOrder(p: real, x: real, y: real)
    requires p >= 0.0 && x <= y
    ensures Times(p, x) <= Times(p, y)
  {
    assert p * y - p * x == p * (y - x);
  }

  lemma BehindBelow<T(!new)>(f: seq<T> -> real, g: seq<T> -> real, n: nat, value: T)
    requires Below(f, g, n + 1)
    ensures Below(Behind(f, value), Behind(g, value), n)
  {
    forall t: seq<T> | |t| == n ensures Behind(f, value)(t) <= Behind(g, value)(t) {
      assert |t + [value]| == n + 1;
    }
  }

  lemma BehindSame<T(!new)>(f: seq<T> -> real, g: seq<T> -> real, n: nat, value: T)
    requires Same(f, g, n + 1)
    ensures Same(Behind(f, value), Behind(g, value), n)
  {
    forall t: seq<T> | |t| == n ensures Behind(f, value)(t) == Behind(g, value)(t) {
      assert |t + [value]| == n + 1;
    }
  }

  lemma {:induction false} ExpectSame<T(!new)>(law: seq<Atom<T>>, n: nat, f: seq<T> -> real, g: seq<T> -> real)
    requires Same(f, g, n)
    ensures Expect(law, n, f) == Expect(law, n, g)
    decreases n, |law| + 1
  {
    if n == 0 {
      var none: seq<T> := [];
      assert |none| == 0;
    } else {
      ExpectOverSame(law, law, n - 1, f, g);
    }
  }

  lemma {:induction false} ExpectOverSame<T(!new)>(
      law: seq<Atom<T>>, atoms: seq<Atom<T>>, n: nat, f: seq<T> -> real, g: seq<T> -> real)
    requires Same(f, g, n + 1)
    ensures ExpectOver(law, atoms, n, f) == ExpectOver(law, atoms, n, g)
    decreases n + 1, |atoms|
  {
    if atoms != [] {
      BehindSame(f, g, n, atoms[0].value);
      ExpectSame(law, n, Behind(f, atoms[0].value), Behind(g, atoms[0].value));
      ExpectOverSame(law, atoms[1..], n, f, g);
    }
  }

  lemma {:induction false} ExpectMonotone<T(!new)>(law: seq<Atom<T>>, n: nat, f: seq<T> -> real, g: seq<T> -> real)
    requires Nonnegative(law) && Below(f, g, n)
    ensures Expect(law, n, f) <= Expect(law, n, g)
    decreases n, |law| + 1
  {
    if n == 0 {
      var none: seq<T> := [];
      assert |none| == 0;
    } else {
      ExpectOverMonotone(law, law, n - 1, f, g);
    }
  }

  lemma {:induction false} ExpectOverMonotone<T(!new)>(
      law: seq<Atom<T>>, atoms: seq<Atom<T>>, n: nat, f: seq<T> -> real, g: seq<T> -> real)
    requires Nonnegative(law) && Nonnegative(atoms) && Below(f, g, n + 1)
    ensures ExpectOver(law, atoms, n, f) <= ExpectOver(law, atoms, n, g)
    decreases n + 1, |atoms|
  {
    if atoms != [] {
      var value := atoms[0].value;
      BehindBelow(f, g, n, value);
      ExpectMonotone(law, n, Behind(f, value), Behind(g, value));
      ExpectOverMonotone(law, atoms[1..], n, f, g);
      TimesOrder(atoms[0].p, Expect(law, n, Behind(f, value)), Expect(law, n, Behind(g, value)));
      hide Times;
    }
  }

  function Plus<T>(c: real, f: seq<T> -> real, g: seq<T> -> real): seq<T> -> real {
    (t: seq<T>) => Times(c, f(t)) + g(t)
  }

  lemma BehindPlus<T(!new)>(c: real, f: seq<T> -> real, g: seq<T> -> real, value: T, n: nat)
    ensures Same(Behind(Plus(c, f, g), value), Plus(c, Behind(f, value), Behind(g, value)), n)
  {
    hide Times;
  }

  lemma TimesPlus(p: real, c: real, x: real, y: real, more: real, rest: real)
    ensures Times(p, Times(c, x) + y) + (Times(c, more) + rest)
         == Times(c, Times(p, x) + more) + (Times(p, y) + rest)
  {
    assert p * (c * x + y) == c * (p * x) + p * y;
    assert c * (p * x + more) == c * (p * x) + c * more;
  }

  /** Means are linear. */
  lemma {:induction false} ExpectPlus<T(!new)>(law: seq<Atom<T>>, n: nat, c: real, f: seq<T> -> real, g: seq<T> -> real)
    ensures Expect(law, n, Plus(c, f, g)) == Times(c, Expect(law, n, f)) + Expect(law, n, g)
    decreases n, |law| + 1
  {
    if n > 0 { ExpectOverPlus(law, law, n - 1, c, f, g); }
  }

  lemma {:induction false} ExpectOverPlus<T(!new)>(
      law: seq<Atom<T>>, atoms: seq<Atom<T>>, n: nat, c: real, f: seq<T> -> real, g: seq<T> -> real)
    ensures ExpectOver(law, atoms, n, Plus(c, f, g))
         == Times(c, ExpectOver(law, atoms, n, f)) + ExpectOver(law, atoms, n, g)
    decreases n + 1, |atoms|
  {
    if atoms == [] {
      assert Times(c, 0.0) == 0.0;
    } else {
      var p, value := atoms[0].p, atoms[0].value;
      var f', g' := Behind(f, value), Behind(g, value);
      BehindPlus(c, f, g, value, n);
      ExpectSame(law, n, Behind(Plus(c, f, g), value), Plus(c, f', g'));
      ExpectPlus(law, n, c, f', g');
      ExpectOverPlus(law, atoms[1..], n, c, f, g);
      TimesPlus(p, c, Expect(law, n, f'), Expect(law, n, g'),
                 ExpectOver(law, atoms[1..], n, f), ExpectOver(law, atoms[1..], n, g));
      hide Times, Behind, Plus;
    }
  }

  function Constant<T>(c: real): seq<T> -> real {
    (t: seq<T>) => c
  }

  function One<T>(value: T): real {
    1.0
  }

  lemma {:induction false} ExpectConstant<T(!new)>(law: seq<Atom<T>>, n: nat, c: real)
    requires Total(law, One) == 1.0
    ensures Expect(law, n, Constant(c)) == c
    decreases n, |law| + 1
  {
    if n > 0 {
      ExpectOverConstant(law, law, n - 1, c);
      assert Times(1.0, c) == c;
    }
  }

  lemma {:induction false} ExpectOverConstant<T(!new)>(law: seq<Atom<T>>, atoms: seq<Atom<T>>, n: nat, c: real)
    requires Total(law, One) == 1.0
    ensures ExpectOver(law, atoms, n, Constant(c)) == Times(Total(atoms, One), c)
    decreases n + 1, |atoms|
  {
    if atoms == [] {
      assert Times(0.0, c) == 0.0;
    } else {
      var p, value := atoms[0].p, atoms[0].value;
      assert Same(Behind(Constant<T>(c), value), Constant(c), n);
      ExpectSame(law, n, Behind(Constant(c), value), Constant(c));
      ExpectConstant(law, n, c);
      ExpectOverConstant(law, atoms[1..], n, c);
      assert (p + Total(atoms[1..], One)) * c == p * c + Total(atoms[1..], One) * c;
    }
  }

  // ---------------------------------------------------------------------------------------------
  // Any of the draws can be the last
  // ---------------------------------------------------------------------------------------------

  function Insert<T>(t: seq<T>, m: nat, value: T): seq<T> {
    if m <= |t| then t[..m] + [value] + t[m..] else t
  }

  function Inserted<T>(f: seq<T> -> real, m: nat, value: T): seq<T> -> real {
    (t: seq<T>) => f(Insert(t, m, value))
  }

  /** The mean of `f` over one more draw at place `m`, when the others are given. */
  function AverageAt<T>(atoms: seq<Atom<T>>, m: nat, f: seq<T> -> real, t: seq<T>): real {
    if atoms == [] then 0.0
    else Times(atoms[0].p, f(Insert(t, m, atoms[0].value))) + AverageAt(atoms[1..], m, f, t)
  }

  function Averaged<T>(atoms: seq<Atom<T>>, m: nat, f: seq<T> -> real): seq<T> -> real {
    (t: seq<T>) => AverageAt(atoms, m, f, t)
  }

  /** Averaging at place `m` is averaging over the atoms put there. */
  ghost function InsertedOver<T>(law: seq<Atom<T>>, atoms: seq<Atom<T>>, n: nat, m: nat, f: seq<T> -> real): real
    decreases |atoms|
  {
    if atoms == [] then 0.0
    else Times(atoms[0].p, Expect(law, n, Inserted(f, m, atoms[0].value))) + InsertedOver(law, atoms[1..], n, m, f)
  }

  lemma {:induction false} ExpectZero<T(!new)>(law: seq<Atom<T>>, n: nat)
    ensures Expect(law, n, Constant(0.0)) == 0.0
    decreases n, |law| + 1
  {
    if n > 0 { ExpectOverZero(law, law, n - 1); }
  }

  lemma {:induction false} ExpectOverZero<T(!new)>(law: seq<Atom<T>>, atoms: seq<Atom<T>>, n: nat)
    ensures ExpectOver(law, atoms, n, Constant(0.0)) == 0.0
    decreases n + 1, |atoms|
  {
    if atoms != [] {
      assert Same(Behind(Constant<T>(0.0), atoms[0].value), Constant(0.0), n);
      ExpectSame(law, n, Behind(Constant(0.0), atoms[0].value), Constant(0.0));
      ExpectZero(law, n);
      ExpectOverZero(law, atoms[1..], n);
      assert Times(atoms[0].p, 0.0) == 0.0;
    }
  }

  lemma {:induction false} AveragedOver<T(!new)>(law: seq<Atom<T>>, atoms: seq<Atom<T>>, n: nat, m: nat, f: seq<T> -> real)
    ensures Expect(law, n, Averaged(atoms, m, f)) == InsertedOver(law, atoms, n, m, f)
    decreases |atoms|
  {
    if atoms == [] {
      assert Same(Averaged(atoms, m, f), Constant(0.0), n);
      ExpectSame(law, n, Averaged(atoms, m, f), Constant(0.0));
      ExpectZero(law, n);
    } else {
      var p, here, rest := atoms[0].p, Inserted(f, m, atoms[0].value), Averaged(atoms[1..], m, f);
      AveragedOver(law, atoms[1..], n, m, f);
      assert Same(Averaged(atoms, m, f), Plus(p, here, rest), n) by { hide Insert, Times; }
      ExpectSame(law, n, Averaged(atoms, m, f), Plus(p, here, rest));
      ExpectPlus(law, n, p, here, rest);
    }
  }

  lemma InsertLast<T(!new)>(t: seq<T>, value: T)
    ensures Insert(t, |t|, value) == t + [value]
  {
    assert t[..|t|] == t && t[|t|..] == [];
  }

  lemma InsertBefore<T(!new)>(t: seq<T>, m: nat, value: T, last: T)
    requires m <= |t|
    ensures Insert(t + [last], m, value) == Insert(t, m, value) + [last]
  {
    assert (t + [last])[..m] == t[..m] && (t + [last])[m..] == t[m..] + [last];
  }

  lemma {:induction false} LastOver<T(!new)>(law: seq<Atom<T>>, atoms: seq<Atom<T>>, n: nat, f: seq<T> -> real)
    ensures ExpectOver(law, atoms, n, f) == InsertedOver(law, atoms, n, n, f)
    decreases |atoms|
  {
    if atoms != [] {
      var value := atoms[0].value;
      LastOver(law, atoms[1..], n, f);
      forall t: seq<T> | |t| == n ensures Behind(f, value)(t) == Inserted(f, n, value)(t) { InsertLast(t, value); }
      ExpectSame(law, n, Behind(f, value), Inserted(f, n, value));
    }
  }

  lemma {:induction false} AverageBehind<T(!new)>(atoms: seq<Atom<T>>, m: nat, f: seq<T> -> real, t: seq<T>, last: T)
    requires m <= |t|
    ensures AverageAt(atoms, m, f, t + [last]) == AverageAt(atoms, m, Behind(f, last), t)
    decreases |atoms|
  {
    if atoms != [] {
      AverageBehind(atoms[1..], m, f, t, last);
      InsertBefore(t, m, atoms[0].value, last);
    }
  }

  /** The draw at place `m` may as well be made last. */
  lemma {:induction false} DrawLast<T(!new)>(law: seq<Atom<T>>, n: nat, m: nat, f: seq<T> -> real)
    requires m <= n
    ensures Expect(law, n + 1, f) == Expect(law, n, Averaged(law, m, f))
    decreases n, |law| + 1
  {
    if m == n {
      LastOver(law, law, n, f);
      AveragedOver(law, law, n, n, f);
    } else {
      DrawLastOver(law, law, n - 1, m, f);
    }
  }

  lemma {:induction false} DrawLastOver<T(!new)>(law: seq<Atom<T>>, atoms: seq<Atom<T>>, n: nat, m: nat, f: seq<T> -> real)
    requires m <= n
    ensures ExpectOver(law, atoms, n + 1, f) == ExpectOver(law, atoms, n, Averaged(law, m, f))
    decreases n + 1, |atoms|
  {
    if atoms != [] {
      var last := atoms[0].value;
      var inner := Averaged(law, m, Behind(f, last));
      DrawLast(law, n, m, Behind(f, last));
      forall t: seq<T> | |t| == n ensures Behind(Averaged(law, m, f), last)(t) == inner(t) {
        AverageBehind(law, m, f, t, last);
      }
      ExpectSame(law, n, Behind(Averaged(law, m, f), last), inner);
      DrawLastOver(law, atoms[1..], n, m, f);
    }
  }

  // ---------------------------------------------------------------------------------------------
  // The draws themselves as a law
  // ---------------------------------------------------------------------------------------------

  function Extended<T>(ts: seq<Atom<seq<T>>>, a: Atom<T>): seq<Atom<seq<T>>> {
    if ts == [] then [] else [Atom(ts[0].value + [a.value], Times(a.p, ts[0].p))] + Extended(ts[1..], a)
  }

  /** Every list of `n` draws with the product of its probabilities. */
  function Tuples<T>(law: seq<Atom<T>>, n: nat): seq<Atom<seq<T>>>
    decreases n, |law| + 1
  {
    if n == 0 then [Atom([], 1.0)] else TuplesOver(law, law, n - 1)
  }

  function TuplesOver<T>(law: seq<Atom<T>>, atoms: seq<Atom<T>>, n: nat): seq<Atom<seq<T>>>
    decreases n + 1, |atoms|
  {
    if atoms == [] then [] else Extended(Tuples(law, n), atoms[0]) + TuplesOver(law, atoms[1..], n)
  }

  lemma {:induction false} TotalConcat<T>(xs: seq<Atom<T>>, ys: seq<Atom<T>>, g: T -> real)
    ensures Total(xs + ys, g) == Total(xs, g) + Total(ys, g)
  {
    if xs == [] {
      assert xs + ys == ys;
    } else {
      TotalConcat(xs[1..], ys, g);
      assert (xs + ys)[1..] == xs[1..] + ys;
      hide Times;
    }
  }

  lemma {:induction false} ExtendedTotal<T>(ts: seq<Atom<seq<T>>>, a: Atom<T>, f: seq<T> -> real)
    ensures Total(Extended(ts, a), f) == Times(a.p, Total(ts, Behind(f, a.value)))
  {
    if ts == [] {
      assert Times(a.p, 0.0) == 0.0;
    } else {
      var x, rest := f(ts[0].value + [a.value]), Total(ts[1..], Behind(f, a.value));
      ExtendedTotal(ts[1..], a, f);
      assert a.p * ts[0].p * x + a.p * rest == a.p * (ts[0].p * x + rest);
    }
  }

  lemma {:induction false} TuplesTotal<T>(law: seq<Atom<T>>, n: nat, f: seq<T> -> real)
    ensures Total(Tuples(law, n), f) == Expect(law, n, f)
    decreases n, |law| + 1
  {
    if n == 0 {
      assert Times(1.0, f([])) == f([]);
    } else {
      TuplesOverTotal(law, law, n - 1, f);
    }
  }

  lemma {:induction false} TuplesOverTotal<T>(law: seq<Atom<T>>, atoms: seq<Atom<T>>, n: nat, f: seq<T> -> real)
    ensures Total(TuplesOver(law, atoms, n), f) == ExpectOver(law, atoms, n, f)
    decreases n + 1, |atoms|
  {
    if atoms != [] {
      TuplesTotal(law, n, Behind(f, atoms[0].value));
      ExtendedTotal(Tuples(law, n), atoms[0], f);
      TotalConcat(Extended(Tuples(law, n), atoms[0]), TuplesOver(law, atoms[1..], n), f);
      TuplesOverTotal(law, atoms[1..], n, f);
      hide Times, Extended;
    }
  }

  lemma TimesNonnegative(p: real, q: real)
    requires p >= 0.0 && q >= 0.0
    ensures Times(p, q) >= 0.0
  {
  }

  lemma {:induction false} ExtendedNonnegative<T>(ts: seq<Atom<seq<T>>>, a: Atom<T>)
    requires Nonnegative(ts) && a.p >= 0.0
    ensures Nonnegative(Extended(ts, a))
  {
    if ts != [] {
      ExtendedNonnegative(ts[1..], a);
      TimesNonnegative(a.p, ts[0].p);
      hide Times;
    }
  }

  lemma {:induction false} TuplesNonnegative<T>(law: seq<Atom<T>>, n: nat)
    requires Nonnegative(law)
    ensures Nonnegative(Tuples(law, n))
    decreases n, |law| + 1
  {
    if n > 0 { TuplesOverNonnegative(law, law, n - 1); }
  }

  lemma {:induction false} TuplesOverNonnegative<T>(law: seq<Atom<T>>, atoms: seq<Atom<T>>, n: nat)
    requires Nonnegative(law) && Nonnegative(atoms)
    ensures Nonnegative(TuplesOver(law, atoms, n))
    decreases n + 1, |atoms|
  {
    if atoms != [] {
      TuplesNonnegative(law, n);
      ExtendedNonnegative(Tuples(law, n), atoms[0]);
      TuplesOverNonnegative(law, atoms[1..], n);
      hide Extended;
    }
  }
}
