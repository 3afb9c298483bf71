/** What splaying costs: the bound of tree.h on sequences of accesses, with products of subtree sizes for the potential,
    so that a bound on a sum of logarithms is a bound on a product. */
module SplayCost {
  import opened Basics
  import opened SplayShapes

  // ---------- potential ----------

  /** The product of the sizes of all subtrees. */
  ghost function Prod(t: Tree): (p: nat)
    ensures p >= 1
  {
    if t.Leaf? then 1
    else
      var p := Prod(t.l) * Prod(t.r);
      Positive(Prod(t.l), Prod(t.r));
      Positive(Size(t), p);
      Size(t) * p
  }

  lemma Positive(a: nat, b: nat)
    requires a >= 1 && b >= 1
    ensures a * b >= 1
  {
  }

  /** The potential of the splayed tree but for its root. */
  ghost function Rest(t: Tree, key: int): nat
    requires t.Fork?
  {
    Prod(Splayed(t, key).l) * Prod(Splayed(t, key).r)
  }

  /** Splaying t at key pays for its rounds with the potential it gives up, but for twice the square of the size. */
  ghost predicate Cheap(t: Tree, key: int)
    requires t.Fork?
  {
    Pow2(Rounds(t, key)) * Rest(t, key) <= 2 * Prod(t) * (Size(t) * Size(t))
  }

  // ---------- numbers ----------

  lemma MeanBound(x: nat, y: nat, t: nat)
    requires x + y <= t
    ensures 4 * (x * y) <= t * t
  {
    assert (x + y) * (x + y) - 4 * (x * y) == (x - y) * (x - y);
    assert (x - y) * (x - y) >= 0;
    MulMono(x + y, t, x + y, t);
  }

  /** Two steps to the same side. a, m and T are the sizes of the subtree gone to, of the one it came from and of the
      whole, h and u those of the two subtrees left behind. */
  lemma ZigNumbers(T: nat, a: nat, m: nat, u: nat, h: nat, W: nat, P: nat, G: nat)
    requires a + u <= T && h <= T && a <= m && W <= 2 * P * (a * a)
    ensures 2 * (h * (u * G) * W) <= 2 * (T * (m * (P * G))) * (T * T)
  {
    MeanBound(a, u, T);
    var x, y, z := 4 * (a * u), h * a, P * G;
    MulMono(h * (u * G), h * (u * G), W, 2 * P * (a * a));
    assert 2 * (h * (u * G) * (2 * P * (a * a))) == x * (y * z) by { Rearrange1(h, u, G, P, a); }
    MulMono(h, T, a, m);
    MulMono(y, T * m, z, z);
    MulMono(x, T * T, y * z, T * m * z);
    assert T * T * (T * m * z) == T * (m * (P * G)) * (T * T) by { Rearrange2(T, m, z); }
  }

  lemma Rearrange1(h: nat, u: nat, g: nat, p: nat, a: nat)
    ensures 2 * (h * (u * g) * (2 * p * (a * a))) == 4 * (a * u) * (h * a * (p * g))
  {
  }

  lemma Rearrange2(t: nat, m: nat, z: nat)
    ensures t * t * (t * m * z) == t * (m * z) * (t * t)
  {
  }

  /** One step, after which the loop stops at once. */
  lemma StopNumbers(T: nat, h: nat, e: nat, Q: nat, P: nat, G: nat)
    requires 2 <= T && h <= T && e <= 4 && Q <= P
    ensures e * (h * (Q * G)) <= 2 * (T * (P * G)) * (T * T)
  {
    MulMono(Q, P, G, G);
    MulMono(h, T, Q * G, P * G);
    var z := T * (P * G);
    MulMono(e, 4, h * (Q * G), z);
    MulMono(2, T, 2, T);
    MulMono(2 * z, 2 * z, 2, T * T);
  }

  /** A step and then one back: g and h are the sizes of what is left behind on the two sides. */
  lemma ZagNumbers(T: nat, g: nat, h: nat, m: nat, d: nat, W: nat, P: nat, G: nat)
    requires g + h <= T && d <= m && d <= T && W <= 2 * P * (d * d)
    ensures 4 * (g * h * (G * W)) <= 2 * (T * (m * (P * G))) * (T * T)
  {
    MeanBound(g, h, T);
    MulMono(G, G, W, 2 * P * (d * d));
    MulMono(d, m, d, T);
    MulMono(2 * (P * G), 2 * (P * G), d * d, m * T);
    assert G * (2 * P * (d * d)) == 2 * (P * G) * (d * d) by { Rearrange4(G, P, d * d); }
    MulMono(4 * (g * h), T * T, G * W, 2 * (P * G) * (m * T));
    assert T * T * (2 * (P * G) * (m * T)) == 2 * (T * (m * (P * G))) * (T * T) by { Rearrange5(T, m, P * G); }
  }

  lemma Rearrange4(g: nat, p: nat, d: nat)
    ensures g * (2 * p * d) == 2 * (p * g) * d
  {
  }

  lemma Rearrange5(t: nat, m: nat, z: nat)
    ensures t * t * (2 * z * (m * t)) == 2 * (t * (m * z)) * (t * t)
  {
  }

  /** A step and then two back; v is the size of what the second of these leaves behind. */
  lemma ZagZagNumbers(T: nat, g: nat, h: nat, v: nat, m: nat, k: nat, f: nat, W: nat, P: nat, G: nat)
    requires g + h <= T && v <= m && f <= k && f <= T && W <= 2 * P * (f * f)
    ensures 4 * (g * h * (v * G * W)) <= 2 * (T * (m * (k * (P * G)))) * (T * T)
  {
    MeanBound(g, h, T);
    MulMono(v * G, v * G, W, 2 * P * (f * f));
    MulMono(f, k, f, T);
    MulMono(v, m, f * f, k * T);
    var z := P * G;
    assert v * G * (2 * P * (f * f)) == 2 * z * (v * (f * f)) by { Rearrange6(v, G, P, f * f); }
    MulMono(2 * z, 2 * z, v * (f * f), m * (k * T));
    MulMono(4 * (g * h), T * T, v * G * W, 2 * z * (m * (k * T)));
    assert T * T * (2 * z * (m * (k * T))) == 2 * (T * (m * (k * z))) * (T * T) by { Rearrange7(T, m, k, z); }
  }

  lemma Rearrange6(v: nat, g: nat, p: nat, f: nat)
    ensures v * g * (2 * p * f) == 2 * (p * g) * (v * f)
  {
  }

  lemma Rearrange7(t: nat, m: nat, k: nat, z: nat)
    ensures t * t * (2 * z * (m * (k * t))) == 2 * (t * (m * (k * z))) * (t * t)
  {
    assert m * (k * t) == m * k * t && m * (k * z) == m * k * z;
    Rearrange5(t, m * k, z);
  }

  // ---------- one access ----------

  /** The loop stops in its first round, or before. */
  ghost predicate Stops(t: Tree, key: int)
    requires t.Fork?
  {
    || key == t.n.key
    || (key < t.n.key && (t.l.Leaf? || (key < t.l.n.key && t.l.l.Leaf?)))
    || (key > t.n.key && (t.r.Leaf? || (key > t.r.n.key && t.r.r.Leaf?)))
  }

  lemma ProdParts(t: Tree)
    requires t.Fork?
    ensures Prod(t) == Size(t) * (Prod(t.l) * Prod(t.r)) && Size(t) == Size(t.l) + 1 + Size(t.r)
    ensures Prod(t.l) * Prod(t.r) <= Prod(t)
  {
    MulMono(1, Size(t), Prod(t.l) * Prod(t.r), Prod(t.l) * Prod(t.r));
  }

  lemma TurnedProd(s: nat, m: nat, u: nat, b: nat, c: nat)
    requires u <= s && m >= 1
    ensures u * (b * c) <= s * (m * b * c)
  {
    MulMono(1, m, b * c, b * c);
    assert m * b * c == m * (b * c);
    MulMono(u, s, b * c, m * b * c);
  }

  lemma TurnedProdRight(s: nat, m: nat, u: nat, b: nat, c: nat)
    requires u <= s && m >= 1
    ensures u * (c * b) <= s * (c * (m * b))
  {
    TurnedProd(s, m, u, c, b);
    assert m * c * b == c * (m * b);
  }

  lemma StopLeft(t: Tree, key: int)
    requires t.Fork? && t.l.Fork? && t.l.l.Leaf? && key < t.n.key && key < t.l.n.key
    ensures Rest(t, key) <= Prod(t)
  {
    hide Prod;
    var back := Fork(t.l.r, t.n, t.r);
    ProdLeaf();
    ProdFork(t);
    ProdFork(t.l);
    ProdFork(back);
    assert Rest(t, key) == Prod(Leaf) * Prod(back) == Size(back) * (Prod(t.l.r) * Prod(t.r));
    TurnedProd(Size(t), Size(t.l), Size(back), Prod(t.l.r), Prod(t.r));
  }

  lemma StopRight(t: Tree, key: int)
    requires t.Fork? && t.r.Fork? && t.r.r.Leaf? && key > t.n.key && key > t.r.n.key
    ensures Rest(t, key) <= Prod(t)
  {
    hide Prod;
    var back := Fork(t.l, t.n, t.r.l);
    ProdLeaf();
    ProdFork(t);
    ProdFork(t.r);
    ProdFork(back);
    assert Rest(t, key) == Prod(back) * Prod(Leaf) == Size(back) * (Prod(t.l) * Prod(t.r.l));
    TurnedProdRight(Size(t), Size(t.r), Size(back), Prod(t.r.l), Prod(t.l));
  }

  lemma StopCheap(t: Tree, key: int)
    requires t.Fork? && Stops(t, key)
    ensures Rounds(t, key) <= 1 && Rest(t, key) <= Prod(t)
  {
    hide Prod;
    if key < t.n.key && t.l.Fork? {
      StopLeft(t, key);
    } else if key > t.n.key && t.r.Fork? {
      StopRight(t, key);
    } else {
      ProdParts(t);
    }
  }

  lemma ProdLeaf()
    ensures Prod(Leaf) == 1
  {
  }

  lemma StopsCheap(t: Tree, key: int)
    requires t.Fork? && Stops(t, key)
    ensures Cheap(t, key)
  {
    hide Rest, Prod, Rounds, Stops;
    StopCheap(t, key);
    MulMono(Pow2(Rounds(t, key)), 2, Rest(t, key), Prod(t));
    MulMono(1, Size(t), 1, Size(t));
    MulMono(2 * Prod(t), 2 * Prod(t), 1, Size(t) * Size(t));
  }

  // Each case in two lemmas: what the trees are, and what that means in numbers.

  lemma ZigCount(T: nat, a: nat, m: nat, u: nat, h: nat, w: nat, px: nat, py: nat, pa: nat, pb: nat, pc: nat)
    requires a + u <= T && h <= T && a <= m && w * (px * py) <= 2 * pa * (a * a)
    ensures 2 * w * (px * (h * (py * (u * (pb * pc))))) <= 2 * (T * (m * (pa * pb) * pc)) * (T * T)
  {
    ZigNumbers(T, a, m, u, h, w * (px * py), pa, pb * pc);
    Gather1(w, px, h, py, u * (pb * pc));
    Gather2(m, pa, pb, pc);
  }

  lemma Gather1(w: nat, x: nat, h: nat, y: nat, v: nat)
    ensures 2 * w * (x * (h * (y * v))) == 2 * (h * v * (w * (x * y)))
  {
  }

  lemma Gather2(m: nat, a: nat, b: nat, c: nat)
    ensures m * (a * b) * c == m * (a * (b * c))
  {
  }

  lemma ZigLeftShape(t: Tree, key: int)
    requires t.Fork? && t.l.Fork? && t.l.l.Fork? && key < t.n.key && key < t.l.n.key
    ensures var s, u := Splayed(t.l.l, key), Size(t.l.r) + 1 + Size(t.r);
      && Pow2(Rounds(t, key)) == 2 * Pow2(Rounds(t.l.l, key))
      && Rest(t, key) == Prod(s.l) * ((Size(s.r) + 1 + u) * (Prod(s.r) * (u * (Prod(t.l.r) * Prod(t.r)))))
      && Prod(t) == Size(t) * (Size(t.l) * (Prod(t.l.l) * Prod(t.l.r)) * Prod(t.r))
  {
    hide Prod;
    var s, back := Splayed(t.l.l, key), Fork(t.l.r, t.n, t.r);
    ProdParts(t);
    ProdParts(t.l);
    ProdParts(back);
    ProdParts(Fork(s.r, t.l.n, back));
  }

  lemma ZigLeft(t: Tree, key: int)
    requires t.Fork? && t.l.Fork? && t.l.l.Fork? && key < t.n.key && key < t.l.n.key && Cheap(t.l.l, key)
    ensures Cheap(t, key)
  {
    hide Prod, Rounds;
    var s, u := Splayed(t.l.l, key), Size(t.l.r) + 1 + Size(t.r);
    ZigLeftShape(t, key);
    ZigCount(Size(t), Size(t.l.l), Size(t.l), u, Size(s.r) + 1 + u, Pow2(Rounds(t.l.l, key)),
             Prod(s.l), Prod(s.r), Prod(t.l.l), Prod(t.l.r), Prod(t.r));
  }

  lemma ZigCountRight(T: nat, a: nat, m: nat, u: nat, h: nat, w: nat, px: nat, py: nat, pa: nat, pb: nat, pc: nat)
    requires a + u <= T && h <= T && a <= m && w * (px * py) <= 2 * pa * (a * a)
    ensures 2 * w * (h * (u * (pc * pb) * px) * py) <= 2 * (T * (pc * (m * (pb * pa)))) * (T * T)
  {
    ZigNumbers(T, a, m, u, h, w * (px * py), pa, pb * pc);
    Gather3(w, px, h, py, u * (pc * pb));
    Gather4(m, pa, pb, pc);
  }

  lemma Gather3(w: nat, x: nat, h: nat, y: nat, v: nat)
    ensures 2 * w * (h * (v * x) * y) == 2 * (h * v * (w * (x * y)))
  {
  }

  lemma Gather4(m: nat, a: nat, b: nat, c: nat)
    ensures c * (m * (b * a)) == m * (a * (b * c)) && c * b == b * c
  {
  }

  lemma ZigRightShape(t: Tree, key: int)
    requires t.Fork? && t.r.Fork? && t.r.r.Fork? && key > t.n.key && key > t.r.n.key
    ensures var s, u := Splayed(t.r.r, key), Size(t.l) + 1 + Size(t.r.l);
      && Pow2(Rounds(t, key)) == 2 * Pow2(Rounds(t.r.r, key))
      && Rest(t, key) == (u + 1 + Size(s.l)) * (u * (Prod(t.l) * Prod(t.r.l)) * Prod(s.l)) * Prod(s.r)
      && Prod(t) == Size(t) * (Prod(t.l) * (Size(t.r) * (Prod(t.r.l) * Prod(t.r.r))))
  {
    hide Prod;
    var s, back := Splayed(t.r.r, key), Fork(t.l, t.n, t.r.l);
    ProdParts(t);
    ProdParts(t.r);
    ProdParts(back);
    ProdParts(Fork(back, t.r.n, s.l));
  }

  lemma ZigRight(t: Tree, key: int)
    requires t.Fork? && t.r.Fork? && t.r.r.Fork? && key > t.n.key && key > t.r.n.key && Cheap(t.r.r, key)
    ensures Cheap(t, key)
  {
    hide Prod, Rounds;
    var s, u := Splayed(t.r.r, key), Size(t.l) + 1 + Size(t.r.l);
    ZigRightShape(t, key);
    ZigCountRight(Size(t), Size(t.r.r), Size(t.r), u, u + 1 + Size(s.l), Pow2(Rounds(t.r.r, key)),
                  Prod(s.l), Prod(s.r), Prod(t.r.r), Prod(t.r.l), Prod(t.l));
  }

  // A step after which the loop stops.

  lemma Gather5(e: nat, x: nat, y: nat, h: nat, c: nat)
    ensures e * (x * (h * (y * c))) == e * (h * (x * y * c))
    ensures e * (h * (c * x) * y) == e * (h * (x * y * c))
  {
  }

  lemma StopCount(T: nat, h: nat, e: nat, px: nat, py: nat, pa: nat, pc: nat)
    requires 2 <= T && h <= T && e <= 4 && px * py <= pa
    ensures e * (px * (h * (py * pc))) <= 2 * (T * (pa * pc)) * (T * T)
    ensures e * (h * (pc * px) * py) <= 2 * (T * (pc * pa)) * (T * T)
  {
    StopNumbers(T, h, e, px * py, pa, pc);
    Gather5(e, px, py, h, pc);
    assert pc * pa == pa * pc;
  }

  lemma PassStopLeft(t: Tree, key: int)
    requires t.Fork? && t.l.Fork? && t.l.n.key <= key < t.n.key && Stops(t.l, key)
    ensures Cheap(t, key)
  {
    hide Prod, Stops;
    var s := Splayed(t.l, key);
    StopCheap(t.l, key);
    ProdParts(t);
    ProdParts(Fork(s.r, t.n, t.r));
    Pow2Mono(Rounds(t, key), 2);
    StopCount(Size(t), Size(s.r) + 1 + Size(t.r), Pow2(Rounds(t, key)), Prod(s.l), Prod(s.r), Prod(t.l), Prod(t.r));
  }

  lemma PassStopRight(t: Tree, key: int)
    requires t.Fork? && t.r.Fork? && t.n.key < key <= t.r.n.key && Stops(t.r, key)
    ensures Cheap(t, key)
  {
    hide Prod, Stops;
    var s := Splayed(t.r, key);
    StopCheap(t.r, key);
    ProdParts(t);
    ProdParts(Fork(t.l, t.n, s.l));
    Pow2Mono(Rounds(t, key), 2);
    StopCount(Size(t), Size(t.l) + 1 + Size(s.l), Pow2(Rounds(t, key)), Prod(s.l), Prod(s.r), Prod(t.r), Prod(t.l));
  }

  lemma Pow2Two(n: nat)
    ensures Pow2(2 + n) == 4 * Pow2(n)
  {
    assert Pow2(2 + n) == 2 * Pow2(1 + n);
  }

  lemma ProdFork(t: Tree)
    requires t.Fork?
    ensures Prod(t) == (Size(t.l) + 1 + Size(t.r)) * (Prod(t.l) * Prod(t.r)) && Prod(t) == Size(t) * (Prod(t.l) * Prod(t.r))
  {
  }

  lemma ProdLeft(t: Tree)
    requires t.Fork? && t.l.Fork?
    ensures Prod(t) == Size(t) * (Size(t.l) * (Prod(t.l.l) * Prod(t.l.r)) * Prod(t.r))
  {
    ProdFork(t);
    ProdFork(t.l);
  }

  lemma ProdRight(t: Tree)
    requires t.Fork? && t.r.Fork?
    ensures Prod(t) == Size(t) * (Prod(t.l) * (Size(t.r) * (Prod(t.r.l) * Prod(t.r.r))))
  {
    ProdFork(t);
    ProdFork(t.r);
  }

  lemma RestOf(t: Tree, key: int, l: Tree, n: Node, r: Tree)
    requires t.Fork? && Splayed(t, key) == Fork(l, n, r) && l.Fork? && r.Fork?
    ensures Rest(t, key) == (Size(l.l) + 1 + Size(l.r)) * (Prod(l.l) * Prod(l.r))
                          * ((Size(r.l) + 1 + Size(r.r)) * (Prod(r.l) * Prod(r.r)))
  {
    ProdFork(l);
    ProdFork(r);
  }

  // A step and one back.

  lemma Gather6(w: nat, g: nat, h: nat, x: nat, y: nat, b: nat, c: nat)
    ensures 4 * w * (g * (b * x) * (h * (y * c))) == 4 * (g * h * (b * c * (w * (x * y))))
  {
    assert g * (b * x) * (h * (y * c)) == g * h * (b * c * (x * y)) by {
      assert b * x * (y * c) == b * c * (x * y);
      Swap4(g, b * x, h, y * c);
    }
    assert w * (g * h * (b * c * (x * y))) == g * h * (b * c * (w * (x * y))) by { Lift(w, g * h, b * c, x * y); }
  }

  lemma Swap4(a: nat, b: nat, c: nat, d: nat)
    ensures a * b * (c * d) == a * c * (b * d)
  {
  }

  lemma Lift(w: nat, g: nat, b: nat, x: nat)
    ensures w * (g * (b * x)) == g * (b * (w * x))
  {
  }

  lemma Gather7(m: nat, b: nat, d: nat, c: nat)
    ensures m * (b * d) * c == m * (d * (b * c)) && c * (m * (d * b)) == m * (d * (b * c))
  {
  }

  lemma ZagCount(T: nat, g: nat, h: nat, m: nat, d: nat, w: nat, px: nat, py: nat, pb: nat, pc: nat, pd: nat)
    requires g + h <= T && d <= m && d <= T && w * (px * py) <= 2 * pd * (d * d)
    ensures 4 * w * (g * (pb * px) * (h * (py * pc))) <= 2 * (T * (m * (pb * pd) * pc)) * (T * T)
    ensures 4 * w * (g * (pb * px) * (h * (py * pc))) <= 2 * (T * (pc * (m * (pd * pb)))) * (T * T)
  {
    ZagNumbers(T, g, h, m, d, w * (px * py), pd, pb * pc);
    Gather6(w, g, h, px, py, pb, pc);
    Gather7(m, pb, pd, pc);
  }

  lemma ZagLeftTree(t: Tree, key: int)
    requires t.Fork? && t.l.Fork? && t.l.r.Fork? && t.l.n.key < key < t.n.key && key <= t.l.r.n.key
    ensures var s := Splayed(t.l.r, key);
      Splayed(t, key) == Fork(Fork(t.l.l, t.l.n, s.l), s.n, Fork(s.r, t.n, t.r)) && Rounds(t, key) == 2 + Rounds(t.l.r, key)
  {
  }

  lemma ZagLeftShape(t: Tree, key: int)
    requires t.Fork? && t.l.Fork? && t.l.r.Fork? && t.l.n.key < key < t.n.key && key <= t.l.r.n.key
    ensures var s := Splayed(t.l.r, key);
      && Pow2(Rounds(t, key)) == 4 * Pow2(Rounds(t.l.r, key))
      && Rest(t, key) == (Size(t.l.l) + 1 + Size(s.l)) * (Prod(t.l.l) * Prod(s.l))
                       * ((Size(s.r) + 1 + Size(t.r)) * (Prod(s.r) * Prod(t.r)))
      && Prod(t) == Size(t) * (Size(t.l) * (Prod(t.l.l) * Prod(t.l.r)) * Prod(t.r))
  {
    hide Prod, Splayed, Rounds, Pow2;
    ZagLeftTree(t, key);
    Pow2Two(Rounds(t.l.r, key));
    var s := Splayed(t.l.r, key);
    RestOf(t, key, Fork(t.l.l, t.l.n, s.l), s.n, Fork(s.r, t.n, t.r));
    ProdFork(t);
    ProdLeft(t);
  }

  lemma ZagLeft(t: Tree, key: int)
    requires t.Fork? && t.l.Fork? && t.l.r.Fork? && t.l.n.key < key < t.n.key && key <= t.l.r.n.key
    requires Cheap(t.l.r, key)
    ensures Cheap(t, key)
  {
    hide Prod, Rounds;
    var s := Splayed(t.l.r, key);
    ZagLeftShape(t, key);
    ZagCount(Size(t), Size(t.l.l) + 1 + Size(s.l), Size(s.r) + 1 + Size(t.r), Size(t.l), Size(t.l.r),
             Pow2(Rounds(t.l.r, key)), Prod(s.l), Prod(s.r), Prod(t.l.l), Prod(t.r), Prod(t.l.r));
  }

  lemma ZagRightTree(t: Tree, key: int)
    requires t.Fork? && t.r.Fork? && t.r.l.Fork? && t.n.key < key < t.r.n.key && t.r.l.n.key <= key
    ensures var s := Splayed(t.r.l, key);
      Splayed(t, key) == Fork(Fork(t.l, t.n, s.l), s.n, Fork(s.r, t.r.n, t.r.r)) && Rounds(t, key) == 2 + Rounds(t.r.l, key)
  {
  }

  lemma ZagRightShape(t: Tree, key: int)
    requires t.Fork? && t.r.Fork? && t.r.l.Fork? && t.n.key < key < t.r.n.key && t.r.l.n.key <= key
    ensures var s := Splayed(t.r.l, key);
      && Pow2(Rounds(t, key)) == 4 * Pow2(Rounds(t.r.l, key))
      && Rest(t, key) == (Size(t.l) + 1 + Size(s.l)) * (Prod(t.l) * Prod(s.l))
                       * ((Size(s.r) + 1 + Size(t.r.r)) * (Prod(s.r) * Prod(t.r.r)))
      && Prod(t) == Size(t) * (Prod(t.l) * (Size(t.r) * (Prod(t.r.l) * Prod(t.r.r))))
  {
    hide Prod, Splayed, Rounds, Pow2;
    ZagRightTree(t, key);
    Pow2Two(Rounds(t.r.l, key));
    var s := Splayed(t.r.l, key);
    RestOf(t, key, Fork(t.l, t.n, s.l), s.n, Fork(s.r, t.r.n, t.r.r));
    ProdFork(t);
    ProdRight(t);
  }

  lemma ZagRightCount(T: nat, g: nat, h: nat, m: nat, d: nat, w: nat, px: nat, py: nat, pb: nat, pc: nat, pd: nat)
    requires g + h <= T && d <= m && d <= T && w * (px * py) <= 2 * pd * (d * d)
    ensures 4 * w * (g * (pb * px) * (h * (py * pc))) <= 2 * (T * (pb * (m * (pd * pc)))) * (T * T)
  {
    ZagNumbers(T, g, h, m, d, w * (px * py), pd, pb * pc);
    Gather6(w, g, h, px, py, pb, pc);
    Gather7(m, pc, pd, pb);
    assert pc * pb == pb * pc;
  }

  lemma ZagRight(t: Tree, key: int)
    requires t.Fork? && t.r.Fork? && t.r.l.Fork? && t.n.key < key < t.r.n.key && t.r.l.n.key <= key
    requires Cheap(t.r.l, key)
    ensures Cheap(t, key)
  {
    hide Prod, Rounds;
    var s := Splayed(t.r.l, key);
    ZagRightShape(t, key);
    ZagRightCount(Size(t), Size(t.l) + 1 + Size(s.l), Size(s.r) + 1 + Size(t.r.r), Size(t.r), Size(t.r.l),
                  Pow2(Rounds(t.r.l, key)), Prod(s.l), Prod(s.r), Prod(t.l), Prod(t.r.r), Prod(t.r.l));
  }

  // A step and two back.

  lemma ZagZagCountLeft(T: nat, g: nat, h: nat, v: nat, m: nat, k: nat, f: nat, w: nat,
                        px: nat, py: nat, pb: nat, pc: nat, pe: nat, pf: nat)
    requires g + h <= T && v <= m && f <= k && f <= T && w * (px * py) <= 2 * pf * (f * f)
    ensures 4 * w * (g * (v * (pb * pe) * px) * (h * (py * pc))) <= 2 * (T * (m * (pb * (k * (pe * pf))) * pc)) * (T * T)
  {
    ZagZagNumbers(T, g, h, v, m, k, f, w * (px * py), pf, pb * pe * pc);
    Gather6(w, g, h, px, py, v * (pb * pe), pc);
    assert v * (pb * pe) * pc == v * (pb * pe * pc);
    Gather8(m, k, pb, pe, pf, pc);
  }

  lemma Gather8(m: nat, k: nat, b: nat, e: nat, f: nat, c: nat)
    ensures m * (b * (k * (e * f))) * c == m * (k * (f * (b * e * c)))
  {
    assert b * (k * (e * f)) == k * (f * (b * e));
    assert k * (f * (b * e)) * c == k * (f * (b * e * c));
    assert m * (k * (f * (b * e))) * c == m * (k * (f * (b * e)) * c);
  }

  lemma ZagZagLeftTree(t: Tree, key: int)
    requires t.Fork? && t.l.Fork? && t.l.r.Fork? && t.l.r.r.Fork? && t.l.n.key < key < t.n.key && key > t.l.r.n.key
    ensures var s, back := Splayed(t.l.r.r, key), Fork(t.l.l, t.l.n, t.l.r.l);
      && Splayed(t, key) == Fork(Fork(back, t.l.r.n, s.l), s.n, Fork(s.r, t.n, t.r))
      && Rounds(t, key) == 2 + Rounds(t.l.r.r, key)
  {
  }

  lemma ZagZagLeftShape(t: Tree, key: int)
    requires t.Fork? && t.l.Fork? && t.l.r.Fork? && t.l.r.r.Fork? && t.l.n.key < key < t.n.key && key > t.l.r.n.key
    ensures var s, v := Splayed(t.l.r.r, key), Size(t.l.l) + 1 + Size(t.l.r.l);
      && Pow2(Rounds(t, key)) == 4 * Pow2(Rounds(t.l.r.r, key))
      && Rest(t, key) == (v + 1 + Size(s.l)) * (v * (Prod(t.l.l) * Prod(t.l.r.l)) * Prod(s.l))
                       * ((Size(s.r) + 1 + Size(t.r)) * (Prod(s.r) * Prod(t.r)))
      && Prod(t) == Size(t) * (Size(t.l) * (Prod(t.l.l) * (Size(t.l.r) * (Prod(t.l.r.l) * Prod(t.l.r.r)))) * Prod(t.r))
  {
    hide Prod, Splayed, Rounds, Pow2;
    ZagZagLeftTree(t, key);
    Pow2Two(Rounds(t.l.r.r, key));
    var s, back := Splayed(t.l.r.r, key), Fork(t.l.l, t.l.n, t.l.r.l);
    RestOf(t, key, Fork(back, t.l.r.n, s.l), s.n, Fork(s.r, t.n, t.r));
    ProdFork(back);
    ProdFork(t);
    ProdLeft(t);
    ProdFork(t.l.r);
  }

  lemma ZagZagLeft(t: Tree, key: int)
    requires t.Fork? && t.l.Fork? && t.l.r.Fork? && t.l.r.r.Fork? && t.l.n.key < key < t.n.key && key > t.l.r.n.key
    requires Cheap(t.l.r.r, key)
    ensures Cheap(t, key)
  {
    hide Prod, Rounds;
    var s, v := Splayed(t.l.r.r, key), Size(t.l.l) + 1 + Size(t.l.r.l);
    ZagZagLeftShape(t, key);
    ZagZagCountLeft(Size(t), v + 1 + Size(s.l), Size(s.r) + 1 + Size(t.r), v, Size(t.l), Size(t.l.r), Size(t.l.r.r),
                    Pow2(Rounds(t.l.r.r, key)), Prod(s.l), Prod(s.r), Prod(t.l.l), Prod(t.r), Prod(t.l.r.l), Prod(t.l.r.r));
  }

  lemma ZagZagCountRight(T: nat, g: nat, h: nat, v: nat, m: nat, k: nat, f: nat, w: nat,
                         px: nat, py: nat, pb: nat, pc: nat, pe: nat, pf: nat)
    requires g + h <= T && v <= m && f <= k && f <= T && w * (px * py) <= 2 * pf * (f * f)
    ensures 4 * w * (h * (pc * px) * (g * (py * (v * (pe * pb))))) <= 2 * (T * (pc * (m * (k * (pf * pe) * pb)))) * (T * T)
  {
    ZagZagNumbers(T, g, h, v, m, k, f, w * (px * py), pf, pb * pe * pc);
    Gather6(w, h, g, px, py, pc, v * (pe * pb));
    assert h * g == g * h;
    Gather9(v, pc, pe, pb);
    Gather10(m, k, pb, pe, pf, pc);
  }

  lemma Gather9(v: nat, c: nat, e: nat, b: nat)
    ensures c * (v * (e * b)) == v * (b * e * c)
  {
  }

  lemma Gather10(m: nat, k: nat, b: nat, e: nat, f: nat, c: nat)
    ensures c * (m * (k * (f * e) * b)) == m * (k * (f * (b * e * c)))
  {
    assert k * (f * e) * b == k * (f * (b * e));
    assert c * (k * (f * (b * e))) == k * (f * (b * e * c));
    assert c * (m * (k * (f * (b * e)))) == m * (c * (k * (f * (b * e))));
  }

  lemma ZagZagRightTree(t: Tree, key: int)
    requires t.Fork? && t.r.Fork? && t.r.l.Fork? && t.r.l.l.Fork? && t.n.key < key < t.r.n.key && key < t.r.l.n.key
    ensures var s, back := Splayed(t.r.l.l, key), Fork(t.r.l.r, t.r.n, t.r.r);
      && Splayed(t, key) == Fork(Fork(t.l, t.n, s.l), s.n, Fork(s.r, t.r.l.n, back))
      && Rounds(t, key) == 2 + Rounds(t.r.l.l, key)
  {
  }

  lemma ZagZagRightShape(t: Tree, key: int)
    requires t.Fork? && t.r.Fork? && t.r.l.Fork? && t.r.l.l.Fork? && t.n.key < key < t.r.n.key && key < t.r.l.n.key
    ensures var s, v := Splayed(t.r.l.l, key), Size(t.r.l.r) + 1 + Size(t.r.r);
      && Pow2(Rounds(t, key)) == 4 * Pow2(Rounds(t.r.l.l, key))
      && Rest(t, key) == (Size(t.l) + 1 + Size(s.l)) * (Prod(t.l) * Prod(s.l))
                       * ((Size(s.r) + 1 + v) * (Prod(s.r) * (v * (Prod(t.r.l.r) * Prod(t.r.r)))))
      && Prod(t) == Size(t) * (Prod(t.l) * (Size(t.r) * (Size(t.r.l) * (Prod(t.r.l.l) * Prod(t.r.l.r)) * Prod(t.r.r))))
  {
    hide Prod, Splayed, Rounds, Pow2;
    ZagZagRightTree(t, key);
    Pow2Two(Rounds(t.r.l.l, key));
    var s, back := Splayed(t.r.l.l, key), Fork(t.r.l.r, t.r.n, t.r.r);
    RestOf(t, key, Fork(t.l, t.n, s.l), s.n, Fork(s.r, t.r.l.n, back));
    ProdFork(back);
    ProdFork(t);
    ProdRight(t);
    ProdFork(t.r.l);
  }

  lemma ZagZagRight(t: Tree, key: int)
    requires t.Fork? && t.r.Fork? && t.r.l.Fork? && t.r.l.l.Fork? && t.n.key < key < t.r.n.key && key < t.r.l.n.key
    requires Cheap(t.r.l.l, key)
    ensures Cheap(t, key)
  {
    hide Prod, Rounds;
    var s, v := Splayed(t.r.l.l, key), Size(t.r.l.r) + 1 + Size(t.r.r);
    ZagZagRightShape(t, key);
    ZagZagCountRight(Size(t), Size(s.r) + 1 + v, Size(t.l) + 1 + Size(s.l), v, Size(t.r), Size(t.r.l), Size(t.r.l.l),
                     Pow2(Rounds(t.r.l.l, key)), Prod(s.l), Prod(s.r), Prod(t.r.r), Prod(t.l), Prod(t.r.l.r), Prod(t.r.l.l));
  }

  /** Every access is cheap in this sense, wherever its key lies. */
  lemma {:induction false} AccessCheap(t: Tree, key: int)
    requires t.Fork?
    ensures Cheap(t, key)
    decreases t
  {
    hide Cheap, Rounds, Splayed;
    if Stops(t, key) {
      StopsCheap(t, key);
    } else if key < t.n.key {
      if key < t.l.n.key {
        AccessCheap(t.l.l, key);
        ZigLeft(t, key);
      } else if Stops(t.l, key) {
        PassStopLeft(t, key);
      } else if key <= t.l.r.n.key {
        AccessCheap(t.l.r, key);
        ZagLeft(t, key);
      } else {
        AccessCheap(t.l.r.r, key);
        ZagZagLeft(t, key);
      }
    } else {
      if key > t.r.n.key {
        AccessCheap(t.r.r, key);
        ZigRight(t, key);
      } else if Stops(t.r, key) {
        PassStopRight(t, key);
      } else if key >= t.r.l.n.key {
        AccessCheap(t.r.l, key);
        ZagRight(t, key);
      } else {
        AccessCheap(t.r.l.l, key);
        ZagZagRight(t, key);
      }
    }
  }

  // ---------- one operation ----------

  /** What one operation on a tree of at most n elements may add to the bill. */
  ghost function Charge(n: nat): nat {
    4 * (n * n * (n * n) * n)
  }

  /** An operation that turns t into t' in d rounds is covered by its charge and the potential it gives up. */
  ghost predicate Affordable(t: Tree, t': Tree, d: nat, n: nat) {
    Pow2(d) * Prod(t') <= Charge(n) * Prod(t)
  }

  lemma ChargeAtLeast(n: nat, q: nat)
    requires n >= 1 && q == n * n
    ensures Charge(n) >= 4 * (q * q) && Charge(n) >= 4 * (q * n) && Charge(n) >= 4 * q && Charge(n) >= 4
    ensures Charge(n) == 4 * (q * q * n)
  {
    MulMono(1, n, 1, n);
    MulMono(q * q, q * q, 1, n);
    MulMono(q, q, 1, q);
    MulMono(q * 1, q * q, n, n);
    MulMono(1, q, 1, n);
    MulMono(q, q, 1, n);
  }

  lemma NothingAffordable(t: Tree, n: nat)
    requires n >= 1
    ensures Affordable(t, t, 0, n)
  {
    hide Prod, Charge;
    ChargeAtLeast(n, n * n);
    MulMono(1, Charge(n), Prod(t), Prod(t));
  }

  lemma FirstAffordable(e: Node, n: nat)
    requires n >= 1
    ensures Affordable(Leaf, Fork(Leaf, e, Leaf), 0, n)
  {
    hide Charge;
    ChargeAtLeast(n, n * n);
    ProdLeaf();
    ProdFork(Fork(Leaf, e, Leaf));
  }

  /** x pays for w times rest, and the new tree is that but for a factor c. */
  lemma ScaledCount(w: nat, rest: nat, p: nat, s: nat, n: nat, c: nat, k: nat)
    requires w * rest <= 2 * p * (s * s) && s <= n && 2 * (c * (n * n)) <= k
    ensures w * (c * rest) <= k * p
  {
    MulMono(s, n, s, n);
    MulMono(2 * p, 2 * p, s * s, n * n);
    MulMono(c, c, w * rest, 2 * p * (n * n));
    assert w * (c * rest) == c * (w * rest);
    assert c * (2 * p * (n * n)) == 2 * (c * (n * n)) * p;
    MulMono(2 * (c * (n * n)), k, p, p);
  }

  lemma FindAffordable(t: Tree, key: int, n: nat)
    requires t.Fork? && Size(t) <= n
    ensures Affordable(t, Splayed(t, key), Rounds(t, key), n)
  {
    hide Prod, Charge, Rounds;
    var q, s := n * n, Splayed(t, key);
    AccessCheap(t, key);
    ProdFork(s);
    ChargeAtLeast(n, q);
    MulMono(Size(s), n, q, q);
    assert n * q == q * n;
    ScaledCount(Pow2(Rounds(t, key)), Rest(t, key), Prod(t), Size(t), n, Size(s), Charge(n));
  }

  /** SPLAY_INSERT in front of the old root. */
  lemma BeforeAffordable(t: Tree, key: int, elm: Node, n: nat)
    requires t.Fork? && Size(t) + 1 <= n
    ensures var s := Splayed(t, key); Affordable(t, Fork(s.l, elm, Fork(Leaf, s.n, s.r)), Rounds(t, key), n)
  {
    hide Prod, Charge, Rounds, Splayed;
    var s := Splayed(t, key);
    var r := Fork(Leaf, s.n, s.r);
    AccessCheap(t, key);
    ProdLeaf();
    ProdFork(r);
    ProdFork(Fork(s.l, elm, r));
    SizeParts(s);
    var m := Size(t) + 1;
    Pair1(m, Prod(s.l), Size(r), Prod(s.r));
    InsertFactor(m, Size(r), n);
    ScaledCount(Pow2(Rounds(t, key)), Rest(t, key), Prod(t), Size(t), n, m * Size(r), Charge(n));
  }

  /** SPLAY_INSERT behind it. */
  lemma AfterAffordable(t: Tree, key: int, elm: Node, n: nat)
    requires t.Fork? && Size(t) + 1 <= n
    ensures var s := Splayed(t, key); Affordable(t, Fork(Fork(s.l, s.n, Leaf), elm, s.r), Rounds(t, key), n)
  {
    hide Prod, Charge, Rounds, Splayed;
    var s := Splayed(t, key);
    var l := Fork(s.l, s.n, Leaf);
    AccessCheap(t, key);
    ProdLeaf();
    ProdFork(l);
    ProdFork(Fork(l, elm, s.r));
    SizeParts(s);
    var m := Size(t) + 1;
    Pair2(m, Size(l), Prod(s.l), Prod(s.r));
    InsertFactor(m, Size(l), n);
    ScaledCount(Pow2(Rounds(t, key)), Rest(t, key), Prod(t), Size(t), n, m * Size(l), Charge(n));
  }

  lemma InsertFactor(m: nat, r: nat, n: nat)
    requires m <= n && r <= n && n >= 1
    ensures 2 * (m * r * (n * n)) <= Charge(n)
  {
    hide Charge;
    ChargeAtLeast(n, n * n);
    MulMono(m, n, r, n);
    MulMono(m * r, n * n, n * n, n * n);
  }

  lemma Pair1(m: nat, x: nat, r: nat, y: nat)
    ensures m * (x * (r * (1 * y))) == m * r * (x * y)
  {
  }

  lemma Pair2(m: nat, l: nat, x: nat, y: nat)
    ensures m * (l * (x * 1) * y) == m * l * (x * y)
  {
  }

  /** SPLAY_REMOVE without a left subtree. */
  lemma DropAffordable(t: Tree, key: int, n: nat)
    requires t.Fork? && Size(t) <= n && Splayed(t, key).l.Leaf?
    ensures Affordable(t, Splayed(t, key).r, Rounds(t, key), n)
  {
    hide Prod, Charge, Rounds;
    AccessCheap(t, key);
    ProdLeaf();
    ChargeAtLeast(n, n * n);
    ScaledCount(Pow2(Rounds(t, key)), Rest(t, key), Prod(t), Size(t), n, 1, Charge(n));
  }

  /** SPLAY_REMOVE with one: it is splayed too, and takes the right subtree. */
  lemma MergeAffordable(t: Tree, key: int, n: nat)
    requires t.Fork? && Size(t) <= n && Splayed(t, key).l.Fork? && Splayed(Splayed(t, key).l, key).r.Leaf?
    ensures var s := Splayed(t, key); var u := Splayed(s.l, key);
      Affordable(t, Fork(u.l, u.n, s.r), Rounds(t, key) + Rounds(s.l, key), n)
  {
    hide Prod, Charge, Rounds;
    var s := Splayed(t, key);
    var u := Splayed(s.l, key);
    var t' := Fork(u.l, u.n, s.r);
    AccessCheap(t, key);
    AccessCheap(s.l, key);
    ProdLeaf();
    ProdFork(t');
    Pow2Add(Rounds(t, key), Rounds(s.l, key));
    MergeCount(Pow2(Rounds(t, key)), Pow2(Rounds(s.l, key)), Size(t'), Prod(u.l), Prod(s.l), Prod(s.r), Prod(t),
               Size(s.l), Size(t), n);
  }

  lemma MergeCount(w: nat, v: nat, m: nat, x: nat, l: nat, r: nat, p: nat, a: nat, s: nat, n: nat)
    requires w * (l * r) <= 2 * p * (s * s) && v * (x * 1) <= 2 * l * (a * a) && m <= n && a <= n && s <= n && n >= 1
    ensures w * v * (m * (x * r)) <= Charge(n) * p
  {
    hide Charge;
    var q := n * n;
    MulMono(a, n, a, n);
    MulMono(2 * l, 2 * l, a * a, q);
    MulMono(v * x, 2 * l * q, w * r, w * r);
    MulMono(m, n, v * x * (w * r), 2 * l * q * (w * r));
    Merge1(w, v, m, x, r);
    Merge2(n, l, q, w, r);
    ChargeAtLeast(n, q);
    Merge3(n, q);
    ScaledCount(w, l * r, p, s, n, 2 * (n * q), Charge(n));
  }

  lemma Merge1(w: nat, v: nat, m: nat, x: nat, r: nat)
    ensures w * v * (m * (x * r)) == m * (v * x * (w * r))
  {
  }

  lemma Merge2(n: nat, l: nat, q: nat, w: nat, r: nat)
    ensures n * (2 * l * q * (w * r)) == w * (2 * (n * q) * (l * r))
  {
  }

  lemma Merge3(n: nat, q: nat)
    ensures 2 * (2 * (n * q) * q) == 4 * (q * q * n)
  {
  }

  // ---------- all operations ----------

  /** The bill after ops operations, none on a tree of more than peak elements, that took the given rounds. */
  ghost predicate Paid(t: Tree, rounds: nat, ops: nat, peak: nat) {
    1 <= peak && Size(t) <= peak && Pow2(rounds) * Prod(t) <= Pow(Charge(peak), ops)
  }

  lemma PaidAtStart()
    ensures Paid(Leaf, 0, 0, 1)
  {
  }

  lemma ChargeMono(a: nat, b: nat)
    requires a <= b
    ensures Charge(a) <= Charge(b)
  {
    MulMono(a, b, a, b);
    MulMono(a * a, b * b, a * a, b * b);
    MulMono(a * a * (a * a), b * b * (b * b), a, b);
  }

  lemma Pay(t: Tree, t': Tree, rounds: nat, d: nat, ops: nat, peak: nat, peak': nat)
    requires Paid(t, rounds, ops, peak) && peak <= peak' && Size(t') <= peak' && Affordable(t, t', d, peak')
    ensures Paid(t', rounds + d, ops + 1, peak')
  {
    hide Prod, Charge;
    var c := Charge(peak');
    ChargeMono(peak, peak');
    PowMono(Charge(peak), c, ops);
    Pow2Add(rounds, d);
    MulMono(Pow2(rounds), Pow2(rounds), Pow2(d) * Prod(t'), c * Prod(t));
    Pay1(Pow2(rounds), Pow2(d), Prod(t'), c, Prod(t));
    MulMono(c, c, Pow2(rounds) * Prod(t), Pow(c, ops));
  }

  lemma Pay1(r: nat, d: nat, p': nat, c: nat, p: nat)
    ensures r * d * p' == r * (d * p') && r * (c * p) == c * (r * p)
  {
  }

  /** The Balance Theorem: with L a logarithm of the greatest size, rounded up, the rounds of m operations on an
      initially empty tree are at most m (5 L + 2). */
  lemma Balance(t: Tree, rounds: nat, ops: nat, peak: nat, L: nat)
    requires Paid(t, rounds, ops, peak) && peak <= Pow2(L)
    ensures rounds <= ops * (5 * L + 2)
  {
    hide Prod, Charge;
    var e := 5 * L + 2;
    MulMono(Pow2(rounds), Pow2(rounds), 1, Prod(t));
    ChargeLog(peak, L);
    PowMono(Charge(peak), Pow2(e), ops);
    PowOfPow2(e, ops);
    Pow2Reflects(rounds, ops * e);
  }

  lemma ChargeLog(n: nat, L: nat)
    requires n <= Pow2(L)
    ensures Charge(n) <= Pow2(5 * L + 2)
  {
    var p := Pow2(L);
    ChargeMono(n, p);
    Pow2Add(L, L);
    Pow2Add(2 * L, 2 * L);
    Pow2Add(4 * L, L);
    Pow2Two(5 * L);
    assert 2 + 5 * L == 5 * L + 2 && 2 * L + 2 * L == 4 * L && 4 * L + L == 5 * L;
  }
}
